/**
 * The items of the best-first search's priority queue, triples (f, g, board),
 * and Python's `<` on them: tuples compare field by field, and the board, a
 * tuple of columns, compares element by element with a proper prefix first.
 */
module HeapOrder {

  datatype Entry = Entry(f: int, g: int, board: seq<int>)

  /** Python's lexicographic `<` on two tuples of integers. */
  predicate SeqLess(a: seq<int>, b: seq<int>)
  {
    if a == [] then b != []
    else b != [] && (a[0] < b[0] || (a[0] == b[0] && SeqLess(a[1..], b[1..])))
  }

  /** Python's `<` on (f, g, board). */
  predicate Less(x: Entry, y: Entry)
  {
    x.f < y.f || (x.f == y.f && (x.g < y.g || (x.g == y.g && SeqLess(x.board, y.board))))
  }

  /** `x` may stand above `y` in a min-heap: `y < x` is false. */
  predicate LessEq(x: Entry, y: Entry)
  {
    !Less(y, x)
  }

  lemma {:induction false} SeqLessIrreflexive(a: seq<int>)
    ensures !SeqLess(a, a)
  {
    if a != [] {
      SeqLessIrreflexive(a[1..]);
    }
  }

  lemma {:induction false} SeqLessTransitive(a: seq<int>, b: seq<int>, c: seq<int>)
    requires SeqLess(a, b) && SeqLess(b, c)
    ensures SeqLess(a, c)
  {
    if a != [] && a[0] == b[0] && b[0] == c[0] {
      SeqLessTransitive(a[1..], b[1..], c[1..]);
    }
  }

  lemma {:induction false} SeqLessTrichotomous(a: seq<int>, b: seq<int>)
    ensures a == b || SeqLess(a, b) || SeqLess(b, a)
  {
    if a != [] && b != [] && a[0] == b[0] {
      SeqLessTrichotomous(a[1..], b[1..]);
      if a[1..] == b[1..] {
        assert a == [a[0]] + a[1..] && b == [b[0]] + b[1..];
      }
    }
  }

  /** Python's `<` on the queue's items is a strict total order. */
  lemma LessIsStrictTotalOrder(x: Entry, y: Entry, z: Entry)
    ensures !Less(x, x)
    ensures Less(x, y) && Less(y, z) ==> Less(x, z)
    ensures x == y || Less(x, y) || Less(y, x)
  {
    SeqLessIrreflexive(x.board);
    if Less(x, y) && Less(y, z) && x.f == y.f == z.f && x.g == y.g == z.g {
      SeqLessTransitive(x.board, y.board, z.board);
    }
    SeqLessTrichotomous(x.board, y.board);
  }

  lemma LessImpliesLessEq(x: Entry, y: Entry)
    requires Less(x, y)
    ensures LessEq(x, y)
  {
    LessIsStrictTotalOrder(x, y, x);
  }

  lemma LessEqTransitive(x: Entry, y: Entry, z: Entry)
    requires LessEq(x, y) && LessEq(y, z)
    ensures LessEq(x, z)
  {
    LessIsStrictTotalOrder(z, x, y);
    LessIsStrictTotalOrder(x, y, z);
  }
}
