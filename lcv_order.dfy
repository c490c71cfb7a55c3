/**
 * The least-constraining-value ordering: pairs (column, conflict count) sorted
 * by count with a stable sort, as Python's `list.sort(key=lambda x: x[1])`,
 * then projected back to the columns.
 */
module LcvOrder {
  import opened Board

  /** A candidate column with its lookahead cost. */
  type Scored = (int, int)

  /** Each column paired with its conflict count, in input order. */
  function Scores(n: nat, a: Assignment, row: int, cols: seq<int>): (ps: seq<Scored>)
    ensures |ps| == |cols|
    ensures forall i :: 0 <= i < |ps| ==> ps[i] == (cols[i], Conflicts(n, a, row, cols[i]))
  {
    seq(|cols|, i requires 0 <= i < |cols| => (cols[i], Conflicts(n, a, row, cols[i])))
  }

  /** The columns of the pairs, as `[col for col, _ in col_conflicts]`. */
  function Columns(ps: seq<Scored>): (cols: seq<int>)
    ensures |cols| == |ps|
    ensures forall i :: 0 <= i < |ps| ==> cols[i] == ps[i].0
  {
    if ps == [] then [] else [ps[0].0] + Columns(ps[1..])
  }

  predicate SortedByCount(ps: seq<Scored>)
  {
    forall i, j :: 0 <= i < j < |ps| ==> ps[i].1 <= ps[j].1
  }

  /** The pairs whose count is k, in their order in ps. */
  function WithCount(ps: seq<Scored>, k: int): seq<Scored>
  {
    if ps == [] then []
    else (if ps[0].1 == k then [ps[0]] else []) + WithCount(ps[1..], k)
  }

  /** Insert p before the first pair whose count is at least p's. */
  function InsertByCount(p: Scored, ps: seq<Scored>): seq<Scored>
  {
    if ps == [] || p.1 <= ps[0].1 then [p] + ps
    else [ps[0]] + InsertByCount(p, ps[1..])
  }

  /** A stable sort by count: an earlier pair is inserted in front of later pairs of equal count. */
  function SortByCount(ps: seq<Scored>): seq<Scored>
  {
    if ps == [] then [] else InsertByCount(ps[0], SortByCount(ps[1..]))
  }

  // ---------------------------------------------------------------------
  // The sort permutes its input

  lemma {:induction false} InsertPermutes(p: Scored, ps: seq<Scored>)
    ensures multiset(InsertByCount(p, ps)) == multiset(ps) + multiset{p}
    ensures multiset(Columns(InsertByCount(p, ps))) == multiset(Columns(ps)) + multiset{p.0}
  {
    if ps == [] || p.1 <= ps[0].1 {
      assert ([p] + ps)[1..] == ps;
      assert Columns([p] + ps) == [p.0] + Columns(ps);
    } else {
      InsertPermutes(p, ps[1..]);
      var tail := InsertByCount(p, ps[1..]);
      assert ([ps[0]] + tail)[1..] == tail;
      assert ps == [ps[0]] + ps[1..];
      assert Columns(ps) == [ps[0].0] + Columns(ps[1..]);
      assert Columns([ps[0]] + tail) == [ps[0].0] + Columns(tail);
    }
  }

  lemma {:induction false} SortPermutes(ps: seq<Scored>)
    ensures multiset(SortByCount(ps)) == multiset(ps)
    ensures multiset(Columns(SortByCount(ps))) == multiset(Columns(ps))
  {
    if ps != [] {
      var rest := SortByCount(ps[1..]);
      assert SortByCount(ps) == InsertByCount(ps[0], rest);
      SortPermutes(ps[1..]);
      InsertPermutes(ps[0], rest);
      ConsPermutes(ps);
    }
  }

  lemma ConsPermutes(ps: seq<Scored>)
    requires ps != []
    ensures multiset(ps) == multiset(ps[1..]) + multiset{ps[0]}
    ensures multiset(Columns(ps)) == multiset(Columns(ps[1..])) + multiset{ps[0].0}
  {
    assert ps == [ps[0]] + ps[1..];
    assert Columns(ps) == [ps[0].0] + Columns(ps[1..]);
  }

  // ---------------------------------------------------------------------
  // The sort orders by count

  /** A pair no greater than any pair of a sorted sequence can go in front of it. */
  lemma ConsSorted(x: Scored, ps: seq<Scored>)
    requires SortedByCount(ps)
    requires forall i :: 0 <= i < |ps| ==> x.1 <= ps[i].1
    ensures SortedByCount([x] + ps)
  {
    forall i, j | 0 <= i < j < |[x] + ps| ensures ([x] + ps)[i].1 <= ([x] + ps)[j].1 {
      if i > 0 {
        assert ([x] + ps)[i] == ps[i - 1];
      }
      assert ([x] + ps)[j] == ps[j - 1];
    }
  }

  /** Inserting a pair keeps every count at least `lo` when the pair's count is. */
  lemma {:induction false} InsertBounded(p: Scored, ps: seq<Scored>, lo: int)
    requires lo <= p.1
    requires forall i :: 0 <= i < |ps| ==> lo <= ps[i].1
    ensures forall i :: 0 <= i < |InsertByCount(p, ps)| ==> lo <= InsertByCount(p, ps)[i].1
  {
    if ps == [] || p.1 <= ps[0].1 {
      var r := [p] + ps;
      forall i | 0 <= i < |r| ensures lo <= r[i].1 {
        if i > 0 {
          assert r[i] == ps[i - 1];
        }
      }
    } else {
      forall i | 0 <= i < |ps[1..]| ensures lo <= ps[1..][i].1 {
        assert ps[1..][i] == ps[i + 1];
      }
      InsertBounded(p, ps[1..], lo);
      var tail := InsertByCount(p, ps[1..]);
      var r := [ps[0]] + tail;
      forall i | 0 <= i < |r| ensures lo <= r[i].1 {
        if i > 0 {
          assert r[i] == tail[i - 1];
        }
      }
    }
  }

  lemma {:induction false} InsertSorted(p: Scored, ps: seq<Scored>)
    requires SortedByCount(ps)
    ensures SortedByCount(InsertByCount(p, ps))
  {
    if ps == [] || p.1 <= ps[0].1 {
      ConsSorted(p, ps);
    } else {
      InsertSorted(p, ps[1..]);
      forall i | 0 <= i < |ps[1..]| ensures ps[0].1 <= ps[1..][i].1 {
        assert ps[1..][i] == ps[i + 1];
      }
      InsertBounded(p, ps[1..], ps[0].1);
      ConsSorted(ps[0], InsertByCount(p, ps[1..]));
    }
  }

  lemma {:induction false} SortSorted(ps: seq<Scored>)
    ensures SortedByCount(SortByCount(ps))
  {
    if ps != [] {
      SortSorted(ps[1..]);
      InsertSorted(ps[0], SortByCount(ps[1..]));
    }
  }

  // ---------------------------------------------------------------------
  // The sort is stable

  lemma WithCountCons(p: Scored, ps: seq<Scored>, k: int)
    ensures WithCount([p] + ps, k) == (if p.1 == k then [p] else []) + WithCount(ps, k)
  {
    assert ([p] + ps)[1..] == ps;
  }

  lemma {:induction false} InsertStable(p: Scored, ps: seq<Scored>, k: int)
    ensures WithCount(InsertByCount(p, ps), k) == (if p.1 == k then [p] else []) + WithCount(ps, k)
  {
    if ps == [] || p.1 <= ps[0].1 {
      WithCountCons(p, ps, k);
    } else {
      InsertStable(p, ps[1..], k);
      WithCountCons(ps[0], InsertByCount(p, ps[1..]), k);
      WithCountCons(ps[0], ps[1..], k);
      assert ps == [ps[0]] + ps[1..];
    }
  }

  /** Pairs of equal count leave the sort in the order they entered it. */
  lemma {:induction false} SortStable(ps: seq<Scored>, k: int)
    ensures WithCount(SortByCount(ps), k) == WithCount(ps, k)
  {
    if ps != [] {
      SortStable(ps[1..], k);
      InsertStable(ps[0], SortByCount(ps[1..]), k);
    }
  }

  lemma ColumnsOfScores(n: nat, a: Assignment, row: int, cols: seq<int>)
    ensures Columns(Scores(n, a, row, cols)) == cols
  {
  }

  /**
   * The LCV order of a list of columns: a permutation of it, by non-decreasing
   * conflict count.
   */
  lemma LcvOrderIsSortedPermutation(n: nat, a: Assignment, row: int, cols: seq<int>)
    ensures var ordered := Columns(SortByCount(Scores(n, a, row, cols)));
      && multiset(ordered) == multiset(cols)
      && forall i, j :: 0 <= i < j < |ordered| ==>
           Conflicts(n, a, row, ordered[i]) <= Conflicts(n, a, row, ordered[j])
  {
    var ps := Scores(n, a, row, cols);
    var sorted := SortByCount(ps);
    SortPermutes(ps);
    SortSorted(ps);
    ColumnsOfScores(n, a, row, cols);
    forall i | 0 <= i < |sorted| ensures sorted[i].1 == Conflicts(n, a, row, sorted[i].0) {
      assert sorted[i] in multiset(ps);
      var j :| 0 <= j < |ps| && ps[j] == sorted[i];
    }
  }
}
