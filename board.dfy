/**
 * Pure specification of the N-Queens constraint model: when a queen is safe,
 * which columns a row still has, how many future cells a placement blocks,
 * and what a solution is.  An assignment maps a row to the column of its queen.
 */
module Board {

  type Assignment = map<int, int>

  function Abs(x: int): nat
  {
    if x < 0 then -x else x
  }

  /** Queens at (r1, c1) and (r2, c2) share a column or a diagonal. */
  predicate Attacks(r1: int, c1: int, r2: int, c2: int)
  {
    c1 == c2 || Abs(r1 - r2) == Abs(c1 - c2)
  }

  lemma AttacksSymmetric(r1: int, c1: int, r2: int, c2: int)
    ensures Attacks(r1, c1, r2, c2) <==> Attacks(r2, c2, r1, c1)
  {
  }

  /** No placed queen attacks a new queen at (row, col). */
  predicate Safe(a: Assignment, row: int, col: int)
  {
    forall r :: r in a ==> !Attacks(r, a[r], row, col)
  }

  /** No two queens of the assignment attack each other. */
  predicate Consistent(a: Assignment)
  {
    forall r1, r2 :: r1 in a && r2 in a && r1 != r2 ==> !Attacks(r1, a[r1], r2, a[r2])
  }

  /** The rows 0..n-1 of the board, as Python's `set(range(n))`. */
  function Rows(n: nat): (rows: set<int>)
    ensures forall r :: r in rows <==> 0 <= r < n
    ensures |rows| == n
  {
    if n == 0 then {} else Rows(n - 1) + {n - 1}
  }

  /** Every queen of `a` stands on an n-by-n board. */
  predicate OnBoard(n: nat, a: Assignment)
  {
    a.Keys <= Rows(n) && forall r :: r in a ==> 0 <= a[r] < n
  }

  /** A partial placement the search may hold: on the board and non-attacking. */
  predicate Partial(n: nat, a: Assignment)
  {
    OnBoard(n, a) && Consistent(a)
  }

  /** A complete placement: one non-attacking queen in every row. */
  predicate IsSolution(n: nat, s: Assignment)
  {
    Partial(n, s) && s.Keys == Rows(n)
  }

  /** `s` keeps every queen that `a` has placed. */
  predicate Extends(s: Assignment, a: Assignment)
  {
    forall r :: r in a ==> r in s && s[r] == a[r]
  }

  /** Some solution keeps every queen of `a`. */
  ghost predicate Completable(n: nat, a: Assignment)
  {
    exists s :: IsSolution(n, s) && Extends(s, a)
  }

  /** The pairwise check of the validator: rows r1 < r2 below n never attack. */
  predicate NoAttacks(n: nat, a: Assignment)
    requires forall r :: 0 <= r < n ==> r in a
  {
    forall r1, r2 :: 0 <= r1 < r2 < n ==> !Attacks(r1, a[r1], r2, a[r2])
  }

  predicate StrictlyIncreasing(s: seq<int>)
  {
    forall i, j :: 0 <= i < j < |s| ==> s[i] < s[j]
  }

  /** The safe columns below k for `row`, in ascending order. */
  function AvailableUpTo(a: Assignment, row: int, k: nat): (cols: seq<int>)
    ensures forall c :: c in cols <==> 0 <= c < k && Safe(a, row, c)
    ensures StrictlyIncreasing(cols)
    ensures |cols| <= k
  {
    if k == 0 then []
    else
      var below := AvailableUpTo(a, row, k - 1);
      if Safe(a, row, k - 1) then
        assert forall i :: 0 <= i < |below| ==> below[i] in below;
        below + [k - 1]
      else below
  }

  /** The candidate columns of `row` on an n-by-n board. */
  function Available(n: nat, a: Assignment, row: int): seq<int>
  {
    AvailableUpTo(a, row, n)
  }

  /** Number of columns below k that are unsafe for row r under t. */
  function UnsafeUpTo(t: Assignment, r: int, k: nat): nat
  {
    if k == 0 then 0
    else UnsafeUpTo(t, r, k - 1) + (if Safe(t, r, k - 1) then 0 else 1)
  }

  /** Number of unsafe cells (future row, column) in the rows below k that t leaves free. */
  function ConflictsUpTo(n: nat, t: Assignment, k: nat): nat
  {
    if k == 0 then 0
    else ConflictsUpTo(n, t, k - 1) + (if k - 1 in t then 0 else UnsafeUpTo(t, k - 1, n))
  }

  /** Number of rows below k that t leaves free. */
  function FreeRowsUpTo(taken: set<int>, k: nat): nat
  {
    if k == 0 then 0
    else FreeRowsUpTo(taken, k - 1) + (if k - 1 in taken then 0 else 1)
  }

  /** The rows below k that `taken` leaves free, gathered the way FreeRowsUpTo counts them. */
  function FreeRows(taken: set<int>, k: nat): (free: set<int>)
    ensures forall r :: r in free <==> 0 <= r < k && r !in taken
    ensures |free| == FreeRowsUpTo(taken, k)
  {
    if k == 0 then {}
    else if k - 1 in taken then FreeRows(taken, k - 1)
    else FreeRows(taken, k - 1) + {k - 1}
  }

  /** The lookahead cost of placing a queen at (row, col). */
  function Conflicts(n: nat, a: Assignment, row: int, col: int): nat
  {
    ConflictsUpTo(n, a[row := col], n)
  }

  /** A non-empty set has an element to pick. */
  lemma NonEmptyHasElement(s: set<int>)
    requires s != {}
    ensures exists x :: x in s
  {
    if forall x :: x !in s { assert false; }
  }

  /** The smallest element of a non-empty set, as Python's `min`. */
  function Min(s: set<int>): (m: int)
    requires s != {}
    ensures m in s && forall x :: x in s ==> m <= x
  {
    MinExists(s);
    var m :| m in s && forall x :: x in s ==> m <= x; m
  }

  /** The smaller of two integers. */
  function Lesser(x: int, y: int): int
  {
    if x < y then x else y
  }

  lemma {:induction false} MinExists(s: set<int>)
    requires s != {}
    ensures exists m :: m in s && forall x :: x in s ==> m <= x
  {
    NonEmptyHasElement(s);
    var y :| y in s;
    if s != {y} {
      MinExists(s - {y});
      var m :| m in s - {y} && forall x :: x in s - {y} ==> m <= x;
      forall x | x in s ensures Lesser(y, m) <= x {
        if x != y { assert x in s - {y}; }
      }
      assert Lesser(y, m) in s;
    } else {
      assert forall x :: x in s ==> y <= x;
    }
  }

  // ---------------------------------------------------------------------
  // Lemmas about the constraint model

  /** Placing a safe queen in a free row keeps a partial placement partial. */
  lemma PlaceSafeQueen(n: nat, a: Assignment, row: int, col: int)
    requires Partial(n, a) && 0 <= row < n && row !in a
    requires 0 <= col < n && Safe(a, row, col)
    ensures Partial(n, a[row := col])
    ensures |a[row := col]| == |a| + 1
  {
    var b := a[row := col];
    forall r1, r2 | r1 in b && r2 in b && r1 != r2
      ensures !Attacks(r1, b[r1], r2, b[r2])
    {
      if r1 == row {
        AttacksSymmetric(r2, b[r2], r1, b[r1]);
      }
    }
  }

  /** In any solution keeping the queens of `a`, a free row's queen is one of its candidate columns. */
  lemma SolutionColumnIsAvailable(n: nat, a: Assignment, s: Assignment, row: int)
    requires IsSolution(n, s) && Extends(s, a) && 0 <= row < n && row !in a
    ensures row in s && s[row] in Available(n, a, row)
  {
    forall r | r in a ensures !Attacks(r, a[r], row, s[row]) {
      assert r in s && r != row;
    }
  }

  /** A free row without candidate columns cannot be completed: the forward-checking rule. */
  lemma {:induction false} DeadRowBlocksCompletion(n: nat, a: Assignment, row: int)
    requires 0 <= row < n && row !in a && Available(n, a, row) == []
    ensures !Completable(n, a)
  {
    if Completable(n, a) {
      var s :| IsSolution(n, s) && Extends(s, a);
      SolutionColumnIsAvailable(n, a, s, row);
    }
  }

  /** A placement on the board with n queens has a queen in every row. */
  lemma FullPlacement(n: nat, a: Assignment)
    requires OnBoard(n, a)
    ensures |a| == n <==> a.Keys == Rows(n)
  {
    if |a| == n {
      var missing := Rows(n) - a.Keys;
      assert |Rows(n)| == |a.Keys| + |missing|;
      assert missing == {};
    }
  }

  /** The validator accepts every solution: all rows are present and no ordered pair attacks. */
  lemma SolutionPassesValidator(n: nat, s: Assignment)
    requires IsSolution(n, s)
    ensures forall r :: 0 <= r < n ==> r in s
    ensures NoAttacks(n, s)
  {
    ValidatorAgreesWithConsistency(n, s);
  }

  /** The validator's ordered-pair check and the search's unordered-pair invariant agree on full placements. */
  lemma ValidatorAgreesWithConsistency(n: nat, s: Assignment)
    requires s.Keys == Rows(n)
    ensures NoAttacks(n, s) <==> Consistent(s)
  {
    if NoAttacks(n, s) {
      forall r1, r2 | r1 in s && r2 in s && r1 != r2
        ensures !Attacks(r1, s[r1], r2, s[r2])
      {
        if r2 < r1 {
          AttacksSymmetric(r1, s[r1], r2, s[r2]);
        }
      }
    }
  }

  /** Every row counts at most k unsafe columns below k; the column of a placed queen is always unsafe. */
  lemma {:induction false} UnsafeBounds(t: Assignment, r: int, k: nat, c: int)
    ensures UnsafeUpTo(t, r, k) <= k
    ensures (exists q :: q in t && t[q] == c) && 0 <= c < k ==> 1 <= UnsafeUpTo(t, r, k)
  {
    if k > 0 {
      UnsafeBounds(t, r, k - 1, c);
      if c == k - 1 && exists q :: q in t && t[q] == c {
        var q :| q in t && t[q] == c;
        assert !Safe(t, r, k - 1) by { assert Attacks(q, t[q], r, k - 1); }
      }
    }
  }

  /** One more free row adds n to n times the count. */
  lemma MulSucc(n: nat, f: nat)
    ensures n * (f + 1) == n * f + n
  {
  }

  /** Between one and n unsafe cells for every free row, when the queen is on the board. */
  lemma {:induction false} ConflictsUpToBounds(n: nat, t: Assignment, k: nat, c: int)
    ensures ConflictsUpTo(n, t, k) <= n * FreeRowsUpTo(t.Keys, k)
    ensures (exists q :: q in t && t[q] == c) && 0 <= c < n ==> FreeRowsUpTo(t.Keys, k) <= ConflictsUpTo(n, t, k)
  {
    if k > 0 {
      ConflictsUpToBounds(n, t, k - 1, c);
      UnsafeBounds(t, k - 1, n, c);
      var free := FreeRowsUpTo(t.Keys, k - 1);
      if k - 1 !in t {
        assert FreeRowsUpTo(t.Keys, k) == free + 1;
        MulSucc(n, free);
      }
    }
  }

  /**
   * The lookahead cost of (row, col) lies between the number of rows left free
   * and n times that number: each free row loses column col, and at most n cells.
   */
  lemma ConflictsBounds(n: nat, a: Assignment, row: int, col: int)
    ensures Conflicts(n, a, row, col) <= n * FreeRowsUpTo(a[row := col].Keys, n)
    ensures 0 <= col < n ==> FreeRowsUpTo(a[row := col].Keys, n) <= Conflicts(n, a, row, col)
  {
    var t := a[row := col];
    assert row in t && t[row] == col;
    ConflictsUpToBounds(n, t, n, col);
  }

  /** The free-row count is the number of board rows outside the placement. */
  lemma FreeRowsCount(taken: set<int>, k: nat)
    ensures FreeRowsUpTo(taken, k) == |Rows(k) - taken|
  {
    assert Rows(k) - taken == FreeRows(taken, k);
  }

  // ---------------------------------------------------------------------
  // Small boards

  /** Two queens on a 2-by-2 board in different rows and columns share a diagonal. */
  lemma TwoQueensAttack(s: Assignment)
    requires s.Keys == Rows(2) && OnBoard(2, s)
    ensures !Consistent(s)
  {
    assert 0 in s && 1 in s;
    assert Attacks(0, s[0], 1, s[1]);
  }

  /** On a 3-by-3 board the queen of the middle row is attacked whatever its column. */
  lemma ThreeQueensAttack(s: Assignment)
    requires s.Keys == Rows(3) && OnBoard(3, s)
    ensures !Consistent(s)
  {
    assert 0 in s && 1 in s && 2 in s;
    if s[1] == 1 {
      assert Attacks(0, s[0], 1, s[1]);
    } else if Attacks(0, s[0], 1, s[1]) {
    } else {
      assert Attacks(1, s[1], 2, s[2]) || Attacks(0, s[0], 2, s[2]);
    }
  }

  lemma NoSolutionForTwo()
    ensures !Completable(2, map[])
  {
    forall s: Assignment | s.Keys == Rows(2) && OnBoard(2, s) ensures !Consistent(s) {
      TwoQueensAttack(s);
    }
  }

  lemma NoSolutionForThree()
    ensures !Completable(3, map[])
  {
    forall s: Assignment | s.Keys == Rows(3) && OnBoard(3, s) ensures !Consistent(s) {
      ThreeQueensAttack(s);
    }
  }

  /** The only one-queen solution is the queen at (0, 0). */
  lemma OneQueenSolution(s: Assignment)
    ensures IsSolution(1, s) <==> s == map[0 := 0]
  {
    if IsSolution(1, s) {
      assert s.Keys == {0};
    } else {
      assert map[0 := 0].Keys == Rows(1);
    }
  }

  lemma FourQueensSolvable()
    ensures Completable(4, map[])
  {
    var s := map[0 := 1, 1 := 3, 2 := 0, 3 := 2];
    FourQueensConsistent(s);
    assert s.Keys == Rows(4);
    forall r | r in s ensures 0 <= s[r] < 4 {
      assert r == 0 || r == 1 || r == 2 || r == 3;
    }
    assert IsSolution(4, s) && Extends(s, map[]);
  }

  /** The queens (0,1), (1,3), (2,0), (3,2) attack no one. */
  lemma FourQueensConsistent(s: Assignment)
    requires s == map[0 := 1, 1 := 3, 2 := 0, 3 := 2]
    ensures Consistent(s)
  {
    forall r1, r2 | r1 in s && r2 in s && r1 != r2
      ensures !Attacks(r1, s[r1], r2, s[r2])
    {
      assert r1 == 0 || r1 == 1 || r1 == 2 || r1 == 3;
      assert r2 == 0 || r2 == 1 || r2 == 2 || r2 == 3;
    }
  }
}
