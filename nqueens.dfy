/**
 * The N-Queens constraint-satisfaction solver: candidate columns, the MRV,
 * degree and LCV heuristics, the backtracking search with forward checking,
 * and the post-hoc validator.  Assignments are map values, so the copies the
 * solver takes before changing an assignment are implicit here: no method can
 * change a caller's assignment.
 */
module NQueens {
  import opened Wrappers
  import opened Board
  import opened LcvOrder

  /** Number of candidate columns of `row`, the quantity MRV minimises. */
  function RemainingValues(n: nat, a: Assignment, row: int): nat
  {
    |Available(n, a, row)|
  }

  /** `row` is the smallest of the rows of `rows` that have the fewest candidate columns. */
  predicate IsMrvChoice(n: nat, a: Assignment, rows: set<int>, row: int)
  {
    && row in rows
    && (forall r :: r in rows ==> RemainingValues(n, a, row) <= RemainingValues(n, a, r))
    && (forall r :: r in rows && RemainingValues(n, a, r) == RemainingValues(n, a, row) ==> row <= r)
  }

  /** After every candidate column failed, nothing keeps the queens of `a`. */
  lemma NoColumnLeft(n: nat, a: Assignment, row: int, availableCols: seq<int>, orderedCols: seq<int>)
    requires 0 <= row < n && row !in a
    requires availableCols == Available(n, a, row)
    requires multiset(orderedCols) == multiset(availableCols)
    requires DeadColumns(n, a, row, orderedCols)
    ensures !Completable(n, a)
  {
    if Completable(n, a) {
      var s :| IsSolution(n, s) && Extends(s, a);
      SolutionColumnIsAvailable(n, a, s, row);
      var c := s[row];
      assert c in multiset(availableCols);
      assert c in orderedCols;
      KeepsPlacedQueen(s, a, row);
      assert false;
    }
  }

  /** No solution keeps the queens of `a` and puts the queen of `row` in any column of `cols`. */
  ghost predicate DeadColumns(n: nat, a: Assignment, row: int, cols: seq<int>)
  {
    forall c :: c in cols ==> !Completable(n, a[row := c])
  }

  /** One more column tried without success extends the dead prefix by one. */
  lemma DeadColumnsGrow(n: nat, a: Assignment, row: int, cols: seq<int>, i: int)
    requires 0 <= i < |cols|
    requires DeadColumns(n, a, row, cols[..i])
    requires !Completable(n, a[row := cols[i]])
    ensures DeadColumns(n, a, row, cols[..i + 1])
  {
    assert cols[..i + 1] == cols[..i] + [cols[i]];
  }

  /** On the empty board every row has a candidate column: column 0 is safe. */
  lemma EmptyBoardLeavesColumns(n: nat)
    ensures forall r :: 0 <= r < n ==> Available(n, map[], r) != []
  {
    forall r | 0 <= r < n ensures Available(n, map[], r) != [] {
      assert Safe(map[], r, 0);
      assert 0 in Available(n, map[], r);
    }
  }

  /** Rows are left to place exactly when fewer than n queens stand on the board. */
  lemma RowsLeft(n: nat, a: Assignment, unassignedRows: set<int>)
    requires OnBoard(n, a) && unassignedRows == Rows(n) - a.Keys
    ensures unassignedRows == {} <==> |a| == n
  {
    FullPlacement(n, a);
  }

  /** Placing a queen in a free row takes that row out of the free rows. */
  lemma PlaceTakesRow(n: nat, a: Assignment, unassignedRows: set<int>, row: int, col: int)
    requires unassignedRows == Rows(n) - a.Keys && row in unassignedRows
    ensures unassignedRows - {row} == Rows(n) - a[row := col].Keys
    ensures row !in a
  {
  }

  lemma ExtendsDropsQueen(s: Assignment, a: Assignment, row: int, col: int)
    requires Extends(s, a[row := col]) && row !in a
    ensures Extends(s, a)
  {
    forall r | r in a ensures r in s && s[r] == a[r] {
      assert r in a[row := col];
    }
  }

  lemma KeepsPlacedQueen(s: Assignment, a: Assignment, row: int)
    requires Extends(s, a) && row in s
    ensures Extends(s, a[row := s[row]])
  {
  }

  class NQueensCSP {
    const n: nat
    const useMrv: bool
    const useDegree: bool
    const useLcv: bool

    // Search statistics
    var nodesExplored: nat
    var backtracks: nat
    var solution: Option<Assignment>

    constructor (n: nat, useMrv: bool, useDegree: bool, useLcv: bool)
      ensures this.n == n && this.useMrv == useMrv && this.useDegree == useDegree && this.useLcv == useLcv
      ensures nodesExplored == 0 && backtracks == 0 && solution == None
    {
      this.n := n;
      this.useMrv := useMrv;
      this.useDegree := useDegree;
      this.useLcv := useLcv;
      nodesExplored := 0;
      backtracks := 0;
      solution := None;
    }

    /** Scans the placed queens and stops at the first one attacking (row, col). */
    method IsSafeAssignment(assignment: Assignment, row: int, col: int) returns (safe: bool)
      ensures safe == Safe(assignment, row, col)
    {
      var pending := assignment.Keys;
      while pending != {}
        invariant pending <= assignment.Keys
        invariant forall r :: r in assignment && r !in pending ==> !Attacks(r, assignment[r], row, col)
        decreases pending
      {
        NonEmptyHasElement(pending);
        var assignedRow :| assignedRow in pending;
        var assignedCol := assignment[assignedRow];
        if assignedCol == col {
          return false;
        }
        if Abs(assignedRow - row) == Abs(assignedCol - col) {
          return false;
        }
        pending := pending - {assignedRow};
      }
      return true;
    }

    /** The safe columns of `row`, collected in ascending order. */
    method GetAvailableColumns(assignment: Assignment, row: int) returns (available: seq<int>)
      ensures available == Available(n, assignment, row)
    {
      available := [];
      for col := 0 to n
        invariant available == AvailableUpTo(assignment, row, col)
      {
        var safe := IsSafeAssignment(assignment, row, col);
        if safe {
          available := available + [col];
        }
      }
    }

    /** Places (row, col) on a copy and counts the unsafe cells of the rows it leaves free. */
    method CountConflicts(assignment: Assignment, row: int, col: int) returns (conflicts: nat)
      ensures conflicts == Conflicts(n, assignment, row, col)
    {
      conflicts := 0;
      var tempAssignment := assignment[row := col];
      for futureRow := 0 to n
        invariant conflicts == ConflictsUpTo(n, tempAssignment, futureRow)
      {
        if futureRow !in tempAssignment {
          for futureCol := 0 to n
            invariant conflicts == ConflictsUpTo(n, tempAssignment, futureRow)
                                   + UnsafeUpTo(tempAssignment, futureRow, futureCol)
          {
            var safe := IsSafeAssignment(tempAssignment, futureRow, futureCol);
            if !safe {
              conflicts := conflicts + 1;
            }
          }
        }
      }
    }

    /**
     * The row with the fewest candidate columns; the comparison is strict, so
     * the first such row wins, and rows are visited in ascending order.
     */
    method MrvHeuristic(assignment: Assignment, unassignedRows: set<int>) returns (bestRow: Option<int>)
      ensures bestRow.None? <==> unassignedRows == {}
      ensures bestRow.Some? ==> IsMrvChoice(n, assignment, unassignedRows, bestRow.value)
    {
      var minValues := n + 1;  // above every count, in place of an infinite bound
      bestRow := None;
      var pending := unassignedRows;
      while pending != {}
        invariant pending <= unassignedRows
        invariant forall x, y :: x in unassignedRows - pending && y in pending ==> x < y
        invariant bestRow.None? <==> pending == unassignedRows
        invariant bestRow.None? ==> minValues == n + 1
        invariant bestRow.Some? ==> IsMrvChoice(n, assignment, unassignedRows - pending, bestRow.value)
        invariant bestRow.Some? ==> minValues == RemainingValues(n, assignment, bestRow.value)
        decreases pending
      {
        var row := Min(pending);
        var available := GetAvailableColumns(assignment, row);
        if |available| < minValues {
          minValues := |available|;
          bestRow := Some(row);
        }
        forall x, y | x in unassignedRows - (pending - {row}) && y in pending - {row} ensures x < y {
          assert x == row || x in unassignedRows - pending;
        }
        pending := pending - {row};
      }
    }

    /** The earliest unassigned row, taken as the most constraining one. */
    function DegreeHeuristic(board: Assignment, unassignedRows: set<int>): (row: int)
      requires unassignedRows != {}
      ensures row in unassignedRows && forall r :: r in unassignedRows ==> row <= r
    {
      Min(unassignedRows)
    }

    /**
     * Row selection under the two flags: the smallest row unless MRV is on;
     * with MRV, the smallest of the rows with the fewest candidate columns
     * (with MRV alone by the ascending visiting order, with both by `min`).
     */
    method CombinedHeuristic(assignment: Assignment, unassignedRows: set<int>) returns (row: int)
      requires unassignedRows != {}
      ensures row in unassignedRows
      ensures !useMrv ==> forall r :: r in unassignedRows ==> row <= r
      ensures useMrv ==> IsMrvChoice(n, assignment, unassignedRows, row)
    {
      if !useMrv && !useDegree {
        return Min(unassignedRows);
      }
      if useMrv && !useDegree {
        var best := MrvHeuristic(assignment, unassignedRows);
        return best.value;
      }
      if !useMrv && useDegree {
        return DegreeHeuristic(assignment, unassignedRows);
      }
      var minValues := n + 1;  // above every count, in place of an infinite bound
      var candidates: seq<int> := [];
      var pending := unassignedRows;
      while pending != {}
        invariant pending <= unassignedRows
        invariant pending == unassignedRows ==> minValues == n + 1 && candidates == []
        invariant forall r :: r in unassignedRows - pending ==> minValues <= RemainingValues(n, assignment, r)
        invariant forall r :: r in candidates <==> r in unassignedRows - pending && RemainingValues(n, assignment, r) == minValues
        invariant pending != unassignedRows ==> candidates != []
        decreases pending
      {
        NonEmptyHasElement(pending);
        var r :| r in pending;
        var available := GetAvailableColumns(assignment, r);
        if |available| < minValues {
          minValues := |available|;
          candidates := [r];
        } else if |available| == minValues {
          candidates := candidates + [r];
        }
        pending := pending - {r};
      }
      var candidateSet := set r | r in candidates;
      assert candidates[0] in candidateSet;
      row := Min(candidateSet);
      assert RemainingValues(n, assignment, row) == minValues;
      forall r | r in unassignedRows && RemainingValues(n, assignment, r) == minValues ensures row <= r {
        assert r in unassignedRows - pending;
        assert r in candidateSet;
      }
    }

    /**
     * The order in which the columns of `row` are tried: as given without LCV;
     * with LCV, stably sorted by ascending conflict count.
     */
    method LcvOrderValues(assignment: Assignment, row: int, availableCols: seq<int>) returns (ordered: seq<int>)
      ensures !useLcv ==> ordered == availableCols
      ensures useLcv ==> ordered == Columns(SortByCount(Scores(n, assignment, row, availableCols)))
      ensures multiset(ordered) == multiset(availableCols)
      ensures useLcv ==> forall i, j :: 0 <= i < j < |ordered| ==>
        Conflicts(n, assignment, row, ordered[i]) <= Conflicts(n, assignment, row, ordered[j])
    {
      if !useLcv {
        return availableCols;
      }
      var colConflicts: seq<Scored> := [];
      for i := 0 to |availableCols|
        invariant |colConflicts| == i
        invariant forall k :: 0 <= k < i ==>
          colConflicts[k] == (availableCols[k], Conflicts(n, assignment, row, availableCols[k]))
      {
        var conflicts := CountConflicts(assignment, row, availableCols[i]);
        colConflicts := colConflicts + [(availableCols[i], conflicts)];
      }
      assert colConflicts == Scores(n, assignment, row, availableCols);
      ordered := Columns(SortByCount(colConflicts));
      LcvOrderIsSortedPermutation(n, assignment, row, availableCols);
    }

    /** Checks every pair of rows r1 < r2 for a shared column or diagonal. */
    method ValidateSolution(assignment: Assignment) returns (valid: bool)
      requires forall r :: 0 <= r < n ==> r in assignment
      ensures valid == NoAttacks(n, assignment)
    {
      for r1 := 0 to n
        invariant forall i, j :: 0 <= i < r1 && i < j < n ==> !Attacks(i, assignment[i], j, assignment[j])
      {
        for r2 := r1 + 1 to n
          invariant forall j :: r1 < j < r2 ==> !Attacks(r1, assignment[r1], j, assignment[j])
        {
          var c1 := assignment[r1];
          var c2 := assignment[r2];
          if c1 == c2 {
            return false;
          }
          if Abs(r1 - r2) == Abs(c1 - c2) {
            return false;
          }
        }
      }
      return true;
    }

    /** Whether every row of `rows` keeps at least one candidate column. */
    method ForwardCheck(assignment: Assignment, rows: set<int>) returns (ok: bool)
      ensures ok <==> forall r :: r in rows ==> Available(n, assignment, r) != []
    {
      var pending := rows;
      while pending != {}
        invariant pending <= rows
        invariant forall r :: r in rows - pending ==> Available(n, assignment, r) != []
        decreases pending
      {
        NonEmptyHasElement(pending);
        var futureRow :| futureRow in pending;
        var available := GetAvailableColumns(assignment, futureRow);
        if available == [] {
          return false;
        }
        pending := pending - {futureRow};
      }
      return true;
    }

    /**
     * One node of the search.  It counts itself, stops when every row holds a
     * queen, picks a row, and tries its columns in LCV order on copies of the
     * assignment, recursing only when forward checking leaves every remaining
     * row a candidate column.  It is itself entered only in that state,
     * which its precondition states.  A result is a solution that keeps the
     * queens of `assignment`; no result means that no solution keeps them.
     */
    method Backtrack(assignment: Assignment, unassignedRows: set<int>) returns (result: Option<Assignment>)
      requires Partial(n, assignment)
      requires unassignedRows == Rows(n) - assignment.Keys
      requires forall r :: r in unassignedRows ==> Available(n, assignment, r) != []
      modifies this`nodesExplored, this`backtracks
      decreases |unassignedRows|, 2
      ensures result.Some? ==> IsSolution(n, result.value) && Extends(result.value, assignment)
      ensures result.None? ==> !Completable(n, assignment)
      ensures nodesExplored >= old(nodesExplored) + 1
      ensures result.Some? ==> nodesExplored >= old(nodesExplored) + n - |assignment| + 1
      ensures backtracks >= old(backtracks)
      ensures result.None? ==> backtracks > old(backtracks)
    {
      nodesExplored := nodesExplored + 1;

      RowsLeft(n, assignment, unassignedRows);
      if |assignment| == n {
        FullPlacement(n, assignment);
        return Some(assignment);
      }

      var row := CombinedHeuristic(assignment, unassignedRows);
      var availableCols := GetAvailableColumns(assignment, row);

      // Forward checking left every unassigned row a candidate column, so
      // the branch for a row without one (main.py:220-222) is never taken.
      assert availableCols != [];

      var orderedCols := LcvOrderValues(assignment, row, availableCols);
      assert |orderedCols| == |availableCols| by {
        assert |multiset(orderedCols)| == |multiset(availableCols)|;
      }
      forall c | c in orderedCols ensures c in availableCols {
        assert c in multiset(orderedCols);
      }

      result := TryColumns(assignment, unassignedRows, row, orderedCols);
      if result.None? {
        NoColumnLeft(n, assignment, row, availableCols, orderedCols);
      }
    }

    /**
     * The column loop of `Backtrack`: tries the columns of `row` in the given
     * order and returns the first solution found below one of them.  No
     * result means that every column was tried and that no solution keeps the
     * queens of `assignment` with the queen of `row` in any of them; each
     * such column adds one backtrack.
     */
    method TryColumns(assignment: Assignment, unassignedRows: set<int>, row: int, orderedCols: seq<int>)
      returns (result: Option<Assignment>)
      requires Partial(n, assignment)
      requires unassignedRows == Rows(n) - assignment.Keys
      requires row in unassignedRows
      requires forall c :: c in orderedCols ==> c in Available(n, assignment, row)
      modifies this`nodesExplored, this`backtracks
      decreases |unassignedRows|, 1
      ensures result.Some? ==> IsSolution(n, result.value) && Extends(result.value, assignment)
      ensures result.None? ==> DeadColumns(n, assignment, row, orderedCols)
      ensures nodesExplored >= old(nodesExplored)
      ensures result.Some? ==> nodesExplored >= old(nodesExplored) + n - |assignment|
      ensures backtracks >= old(backtracks)
      ensures result.None? ==> backtracks >= old(backtracks) + |orderedCols|
    {
      for i := 0 to |orderedCols|
        invariant DeadColumns(n, assignment, row, orderedCols[..i])
        invariant nodesExplored >= old(nodesExplored)
        invariant backtracks >= old(backtracks) + i
      {
        var sub := TryColumn(assignment, unassignedRows, row, orderedCols[i]);
        if sub.Some? {
          return sub;
        }
        DeadColumnsGrow(n, assignment, row, orderedCols, i);
        backtracks := backtracks + 1;
      }
      assert orderedCols[..|orderedCols|] == orderedCols;
      return None;
    }

    /**
     * The body of the column loop of `Backtrack`: places the queen on a copy
     * of the assignment, forward checks, and recurses when that leaves every
     * remaining row a candidate column.
     */
    method TryColumn(assignment: Assignment, unassignedRows: set<int>, row: int, col: int)
      returns (sub: Option<Assignment>)
      requires Partial(n, assignment)
      requires unassignedRows == Rows(n) - assignment.Keys
      requires row in unassignedRows
      requires col in Available(n, assignment, row)
      modifies this`nodesExplored, this`backtracks
      decreases |unassignedRows|, 0
      ensures sub.Some? ==> IsSolution(n, sub.value) && Extends(sub.value, assignment)
      ensures sub.None? ==> !Completable(n, assignment[row := col])
      ensures nodesExplored >= old(nodesExplored)
      ensures sub.Some? ==> nodesExplored >= old(nodesExplored) + n - |assignment|
      ensures backtracks >= old(backtracks)
    {
      var newAssignment := assignment[row := col];
      PlaceTakesRow(n, assignment, unassignedRows, row, col);
      PlaceSafeQueen(n, assignment, row, col);
      var newUnassigned := unassignedRows - {row};

      var forwardCheckOk := ForwardCheck(newAssignment, newUnassigned);
      if forwardCheckOk {
        sub := Backtrack(newAssignment, newUnassigned);
        if sub.Some? {
          ExtendsDropsQueen(sub.value, assignment, row, col);
        }
      } else {
        var deadRow :| deadRow in newUnassigned && Available(n, newAssignment, deadRow) == [];
        DeadRowBlocksCompletion(n, newAssignment, deadRow);
        sub := None;
      }
    }

    /**
     * Runs the search from the empty board.  A found solution is stored only
     * when it is a non-empty mapping (the source tests it for truth), and is
     * then passed to the validator, which always accepts it.
     */
    method Solve() returns (result: Option<Assignment>, validated: bool)
      modifies this`nodesExplored, this`backtracks, this`solution
      ensures result.Some? ==> IsSolution(n, result.value)
      ensures result.Some? <==> Completable(n, map[])
      ensures validated <==> result.Some? && result.value != map[]
      ensures solution == if result.Some? && result.value != map[] then result else old(solution)
      ensures result.Some? ==> nodesExplored >= old(nodesExplored) + n + 1
      ensures backtracks >= old(backtracks)
    {
      var empty: Assignment := map[];
      assert |empty| == 0 && Partial(n, empty);
      EmptyBoardLeavesColumns(n);
      result := Backtrack(empty, Rows(n));
      if result.Some? && result.value != map[] {
        solution := result;
        SolutionPassesValidator(n, result.value);
        validated := ValidateSolution(result.value);
      } else {
        validated := false;
      }
    }
  }
}
