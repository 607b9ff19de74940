/**
 * hungarian_algorithm itself: loops over a matrix updated in place, each phase proved against
 * the machine of HungarianSpec. The function need not return; its loops are cut off after a
 * number of turns by which it has returned if it ever does.
 */
module Hungarian {
  import opened Options
  import opened Matrices
  import opened HungarianSpec
  import opened HungarianSteps
  import opened HungarianOptimality
  import opened HungarianTermination

  datatype Outcome =
    | NotSquare
    | NeverReturns
    | Assigned(assignment: seq<Edge>, minCost: real)

  ghost predicate Holds(c: array2<real>, m: Matrix)
    reads c
  {
    && c.Length0 == c.Length1 == |m|
    && Square(m, |m|)
    && forall i, j | 0 <= i < |m| && 0 <= j < |m| :: c[i, j] == m[i][j]
  }

  ghost function MatrixOf(c: array2<real>): (m: Matrix)
    requires c.Length0 == c.Length1
    reads c
    ensures Holds(c, m)
  {
    seq(c.Length0, i requires 0 <= i < c.Length0 reads c =>
      seq(c.Length1, j requires 0 <= j < c.Length1 reads c => c[i, j]))
  }

  // ----- reduction -----

  method RowMinimum(c: array2<real>, i: nat, ghost row: seq<real>) returns (least: real)
    requires i < c.Length0 && |row| == c.Length1 > 0 && forall j | 0 <= j < |row| :: c[i, j] == row[j]
    ensures least == Least(row)
  {
    least := c[i, 0];
    for j := 1 to c.Length1
      invariant least == LeastTo(row, j)
    {
      if c[i, j] < least {
        least := c[i, j];
      }
    }
  }

  method SubtractFromRow(c: array2<real>, i: nat, d: real)
    requires i < c.Length0
    modifies c
    ensures forall k, l | 0 <= k < c.Length0 && 0 <= l < c.Length1 ::
      c[k, l] == if k == i then old(c[k, l]) - d else old(c[k, l])
  {
    for j := 0 to c.Length1
      invariant forall k, l | 0 <= k < c.Length0 && 0 <= l < c.Length1 ::
        c[k, l] == if k == i && l < j then old(c[k, l]) - d else old(c[k, l])
    {
      c[i, j] := c[i, j] - d;
    }
  }

  method SubtractRowMinima(c: array2<real>, ghost m: Matrix)
    requires Holds(c, m)
    modifies c
    ensures Holds(c, ReduceRows(m, |m|))
  {
    ghost var r := ReduceRows(m, |m|);
    for i := 0 to c.Length0
      invariant forall k, l | 0 <= k < i && 0 <= l < |m| :: c[k, l] == r[k][l]
      invariant forall k, l | i <= k < |m| && 0 <= l < |m| :: c[k, l] == m[k][l]
    {
      var least := RowMinimum(c, i, m[i]);
      SubtractFromRow(c, i, least);
    }
  }

  method ColumnMinimum(c: array2<real>, j: nat, ghost col: seq<real>) returns (least: real)
    requires j < c.Length1 && |col| == c.Length0 > 0 && forall i | 0 <= i < |col| :: c[i, j] == col[i]
    ensures least == Least(col)
  {
    least := c[0, j];
    for i := 1 to c.Length0
      invariant least == LeastTo(col, i)
    {
      if c[i, j] < least {
        least := c[i, j];
      }
    }
  }

  method SubtractFromColumn(c: array2<real>, j: nat, d: real)
    requires j < c.Length1
    modifies c
    ensures forall k, l | 0 <= k < c.Length0 && 0 <= l < c.Length1 ::
      c[k, l] == if l == j then old(c[k, l]) - d else old(c[k, l])
  {
    for i := 0 to c.Length0
      invariant forall k, l | 0 <= k < c.Length0 && 0 <= l < c.Length1 ::
        c[k, l] == if l == j && k < i then old(c[k, l]) - d else old(c[k, l])
    {
      c[i, j] := c[i, j] - d;
    }
  }

  method SubtractColumnMinima(c: array2<real>, ghost m: Matrix)
    requires Holds(c, m)
    modifies c
    ensures Holds(c, ReduceCols(m, |m|))
  {
    ghost var r := ReduceCols(m, |m|);
    for j := 0 to c.Length1
      invariant forall k, l | 0 <= k < |m| && 0 <= l < j :: c[k, l] == r[k][l]
      invariant forall k, l | 0 <= k < |m| && j <= l < |m| :: c[k, l] == m[k][l]
    {
      var least := ColumnMinimum(c, j, Column(m, |m|, j));
      SubtractFromColumn(c, j, least);
    }
  }

  // ----- greedy matching -----

  method MatchGreedily(c: array2<real>, ghost m: Matrix) returns (rows: seq<int>, cols: seq<int>)
    requires Holds(c, m)
    ensures State(m, rows, cols) == Greedy(m, |m|, |m|)
  {
    var n := c.Length0;
    rows, cols := seq(n, _ => -1), seq(n, _ => -1);
    for i := 0 to n
      invariant |rows| == |cols| == n
      invariant State(m, rows, cols) == Greedy(m, n, i)
    {
      var j := 0;
      while j < n && !(c[i, j] == 0.0 && cols[j] == -1)
        invariant j <= n
        invariant FirstFreeZero(m[i], cols, 0) == FirstFreeZero(m[i], cols, j)
      {
        j := j + 1;
      }
      if j < n {
        rows, cols := rows[i := j], cols[j := i];
      }
    }
  }

  method UnassignedRows(rows: seq<int>) returns (u: seq<nat>)
    ensures forall k: nat :: k in u <==> k < |rows| && rows[k] == -1
    ensures forall a, b | 0 <= a < b < |u| :: u[a] < u[b]
    ensures u == [] <==> -1 !in rows
    ensures u != [] ==> u[0] == FirstUnmatched(rows)
  {
    u := [];
    for i := 0 to |rows|
      invariant forall k: nat :: k in u <==> k < i && rows[k] == -1
      invariant forall a, b | 0 <= a < b < |u| :: u[a] < u[b]
      invariant u == [] ==> forall k | 0 <= k < i :: rows[k] != -1
      invariant u == [] ==> FirstFrom(rows, 0) == FirstFrom(rows, i)
      invariant u != [] ==> u[0] == FirstFrom(rows, 0) < i
    {
      if rows[i] == -1 {
        assert forall a | 0 <= a < |u| :: u[a] in u;
        u := u + [i];
      }
    }
  }

  // ----- one walk -----

  /** The source's path list alternates the edges of the walk with the matched pairs between them. */
  ghost predicate EvenEntries(full: seq<Edge>, path: seq<Edge>) {
    2 * |path| - 1 <= |full| <= 2 * |path| && forall k | 0 <= k < |path| :: full[2 * k] == path[k]
  }

  ghost predicate Marks(marked: seq<bool>, s: set<int>) {
    forall i | 0 <= i < |marked| :: marked[i] <==> i in s
  }

  method WalkOnce(c: array2<real>, ghost m: Matrix, cols: seq<int>, start: nat)
    returns (found: bool, full: seq<Edge>, markedRows: seq<bool>, markedCols: seq<bool>, ghost w: Walked)
    requires Holds(c, m) && |cols| == |m| && start < |m|
    requires forall k | 0 <= k < |m| :: cols[k] != -1 ==> 0 <= cols[k] < |m|
    ensures w == Walk(m, cols, |m|, start, 0) && found == w.found
    ensures EvenEntries(full, w.path)
    ensures |markedRows| == |markedCols| == |m|
    ensures Marks(markedRows, MarkedRows(w)) && Marks(markedCols, MarkedCols(w))
  {
    var n := c.Length0;
    markedRows, markedCols := seq(n, _ => false), seq(n, _ => false);
    var row := start;
    markedRows := markedRows[row := true];
    full, found := [], false;
    ghost var path: seq<Edge>, visited: seq<int> := [], [];
    var j := 0;
    while j < n && !found
      invariant j <= n && 0 <= row < n && |markedRows| == |markedCols| == n
      invariant Walk(m, cols, n, start, 0) ==
        if found then Walked(true, path, visited + [row]) else Prepend(path, visited, Walk(m, cols, n, row, j))
      invariant EvenEntries(full, path) && (!found ==> |full| == 2 * |path|)
      invariant Marks(markedRows, Elements(visited + [row])) && Marks(markedCols, Elements(ColsOf(path)))
      invariant !found ==> forall k | 0 <= k < |path| :: path[k].1 < j
      decreases n - j, !found
    {
      if c[row, j] == 0.0 && !markedCols[j] {
        markedCols := markedCols[j := true];
        full := full + [(row, j)];
        ghost var before := path;
        path := path + [(row, j)];
        assert ColsOf(path) == ColsOf(before) + [j];
        if cols[j] == -1 {
          found := true;
        } else {
          visited := visited + [row];
          row := cols[j];
          markedRows := markedRows[row := true];
          full := full + [(j, row)];
          j := j + 1;
        }
      } else {
        assert j !in ColsOf(path);
        j := j + 1;
      }
    }
    w := Walked(found, path, visited + [row]);
  }

  // ----- dual adjustment -----

  method LeastUncovered(c: array2<real>, ghost m: Matrix, markedRows: seq<bool>, markedCols: seq<bool>,
                        ghost mr: set<int>, ghost mc: set<int>)
    returns (minVal: Option<real>)
    requires Holds(c, m) && |markedRows| == |markedCols| == |m|
    requires Marks(markedRows, mr) && Marks(markedCols, mc)
    ensures minVal == Scan(m, mr, mc, |m|)
  {
    var n := c.Length0;
    minVal := None;
    for i := 0 to n
      invariant minVal == Scan(m, mr, mc, i)
    {
      for j := 0 to n
        invariant minVal == if i in mr then ScanRow(Scan(m, mr, mc, i), m[i], mc, j) else Scan(m, mr, mc, i)
      {
        if markedRows[i] && !markedCols[j] {
          minVal := Lower(minVal, c[i, j]);
        }
      }
    }
  }

  method AdjustInPlace(c: array2<real>, ghost m: Matrix, markedRows: seq<bool>, markedCols: seq<bool>,
                       ghost mr: set<int>, ghost mc: set<int>, d: real)
    requires Holds(c, m) && |markedRows| == |markedCols| == |m|
    requires Marks(markedRows, mr) && Marks(markedCols, mc)
    modifies c
    ensures Holds(c, Adjusted(m, |m|, mr, mc, d))
  {
    var n := c.Length0;
    ghost var r := Adjusted(m, n, mr, mc, d);
    for i := 0 to n
      invariant forall k, j | 0 <= k < i && 0 <= j < n :: c[k, j] == r[k][j]
      invariant forall k, j | i <= k < n && 0 <= j < n :: c[k, j] == m[k][j]
    {
      for j := 0 to n
        invariant forall k, l | 0 <= k < i && 0 <= l < n :: c[k, l] == r[k][l]
        invariant forall l | 0 <= l < j :: c[i, l] == r[i][l]
        invariant forall l | j <= l < n :: c[i, l] == m[i][l]
        invariant forall k, l | i < k < n && 0 <= l < n :: c[k, l] == m[k][l]
      {
        if markedRows[i] {
          c[i, j] := c[i, j] - d;
        }
        if markedCols[j] {
          c[i, j] := c[i, j] + d;
        }
        assert r[i][j] == AdjustedCell(m[i][j], i in mr, j in mc, d);
      }
    }
  }

  // ----- augmentation -----

  method FlipPath(rows: seq<int>, cols: seq<int>, full: seq<Edge>, ghost path: seq<Edge>)
    returns (rows': seq<int>, cols': seq<int>)
    requires |rows| == |cols| && PathInRange(path, |rows|) && EvenEntries(full, path)
    ensures rows' == AugmentedRows(rows, path) && cols' == AugmentedCols(cols, path)
  {
    rows', cols' := rows, cols;
    var i := 0;
    ghost var k := 0;
    while i < |full|
      invariant i == 2 * k && k <= |path|
      invariant rows' == Store(rows, RowsOf(path), ColsOf(path), k)
      invariant cols' == Store(cols, ColsOf(path), RowsOf(path), k)
    {
      assert full[2 * k] == path[k];
      var (row, col) := full[i];
      rows', cols' := rows'[row := col], cols'[col := row];
      i, k := i + 2, k + 1;
    }
  }

  // ----- the whole function -----

  method Copy(cost: array2<real>) returns (c: array2<real>)
    requires cost.Length0 == cost.Length1
    ensures fresh(c) && Holds(c, MatrixOf(cost))
  {
    var n := cost.Length0;
    c := new real[n, n];
    forall i, j | 0 <= i < n && 0 <= j < n {
      c[i, j] := cost[i, j];
    }
  }

  method AssignedCost(c: array2<real>, ghost m: Matrix, rows: seq<int>) returns (sum: real)
    requires Holds(c, m) && |rows| == |m| && forall i | 0 <= i < |m| :: 0 <= rows[i] < |m|
    ensures sum == CostTo(m, rows, |m|, |m|)
  {
    sum := 0.0;
    for i := 0 to c.Length0
      invariant sum == CostTo(m, rows, |m|, i)
    {
      sum := sum + c[i, rows[i]];
    }
  }

  function Second(a: seq<Edge>): (p: seq<int>)
    ensures |p| == |a|
  {
    seq(|a|, i requires 0 <= i < |a| => a[i].1)
  }

  /** The body of the inner while loop: a walk, then either the augmentation or the adjustment. */
  method TakeTurn(c: array2<real>, ghost t: State, n: nat, rows: seq<int>, cols: seq<int>, start: nat)
    returns (found: bool, rows': seq<int>, cols': seq<int>)
    requires WellFormed(t, n) && !Done(t) && Holds(c, t.c)
    requires rows == t.rows && cols == t.cols && start == FirstUnmatched(rows)
    modifies c
    ensures WellFormed(Turn(t, n), n) && Holds(c, Turn(t, n).c)
    ensures rows' == Turn(t, n).rows && cols' == Turn(t, n).cols
    ensures !found ==> rows' == rows
  {
    var full, markedRows, markedCols;
    ghost var w;
    found, full, markedRows, markedCols, w := WalkOnce(c, t.c, cols, start);
    WalkFacts(t, n);
    TurnWellFormed(t, n);
    rows', cols' := rows, cols;
    if found {
      rows', cols' := FlipPath(rows, cols, full, w.path);
    } else {
      var minVal := LeastUncovered(c, t.c, markedRows, markedCols, MarkedRows(w), MarkedCols(w));
      MinValIsLeast(t, n);
      AdjustInPlace(c, t.c, markedRows, markedCols, MarkedRows(w), MarkedCols(w), minVal.value);
    }
  }

  /** f lists the states of a run one after the other. */
  ghost predicate Follows(f: nat -> State, n: nat, k: nat) {
    f(k + 1) == Next(f(k), n)
  }

  /** The matrix and the match lists hold the state t. */
  ghost predicate At(c: array2<real>, rows: seq<int>, cols: seq<int>, t: State, n: nat)
    reads c
  {
    WellFormed(t, n) && Holds(c, t.c) && rows == t.rows && cols == t.cols
  }

  method Step(c: array2<real>, ghost f: nat -> State, n: nat, ghost k: nat,
              rows: seq<int>, cols: seq<int>, start: nat)
    returns (found: bool, rows': seq<int>, cols': seq<int>)
    requires Follows(f, n, k)
    requires At(c, rows, cols, f(k), n) && -1 in rows && start == FirstUnmatched(rows)
    modifies c
    ensures At(c, rows', cols', f(k + 1), n)
    ensures !found ==> rows' == rows
  {
    found, rows', cols' := TakeTurn(c, f(k), n, rows, cols, start);
  }

  /** The inner while loop, for at most rounds - k turns. */
  method FindAugmentation(c: array2<real>, ghost f: nat -> State, n: nat, k: nat,
                          rows0: seq<int>, cols0: seq<int>, start: nat, rounds: nat)
    returns (l: nat, rows: seq<int>, cols: seq<int>)
    requires forall i: nat :: Follows(f, n, i)
    requires At(c, rows0, cols0, f(k), n) && -1 in rows0 && start == FirstUnmatched(rows0) && k < rounds
    modifies c
    ensures k < l <= rounds && At(c, rows, cols, f(l), n)
  {
    rows, cols, l := rows0, cols0, k;
    var found := false;
    while !found && l < rounds
      invariant k <= l <= rounds && (found ==> k < l)
      invariant At(c, rows, cols, f(l), n)
      invariant !found ==> rows == rows0
      decreases rounds - l
    {
      found, rows, cols := Step(c, f, n, l, rows, cols, start);
      l := l + 1;
    }
  }

  /** The outer while loop, for at most the given number of turns of the inner one. */
  method RunTurns(c: array2<real>, ghost f: nat -> State, n: nat, rows0: seq<int>, cols0: seq<int>, rounds: nat)
    returns (ghost k: nat, rows: seq<int>, cols: seq<int>)
    requires forall i: nat :: Follows(f, n, i)
    requires At(c, rows0, cols0, f(0), n)
    modifies c
    ensures k <= rounds && At(c, rows, cols, f(k), n)
    ensures k == rounds || -1 !in rows
  {
    rows, cols := rows0, cols0;
    var turns := 0;
    var unassigned := UnassignedRows(rows);
    while unassigned != [] && turns < rounds
      invariant turns <= rounds && At(c, rows, cols, f(turns), n)
      invariant unassigned == [] <==> -1 !in rows
      invariant unassigned != [] ==> unassigned[0] == FirstUnmatched(rows)
      decreases rounds - turns
    {
      turns, rows, cols := FindAugmentation(c, f, n, turns, rows, cols, unassigned[0], rounds);
      unassigned := UnassignedRows(rows);
    }
    k := turns;
  }

  /** Everything before the outer while loop. */
  method Prepare(c: array2<real>, ghost m: Matrix) returns (rows: seq<int>, cols: seq<int>)
    requires Holds(c, m)
    modifies c
    ensures At(c, rows, cols, Initial(m, |m|), |m|)
  {
    SubtractRowMinima(c, m);
    SubtractColumnMinima(c, ReduceRows(m, |m|));
    InitialInv(m, |m|);
    rows, cols := MatchGreedily(c, ReduceCols(ReduceRows(m, |m|), |m|));
  }

  ghost function StatesFrom(s: State, n: nat): nat -> State {
    (i: nat) => After(s, n, i)
  }

  lemma StatesFollow(s: State, n: nat)
    ensures forall i: nat :: Follows(StatesFrom(s, n), n, i)
  {
  }

  lemma EndedEarly(s: State, n: nat, k: nat, rounds: nat)
    requires k <= rounds && (k == rounds || Done(StatesFrom(s, n)(k)))
    ensures StatesFrom(s, n)(k) == StatesFrom(s, n)(rounds)
  {
    if k < rounds {
      StaysPut(s, n, k, rounds - k);
    }
  }

  method Solve(c: array2<real>, ghost m: Matrix, rounds: nat) returns (rows: seq<int>)
    requires Holds(c, m)
    modifies c
    ensures Holds(c, Run(m, |m|, rounds).c) && rows == Run(m, |m|, rounds).rows
  {
    var n, cols := c.Length0, [];
    rows, cols := Prepare(c, m);
    ghost var f := StatesFrom(Initial(m, n), n);
    StatesFollow(Initial(m, n), n);
    ghost var k;
    k, rows, cols := RunTurns(c, f, n, rows, cols, rounds);
    EndedEarly(Initial(m, n), n, k, rounds);
  }

  lemma UnmatchedAtMost(rows: seq<int>)
    ensures |Unmatched(rows)| <= |rows|
  {
    SubsetSize(Unmatched(rows), Range(|rows|));
  }

  lemma BoundMonotone(n: nat, a: nat, b: nat)
    requires a <= b
    ensures TurnBound(n, a) <= TurnBound(n, b)
  {
    var p := Power(n) + 1;
    assert b * p == a * p + (b - a) * p;
  }

  lemma BoundByRows(m: Matrix, n: nat)
    requires Square(m, n)
    ensures Bound(m, n) <= TurnBound(n, n)
  {
    InitialInv(m, n);
    UnmatchedAtMost(Initial(m, n).rows);
    BoundMonotone(n, |Unmatched(Initial(m, n).rows)|, n);
  }

  /**
   * The function returns exactly when the loops have ended by the cut-off, which is when none of
   * the turns within the bound is stuck. It then returns a cheapest assignment of the matrix it
   * was given (which it leaves alone); the amount it returns with it is always zero.
   */
  method HungarianAlgorithm(cost: array2<real>) returns (r: Outcome)
    ensures r.NotSquare? <==> cost.Length0 != cost.Length1
    ensures cost.Length0 == cost.Length1 ==>
      var m, n := MatrixOf(cost), cost.Length0;
      && (r.NeverReturns? <==> forall k: nat :: !Done(Run(m, n, k)))
      && (r.Assigned? <==> forall k: nat | k <= Bound(m, n) :: !Stuck(Run(m, n, k), n))
      && (r.Assigned? ==>
            && |r.assignment| == n && (forall i | 0 <= i < n :: r.assignment[i].0 == i)
            && Cheapest(m, n, Second(r.assignment))
            && r.minCost == 0.0)
  {
    if cost.Length0 != cost.Length1 {
      return NotSquare;
    }
    var n := cost.Length0;
    ghost var m := MatrixOf(cost);
    var c := Copy(cost);
    var rounds := TurnBound(n, n);
    var rows := Solve(c, m, rounds);
    BoundByRows(m, n);
    ReturnsIffNeverStuck(m, n);
    if -1 in rows {
      forall k: nat ensures !Done(Run(m, n, k)) {
        if Done(Run(m, n, k)) {
          ReturnsByBound(m, n, k, rounds);
        }
      }
      return NeverReturns;
    }
    assert Done(Run(m, n, rounds));
    EndedRunIsCheapest(m, n, rounds);
    var assignment := seq(n, i requires 0 <= i < n => (i, rows[i]));
    assert Second(assignment) == rows;
    var sum := AssignedCost(c, Run(m, n, rounds).c, rows);
    r := Assigned(assignment, sum);
  }
}
