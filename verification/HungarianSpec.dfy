/**
 * hungarian_algorithm as a deterministic machine on values.
 * Initial is the state in which the outer loop starts (after both reductions and the greedy
 * matching); Turn is one turn of the inner while loop: a walk from the first unassigned row
 * followed either by the augmentation or by the dual adjustment.
 */
module HungarianSpec {
  import opened Options
  import opened Matrices

  type Edge = (int, int)

  /** The reduced matrix and the two match lists; -1 stands for "unmatched". */
  datatype State = State(c: Matrix, rows: seq<int>, cols: seq<int>)

  /** rows and cols are mutually inverse partial maps. */
  ghost predicate Matching(rows: seq<int>, cols: seq<int>) {
    && |rows| == |cols|
    && (forall i | 0 <= i < |rows| :: rows[i] != -1 ==> 0 <= rows[i] < |cols| && cols[rows[i]] == i)
    && (forall j | 0 <= j < |cols| :: cols[j] != -1 ==> 0 <= cols[j] < |rows| && rows[cols[j]] == j)
  }

  ghost predicate WellFormed(s: State, n: nat) {
    Square(s.c, n) && |s.rows| == n && Matching(s.rows, s.cols)
  }

  predicate Done(s: State) {
    -1 !in s.rows
  }

  /** The first unmatched row from i on; |rows| when there is none. */
  function FirstFrom(rows: seq<int>, i: nat): (r: nat)
    requires i <= |rows|
    ensures i <= r <= |rows| && (r < |rows| ==> rows[r] == -1)
    ensures forall k | i <= k < r :: rows[k] != -1
    decreases |rows| - i
  {
    if i == |rows| || rows[i] == -1 then i else FirstFrom(rows, i + 1)
  }

  function FirstUnmatched(rows: seq<int>): (r: nat)
    requires -1 in rows
    ensures r < |rows| && rows[r] == -1 && forall k | 0 <= k < r :: rows[k] != -1
  {
    FirstFrom(rows, 0)
  }

  // ----- the walk -----

  /**
   * The outcome of one left-to-right pass: the edges (row, column) taken, and the rows the
   * walk stood on, in order.
   */
  datatype Walked = Walked(found: bool, path: seq<Edge>, visited: seq<int>)

  function Walk(c: Matrix, cols: seq<int>, n: nat, row: int, j: nat): Walked
    requires Square(c, n) && |cols| == n && 0 <= row < n && j <= n
    requires forall k | 0 <= k < n :: cols[k] != -1 ==> 0 <= cols[k] < n
    decreases n - j
  {
    if j == n then Walked(false, [], [row])
    else if c[row][j] != 0.0 then Walk(c, cols, n, row, j + 1)
    else if cols[j] == -1 then Walked(true, [(row, j)], [row])
    else Prepend([(row, j)], [row], Walk(c, cols, n, cols[j], j + 1))
  }

  function Prepend(path: seq<Edge>, visited: seq<int>, w: Walked): Walked {
    Walked(w.found, path + w.path, visited + w.visited)
  }

  function RowsOf(path: seq<Edge>): (r: seq<int>)
    ensures |r| == |path|
  {
    seq(|path|, k requires 0 <= k < |path| => path[k].0)
  }

  function ColsOf(path: seq<Edge>): (r: seq<int>)
    ensures |r| == |path|
  {
    seq(|path|, k requires 0 <= k < |path| => path[k].1)
  }

  ghost function MarkedRows(w: Walked): set<int> { Elements(w.visited) }

  ghost function MarkedCols(w: Walked): set<int> { Elements(ColsOf(w.path)) }

  // ----- the dual adjustment -----

  /** Python's min against a running value that starts at infinity (None). */
  function Lower(m: Option<real>, x: real): Option<real> {
    if m.None? || x < m.value then Some(x) else m
  }

  ghost function ScanRow(m: Option<real>, row: seq<real>, mc: set<int>, k: nat): Option<real>
    requires k <= |row|
  {
    if k == 0 then m
    else if k - 1 in mc then ScanRow(m, row, mc, k - 1)
    else Lower(ScanRow(m, row, mc, k - 1), row[k - 1])
  }

  /** The least entry in a marked row (among the first k) and an unmarked column. */
  ghost function Scan(c: Matrix, mr: set<int>, mc: set<int>, k: nat): Option<real>
    requires k <= |c|
  {
    if k == 0 then None
    else if k - 1 in mr then ScanRow(Scan(c, mr, mc, k - 1), c[k - 1], mc, |c[k - 1]|)
    else Scan(c, mr, mc, k - 1)
  }

  ghost function AdjustedCell(x: real, markedRow: bool, markedCol: bool, d: real): real {
    x - (if markedRow then d else 0.0) + (if markedCol then d else 0.0)
  }

  ghost function Adjusted(c: Matrix, n: nat, mr: set<int>, mc: set<int>, d: real): (r: Matrix)
    requires Square(c, n)
    ensures Square(r, n)
  {
    seq(n, i requires 0 <= i < n => seq(n, j requires 0 <= j < n =>
      AdjustedCell(c[i][j], i in mr, j in mc, d)))
  }

  // ----- the augmentation -----

  /** a after the assignments a[at[i]] := val[i] for i < k, in order. */
  function Store(a: seq<int>, at: seq<int>, val: seq<int>, k: nat): (r: seq<int>)
    requires k <= |at| == |val| && forall i | 0 <= i < |at| :: 0 <= at[i] < |a|
    ensures |r| == |a|
  {
    if k == 0 then a else Store(a, at, val, k - 1)[at[k - 1] := val[k - 1]]
  }

  ghost predicate PathInRange(path: seq<Edge>, n: nat) {
    forall k | 0 <= k < |path| :: 0 <= path[k].0 < n && 0 <= path[k].1 < n
  }

  ghost function AugmentedRows(rows: seq<int>, path: seq<Edge>): (r: seq<int>)
    requires PathInRange(path, |rows|)
    ensures |r| == |rows|
  {
    Store(rows, RowsOf(path), ColsOf(path), |path|)
  }

  ghost function AugmentedCols(cols: seq<int>, path: seq<Edge>): (r: seq<int>)
    requires PathInRange(path, |cols|)
    ensures |r| == |cols|
  {
    Store(cols, ColsOf(path), RowsOf(path), |path|)
  }

  // ----- the facts about a walk that everything below rests on -----

  ghost predicate OnZeros(c: Matrix, n: nat, w: Walked)
    requires Square(c, n) && PathInRange(w.path, n)
  {
    forall k | 0 <= k < |w.path| :: c[w.path[k].0][w.path[k].1] == 0.0
  }

  /**
   * w starts on row, takes strictly increasing columns from j on, goes from each taken column
   * to that column's partner, and is successful exactly when its last column is free.
   */
  ghost predicate Alternates(cols: seq<int>, row: int, j: nat, w: Walked) {
    && |w.visited| == |w.path| + (if w.found then 0 else 1)
    && |w.visited| > 0 && w.visited[0] == row
    && (forall k | 0 <= k < |w.visited| :: 0 <= w.visited[k] < |cols|)
    && (forall k {:trigger w.path[k]} | 0 <= k < |w.path| :: w.path[k].0 == w.visited[k] && j <= w.path[k].1 < |cols|)
    && (forall k, l | 0 <= k < l < |w.path| :: w.path[k].1 < w.path[l].1)
    && (forall k {:trigger w.path[k]} | 0 <= k < |w.visited| - 1 :: cols[w.path[k].1] == w.visited[k + 1])
    && (w.found ==> cols[w.path[|w.path| - 1].1] == -1)
  }

  lemma PrependAlternates(cols: seq<int>, row: int, j: nat, w: Walked)
    requires j < |cols| && 0 <= row < |cols|
    requires Alternates(cols, cols[j], j + 1, w)
    ensures Alternates(cols, row, j, Prepend([(row, j)], [row], w))
  {
    var r := Prepend([(row, j)], [row], w);
    forall k | 0 < k < |r.path|
      ensures r.path[k] == w.path[k - 1] && r.path[k].0 == r.visited[k] && j <= r.path[k].1 < |cols|
    {
    }
    forall k | 0 <= k < |r.visited| - 1 ensures cols[r.path[k].1] == r.visited[k + 1] {
      assert k > 0 ==> cols[w.path[k - 1].1] == w.visited[k];
    }
  }

  /** Every walk is an alternating path. */
  lemma {:induction false} WalkAlternates(c: Matrix, cols: seq<int>, n: nat, row: int, j: nat)
    requires Square(c, n) && |cols| == n && 0 <= row < n && j <= n
    requires forall k | 0 <= k < n :: cols[k] != -1 ==> 0 <= cols[k] < n
    ensures Alternates(cols, row, j, Walk(c, cols, n, row, j))
    decreases n - j
  {
    if j == n {
    } else if c[row][j] != 0.0 {
      WalkAlternates(c, cols, n, row, j + 1);
    } else if cols[j] != -1 {
      WalkAlternates(c, cols, n, cols[j], j + 1);
      PrependAlternates(cols, row, j, Walk(c, cols, n, cols[j], j + 1));
    }
  }

  /** Every edge of a walk is a zero of the matrix. */
  lemma {:induction false} WalkOnZeros(c: Matrix, cols: seq<int>, n: nat, row: int, j: nat)
    requires Square(c, n) && |cols| == n && 0 <= row < n && j <= n
    requires forall k | 0 <= k < n :: cols[k] != -1 ==> 0 <= cols[k] < n
    ensures PathInRange(Walk(c, cols, n, row, j).path, n)
    ensures OnZeros(c, n, Walk(c, cols, n, row, j))
    decreases n - j
  {
    if j == n {
    } else if c[row][j] != 0.0 {
      WalkOnZeros(c, cols, n, row, j + 1);
    } else if cols[j] != -1 {
      WalkOnZeros(c, cols, n, cols[j], j + 1);
    }
  }

  /** Where the walk begins to look on the k-th row it stands on: behind the column that led it there. */
  ghost function LooksFrom(w: Walked, j: nat, k: nat): int
    requires k < |w.visited| && |w.visited| <= |w.path| + 1
  {
    if k == 0 then j else w.path[k - 1].1 + 1
  }

  /** Where it stops looking there: at the column it takes, or at the end of the row. */
  ghost function LooksTo(w: Walked, n: nat, k: nat): int
    requires k < |w.visited|
  {
    if k < |w.path| then w.path[k].1 else n
  }

  /** On none of its rows does the walk pass over a zero. */
  ghost predicate PassesNoZero(c: Matrix, n: nat, j: nat, w: Walked)
    requires Square(c, n) && |w.visited| <= |w.path| + 1
  {
    forall k, x | 0 <= k < |w.visited| && 0 <= w.visited[k] < n && 0 <= x < n &&
        LooksFrom(w, j, k) <= x < LooksTo(w, n, k) ::
      c[w.visited[k]][x] != 0.0
  }

  lemma PrependPassesNoZero(c: Matrix, n: nat, row: int, j: nat, w: Walked)
    requires Square(c, n) && 0 <= row < n && j < n && |w.visited| <= |w.path| + 1
    requires PassesNoZero(c, n, j + 1, w)
    ensures PassesNoZero(c, n, j, Prepend([(row, j)], [row], w))
  {
    var r := Prepend([(row, j)], [row], w);
    forall k, x | 0 <= k < |r.visited| && 0 <= r.visited[k] < n && 0 <= x < n &&
        LooksFrom(r, j, k) <= x < LooksTo(r, n, k)
      ensures c[r.visited[k]][x] != 0.0
    {
      if k > 0 {
        assert r.visited[k] == w.visited[k - 1] && LooksFrom(r, j, k) == LooksFrom(w, j + 1, k - 1);
        assert LooksTo(r, n, k) == LooksTo(w, n, k - 1);
      }
    }
  }

  lemma LaterPassesNoZero(c: Matrix, n: nat, row: int, j: nat, w: Walked)
    requires Square(c, n) && 0 <= row < n && j < n && c[row][j] != 0.0
    requires |w.visited| <= |w.path| + 1 && |w.visited| > 0 && w.visited[0] == row
    requires PassesNoZero(c, n, j + 1, w)
    ensures PassesNoZero(c, n, j, w)
  {
    forall k, x | 0 <= k < |w.visited| && 0 <= w.visited[k] < n && 0 <= x < n &&
        LooksFrom(w, j, k) <= x < LooksTo(w, n, k)
      ensures c[w.visited[k]][x] != 0.0
    {
      assert k > 0 || x > j ==> LooksFrom(w, j + 1, k) <= x;
    }
  }

  /** A walk takes every zero it comes to. */
  lemma {:induction false} WalkPassesNoZero(c: Matrix, cols: seq<int>, n: nat, row: int, j: nat)
    requires Square(c, n) && |cols| == n && 0 <= row < n && j <= n
    requires forall k | 0 <= k < n :: cols[k] != -1 ==> 0 <= cols[k] < n
    ensures |Walk(c, cols, n, row, j).visited| <= |Walk(c, cols, n, row, j).path| + 1
    ensures PassesNoZero(c, n, j, Walk(c, cols, n, row, j))
    decreases n - j
  {
    WalkAlternates(c, cols, n, row, j);
    if j == n {
    } else if c[row][j] != 0.0 {
      WalkPassesNoZero(c, cols, n, row, j + 1);
      WalkAlternates(c, cols, n, row, j + 1);
      LaterPassesNoZero(c, n, row, j, Walk(c, cols, n, row, j + 1));
    } else if cols[j] != -1 {
      WalkPassesNoZero(c, cols, n, cols[j], j + 1);
      WalkAlternates(c, cols, n, cols[j], j + 1);
      PrependPassesNoZero(c, n, row, j, Walk(c, cols, n, cols[j], j + 1));
    }
  }

  /** The walk of the next turn: from the first unassigned row over all columns. */
  ghost function WalkOf(s: State, n: nat): Walked
    requires WellFormed(s, n) && !Done(s)
  {
    Walk(s.c, s.cols, n, FirstUnmatched(s.rows), 0)
  }

  lemma WalkFacts(s: State, n: nat)
    requires WellFormed(s, n) && !Done(s)
    ensures Alternates(s.cols, FirstUnmatched(s.rows), 0, WalkOf(s, n))
    ensures PathInRange(WalkOf(s, n).path, n) && OnZeros(s.c, n, WalkOf(s, n))
  {
    WalkAlternates(s.c, s.cols, n, FirstUnmatched(s.rows), 0);
    WalkOnZeros(s.c, s.cols, n, FirstUnmatched(s.rows), 0);
  }

  /** The walk of a turn takes every zero it comes to; with the facts above this leaves it no choice. */
  lemma WalkTakesEveryZero(s: State, n: nat)
    requires WellFormed(s, n) && !Done(s)
    ensures |WalkOf(s, n).visited| <= |WalkOf(s, n).path| + 1 && PassesNoZero(s.c, n, 0, WalkOf(s, n))
  {
    WalkPassesNoZero(s.c, s.cols, n, FirstUnmatched(s.rows), 0);
  }

  // ----- the machine -----

  ghost function Turn(s: State, n: nat): State
    requires WellFormed(s, n) && !Done(s)
  {
    WalkFacts(s, n);
    var w := WalkOf(s, n);
    if w.found then State(s.c, AugmentedRows(s.rows, w.path), AugmentedCols(s.cols, w.path))
    else
      match Scan(s.c, MarkedRows(w), MarkedCols(w), n)
      case Some(d) => s.(c := Adjusted(s.c, n, MarkedRows(w), MarkedCols(w), d))
      case None => s
  }

  function ReduceRows(m: Matrix, n: nat): (r: Matrix)
    requires Square(m, n)
    ensures Square(r, n)
  {
    seq(n, i requires 0 <= i < n => seq(n, j requires 0 <= j < n => m[i][j] - Least(m[i])))
  }

  function ReduceCols(m: Matrix, n: nat): (r: Matrix)
    requires Square(m, n)
    ensures Square(r, n)
  {
    seq(n, i requires 0 <= i < n => seq(n, j requires 0 <= j < n => m[i][j] - Least(Column(m, n, j))))
  }

  /** The first column from j on that holds a zero of the row and is free; |row| when none is. */
  function FirstFreeZero(row: seq<real>, cols: seq<int>, j: nat): (r: nat)
    requires |row| == |cols| && j <= |row|
    ensures j <= r <= |row|
    ensures r < |row| ==> row[r] == 0.0 && cols[r] == -1
    ensures forall x | j <= x < r :: row[x] != 0.0 || cols[x] != -1
    decreases |row| - j
  {
    if j == |row| || (row[j] == 0.0 && cols[j] == -1) then j else FirstFreeZero(row, cols, j + 1)
  }

  /** The greedy matching after the first i rows. */
  function Greedy(c: Matrix, n: nat, i: nat): (s: State)
    requires Square(c, n) && i <= n
    ensures s.c == c && |s.rows| == |s.cols| == n
  {
    if i == 0 then State(c, seq(n, _ => -1), seq(n, _ => -1))
    else
      var s := Greedy(c, n, i - 1);
      var j := FirstFreeZero(c[i - 1], s.cols, 0);
      if j == n then s else State(c, s.rows[i - 1 := j], s.cols[j := i - 1])
  }

  function Initial(m: Matrix, n: nat): State
    requires Square(m, n)
  {
    Greedy(ReduceCols(ReduceRows(m, n), n), n, n)
  }
}
