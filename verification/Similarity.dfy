/** distance_matrix, and what the similarity score 1 - cost / rows can be. */
module Similarity {
  import opened Options
  import opened Matrices
  import opened Numbers
  import opened Distance
  import HungarianOptimality

  /** A list of requests; None is the padding the source appends. */
  class Trace {
    var reqs: seq<Option<Request>>

    constructor (reqs: seq<Option<Request>>)
      ensures this.reqs == reqs
    {
      this.reqs := reqs;
    }
  }

  predicate AllReal(s: seq<Option<Request>>) {
    forall i | 0 <= i < |s| :: s[i].Some?
  }

  function Plain(s: seq<Option<Request>>): (r: seq<Request>)
    requires AllReal(s)
    ensures |r| == |s| && forall i | 0 <= i < |r| :: Some(r[i]) == s[i]
  {
    seq(|s|, i requires 0 <= i < |s| => s[i].value)
  }

  function Lift(s: seq<Request>): (r: seq<Option<Request>>)
    ensures |r| == |s|
  {
    seq(|s|, i requires 0 <= i < |s| => Some(s[i]))
  }

  function Padding(n: nat): (r: seq<Option<Request>>)
    ensures |r| == n
  {
    seq(n, _ => None)
  }

  function PaddingFor(n0: nat, n1: nat): seq<Option<Request>> {
    if n0 > n1 then Padding(n0 - n1) else []
  }

  /** The rows of the matrix: the first trace, or the shorter second one padded to its length. */
  function RowRequests(reqs0: seq<Request>, reqs1: seq<Request>): (rows: seq<Option<Request>>)
    ensures |rows| == |reqs0|
  {
    if |reqs0| > |reqs1| then Lift(reqs1) + Padding(|reqs0| - |reqs1|) else Lift(reqs0)
  }

  function ColumnRequests(reqs0: seq<Request>, reqs1: seq<Request>): seq<Request> {
    if |reqs0| > |reqs1| then reqs0 else reqs1
  }

  ghost predicate SqrtOfScales(sqrt: real -> real) {
    IncreasesFromZero(sqrt) && sqrt(MaxSumOfSquares()) > 0.0
  }

  lemma SqrtOfScalesPositive(sqrt: real -> real)
    requires IncreasesFromZero(sqrt)
    ensures SqrtOfScales(sqrt)
  {
    assert MaxSumOfSquares() > 0.0;
  }

  function Cells(rows: seq<Option<Request>>, cols: seq<Request>, delta: Delta, sqrt: real -> real): (m: Matrix)
    requires sqrt(MaxSumOfSquares()) != 0.0
    ensures |m| == |rows| && forall i | 0 <= i < |m| :: |m[i]| == |cols|
  {
    seq(|rows|, i requires 0 <= i < |rows| =>
      seq(|cols|, j requires 0 <= j < |cols| => DistanceTo(rows[i], cols[j], delta, sqrt)))
  }

  ghost function DistanceMatrixOf(reqs0: seq<Request>, reqs1: seq<Request>, sqrt: real -> real): (m: Matrix)
    requires reqs0 != [] && reqs1 != [] && IncreasesFromZero(sqrt)
    ensures |m| == |reqs0| && forall i | 0 <= i < |m| :: |m[i]| == |ColumnRequests(reqs0, reqs1)|
  {
    SqrtOfScalesPositive(sqrt);
    Cells(RowRequests(reqs0, reqs1), ColumnRequests(reqs0, reqs1), MaxDelta(reqs0, reqs1), sqrt)
  }

  ghost predicate Shows(a: array2<real>, m: Matrix)
    reads a
  {
    && a.Length0 == |m| && (forall i | 0 <= i < |m| :: |m[i]| == a.Length1)
    && forall i, j | 0 <= i < a.Length0 && 0 <= j < a.Length1 :: a[i, j] == m[i][j]
  }

  method FillRows(rows: seq<Option<Request>>, cols: seq<Request>, delta: Delta, sqrt: real -> real)
    returns (a: array2<real>)
    requires sqrt(MaxSumOfSquares()) != 0.0
    ensures fresh(a) && Shows(a, Cells(rows, cols, delta, sqrt))
  {
    a := new real[|rows|, |cols|];
    ghost var m := Cells(rows, cols, delta, sqrt);
    for i := 0 to |rows|
      invariant forall k, j | 0 <= k < i && 0 <= j < |cols| :: a[k, j] == m[k][j]
    {
      for j := 0 to |cols|
        invariant forall k, l | 0 <= k < i && 0 <= l < |cols| :: a[k, l] == m[k][l]
        invariant forall l | 0 <= l < j :: a[i, l] == m[i][l]
      {
        a[i, j] := DistanceTo(rows[i], cols[j], delta, sqrt);
      }
    }
  }

  /** The swap and the padding: which trace gives the rows and which one the columns. */
  method Arrange(trace0: Trace, trace1: Trace) returns (rows: Trace, columns: Trace)
    requires AllReal(trace0.reqs) && AllReal(trace1.reqs)
    modifies trace0, trace1
    ensures trace0.reqs == old(trace0.reqs)
    ensures trace1.reqs == old(trace1.reqs) + PaddingFor(|old(trace0.reqs)|, |old(trace1.reqs)|)
    ensures rows.reqs == RowRequests(Plain(old(trace0.reqs)), Plain(old(trace1.reqs)))
    ensures AllReal(columns.reqs)
    ensures Plain(columns.reqs) == ColumnRequests(Plain(old(trace0.reqs)), Plain(old(trace1.reqs)))
  {
    rows, columns := trace0, trace1;
    if |rows.reqs| > |columns.reqs| {
      rows, columns := columns, rows;
      rows.reqs := rows.reqs + Padding(|columns.reqs| - |rows.reqs|);
    }
  }

  /**
   * The matrix of two traces. The second trace, when shorter, is padded in place; None is the
   * ValueError that max and min raise on an empty trace.
   */
  method DistanceMatrix(trace0: Trace, trace1: Trace, sqrt: real -> real) returns (m: Option<array2<real>>)
    requires AllReal(trace0.reqs) && AllReal(trace1.reqs) && IncreasesFromZero(sqrt)
    modifies trace0, trace1
    ensures m.None? <==> old(trace0.reqs) == [] || old(trace1.reqs) == []
    ensures trace0.reqs == old(trace0.reqs)
    ensures m.None? ==> trace1.reqs == old(trace1.reqs)
    ensures m.Some? ==> trace1.reqs == old(trace1.reqs) + PaddingFor(|old(trace0.reqs)|, |old(trace1.reqs)|)
    ensures m.Some? ==> Shows(m.value, DistanceMatrixOf(Plain(old(trace0.reqs)), Plain(old(trace1.reqs)), sqrt))
  {
    var reqs0, reqs1 := Plain(trace0.reqs), Plain(trace1.reqs);
    if reqs0 == [] || reqs1 == [] {
      return None;
    }
    SqrtOfScalesPositive(sqrt);
    var delta := MaxDelta(reqs0, reqs1);
    var rows, columns := Arrange(trace0, trace1);
    var a := FillRows(rows.reqs, Plain(columns.reqs), delta, sqrt);
    m := Some(a);
  }

  // ----- bounds on the matrix and on the score -----

  /**
   * All that the score depends on: entries are in [0, 1], a padding row holds ones, and an entry
   * is 0 exactly when its row is a real request that agrees with its column on every key.
   */
  ghost predicate Faithful(m: Matrix, rows: seq<Option<Request>>, cols: seq<Request>) {
    && |m| == |rows| && (forall i | 0 <= i < |m| :: |m[i]| == |cols|)
    && (forall i, j | 0 <= i < |rows| && 0 <= j < |cols| :: FaithfulCell(m[i][j], rows[i], cols[j]))
  }

  predicate FaithfulCell(x: real, row: Option<Request>, col: Request) {
    0.0 <= x <= 1.0 && (x == 0.0 <==> row == Some(col)) && (row.None? ==> x == 1.0)
  }

  lemma CellIsFaithful(row: Option<Request>, col: Request, delta: Delta, sqrt: real -> real)
    requires SqrtOfScales(sqrt) && (row.Some? ==> Covered(row.value, col, delta))
    ensures FaithfulCell(DistanceTo(row, col, delta, sqrt), row, col)
  {
    if row.Some? {
      DistanceBound(row.value, col, delta, sqrt);
    }
  }

  lemma RowsAreCovered(reqs0: seq<Request>, reqs1: seq<Request>, i: nat, j: nat)
    requires reqs0 != [] && reqs1 != []
    requires i < |RowRequests(reqs0, reqs1)| && j < |ColumnRequests(reqs0, reqs1)|
    requires RowRequests(reqs0, reqs1)[i].Some?
    ensures Covered(RowRequests(reqs0, reqs1)[i].value, ColumnRequests(reqs0, reqs1)[j], MaxDelta(reqs0, reqs1))
  {
    if |reqs0| > |reqs1| {
      assert i < |reqs1|;
      MaxDeltaCovers(reqs0, reqs1, j, i);
    } else {
      MaxDeltaCovers(reqs0, reqs1, i, j);
    }
  }

  lemma DistanceMatrixIsFaithful(reqs0: seq<Request>, reqs1: seq<Request>, sqrt: real -> real)
    requires reqs0 != [] && reqs1 != [] && IncreasesFromZero(sqrt)
    ensures Faithful(DistanceMatrixOf(reqs0, reqs1, sqrt), RowRequests(reqs0, reqs1), ColumnRequests(reqs0, reqs1))
  {
    SqrtOfScalesPositive(sqrt);
    var rows, cols, delta := RowRequests(reqs0, reqs1), ColumnRequests(reqs0, reqs1), MaxDelta(reqs0, reqs1);
    forall i, j | 0 <= i < |rows| && 0 <= j < |cols|
      ensures FaithfulCell(DistanceTo(rows[i], cols[j], delta, sqrt), rows[i], cols[j])
    {
      if rows[i].Some? {
        RowsAreCovered(reqs0, reqs1, i, j);
      }
      CellIsFaithful(rows[i], cols[j], delta, sqrt);
    }
  }

  /**
   * Rows are the first trace and columns the second, unless the first is longer; then the other
   * way round, with rows that have no request of their own behind the others.
   */
  lemma RowsArranged(reqs0: seq<Request>, reqs1: seq<Request>, i: nat)
    requires i < |reqs0|
    ensures RowRequests(reqs0, reqs1)[i] ==
      if |reqs0| <= |reqs1| then Some(reqs0[i]) else if i < |reqs1| then Some(reqs1[i]) else None
    ensures ColumnRequests(reqs0, reqs1) == if |reqs0| <= |reqs1| then reqs1 else reqs0
  {
  }

  lemma CellAt(rows: seq<Option<Request>>, cols: seq<Request>, delta: Delta, sqrt: real -> real, i: nat, j: nat)
    requires sqrt(MaxSumOfSquares()) != 0.0 && i < |rows| && j < |cols|
    ensures Cells(rows, cols, delta, sqrt)[i][j] == DistanceTo(rows[i], cols[j], delta, sqrt)
  {
  }

  /** Every entry is the distance of its row and its column, scaled by the largest differences of the two traces. */
  lemma MatrixCells(reqs0: seq<Request>, reqs1: seq<Request>, sqrt: real -> real, i: nat, j: nat)
    requires reqs0 != [] && reqs1 != [] && SqrtOfScales(sqrt)
    requires i < |reqs0| && j < |ColumnRequests(reqs0, reqs1)|
    ensures DistanceMatrixOf(reqs0, reqs1, sqrt)[i][j] ==
      DistanceTo(RowRequests(reqs0, reqs1)[i], ColumnRequests(reqs0, reqs1)[j], MaxDelta(reqs0, reqs1), sqrt)
  {
    CellAt(RowRequests(reqs0, reqs1), ColumnRequests(reqs0, reqs1), MaxDelta(reqs0, reqs1), sqrt, i, j);
  }

  /** An assignment gives every row a column of its own. */
  ghost predicate IsAssignment(a: seq<int>, rows: nat, cols: nat) {
    |a| == rows && (forall i | 0 <= i < rows :: 0 <= a[i] < cols) && Distinct(a)
  }

  ghost function AssignedTo(m: Matrix, a: seq<int>, k: nat): real
    requires k <= |m| == |a| && forall i | 0 <= i < |a| :: 0 <= a[i] < |m[i]|
  {
    if k == 0 then 0.0 else AssignedTo(m, a, k - 1) + m[k - 1][a[k - 1]]
  }

  /** 1 - cost / m.shape[0], with the cost of the given assignment. */
  ghost function Score(m: Matrix, a: seq<int>): real
    requires 0 < |m| == |a| && forall i | 0 <= i < |a| :: 0 <= a[i] < |m[i]|
  {
    1.0 - AssignedTo(m, a, |m|) / |m| as real
  }

  /** The share that the score leaves is the cost per row. */
  lemma ScoreEquation(m: Matrix, a: seq<int>)
    requires 0 < |m| == |a| && forall i | 0 <= i < |a| :: 0 <= a[i] < |m[i]|
    ensures Score(m, a) * |m| as real + AssignedTo(m, a, |m|) == |m| as real
  {
    var c, n := AssignedTo(m, a, |m|), |m| as real;
    assert c / n * n == c;
    assert (1.0 - c / n) * n == n - c / n * n;
  }

  lemma {:induction false} AssignedBound(m: Matrix, rows: seq<Option<Request>>, cols: seq<Request>, a: seq<int>, k: nat)
    requires Faithful(m, rows, cols) && IsAssignment(a, |rows|, |cols|) && k <= |rows|
    ensures 0.0 <= AssignedTo(m, a, k) <= k as real
    ensures AssignedTo(m, a, k) == 0.0 <==> forall i | 0 <= i < k :: rows[i] == Some(cols[a[i]])
  {
    if k > 0 {
      AssignedBound(m, rows, cols, a, k - 1);
      assert FaithfulCell(m[k - 1][a[k - 1]], rows[k - 1], cols[a[k - 1]]);
    }
  }

  lemma FaithfulScore(m: Matrix, rows: seq<Option<Request>>, cols: seq<Request>, a: seq<int>)
    requires Faithful(m, rows, cols) && IsAssignment(a, |rows|, |cols|) && rows != []
    ensures 0.0 <= Score(m, a) <= 1.0
    ensures Score(m, a) == 1.0 <==> AssignedTo(m, a, |m|) == 0.0
    ensures Score(m, a) == 1.0 <==> forall i | 0 <= i < |rows| :: rows[i] == Some(cols[a[i]])
  {
    AssignedBound(m, rows, cols, a, |rows|);
    var c, n := AssignedTo(m, a, |m|), |m| as real;
    Ratio(c, n);
  }

  /** The score of two traces under the given assignment of rows to columns. */
  ghost function TraceScore(reqs0: seq<Request>, reqs1: seq<Request>, sqrt: real -> real, a: seq<int>): real
    requires reqs0 != [] && reqs1 != [] && IncreasesFromZero(sqrt)
    requires IsAssignment(a, |reqs0|, |ColumnRequests(reqs0, reqs1)|)
  {
    var m := DistanceMatrixOf(reqs0, reqs1, sqrt);
    assert forall i | 0 <= i < |a| :: 0 <= a[i] < |ColumnRequests(reqs0, reqs1)| == |m[i]|;
    Score(m, a)
  }

  /** The score of every assignment of non-empty traces lies between 0 and 1. */
  lemma ScoreBound(reqs0: seq<Request>, reqs1: seq<Request>, sqrt: real -> real, a: seq<int>)
    requires reqs0 != [] && reqs1 != [] && IncreasesFromZero(sqrt)
    requires IsAssignment(a, |reqs0|, |ColumnRequests(reqs0, reqs1)|)
    ensures 0.0 <= TraceScore(reqs0, reqs1, sqrt, a) <= 1.0
  {
    DistanceMatrixIsFaithful(reqs0, reqs1, sqrt);
    FaithfulScore(DistanceMatrixOf(reqs0, reqs1, sqrt), RowRequests(reqs0, reqs1), ColumnRequests(reqs0, reqs1), a);
  }

  /** a sends every request of the first trace to an equal request of the second, each to its own. */
  ghost predicate Embeds(reqs0: seq<Request>, reqs1: seq<Request>, a: seq<int>) {
    IsAssignment(a, |reqs0|, |reqs1|) && forall i | 0 <= i < |reqs0| :: reqs0[i] == reqs1[a[i]]
  }

  lemma RowsMatchIffEmbeds(reqs0: seq<Request>, reqs1: seq<Request>, a: seq<int>)
    requires reqs0 != [] && reqs1 != []
    requires IsAssignment(a, |reqs0|, |ColumnRequests(reqs0, reqs1)|)
    ensures (forall i | 0 <= i < |reqs0| :: RowRequests(reqs0, reqs1)[i] == Some(ColumnRequests(reqs0, reqs1)[a[i]]))
      <==> |reqs0| <= |reqs1| && Embeds(reqs0, reqs1, a)
  {
    if |reqs0| > |reqs1| {
      assert RowRequests(reqs0, reqs1)[|reqs1|].None?;
    }
  }

  lemma PerfectFaithfulScore(m: Matrix, reqs0: seq<Request>, reqs1: seq<Request>, a: seq<int>)
    requires reqs0 != [] && reqs1 != []
    requires Faithful(m, RowRequests(reqs0, reqs1), ColumnRequests(reqs0, reqs1))
    requires IsAssignment(a, |reqs0|, |ColumnRequests(reqs0, reqs1)|)
    ensures Score(m, a) == 1.0 <==> |reqs0| <= |reqs1| && Embeds(reqs0, reqs1, a)
  {
    FaithfulScore(m, RowRequests(reqs0, reqs1), ColumnRequests(reqs0, reqs1), a);
    RowsMatchIffEmbeds(reqs0, reqs1, a);
  }

  /**
   * An assignment scores exactly 1 just when it embeds the first trace into the second one; a
   * first trace longer than the second can never score 1, because of the padding.
   */
  lemma PerfectScore(reqs0: seq<Request>, reqs1: seq<Request>, sqrt: real -> real, a: seq<int>)
    requires reqs0 != [] && reqs1 != [] && IncreasesFromZero(sqrt)
    requires IsAssignment(a, |reqs0|, |ColumnRequests(reqs0, reqs1)|)
    ensures TraceScore(reqs0, reqs1, sqrt, a) == 1.0 <==> |reqs0| <= |reqs1| && Embeds(reqs0, reqs1, a)
  {
    DistanceMatrixIsFaithful(reqs0, reqs1, sqrt);
    PerfectFaithfulScore(DistanceMatrixOf(reqs0, reqs1, sqrt), reqs0, reqs1, a);
  }

  lemma {:induction false} AssignedIsCost(m: Matrix, a: seq<int>, n: nat, k: nat)
    requires Matrices.Square(m, n) && IsPermutation(a, n) && k <= n
    ensures AssignedTo(m, a, k) == CostTo(m, a, n, k)
  {
    if k > 0 {
      AssignedIsCost(m, a, n, k - 1);
    }
  }

  lemma CheapestIsFree(m: Matrix, rows: seq<Option<Request>>, cols: seq<Request>, q: seq<int>, p: seq<int>)
    requires Faithful(m, rows, cols) && |rows| == |cols| && rows != []
    requires IsPermutation(q, |rows|) && AssignedTo(m, q, |m|) == 0.0
    requires HungarianOptimality.Cheapest(m, |rows|, p)
    ensures AssignedTo(m, p, |m|) == 0.0
  {
    AssignedBound(m, rows, cols, p, |rows|);
    AssignedIsCost(m, q, |rows|, |rows|);
    AssignedIsCost(m, p, |rows|, |rows|);
    assert Cost(m, p, |rows|) <= Cost(m, q, |rows|);
  }

  /** A trace compared with any reordering of itself: every cheapest assignment scores exactly 1. */
  lemma ReorderingScoresOne(reqs0: seq<Request>, reqs1: seq<Request>, sqrt: real -> real, order: seq<int>, p: seq<int>)
    requires reqs0 != [] && |reqs0| == |reqs1| && IncreasesFromZero(sqrt) && Embeds(reqs0, reqs1, order)
    requires Matrices.Square(DistanceMatrixOf(reqs0, reqs1, sqrt), |reqs0|)
    requires HungarianOptimality.Cheapest(DistanceMatrixOf(reqs0, reqs1, sqrt), |reqs0|, p)
    ensures TraceScore(reqs0, reqs1, sqrt, p) == 1.0
    ensures Embeds(reqs0, reqs1, p)
  {
    var m, rows, cols := DistanceMatrixOf(reqs0, reqs1, sqrt), RowRequests(reqs0, reqs1), ColumnRequests(reqs0, reqs1);
    DistanceMatrixIsFaithful(reqs0, reqs1, sqrt);
    PerfectScore(reqs0, reqs1, sqrt, order);
    FaithfulScore(m, rows, cols, order);
    CheapestIsFree(m, rows, cols, order, p);
    FaithfulScore(m, rows, cols, p);
    PerfectScore(reqs0, reqs1, sqrt, p);
  }
}
