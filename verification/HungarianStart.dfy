/** What the two reductions and the greedy matching come to. */
module HungarianStart {
  import opened Matrices
  import opened HungarianSpec
  import opened HungarianOptimality

  /** d is the least of the n values of f, and one of them. */
  ghost predicate LeastOf(f: nat -> real, n: nat, d: real) {
    (forall k: nat | k < n :: d <= f(k)) && exists k: nat :: k < n && f(k) == d
  }

  ghost function RowOf(m: Matrix, n: nat, i: nat): nat -> real
    requires Square(m, n) && i < n
  {
    (j: nat) => if j < n then m[i][j] else 0.0
  }

  /** The j-th column of m after u[i] has been taken off row i. */
  ghost function ColumnLess(m: Matrix, n: nat, u: seq<real>, j: nat): nat -> real
    requires Square(m, n) && |u| == n && j < n
  {
    (i: nat) => if i < n then m[i][j] - u[i] else 0.0
  }

  /** u are the least entries of the rows, v those of the columns that are left. */
  ghost predicate Reduction(m: Matrix, n: nat, u: seq<real>, v: seq<real>)
    requires Square(m, n)
  {
    && |u| == |v| == n
    && (forall i | 0 <= i < n :: LeastOf(RowOf(m, n, i), n, u[i]))
    && (forall j | 0 <= j < n :: LeastOf(ColumnLess(m, n, u, j), n, v[j]))
  }

  lemma RowMinima(m: Matrix, n: nat, i: nat)
    requires Square(m, n) && i < n
    ensures LeastOf(RowOf(m, n, i), n, Least(m[i]))
  {
    var d := Least(m[i]);
    var k :| 0 <= k < n && m[i][k] == d;
    assert RowOf(m, n, i)(k) == d;
    forall l: nat | l < n ensures d <= RowOf(m, n, i)(l) {
      assert m[i][l] in m[i];
    }
  }

  lemma ColumnMinima(m: Matrix, n: nat, u: seq<real>, j: nat)
    requires Square(m, n) && |u| == n && j < n && forall i | 0 <= i < n :: u[i] == Least(m[i])
    ensures LeastOf(ColumnLess(m, n, u, j), n, Least(Column(ReduceRows(m, n), n, j)))
  {
    var col := Column(ReduceRows(m, n), n, j);
    var d := Least(col);
    var k :| 0 <= k < n && col[k] == d;
    assert ColumnLess(m, n, u, j)(k) == d;
    forall l: nat | l < n ensures d <= ColumnLess(m, n, u, j)(l) {
      assert col[l] in col;
    }
  }

  /**
   * The row reduction takes off each row its least entry, and the column reduction off each column
   * the least entry that is then left; no other amounts are taken off.
   */
  lemma ReductionIsByMinima(m: Matrix, n: nat) returns (u: seq<real>, v: seq<real>)
    requires Square(m, n)
    ensures Reduction(m, n, u, v)
    ensures forall i, j | 0 <= i < n && 0 <= j < n :: Initial(m, n).c[i][j] == m[i][j] - u[i] - v[j]
  {
    u := seq(n, i requires 0 <= i < n => Least(m[i]));
    v := seq(n, j requires 0 <= j < n => Least(Column(ReduceRows(m, n), n, j)));
    forall i | 0 <= i < n ensures LeastOf(RowOf(m, n, i), n, u[i]) {
      RowMinima(m, n, i);
    }
    forall j | 0 <= j < n ensures LeastOf(ColumnLess(m, n, u, j), n, v[j]) {
      ColumnMinima(m, n, u, j);
    }
  }

  // ----- the greedy matching -----

  /** Row k has been given the first column that held a zero and was free, or none if there was none. */
  ghost predicate TookFirst(s: State, n: nat, k: nat)
    requires Square(s.c, n) && |s.rows| == |s.cols| == n && k < n
  {
    var j := if s.rows[k] == -1 then n else s.rows[k];
    && (s.rows[k] != -1 ==> 0 <= j < n && s.c[k][j] == 0.0 && s.cols[j] == k)
    && forall x | 0 <= x < j && x < n && s.c[k][x] == 0.0 :: 0 <= s.cols[x] < k
  }

  lemma {:induction false} GreedyUses(c: Matrix, n: nat, i: nat)
    requires Square(c, n) && i <= n
    ensures forall x | 0 <= x < n :: -1 <= Greedy(c, n, i).cols[x] < i
    ensures forall k | i <= k < n :: Greedy(c, n, i).rows[k] == -1
  {
    if i > 0 {
      GreedyUses(c, n, i - 1);
    }
  }

  lemma {:induction false} GreedySoFar(c: Matrix, n: nat, i: nat, k: nat)
    requires Square(c, n) && k < i <= n
    ensures TookFirst(Greedy(c, n, i), n, k)
  {
    GreedyUses(c, n, i - 1);
    if k < i - 1 {
      GreedySoFar(c, n, i - 1, k);
    }
  }

  /** The greedy loop gives every row, in order, the first free column that holds a zero of the row. */
  lemma GreedyTakesFirst(m: Matrix, n: nat, k: nat)
    requires Square(m, n) && k < n
    ensures TookFirst(Initial(m, n), n, k)
  {
    GreedySoFar(ReduceCols(ReduceRows(m, n), n), n, n, k);
  }
}
