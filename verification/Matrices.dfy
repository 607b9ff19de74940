/** Real matrices, permutations and sums: the vocabulary of the assignment problem. */
module Matrices {
  import opened Numbers

  type Matrix = seq<seq<real>>

  predicate Square(c: Matrix, n: nat) {
    |c| == n && forall i | 0 <= i < n :: |c[i]| == n
  }

  /** p assigns column p[i] to row i, each column once. */
  predicate IsPermutation(p: seq<int>, n: nat) {
    |p| == n && (forall i | 0 <= i < n :: 0 <= p[i] < n) && Distinct(p)
  }

  function SumTo(v: seq<real>, k: nat): real
    requires k <= |v|
  {
    if k == 0 then 0.0 else SumTo(v, k - 1) + v[k - 1]
  }

  function Total(v: seq<real>): real {
    SumTo(v, |v|)
  }

  /** The cost of the first k rows under the assignment p. */
  function CostTo(c: Matrix, p: seq<int>, n: nat, k: nat): real
    requires Square(c, n) && |p| == n && k <= n
    requires forall i | 0 <= i < n :: 0 <= p[i] < n
  {
    if k == 0 then 0.0 else CostTo(c, p, n, k - 1) + c[k - 1][p[k - 1]]
  }

  function Cost(c: Matrix, p: seq<int>, n: nat): real
    requires Square(c, n) && IsPermutation(p, n)
  {
    CostTo(c, p, n, n)
  }

  function Range(n: nat): (r: set<int>)
    ensures forall i :: i in r <==> 0 <= i < n
    ensures |r| == n
  {
    if n == 0 then {} else Range(n - 1) + {n - 1}
  }

  function Elements(s: seq<int>): set<int> {
    set x | x in s
  }

  lemma {:induction false} DistinctSize(s: seq<int>)
    requires Distinct(s)
    ensures |Elements(s)| == |s|
  {
    if s != [] {
      var t := s[..|s| - 1];
      DistinctSize(t);
      assert s == t + [s[|s| - 1]];
      assert Elements(s) == Elements(t) + {s[|s| - 1]};
      assert s[|s| - 1] !in Elements(t);
    }
  }

  lemma SubsetSize(a: set<int>, b: set<int>)
    requires a <= b
    ensures |a| <= |b|
    ensures |a| == |b| ==> a == b
  {
    assert b == a + (b - a);
    assert |b| == |a| + |b - a|;
  }

  /** Pigeonhole: a set smaller than another one below n misses some index below n. */
  lemma OneMissing(a: set<int>, b: set<int>, n: nat)
    requires a <= Range(n) && |b| < |a|
    ensures exists j :: 0 <= j < n && j !in b
  {
    var d := a - b;
    assert a == d + a * b;
    SubsetSize(a * b, b);
    assert |d| > 0;
    var x: int :| x in d;
    assert x in Range(n);
  }

  /** A permutation hits every column. */
  lemma PermutationCovers(p: seq<int>, n: nat)
    requires IsPermutation(p, n)
    ensures Elements(p) == Range(n)
  {
    DistinctSize(p);
    SubsetSize(Elements(p), Range(n));
  }

  /** The sum of v over the indices in s that are below k. */
  function SumIn(v: seq<real>, s: set<int>, k: nat): real
    requires k <= |v|
  {
    if k == 0 then 0.0 else SumIn(v, s, k - 1) + (if k - 1 in s then v[k - 1] else 0.0)
  }

  lemma {:induction false} SumInInsert(v: seq<real>, s: set<int>, x: int, k: nat)
    requires k <= |v| && 0 <= x < |v| && x !in s
    ensures SumIn(v, s + {x}, k) == SumIn(v, s, k) + if x < k then v[x] else 0.0
  {
    if k > 0 {
      SumInInsert(v, s, x, k - 1);
    }
  }

  lemma {:induction false} SumInEmpty(v: seq<real>, k: nat)
    requires k <= |v|
    ensures SumIn(v, {}, k) == 0.0
  {
    if k > 0 {
      SumInEmpty(v, k - 1);
    }
  }

  lemma {:induction false} SumInRange(v: seq<real>, s: set<int>, k: nat)
    requires k <= |v| && forall j | 0 <= j < k :: j in s
    ensures SumIn(v, s, k) == SumTo(v, k)
  {
    if k > 0 {
      SumInRange(v, s, k - 1);
    }
  }

  /** The values of v picked out by the first k entries of p. */
  function PickTo(v: seq<real>, p: seq<int>, k: nat): real
    requires k <= |p| && forall i | 0 <= i < |p| :: 0 <= p[i] < |v|
  {
    if k == 0 then 0.0 else PickTo(v, p, k - 1) + v[p[k - 1]]
  }

  lemma {:induction false} PickIsSumIn(v: seq<real>, p: seq<int>, k: nat)
    requires k <= |p| && Distinct(p) && forall i | 0 <= i < |p| :: 0 <= p[i] < |v|
    ensures PickTo(v, p, k) == SumIn(v, Elements(p[..k]), |v|)
  {
    if k == 0 {
      assert Elements(p[..0]) == {};
      SumInEmpty(v, |v|);
    } else {
      PickIsSumIn(v, p, k - 1);
      assert p[..k] == p[..k - 1] + [p[k - 1]];
      assert Elements(p[..k]) == Elements(p[..k - 1]) + {p[k - 1]};
      SumInInsert(v, Elements(p[..k - 1]), p[k - 1], |v|);
    }
  }

  /** Reordering the summands does not change the total. */
  lemma PermutedTotal(v: seq<real>, p: seq<int>)
    requires IsPermutation(p, |v|)
    ensures PickTo(v, p, |p|) == Total(v)
  {
    PickIsSumIn(v, p, |p|);
    assert p[..|p|] == p;
    PermutationCovers(p, |v|);
    SumInRange(v, Elements(p), |v|);
  }

  /** The least element of a non-empty row, as a left-to-right fold. */
  function LeastTo(s: seq<real>, k: nat): (m: real)
    requires 1 <= k <= |s|
    ensures forall i | 0 <= i < k :: m <= s[i]
    ensures exists i :: 0 <= i < k && s[i] == m
  {
    if k == 1 then s[0]
    else
      var m := LeastTo(s, k - 1);
      if s[k - 1] < m then s[k - 1] else m
  }

  function Least(s: seq<real>): (m: real)
    requires s != []
    ensures m in s && forall x | x in s :: m <= x
  {
    LeastTo(s, |s|)
  }

  function Column(c: Matrix, n: nat, j: nat): (col: seq<real>)
    requires Square(c, n) && j < n
    ensures |col| == n
  {
    seq(n, i requires 0 <= i < n => c[i][j])
  }
}
