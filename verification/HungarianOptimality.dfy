/** The primal-dual invariant, and why an assignment that reaches the end is the cheapest one. */
module HungarianOptimality {
  import opened Matrices
  import opened Numbers
  import opened HungarianSpec
  import opened HungarianSteps

  /** One price per row and one per column. */
  datatype Duals = Duals(u: seq<real>, v: seq<real>) {
    ghost function Sum(): real { Total(u) + Total(v) }
  }

  /**
   * The reduced matrix is the original one minus the prices, nothing is negative, every matched
   * cell is exactly zero, and the match lists are mutually inverse.
   */
  ghost predicate Inv(m: Matrix, y: Duals, s: State, n: nat) {
    && Square(m, n) && |y.u| == |y.v| == n
    && WellFormed(s, n)
    && (forall i, j | 0 <= i < n && 0 <= j < n :: s.c[i][j] == m[i][j] - y.u[i] - y.v[j])
    && NonNegative(s.c, n)
    && MatchedAreZero(s, n)
  }

  ghost predicate NonNegative(c: Matrix, n: nat)
    requires Square(c, n)
  {
    forall i, j | 0 <= i < n && 0 <= j < n :: c[i][j] >= 0.0
  }

  ghost predicate MatchedAreZero(s: State, n: nat)
    requires WellFormed(s, n)
  {
    forall i | 0 <= i < n :: s.rows[i] != -1 ==> s.c[i][s.rows[i]] == 0.0
  }

  // ----- the start -----

  function InitialDuals(m: Matrix, n: nat): Duals
    requires Square(m, n)
  {
    var r := ReduceRows(m, n);
    Duals(seq(n, i requires 0 <= i < n => Least(m[i])),
          seq(n, j requires 0 <= j < n => Least(Column(r, n, j))))
  }

  /** Matching an unmatched row with a free column at a zero. */
  lemma MatchOneMore(s: State, n: nat, i: nat, j: nat)
    requires WellFormed(s, n) && MatchedAreZero(s, n)
    requires i < n && j < n && s.rows[i] == s.cols[j] == -1 && s.c[i][j] == 0.0
    ensures var t := State(s.c, s.rows[i := j], s.cols[j := i]);
      WellFormed(t, n) && MatchedAreZero(t, n)
  {
  }

  lemma {:induction false} GreedyMatches(c: Matrix, n: nat, i: nat)
    requires Square(c, n) && i <= n
    ensures var s := Greedy(c, n, i);
      && WellFormed(s, n) && MatchedAreZero(s, n)
      && forall k | i <= k < n :: s.rows[k] == -1
  {
    if i > 0 {
      GreedyMatches(c, n, i - 1);
      var s := Greedy(c, n, i - 1);
      var j := FirstFreeZero(c[i - 1], s.cols, 0);
      if j < n {
        MatchOneMore(s, n, i - 1, j);
      }
    }
  }

  /** The column reduction leaves nothing below zero, whatever the row reduction produced. */
  lemma ReductionNonNegative(m: Matrix, n: nat)
    requires Square(m, n)
    ensures NonNegative(ReduceCols(m, n), n)
  {
    forall i, j | 0 <= i < n && 0 <= j < n ensures ReduceCols(m, n)[i][j] >= 0.0 {
      assert Column(m, n, j)[i] == m[i][j];
    }
  }

  lemma InitialInv(m: Matrix, n: nat)
    requires Square(m, n)
    ensures Inv(m, InitialDuals(m, n), Initial(m, n), n)
  {
    var r := ReduceRows(m, n);
    ReductionNonNegative(r, n);
    GreedyMatches(ReduceCols(r, n), n, n);
  }

  // ----- one turn -----

  ghost function Shift(a: seq<real>, marks: set<int>, d: real): (r: seq<real>)
    ensures |r| == |a|
  {
    seq(|a|, i requires 0 <= i < |a| => a[i] + if i in marks then d else 0.0)
  }

  ghost function TurnDuals(s: State, n: nat, y: Duals): Duals
    requires WellFormed(s, n) && !Done(s)
  {
    var w := WalkOf(s, n);
    if w.found then y
    else Duals(Shift(y.u, MarkedRows(w), MinVal(s, n)), Shift(y.v, MarkedCols(w), -MinVal(s, n)))
  }

  lemma AugmentKeepsZeros(s: State, n: nat)
    requires WellFormed(s, n) && !Done(s) && WalkOf(s, n).found && MatchedAreZero(s, n)
    ensures WellFormed(Turn(s, n), n) && MatchedAreZero(Turn(s, n), n)
  {
    var w, t := WalkOf(s, n), Turn(s, n);
    WalkFacts(s, n);
    TurnWellFormed(s, n);
    AugmentedAt(s.rows, s.cols, FirstUnmatched(s.rows), w);
    forall i | 0 <= i < n && t.rows[i] != -1 ensures t.c[i][t.rows[i]] == 0.0 {
      if i in w.visited {
        var k :| 0 <= k < |w.visited| && w.visited[k] == i;
        assert t.rows[w.path[k].0] == w.path[k].1;
      }
    }
  }

  /** The adjusted matrix is the old one repriced; matched zeros survive and nothing goes negative. */
  lemma AdjustKeeps(s: State, n: nat)
    requires WellFormed(s, n) && !Done(s) && !WalkOf(s, n).found
    requires NonNegative(s.c, n) && MatchedAreZero(s, n)
    ensures WellFormed(Turn(s, n), n) && NonNegative(Turn(s, n).c, n) && MatchedAreZero(Turn(s, n), n)
    ensures MinVal(s, n) >= 0.0
  {
    var w, t, d := WalkOf(s, n), Turn(s, n), MinVal(s, n);
    WalkFacts(s, n);
    MinValIsLeast(s, n);
    forall i, j | 0 <= i < n && 0 <= j < n ensures t.c[i][j] >= 0.0 {
      assert Uncovered(n, MarkedRows(w), MarkedCols(w), i, j) ==> d <= s.c[i][j];
    }
    forall i | 0 <= i < n && t.rows[i] != -1 ensures t.c[i][t.rows[i]] == 0.0 {
      VisitsFollowMatching(s.rows, s.cols, FirstUnmatched(s.rows), w, i);
    }
  }

  /** Every turn of the inner loop keeps the invariant. */
  lemma TurnKeepsInv(m: Matrix, y: Duals, s: State, n: nat)
    requires Inv(m, y, s, n) && !Done(s)
    ensures Inv(m, TurnDuals(s, n, y), Turn(s, n), n)
  {
    if WalkOf(s, n).found {
      AugmentKeepsZeros(s, n);
    } else {
      MinValIsLeast(s, n);
      AdjustKeeps(s, n);
    }
  }

  /** d added up k times. */
  function Times(k: nat, d: real): real {
    if k == 0 then 0.0 else Times(k - 1, d) + d
  }

  lemma {:induction false} TimesNegated(k: nat, d: real)
    ensures Times(k, -d) == -Times(k, d)
  {
    if k > 0 {
      TimesNegated(k - 1, d);
    }
  }

  lemma MarkedUpTo(marks: set<int>, k: nat)
    requires k > 0
    ensures |marks * Range(k)| == |marks * Range(k - 1)| + if k - 1 in marks then 1 else 0
  {
    if k - 1 in marks {
      assert marks * Range(k) == marks * Range(k - 1) + {k - 1};
    } else {
      assert marks * Range(k) == marks * Range(k - 1);
    }
  }

  lemma {:induction false} ShiftTotal(a: seq<real>, marks: set<int>, d: real, k: nat)
    requires k <= |a|
    ensures SumTo(Shift(a, marks, d), k) == SumTo(a, k) + Times(|marks * Range(k)|, d)
  {
    if k == 0 {
      assert marks * Range(0) == {};
    } else {
      ShiftTotal(a, marks, d, k - 1);
      MarkedUpTo(marks, k);
    }
  }

  lemma ShiftWhole(a: seq<real>, marks: set<int>, d: real)
    requires marks <= Range(|a|)
    ensures Total(Shift(a, marks, d)) == Total(a) + Times(|marks|, d)
  {
    ShiftTotal(a, marks, d, |a|);
    assert marks * Range(|a|) == marks;
  }

  lemma ShiftBoth(u: seq<real>, v: seq<real>, mr: set<int>, mc: set<int>, d: real)
    requires mr <= Range(|u|) && mc <= Range(|v|) && |mr| == |mc| + 1
    ensures Total(Shift(u, mr, d)) + Total(Shift(v, mc, -d)) == Total(u) + Total(v) + d
  {
    ShiftWhole(u, mr, d);
    ShiftWhole(v, mc, -d);
    TimesNegated(|mc|, d);
  }

  /** A failed walk raises the dual total by exactly the amount it shifts by. */
  lemma FailedWalkRaisesDuals(s: State, n: nat, y: Duals)
    requires WellFormed(s, n) && !Done(s) && !WalkOf(s, n).found && |y.u| == |y.v| == n
    ensures TurnDuals(s, n, y).Sum() == y.Sum() + MinVal(s, n)
  {
    var w := WalkOf(s, n);
    WalkFacts(s, n);
    FailedWalkMarks(s.rows, s.cols, FirstUnmatched(s.rows), w);
    ShiftBoth(y.u, y.v, MarkedRows(w), MarkedCols(w), MinVal(s, n));
  }

  // ----- duality -----

  lemma {:induction false} RepricedCost(m: Matrix, y: Duals, s: State, n: nat, p: seq<int>, k: nat)
    requires Inv(m, y, s, n) && k <= n
    requires |p| == n && forall i | 0 <= i < n :: 0 <= p[i] < n
    ensures CostTo(m, p, n, k) == CostTo(s.c, p, n, k) + SumTo(y.u, k) + PickTo(y.v, p, k)
    ensures CostTo(s.c, p, n, k) >= 0.0
  {
    if k > 0 {
      RepricedCost(m, y, s, n, p, k - 1);
      assert s.c[k - 1][p[k - 1]] == m[k - 1][p[k - 1]] - y.u[k - 1] - y.v[p[k - 1]];
    }
  }

  /** Weak duality: the dual total never exceeds the cost of any permutation. */
  lemma DualsBelowEveryPermutation(m: Matrix, y: Duals, s: State, n: nat, p: seq<int>)
    requires Inv(m, y, s, n) && IsPermutation(p, n)
    ensures Cost(m, p, n) == Cost(s.c, p, n) + y.Sum()
    ensures y.Sum() <= Cost(m, p, n)
  {
    RepricedCost(m, y, s, n, p, n);
    PermutedTotal(y.v, p);
  }

  lemma {:induction false} MatchedCostIsZero(s: State, n: nat, k: nat)
    requires WellFormed(s, n) && MatchedAreZero(s, n) && Done(s) && k <= n
    requires forall i | 0 <= i < n :: 0 <= s.rows[i] < n
    ensures CostTo(s.c, s.rows, n, k) == 0.0
  {
    if k > 0 {
      MatchedCostIsZero(s, n, k - 1);
      assert s.rows[k - 1] != -1;
    }
  }

  ghost predicate Cheapest(m: Matrix, n: nat, p: seq<int>)
    requires Square(m, n)
  {
    IsPermutation(p, n) && forall q | IsPermutation(q, n) :: Cost(m, p, n) <= Cost(m, q, n)
  }

  /**
   * When no row is left unassigned the match list is a permutation, it costs exactly the dual
   * total in the original matrix (and nothing in the reduced one), and no permutation is cheaper.
   */
  lemma DoneIsCheapest(m: Matrix, y: Duals, s: State, n: nat)
    requires Inv(m, y, s, n) && Done(s)
    ensures Cheapest(m, n, s.rows)
    ensures Cost(m, s.rows, n) == y.Sum() && Cost(s.c, s.rows, n) == 0.0
  {
    forall i | 0 <= i < n ensures s.rows[i] != -1 {
      assert s.rows[i] in s.rows;
    }
    assert Distinct(s.rows) by {
      forall i, k | 0 <= i < k < n ensures s.rows[i] != s.rows[k] {
        assert s.cols[s.rows[i]] == i && s.cols[s.rows[k]] == k;
      }
    }
    MatchedCostIsZero(s, n, n);
    DualsBelowEveryPermutation(m, y, s, n, s.rows);
    forall q | IsPermutation(q, n) ensures Cost(m, s.rows, n) <= Cost(m, q, n) {
      DualsBelowEveryPermutation(m, y, s, n, q);
    }
  }

  // ----- whole runs -----

  /** A run that has ended stays where it is. */
  ghost function Next(s: State, n: nat): State {
    if WellFormed(s, n) && !Done(s) then Turn(s, n) else s
  }

  /** The state after k turns of the inner loop. */
  ghost function After(s: State, n: nat, k: nat): State {
    if k == 0 then s else Next(After(s, n, k - 1), n)
  }

  lemma {:induction false} AfterWellFormed(s: State, n: nat, k: nat)
    requires WellFormed(s, n)
    ensures WellFormed(After(s, n, k), n)
  {
    if k > 0 {
      AfterWellFormed(s, n, k - 1);
      if !Done(After(s, n, k - 1)) {
        TurnWellFormed(After(s, n, k - 1), n);
      }
    }
  }

  ghost function NextDuals(s: State, n: nat, y: Duals): Duals {
    if WellFormed(s, n) && !Done(s) then TurnDuals(s, n, y) else y
  }

  ghost function DualsAfter(s: State, n: nat, y: Duals, k: nat): Duals {
    if k == 0 then y else NextDuals(After(s, n, k - 1), n, DualsAfter(s, n, y, k - 1))
  }

  /** The primal-dual invariant holds in every state a run passes through. */
  lemma {:induction false} RunKeepsInv(m: Matrix, y: Duals, s: State, n: nat, k: nat)
    requires Inv(m, y, s, n)
    ensures Inv(m, DualsAfter(s, n, y, k), After(s, n, k), n)
  {
    if k > 0 {
      RunKeepsInv(m, y, s, n, k - 1);
      var t := After(s, n, k - 1);
      if !Done(t) {
        TurnKeepsInv(m, DualsAfter(s, n, y, k - 1), t, n);
      }
    }
  }

  /** The algorithm's run on m. */
  ghost function Run(m: Matrix, n: nat, k: nat): (s: State)
    requires Square(m, n)
    ensures WellFormed(s, n)
  {
    InitialInv(m, n);
    AfterWellFormed(Initial(m, n), n, k);
    After(Initial(m, n), n, k)
  }

  /** Optimality: if the run ever ends, it ends on a cheapest permutation of the original matrix. */
  lemma EndedRunIsCheapest(m: Matrix, n: nat, k: nat)
    requires Square(m, n) && Done(Run(m, n, k))
    ensures Cheapest(m, n, Run(m, n, k).rows)
    ensures Cost(Run(m, n, k).c, Run(m, n, k).rows, n) == 0.0
  {
    InitialInv(m, n);
    RunKeepsInv(m, InitialDuals(m, n), Initial(m, n), n, k);
    DoneIsCheapest(m, DualsAfter(Initial(m, n), n, InitialDuals(m, n), k), Run(m, n, k), n);
  }

  /**
   * The amount the function returns is summed over the reduced matrix, so it is the cost of the
   * assignment in the original matrix exactly when that cost is zero.
   */
  lemma ReturnedAmountIsCostIffFree(m: Matrix, n: nat, k: nat)
    requires Square(m, n) && Done(Run(m, n, k))
    ensures IsPermutation(Run(m, n, k).rows, n)
    ensures Cost(Run(m, n, k).c, Run(m, n, k).rows, n) == Cost(m, Run(m, n, k).rows, n)
      <==> exists p :: IsPermutation(p, n) && Cost(m, p, n) == 0.0 && Cheapest(m, n, p)
  {
    EndedRunIsCheapest(m, n, k);
    var rows := Run(m, n, k).rows;
    if p :| IsPermutation(p, n) && Cost(m, p, n) == 0.0 && Cheapest(m, n, p) {
      assert Cost(m, rows, n) <= Cost(m, p, n) <= Cost(m, rows, n);
    }
  }
}
