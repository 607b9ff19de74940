/** When hungarian_algorithm returns and when it turns for ever. */
module HungarianTermination {
  import opened Options
  import opened Matrices
  import opened HungarianSpec
  import opened HungarianSteps
  import opened HungarianOptimality

  /** A failed walk whose least uncovered entry is zero. */
  ghost predicate Stuck(s: State, n: nat) {
    WellFormed(s, n) && !Done(s) && !WalkOf(s, n).found && MinVal(s, n) == 0.0
  }

  lemma AdjustByZero(c: Matrix, n: nat, mr: set<int>, mc: set<int>)
    requires Square(c, n)
    ensures Adjusted(c, n, mr, mc, 0.0) == c
  {
    forall i | 0 <= i < n ensures Adjusted(c, n, mr, mc, 0.0)[i] == c[i] {
      assert forall j | 0 <= j < n :: Adjusted(c, n, mr, mc, 0.0)[i][j] == c[i][j];
    }
  }

  /** A turn leaves the state as it is exactly when the walk fails and shifts by zero. */
  lemma UnchangedIffStuck(s: State, n: nat)
    requires WellFormed(s, n) && !Done(s)
    ensures Turn(s, n) == s <==> Stuck(s, n)
  {
    var w, t := WalkOf(s, n), Turn(s, n);
    WalkFacts(s, n);
    if w.found {
      AugmentAssignsOneRow(s.rows, s.cols, FirstUnmatched(s.rows), w);
      assert t.rows != s.rows;
    } else {
      var d := MinVal(s, n);
      MinValIsLeast(s, n);
      AdjustByZero(s.c, n, MarkedRows(w), MarkedCols(w));
      var i, j :| Uncovered(n, MarkedRows(w), MarkedCols(w), i, j) && s.c[i][j] == d;
      assert t.c[i][j] == s.c[i][j] - d;
    }
  }

  lemma StaysOneTurn(s: State, n: nat)
    requires Done(s) || Stuck(s, n)
    ensures Next(s, n) == s
  {
    if !Done(s) {
      UnchangedIffStuck(s, n);
    }
  }

  lemma {:induction false} StaysPut(s: State, n: nat, k: nat, more: nat)
    requires Done(After(s, n, k)) || Stuck(After(s, n, k), n)
    ensures After(s, n, k + more) == After(s, n, k)
  {
    if more > 0 {
      StaysPut(s, n, k, more - 1);
      StaysOneTurn(After(s, n, k), n);
    }
  }

  /** One stuck turn and the function never returns. */
  lemma StuckNeverEnds(s: State, n: nat, k: nat, l: nat)
    requires Stuck(After(s, n, k), n)
    ensures !Done(After(s, n, l))
  {
    StaysPut(s, n, k, l);
    if Done(After(s, n, l)) {
      StaysPut(s, n, l, k);
    }
  }

  // ----- a bound on the number of turns -----

  function Power(k: nat): (p: nat)
    ensures p >= 1
  {
    if k == 0 then 1 else 2 * Power(k - 1)
  }

  /**
   * The columns a walk takes, read as the digits of a binary number with the first column in
   * front; a walk that ends on a free column counts more than any that goes on from there.
   */
  ghost function Code(c: Matrix, cols: seq<int>, n: nat, row: int, j: nat): (code: nat)
    requires Square(c, n) && |cols| == n && 0 <= row < n && j <= n
    requires forall k | 0 <= k < n :: cols[k] != -1 ==> 0 <= cols[k] < n
    ensures code <= Power(n - j)
    ensures !Walk(c, cols, n, row, j).found ==> code < Power(n - j)
    decreases n - j
  {
    if j == n then 0
    else if c[row][j] != 0.0 then Code(c, cols, n, row, j + 1)
    else if cols[j] == -1 then Power(n - j)
    else Power(n - j - 1) + Code(c, cols, n, cols[j], j + 1)
  }

  /** Where all the zeros a failed walk used are still there, the new walk is the same or counts more. */
  lemma {:induction false} WalkClimbs(c: Matrix, c': Matrix, cols: seq<int>, n: nat, row: int, j: nat)
    requires Square(c, n) && Square(c', n) && |cols| == n && 0 <= row < n && j <= n
    requires forall k | 0 <= k < n :: cols[k] != -1 ==> 0 <= cols[k] < n
    requires !Walk(c, cols, n, row, j).found && PathInRange(Walk(c, cols, n, row, j).path, n)
    requires OnZeros(c', n, Walk(c, cols, n, row, j))
    ensures Walk(c', cols, n, row, j) == Walk(c, cols, n, row, j) ||
      Code(c', cols, n, row, j) > Code(c, cols, n, row, j)
    decreases n - j
  {
    if j == n {
    } else if c[row][j] == 0.0 {
      var w := Walk(c, cols, n, cols[j], j + 1);
      var path := [(row, j)] + w.path;
      assert c'[path[0].0][path[0].1] == 0.0;
      assert forall k | 0 <= k < |w.path| :: w.path[k] == path[k + 1];
      WalkClimbs(c, c', cols, n, cols[j], j + 1);
    } else if c'[row][j] != 0.0 {
      WalkClimbs(c, c', cols, n, row, j + 1);
    }
  }

  ghost function CodeOf(s: State, n: nat): nat
    requires WellFormed(s, n) && !Done(s)
  {
    Code(s.c, s.cols, n, FirstUnmatched(s.rows), 0)
  }

  /** The adjustment leaves the edges of the failed walk at zero. */
  lemma EdgesStayZero(s: State, n: nat)
    requires WellFormed(s, n) && !Done(s) && !WalkOf(s, n).found
    ensures Square(Turn(s, n).c, n) && PathInRange(WalkOf(s, n).path, n) && OnZeros(Turn(s, n).c, n, WalkOf(s, n))
  {
    var w, t := WalkOf(s, n), Turn(s, n);
    WalkFacts(s, n);
    MinValIsLeast(s, n);
    forall k | 0 <= k < |w.path| ensures t.c[w.path[k].0][w.path[k].1] == 0.0 {
      assert w.visited[k] in w.visited && ColsOf(w.path)[k] in ColsOf(w.path);
    }
  }

  lemma LeastBecomesZero(c: Matrix, n: nat, mr: set<int>, mc: set<int>, d: real)
    requires Square(c, n) && Scan(c, mr, mc, n) == Some(d)
    ensures Scan(Adjusted(c, n, mr, mc, d), mr, mc, n) == Some(0.0)
  {
    var t := Adjusted(c, n, mr, mc, d);
    ScanIsLeast(c, n, mr, mc, n);
    ScanIsLeast(t, n, mr, mc, n);
    forall i, j | Uncovered(n, mr, mc, i, j) ensures t[i][j] == c[i][j] - d {
      assert t[i][j] == AdjustedCell(c[i][j], true, false, d);
    }
  }

  /** The same walk again finds its least uncovered entry lowered to zero. */
  lemma SameWalkIsStuck(s: State, n: nat)
    requires WellFormed(s, n) && !Done(s) && !WalkOf(s, n).found
    requires WellFormed(Turn(s, n), n) && Turn(s, n).rows == s.rows && WalkOf(Turn(s, n), n) == WalkOf(s, n)
    ensures Stuck(Turn(s, n), n)
  {
    var w := WalkOf(s, n);
    MinValIsLeast(s, n);
    LeastBecomesZero(s.c, n, MarkedRows(w), MarkedCols(w), MinVal(s, n));
  }

  /** After a failed walk the next one counts more, unless the run is stuck. */
  lemma FailedTurnClimbs(s: State, n: nat)
    requires WellFormed(s, n) && !Done(s) && !WalkOf(s, n).found
    ensures WellFormed(Turn(s, n), n) && Turn(s, n).rows == s.rows
    ensures Stuck(Turn(s, n), n) || CodeOf(Turn(s, n), n) > CodeOf(s, n)
  {
    var t := Turn(s, n);
    TurnWellFormed(s, n);
    MinValIsLeast(s, n);
    EdgesStayZero(s, n);
    WalkClimbs(s.c, t.c, s.cols, n, FirstUnmatched(s.rows), 0);
    if WalkOf(t, n) == WalkOf(s, n) {
      SameWalkIsStuck(s, n);
    }
  }

  ghost function TurnsLeft(s: State, n: nat): int
    requires WellFormed(s, n)
  {
    if Done(s) then 0 else |Unmatched(s.rows)| * (Power(n) + 1) - CodeOf(s, n)
  }

  lemma UnmatchedLeft(s: State, n: nat)
    requires WellFormed(s, n)
    ensures Done(s) <==> |Unmatched(s.rows)| == 0
    ensures 0 <= TurnsLeft(s, n) <= |Unmatched(s.rows)| * (Power(n) + 1)
    ensures !Done(s) ==> TurnsLeft(s, n) >= 1
  {
    if Done(s) {
      assert Unmatched(s.rows) == {};
    } else {
      assert FirstUnmatched(s.rows) in Unmatched(s.rows);
      TimesAtLeast(|Unmatched(s.rows)|, Power(n) + 1);
    }
  }

  lemma TimesAtLeast(a: nat, b: nat)
    requires a >= 1
    ensures a * b >= b
  {
    assert a * b == b + (a - 1) * b;
  }

  /** Every turn that does not end stuck brings the end nearer. */
  lemma TurnIsProgress(s: State, n: nat)
    requires WellFormed(s, n) && !Done(s)
    ensures WellFormed(Turn(s, n), n)
    ensures Stuck(Turn(s, n), n) || TurnsLeft(Turn(s, n), n) < TurnsLeft(s, n)
  {
    var t := Turn(s, n);
    TurnWellFormed(s, n);
    UnmatchedLeft(s, n);
    UnmatchedLeft(t, n);
    if WalkOf(s, n).found {
      WalkFacts(s, n);
      AugmentAssignsOneRow(s.rows, s.cols, FirstUnmatched(s.rows), WalkOf(s, n));
      var u := |Unmatched(s.rows)|;
      assert |Unmatched(t.rows)| == u - 1;
      assert u * (Power(n) + 1) == (u - 1) * (Power(n) + 1) + Power(n) + 1;
    } else {
      FailedTurnClimbs(s, n);
    }
  }

  /** After l turns the run has neither ended nor become stuck. */
  ghost predicate Moving(s: State, n: nat, l: nat) {
    !Done(After(s, n, l)) && !Stuck(After(s, n, l), n)
  }

  lemma {:induction false} MovingRunShrinks(s: State, n: nat, k: nat)
    requires WellFormed(s, n) && forall l: nat | l <= k :: Moving(s, n, l)
    ensures WellFormed(After(s, n, k), n) && TurnsLeft(After(s, n, k), n) + k <= TurnsLeft(s, n)
  {
    AfterWellFormed(s, n, k);
    if k > 0 {
      MovingRunShrinks(s, n, k - 1);
      assert Moving(s, n, k) && Moving(s, n, k - 1);
      TurnIsProgress(After(s, n, k - 1), n);
    }
  }

  /** So many turns suffice, whatever the entries of the matrix. */
  function TurnBound(n: nat, unassigned: nat): nat {
    unassigned * (Power(n) + 1)
  }

  ghost function Bound(m: Matrix, n: nat): nat
    requires Square(m, n)
  {
    TurnBound(n, |Unmatched(Initial(m, n).rows)|)
  }

  /** Within the bound the run has either ended or become stuck. */
  lemma EndsOrSticksWithin(m: Matrix, n: nat)
    requires Square(m, n)
    ensures exists k | 0 <= k <= Bound(m, n) :: Done(Run(m, n, k)) || Stuck(Run(m, n, k), n)
  {
    var s, k := Initial(m, n), Bound(m, n);
    InitialInv(m, n);
    if forall l: nat | l <= k :: Moving(s, n, l) {
      MovingRunShrinks(s, n, k);
      UnmatchedLeft(s, n);
      assert Moving(s, n, k);
      UnmatchedLeft(After(s, n, k), n);
      assert false;
    } else {
      var l: nat :| l <= k && !Moving(s, n, l);
      assert Done(Run(m, n, l)) || Stuck(Run(m, n, l), n);
    }
  }

  lemma EndedStaysEnded(s: State, n: nat, l: nat, k: nat, rounds: nat)
    requires l <= rounds && (Done(After(s, n, l)) || Stuck(After(s, n, l), n)) && Done(After(s, n, k))
    ensures Done(After(s, n, rounds))
  {
    if Stuck(After(s, n, l), n) {
      StuckNeverEnds(s, n, l, k);
    } else {
      StaysPut(s, n, l, rounds - l);
    }
  }

  /** If the function returns at all, it has returned by the bound. */
  lemma ReturnsByBound(m: Matrix, n: nat, k: nat, rounds: nat)
    requires Square(m, n) && Done(Run(m, n, k)) && rounds >= Bound(m, n)
    ensures Done(Run(m, n, rounds))
  {
    EndsOrSticksWithin(m, n);
    var l :| 0 <= l <= Bound(m, n) && (Done(Run(m, n, l)) || Stuck(Run(m, n, l), n));
    EndedStaysEnded(Initial(m, n), n, l, k, rounds);
  }

  /**
   * The function returns exactly on the matrices on which none of the first so many failed walks
   * shifts by zero; one that does not return has a stuck turn among them.
   */
  lemma ReturnsIffNeverStuck(m: Matrix, n: nat)
    requires Square(m, n)
    ensures (exists k: nat :: Done(Run(m, n, k))) <==> (forall k: nat | k <= Bound(m, n) :: !Stuck(Run(m, n, k), n))
  {
    InitialInv(m, n);
    if k: nat, l: nat :| Done(Run(m, n, k)) && Stuck(Run(m, n, l), n) {
      StuckNeverEnds(Initial(m, n), n, l, k);
    }
    EndsOrSticksWithin(m, n);
  }

  const EXAMPLE: Matrix := [[0.0, 1.0, 1.0], [1.0, 0.0, 0.0], [0.0, 0.0, 1.0]]

  /** A non-negative matrix with a zero in every row and every column is already reduced. */
  lemma AlreadyReduced(c: Matrix, n: nat)
    requires Square(c, n) && NonNegative(c, n)
    requires forall i | 0 <= i < n :: 0.0 in c[i]
    requires forall j | 0 <= j < n :: 0.0 in Column(c, n, j)
    ensures ReduceRows(c, n) == c && ReduceCols(c, n) == c
  {
    forall i | 0 <= i < n ensures ReduceRows(c, n)[i] == c[i] && ReduceCols(c, n)[i] == c[i] {
      assert Least(c[i]) == 0.0;
      forall j | 0 <= j < n ensures Least(Column(c, n, j)) == 0.0 {
      }
    }
  }

  lemma ExampleReduced()
    ensures ReduceCols(ReduceRows(EXAMPLE, 3), 3) == EXAMPLE
  {
    var c := EXAMPLE;
    assert c[0][0] == c[1][1] == c[2][0] == 0.0;
    assert Column(c, 3, 0)[0] == Column(c, 3, 1)[1] == Column(c, 3, 2)[1] == 0.0;
    AlreadyReduced(c, 3);
  }

  lemma ExampleInitial()
    ensures Initial(EXAMPLE, 3) == State(EXAMPLE, [0, 1, -1], [0, 1, -1])
  {
    ExampleReduced();
    assert Greedy(EXAMPLE, 3, 1) == State(EXAMPLE, [0, -1, -1], [0, -1, -1]);
    assert Greedy(EXAMPLE, 3, 2) == State(EXAMPLE, [0, 1, -1], [0, 1, -1]);
  }

  lemma ExampleStuck()
    ensures Stuck(State(EXAMPLE, [0, 1, -1], [0, 1, -1]), 3)
  {
    var s := State(EXAMPLE, [0, 1, -1], [0, 1, -1]);
    assert FirstUnmatched(s.rows) == 2;
    assert Walk(EXAMPLE, s.cols, 3, 0, 1) == Walked(false, [], [0]);
    var w := WalkOf(s, 3);
    assert w == Walked(false, [(2, 0)], [2, 0]);
    MinValIsLeast(s, 3);
    assert ColsOf(w.path) == [0];
    assert Uncovered(3, MarkedRows(w), MarkedCols(w), 2, 1);
  }

  lemma {:induction false} CostBounds(c: Matrix, p: seq<int>, n: nat, k: nat)
    requires Square(c, n) && NonNegative(c, n) && |p| == n && k <= n
    requires forall i | 0 <= i < n :: 0 <= p[i] < n
    ensures CostTo(c, p, n, k) >= 0.0
    ensures (forall i | 0 <= i < k :: c[i][p[i]] == 0.0) ==> CostTo(c, p, n, k) == 0.0
  {
    if k > 0 {
      CostBounds(c, p, n, k - 1);
    }
  }

  /** In a non-negative matrix a permutation over zeros is a cheapest one. */
  lemma ZerosAreCheapest(c: Matrix, p: seq<int>, n: nat)
    requires Square(c, n) && NonNegative(c, n) && IsPermutation(p, n)
    requires forall i | 0 <= i < n :: c[i][p[i]] == 0.0
    ensures Cheapest(c, n, p) && Cost(c, p, n) == 0.0
  {
    CostBounds(c, p, n, n);
    forall q | IsPermutation(q, n) ensures Cost(c, q, n) >= 0.0 {
      CostBounds(c, q, n, n);
    }
  }

  lemma ExampleIsFree()
    ensures Cheapest(EXAMPLE, 3, [0, 2, 1]) && Cost(EXAMPLE, [0, 2, 1], 3) == 0.0
  {
    ZerosAreCheapest(EXAMPLE, [0, 2, 1], 3);
  }

  /** The example has a zero-cost assignment, and the function never returns on it. */
  lemma ExampleNeverReturns(k: nat)
    ensures !Done(Run(EXAMPLE, 3, k))
  {
    ExampleInitial();
    ExampleStuck();
    StuckNeverEnds(Initial(EXAMPLE, 3), 3, 0, k);
  }

  /** On the one-by-one matrix of 1 the function returns at once, with the amount 0 for a cost of 1. */
  lemma AmountIsWrongOnOne()
    ensures Done(Run([[1.0]], 1, 0)) && IsPermutation(Run([[1.0]], 1, 0).rows, 1)
    ensures Cost(Run([[1.0]], 1, 0).c, Run([[1.0]], 1, 0).rows, 1) == 0.0
    ensures Cost([[1.0]], Run([[1.0]], 1, 0).rows, 1) == 1.0
  {
    var m: Matrix := [[1.0]];
    var r := ReduceRows(m, 1);
    var c := ReduceCols(r, 1);
    assert Least(m[0]) in m[0];
    assert r[0][0] == 0.0;
    assert Column(r, 1, 0) == [0.0];
    assert Least(Column(r, 1, 0)) in [0.0];
    assert c[0][0] == 0.0;
    assert Greedy(c, 1, 1) == State(c, [0], [0]);
    assert CostTo(m, [0], 1, 1) == CostTo(m, [0], 1, 0) + m[0][0];
    assert CostTo(c, [0], 1, 1) == CostTo(c, [0], 1, 0) + c[0][0];
  }

  const DISPLACED: Matrix := [[0.0, 0.0], [0.0, 1.0]]

  lemma DisplacedInitial()
    ensures Initial(DISPLACED, 2) == State(DISPLACED, [0, -1], [0, -1])
  {
    var c := DISPLACED;
    assert c[0][0] == c[1][0] == 0.0;
    assert Column(c, 2, 0)[0] == Column(c, 2, 1)[0] == 0.0;
    AlreadyReduced(c, 2);
    assert Greedy(c, 2, 1) == State(c, [0, -1], [0, -1]);
  }

  lemma DisplacedTurn()
    ensures Turn(State(DISPLACED, [0, -1], [0, -1]), 2) == State(DISPLACED, [1, 0], [1, 0])
  {
    var s := State(DISPLACED, [0, -1], [0, -1]);
    assert FirstUnmatched(s.rows) == 1;
    assert Walk(DISPLACED, s.cols, 2, 0, 1) == Walked(true, [(0, 1)], [0]);
    var w := WalkOf(s, 2);
    assert w == Walked(true, [(1, 0), (0, 1)], [1, 0]);
    assert RowsOf(w.path) == [1, 0] && ColsOf(w.path) == [0, 1];
    assert Store(s.rows, [1, 0], [0, 1], 1) == [0, 0] && Store(s.cols, [0, 1], [1, 0], 1) == [1, -1];
  }

  /** The second row displaces the first one from the only column in which it has a zero. */
  lemma WalkDisplaces()
    ensures Run(DISPLACED, 2, 0).rows == [0, -1] && Run(DISPLACED, 2, 1).rows == [1, 0]
  {
    DisplacedInitial();
    DisplacedTurn();
    assert After(Initial(DISPLACED, 2), 2, 1) == Next(After(Initial(DISPLACED, 2), 2, 0), 2);
  }
}
