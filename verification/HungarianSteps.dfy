/** What one turn of the inner loop does: marks, dual adjustment, augmentation. */
module HungarianSteps {
  import opened Options
  import opened Matrices
  import opened Numbers
  import opened HungarianSpec

  // ----- marks of a walk -----

  /** w is a walk from the unmatched row r0 over a matching. */
  ghost predicate WalkOver(rows: seq<int>, cols: seq<int>, r0: nat, w: Walked) {
    && Matching(rows, cols)
    && r0 < |rows| && rows[r0] == -1
    && Alternates(cols, r0, 0, w)
  }

  /** A walk never stands on the same row twice, nor takes the same column twice. */
  lemma VisitsDistinct(rows: seq<int>, cols: seq<int>, r0: nat, w: Walked)
    requires WalkOver(rows, cols, r0, w)
    ensures Distinct(w.visited) && Distinct(ColsOf(w.path))
  {
    forall k, l | 0 <= k < l < |w.visited| ensures w.visited[k] != w.visited[l] {
      assert cols[w.path[l - 1].1] == w.visited[l];
      assert rows[w.visited[l]] == w.path[l - 1].1;
      if k > 0 {
        assert cols[w.path[k - 1].1] == w.visited[k];
        assert rows[w.visited[k]] == w.path[k - 1].1;
      }
    }
  }

  /** A walk stands on a matched row exactly when it took that row's column. */
  lemma VisitsFollowMatching(rows: seq<int>, cols: seq<int>, r0: nat, w: Walked, i: int)
    requires WalkOver(rows, cols, r0, w)
    requires 0 <= i < |rows| && rows[i] != -1
    ensures i in w.visited <==> rows[i] in ColsOf(w.path)
  {
    if i in w.visited {
      var k :| 0 <= k < |w.visited| && w.visited[k] == i;
      assert k > 0;
      assert cols[w.path[k - 1].1] == w.visited[k];
      assert ColsOf(w.path)[k - 1] == rows[i];
    }
    if rows[i] in ColsOf(w.path) {
      var k :| 0 <= k < |w.path| && ColsOf(w.path)[k] == rows[i];
      assert cols[w.path[k].1] == i;
      assert k + 1 < |w.visited| ==> w.visited[k + 1] == i;
    }
  }

  /** Every column a failed walk marks is matched. */
  lemma FailedWalkColumns(rows: seq<int>, cols: seq<int>, r0: nat, w: Walked, j: int)
    requires WalkOver(rows, cols, r0, w) && !w.found && j in MarkedCols(w)
    ensures 0 <= j < |rows| && cols[j] != -1
  {
    var k :| 0 <= k < |w.path| && ColsOf(w.path)[k] == j;
    assert cols[w.path[k].1] == w.visited[k + 1];
  }

  lemma MarkRanges(rows: seq<int>, cols: seq<int>, r0: nat, w: Walked)
    requires WalkOver(rows, cols, r0, w) && !w.found
    ensures r0 in MarkedRows(w) && MarkedRows(w) <= Range(|rows|) && MarkedCols(w) <= Range(|rows|)
  {
    assert w.visited[0] in MarkedRows(w);
    forall j | j in MarkedCols(w) ensures j in Range(|rows|) {
      FailedWalkColumns(rows, cols, r0, w, j);
    }
  }

  lemma MarkCounts(rows: seq<int>, cols: seq<int>, r0: nat, w: Walked)
    requires WalkOver(rows, cols, r0, w) && !w.found
    ensures |MarkedRows(w)| == |MarkedCols(w)| + 1
  {
    VisitsDistinct(rows, cols, r0, w);
    DistinctSize(w.visited);
    DistinctSize(ColsOf(w.path));
  }

  /** A failed walk marks exactly one more row than columns, so it leaves some column unmarked. */
  lemma FailedWalkMarks(rows: seq<int>, cols: seq<int>, r0: nat, w: Walked)
    requires WalkOver(rows, cols, r0, w) && !w.found
    ensures |MarkedRows(w)| == |MarkedCols(w)| + 1
    ensures r0 in MarkedRows(w) && MarkedRows(w) <= Range(|rows|) && MarkedCols(w) <= Range(|rows|)
    ensures exists j :: 0 <= j < |rows| && j !in MarkedCols(w)
  {
    MarkCounts(rows, cols, r0, w);
    MarkRanges(rows, cols, r0, w);
    OneMissing(MarkedRows(w), MarkedCols(w), |rows|);
  }

  // ----- the least uncovered entry -----

  ghost predicate Uncovered(n: nat, mr: set<int>, mc: set<int>, i: int, j: int) {
    0 <= i < n && 0 <= j < n && i in mr && j !in mc
  }

  lemma {:induction false} ScanRowIsLeast(m: Option<real>, row: seq<real>, mc: set<int>, k: nat)
    requires k <= |row|
    ensures var r := ScanRow(m, row, mc, k);
      && (forall j | 0 <= j < k && j !in mc :: r.Some? && r.value <= row[j])
      && (m.Some? ==> r.Some? && r.value <= m.value)
      && (r.Some? ==> r == m || exists j :: 0 <= j < k && j !in mc && row[j] == r.value)
  {
    if k > 0 {
      ScanRowIsLeast(m, row, mc, k - 1);
    }
  }

  lemma {:induction false} ScanIsLeast(c: Matrix, n: nat, mr: set<int>, mc: set<int>, k: nat)
    requires Square(c, n) && k <= n
    ensures var r := Scan(c, mr, mc, k);
      && (forall i, j | 0 <= i < k && Uncovered(n, mr, mc, i, j) :: r.Some? && r.value <= c[i][j])
      && (r.Some? ==> exists i, j :: 0 <= i < k && Uncovered(n, mr, mc, i, j) && c[i][j] == r.value)
  {
    if k > 0 {
      ScanIsLeast(c, n, mr, mc, k - 1);
      if k - 1 in mr {
        var m := Scan(c, mr, mc, k - 1);
        ScanRowIsLeast(m, c[k - 1], mc, n);
        var r := Scan(c, mr, mc, k);
        forall i, j | 0 <= i < k && Uncovered(n, mr, mc, i, j) ensures r.Some? && r.value <= c[i][j] {
          if i < k - 1 {
            assert m.Some? && m.value <= c[i][j];
          }
        }
        if r.Some? && r != m {
          var j :| 0 <= j < n && j !in mc && c[k - 1][j] == r.value;
          assert Uncovered(n, mr, mc, k - 1, j);
        }
      }
    }
  }

  /** The amount a failed walk shifts the duals by. */
  ghost function MinVal(s: State, n: nat): real
    requires WellFormed(s, n) && !Done(s) && !WalkOf(s, n).found
  {
    MinValIsLeast(s, n);
    Scan(s.c, MarkedRows(WalkOf(s, n)), MarkedCols(WalkOf(s, n)), n).value
  }

  /** After a failed walk the running minimum is finite, and it is the least uncovered entry. */
  lemma MinValIsLeast(s: State, n: nat)
    requires WellFormed(s, n) && !Done(s) && !WalkOf(s, n).found
    ensures var mr, mc := MarkedRows(WalkOf(s, n)), MarkedCols(WalkOf(s, n));
      var d := Scan(s.c, mr, mc, n);
      && d.Some?
      && (forall i, j | Uncovered(n, mr, mc, i, j) :: d.value <= s.c[i][j])
      && (exists i, j :: Uncovered(n, mr, mc, i, j) && s.c[i][j] == d.value)
  {
    var w := WalkOf(s, n);
    WalkFacts(s, n);
    FailedWalkMarks(s.rows, s.cols, FirstUnmatched(s.rows), w);
    var j :| 0 <= j < n && j !in MarkedCols(w);
    ScanIsLeast(s.c, n, MarkedRows(w), MarkedCols(w), n);
    assert Uncovered(n, MarkedRows(w), MarkedCols(w), FirstUnmatched(s.rows), j);
  }

  // ----- the augmentation -----

  lemma {:induction false} StoreAt(a: seq<int>, at: seq<int>, val: seq<int>, k: nat)
    requires k <= |at| == |val| && Distinct(at) && forall i | 0 <= i < |at| :: 0 <= at[i] < |a|
    ensures forall l | 0 <= l < k :: Store(a, at, val, k)[at[l]] == val[l]
    ensures forall x | 0 <= x < |a| && x !in at[..k] :: Store(a, at, val, k)[x] == a[x]
  {
    if k > 0 {
      StoreAt(a, at, val, k - 1);
      assert at[..k] == at[..k - 1] + [at[k - 1]];
    }
  }

  /** After a successful walk: what each row and each column is matched with. */
  lemma AugmentedAt(rows: seq<int>, cols: seq<int>, r0: nat, w: Walked)
    requires WalkOver(rows, cols, r0, w) && w.found && PathInRange(w.path, |rows|)
    ensures forall k | 0 <= k < |w.path| :: AugmentedRows(rows, w.path)[w.path[k].0] == w.path[k].1
    ensures forall k | 0 <= k < |w.path| :: AugmentedCols(cols, w.path)[w.path[k].1] == w.path[k].0
    ensures forall i | 0 <= i < |rows| && i !in w.visited :: AugmentedRows(rows, w.path)[i] == rows[i]
    ensures forall j | 0 <= j < |cols| && j !in ColsOf(w.path) :: AugmentedCols(cols, w.path)[j] == cols[j]
  {
    VisitsDistinct(rows, cols, r0, w);
    var rs, cs := RowsOf(w.path), ColsOf(w.path);
    assert rs == w.visited;
    StoreAt(rows, rs, cs, |rs|);
    StoreAt(cols, cs, rs, |cs|);
    assert rs[..|rs|] == rs && cs[..|cs|] == cs;
    forall k | 0 <= k < |w.path|
      ensures AugmentedRows(rows, w.path)[w.path[k].0] == w.path[k].1
      ensures AugmentedCols(cols, w.path)[w.path[k].1] == w.path[k].0
    {
      assert rs[k] == w.path[k].0 && cs[k] == w.path[k].1;
    }
  }

  /** Flipping the path keeps the two match lists mutually inverse. */
  lemma AugmentKeepsMatching(rows: seq<int>, cols: seq<int>, r0: nat, w: Walked)
    requires WalkOver(rows, cols, r0, w) && w.found && PathInRange(w.path, |rows|)
    ensures Matching(AugmentedRows(rows, w.path), AugmentedCols(cols, w.path))
  {
    AugmentedAt(rows, cols, r0, w);
    var rows', cols' := AugmentedRows(rows, w.path), AugmentedCols(cols, w.path);
    forall i | 0 <= i < |rows| && rows'[i] != -1 ensures 0 <= rows'[i] < |cols| && cols'[rows'[i]] == i {
      if i in w.visited {
        var k :| 0 <= k < |w.visited| && w.visited[k] == i;
        assert rows'[w.path[k].0] == w.path[k].1;
      } else {
        VisitsFollowMatching(rows, cols, r0, w, i);
      }
    }
    forall j | 0 <= j < |cols| && cols'[j] != -1 ensures 0 <= cols'[j] < |rows| && rows'[cols'[j]] == j {
      if j in ColsOf(w.path) {
        var k :| 0 <= k < |w.path| && ColsOf(w.path)[k] == j;
        assert cols'[w.path[k].1] == w.path[k].0;
      } else {
        VisitsFollowMatching(rows, cols, r0, w, cols[j]);
      }
    }
  }

  function Unmatched(s: seq<int>): set<int> {
    set i | 0 <= i < |s| && s[i] == -1
  }

  /**
   * The augmentation assigns the row the walk started from and uses up the one free column it
   * ended on; no other row and no other column changes between matched and unmatched.
   */
  lemma AugmentAssignsOneRow(rows: seq<int>, cols: seq<int>, r0: nat, w: Walked)
    requires WalkOver(rows, cols, r0, w) && w.found && PathInRange(w.path, |rows|)
    ensures r0 in Unmatched(rows) && Unmatched(AugmentedRows(rows, w.path)) == Unmatched(rows) - {r0}
    ensures var last := w.path[|w.path| - 1].1;
      last in Unmatched(cols) && Unmatched(AugmentedCols(cols, w.path)) == Unmatched(cols) - {last}
  {
    AugmentedAt(rows, cols, r0, w);
    var rows', cols' := AugmentedRows(rows, w.path), AugmentedCols(cols, w.path);
    forall i | 0 <= i < |rows| ensures rows'[i] == -1 <==> rows[i] == -1 && i != r0 {
      if i in w.visited {
        var k :| 0 <= k < |w.visited| && w.visited[k] == i;
        assert rows'[w.path[k].0] == w.path[k].1;
        assert k > 0 ==> cols[w.path[k - 1].1] == w.visited[k];
      }
    }
    var last := |w.path| - 1;
    assert ColsOf(w.path)[last] == w.path[last].1;
    forall j | 0 <= j < |cols| ensures cols'[j] == -1 <==> cols[j] == -1 && j != w.path[last].1 {
      if j in ColsOf(w.path) {
        var k :| 0 <= k < |w.path| && ColsOf(w.path)[k] == j;
        assert cols'[w.path[k].1] == w.path[k].0;
        assert k < last ==> cols[w.path[k].1] == w.visited[k + 1];
      }
    }
  }

  lemma TurnWellFormed(s: State, n: nat)
    requires WellFormed(s, n) && !Done(s)
    ensures WellFormed(Turn(s, n), n)
  {
    WalkFacts(s, n);
    if WalkOf(s, n).found {
      AugmentKeepsMatching(s.rows, s.cols, FirstUnmatched(s.rows), WalkOf(s, n));
    }
  }
}
