/**
 * When a worker submits its bios. Times are in nanoseconds since the worker started. The kernel's
 * part is an assumption: a timer set for some jiffies fires no earlier, and at most lateness later.
 */
module ReplayTiming {
  import opened Numbers
  import opened Record

  /** jiffy is the length of one, overhead bounds the time from one submission to the next look at the clock. */
  datatype Timing = Timing(jiffy: nat, overhead: nat, lateness: nat)

  /** What is left, at now, of the time until the recorded moment. */
  function Delay(now: int, startTs: int): (d: nat)
    ensures now + d == Max(now, startTs)
  {
    if now < startTs then startTs - now else 0
  }

  /** nsecs_to_jiffies rounds down. */
  function WholeJiffies(delay: nat, jiffy: nat): nat
    requires jiffy > 0
  {
    delay / jiffy
  }

  /** What the timer waits for at least: rounding loses less than a jiffy. */
  function Wait(delay: nat, jiffy: nat): (w: nat)
    requires jiffy > 0
    ensures delay - jiffy < w <= delay
  {
    assert delay == jiffy * (delay / jiffy) + delay % jiffy;
    WholeJiffies(delay, jiffy) * jiffy
  }

  /** One turn: the clock is read at now, soon after the bio before, and the timer fires at fire. */
  predicate Turn(t: Timing, before: int, startTs: int, now: int, fire: int)
    requires t.jiffy > 0
  {
    var wait := Wait(Delay(now, startTs), t.jiffy);
    before <= now <= before + t.overhead && now + wait <= fire <= now + wait + t.lateness
  }

  predicate TurnAt(t: Timing, infos: seq<Info>, now: seq<int>, fire: seq<int>, i: nat)
    requires t.jiffy > 0 && i < |now| == |fire| <= |infos|
  {
    Turn(t, if i == 0 then 0 else fire[i - 1], infos[i].startTs, now[i], fire[i])
  }

  /** The first |fire| bios are submitted at the times fire. */
  predicate Timeline(t: Timing, infos: seq<Info>, now: seq<int>, fire: seq<int>) {
    && t.jiffy > 0 && |now| == |fire| <= |infos|
    && forall i | 0 <= i < |fire| :: TurnAt(t, infos, now, fire, i)
  }

  function Last(fire: seq<int>): int {
    if fire == [] then 0 else fire[|fire| - 1]
  }

  /** A bio waits: the clock was read at now, not long before, and the timer set for so many jiffies. */
  predicate Waits(t: Timing, before: int, startTs: int, now: int, timer: nat)
    requires t.jiffy > 0
  {
    before <= now <= before + t.overhead && timer == WholeJiffies(Delay(now, startTs), t.jiffy)
  }

  /** The kernel's part of the bargain. */
  predicate Fires(t: Timing, now: int, timer: nat, fire: int) {
    now + timer * t.jiffy <= fire <= now + timer * t.jiffy + t.lateness
  }

  /** A waiting bio whose timer fires continues the timeline. */
  lemma TimelineGoesOn(t: Timing, infos: seq<Info>, now: seq<int>, fire: seq<int>, info: Info, look: int, timer: nat,
      f: int)
    requires Timeline(t, infos, now, fire) && |infos| == |fire|
    requires Waits(t, Last(fire), info.startTs, look, timer) && Fires(t, look, timer, f)
    ensures Timeline(t, infos + [info], now + [look], fire + [f])
  {
    var infos', now', fire' := infos + [info], now + [look], fire + [f];
    forall i | 0 <= i < |fire'| ensures TurnAt(t, infos', now', fire', i) {
      if i < |fire| {
        assert TurnAt(t, infos, now, fire, i);
      }
    }
  }

  /** Only the bios already submitted matter. */
  lemma TimelineOfMore(t: Timing, infos: seq<Info>, more: seq<Info>, now: seq<int>, fire: seq<int>)
    requires Timeline(t, infos, now, fire) && infos <= more
    ensures Timeline(t, more, now, fire)
  {
    forall i | 0 <= i < |fire| ensures TurnAt(t, more, now, fire, i) {
      assert TurnAt(t, infos, now, fire, i);
    }
  }

  /** No bio is submitted a whole jiffy before its recorded moment, or earlier. */
  lemma NeverEarly(t: Timing, infos: seq<Info>, now: seq<int>, fire: seq<int>, i: nat)
    requires Timeline(t, infos, now, fire) && i < |fire|
    ensures fire[i] > infos[i].startTs - t.jiffy
  {
    assert TurnAt(t, infos, now, fire, i);
  }

  /** The latest moment at which the i-th bio can be submitted. */
  function Deadline(t: Timing, infos: seq<Info>, i: nat): int
    requires i < |infos|
  {
    var before := if i == 0 then 0 else Deadline(t, infos, i - 1);
    Max(before + t.overhead, infos[i].startTs) + t.lateness
  }

  lemma {:induction false} NeverAfterDeadline(t: Timing, infos: seq<Info>, now: seq<int>, fire: seq<int>, i: nat)
    requires Timeline(t, infos, now, fire) && i < |fire|
    ensures fire[i] <= Deadline(t, infos, i)
  {
    if i > 0 {
      NeverAfterDeadline(t, infos, now, fire, i - 1);
    }
    assert TurnAt(t, infos, now, fire, i);
  }

  /** Where the k-th bio alone would put the one n places behind it: a step further for each. */
  function Pushed(t: Timing, startTs: int, n: nat): int {
    startTs + n * (t.overhead + t.lateness) + t.lateness
  }

  lemma PushedOnce(t: Timing, startTs: int, n: nat)
    ensures Pushed(t, startTs, n + 1) == Pushed(t, startTs, n) + (t.overhead + t.lateness)
  {
    assert (n + 1) * (t.overhead + t.lateness) == n * (t.overhead + t.lateness) + (t.overhead + t.lateness);
  }

  /** The candidates for the i-th deadline: no delay at all, for k == -1, or the k-th bio on time. */
  function Candidate(t: Timing, infos: seq<Info>, k: int, i: nat): int
    requires -1 <= k <= i < |infos|
  {
    if k == -1 then Pushed(t, 0, i + 1) - t.lateness else Pushed(t, infos[k].startTs, i - k)
  }

  lemma CandidatesMove(t: Timing, infos: seq<Info>, k: int, i: nat)
    requires -1 <= k < i < |infos| && i > 0
    ensures Candidate(t, infos, k, i) == Candidate(t, infos, k, i - 1) + (t.overhead + t.lateness)
  {
    PushedOnce(t, if k == -1 then 0 else infos[k].startTs, i - 1 - k);
  }

  /** The deadline is the largest candidate; lateness does not add up over bios with idle time between. */
  lemma {:induction false} DeadlineIsLargest(t: Timing, infos: seq<Info>, i: nat)
    requires i < |infos|
    ensures forall k | -1 <= k <= i :: Candidate(t, infos, k, i) <= Deadline(t, infos, i)
    ensures exists k | -1 <= k <= i :: Candidate(t, infos, k, i) == Deadline(t, infos, i)
  {
    assert Candidate(t, infos, i, i) == infos[i].startTs + t.lateness;
    if i == 0 {
      assert Candidate(t, infos, -1, 0) == t.overhead + t.lateness;
    } else {
      DeadlineIsLargest(t, infos, i - 1);
      forall k | -1 <= k < i ensures Candidate(t, infos, k, i) ==
          Candidate(t, infos, k, i - 1) + (t.overhead + t.lateness) {
        CandidatesMove(t, infos, k, i);
      }
      var k :| -1 <= k <= i - 1 && Candidate(t, infos, k, i - 1) == Deadline(t, infos, i - 1);
      assert Candidate(t, infos, k, i) == Deadline(t, infos, i - 1) + (t.overhead + t.lateness);
    }
  }

  /**
   * The i-th bio is submitted no later than the largest of (i + 1)(P + L) and, over all bios k up
   * to the i-th, start_ts of k plus (i - k)(P + L) + L.
   */
  lemma SubmittedInTime(t: Timing, infos: seq<Info>, now: seq<int>, fire: seq<int>, i: nat)
    requires Timeline(t, infos, now, fire) && i < |fire|
    ensures exists k | -1 <= k <= i :: fire[i] <= Candidate(t, infos, k, i)
  {
    NeverAfterDeadline(t, infos, now, fire, i);
    DeadlineIsLargest(t, infos, i);
  }

  ghost function LatestFires(t: Timing, infos: seq<Info>): (fire: seq<int>)
    ensures |fire| == |infos|
  {
    seq(|infos|, i requires 0 <= i < |infos| => Deadline(t, infos, i))
  }

  ghost function LatestLooks(t: Timing, infos: seq<Info>): (now: seq<int>)
    ensures |now| == |infos|
  {
    seq(|infos|, i requires 0 <= i < |infos| => t.overhead + if i == 0 then 0 else Deadline(t, infos, i - 1))
  }

  /**
   * The deadlines are reached: a run that is as late as it can be meets every one of them exactly
   * when its delays are whole jiffies. With a jiffy of one nanosecond they always are.
   */
  lemma DeadlineIsReached(t: Timing, infos: seq<Info>)
    requires t.jiffy > 0
    ensures Timeline(t, infos, LatestLooks(t, infos), LatestFires(t, infos)) <==>
      forall i | 0 <= i < |infos| :: Delay(LatestLooks(t, infos)[i], infos[i].startTs) % t.jiffy == 0
  {
    var now, fire := LatestLooks(t, infos), LatestFires(t, infos);
    forall i | 0 <= i < |infos|
      ensures TurnAt(t, infos, now, fire, i) <==> Delay(now[i], infos[i].startTs) % t.jiffy == 0
    {
      WaitIsDelayIffWhole(Delay(now[i], infos[i].startTs), t.jiffy);
      assert fire[i] == now[i] + Delay(now[i], infos[i].startTs) + t.lateness;
    }
  }

  lemma WaitIsDelayIffWhole(delay: nat, jiffy: nat)
    requires jiffy > 0
    ensures Wait(delay, jiffy) == delay <==> delay % jiffy == 0
  {
    assert delay == jiffy * (delay / jiffy) + delay % jiffy;
  }

  lemma {:induction false} DeadlineWhenApart(t: Timing, infos: seq<Info>, i: nat)
    requires i < |infos| && t.overhead <= infos[0].startTs
    requires forall k | 0 < k < |infos| :: infos[k - 1].startTs + t.overhead + t.lateness <= infos[k].startTs
    ensures Deadline(t, infos, i) == infos[i].startTs + t.lateness
  {
    if i > 0 {
      DeadlineWhenApart(t, infos, i - 1);
      assert infos[i - 1].startTs + t.overhead + t.lateness <= infos[i].startTs;
    }
  }

  /** Bios recorded far enough apart: each keeps its moment, however many came before it. */
  lemma NoDrift(t: Timing, infos: seq<Info>, now: seq<int>, fire: seq<int>, i: nat)
    requires Timeline(t, infos, now, fire) && i < |fire| && t.overhead <= infos[0].startTs
    requires forall k | 0 < k < |infos| :: infos[k - 1].startTs + t.overhead + t.lateness <= infos[k].startTs
    ensures infos[i].startTs - t.jiffy < fire[i] <= infos[i].startTs + t.lateness
  {
    NeverEarly(t, infos, now, fire, i);
    NeverAfterDeadline(t, infos, now, fire, i);
    DeadlineWhenApart(t, infos, i);
  }
}
