/** Flushing the work queue: once every clone has completed, the dump work comes to an end by itself. */
module CaptureFlush {
  import opened Options
  import opened Bytes
  import opened Stream
  import opened Capture
  import opened CaptureInvariant
  import opened CaptureSession

  predicate IsWork(e: Event) {
    e.DumpRecord? || e.EndOriginal? || e.Uncount?
  }

  predicate AllWork(es: seq<Event>) {
    forall i | 0 <= i < |es| :: IsWork(es[i])
  }

  /** Every clone has completed. */
  predicate Completed(d: Device) {
    forall t | t in d.bios :: Rank(d.bios[t].stage) >= 5
  }

  /** Some dump work has not yet been done to its end. */
  ghost predicate CanWork(d: Device)
    requires 0 <= d.startTs <= d.clock
  {
    exists e :: IsWork(e) && Step(d, e).Some?
  }

  /** The actions of dump work that are still to come, as pairs of a bio and the stage it leaves. */
  function Left(bios: map<Token, Traced>): set<(Token, nat)> {
    set t, k | t in bios && 5 <= k < 8 && Rank(bios[t].stage) <= k :: (t, k)
  }

  /** The session is the same one, with the same bios and the same records. */
  ghost predicate SameSession(d: Device, d': Device) {
    && d'.bios.Keys == d.bios.Keys
    && (forall t | t in d.bios :: d'.bios[t].bio == d.bios[t].bio && d'.bios[t].info == d.bios[t].info)
    && d'.issued == d.issued && d'.schema == d.schema && d'.attached == d.attached && d'.enabled == d.enabled
    && d'.clock == d.clock && d'.startTs == d.startTs && |d'.order| == |d.order|
  }

  lemma OneLess(bios: map<Token, Traced>, t: Token, x: Traced)
    requires t in bios && 5 <= Rank(bios[t].stage) < 8 && Rank(x.stage) == Rank(bios[t].stage) + 1
    ensures |Left(bios[t := x])| + 1 == |Left(bios)|
  {
    var gone := (t, Rank(bios[t].stage));
    assert gone in Left(bios);
    assert Left(bios[t := x]) == Left(bios) - {gone};
  }

  lemma WorkMoves(d: Device, e: Event, d': Device)
    requires ClockOk(d) && IsWork(e) && Step(d, e) == Some(d')
    ensures MovedBio(e).Some? && Moves(d, e, d', MovedBio(e).value)
    ensures d'.enabled == d.enabled && 5 <= Rank(d.bios[MovedBio(e).value].stage) < 8
  {
    StepMovesOne(d, e, d', MovedBio(e).value);
  }

  lemma MoveKeepsSession(d: Device, e: Event, d': Device, t: Token)
    requires Moves(d, e, d', t) && !e.Create? && d'.enabled == d.enabled
    requires Completed(d) && Rank(d.bios[t].stage) < 8
    ensures Completed(d') && SameSession(d, d') && |Left(d'.bios)| + 1 == |Left(d.bios)|
  {
    OneLess(d.bios, t, d'.bios[t]);
  }

  /** One action of dump work: one less to come, and nothing else changes about the session. */
  lemma WorkStep(d: Device, e: Event, d': Device)
    requires Inv(d) && Completed(d) && IsWork(e) && Step(d, e) == Some(d')
    ensures Inv(d') && Completed(d') && SameSession(d, d') && |Left(d'.bios)| + 1 == |Left(d.bios)|
  {
    WorkMoves(d, e, d');
    MoveKeepsSession(d, e, d', MovedBio(e).value);
    StepKeepsInv(d, e, d');
  }

  lemma SameSessionAgain(d: Device, m: Device, d': Device)
    requires SameSession(d, m) && SameSession(m, d')
    ensures SameSession(d, d')
  {
    assert forall t :: t in d.bios <==> t in m.bios.Keys;
  }

  /** Whatever the order in which dump work runs, every action of it brings the end nearer by one. */
  lemma {:induction false} WorkCountsDown(d: Device, work: seq<Event>, d': Device)
    requires Inv(d) && Completed(d) && AllWork(work) && Runs(d, work, d')
    ensures Completed(d') && SameSession(d, d')
    ensures |work| + |Left(d'.bios)| == |Left(d.bios)|
    decreases |work|
  {
    if work != [] {
      var m := Step(d, work[0]).value;
      assert IsWork(work[0]);
      WorkStep(d, work[0], m);
      WorkCountsDown(m, work[1..], d');
      SameSessionAgain(d, m, d');
    }
  }

  /** The next action of the work on a bio. */
  function NextWork(t: Token, stage: Stage): Event
    requires 5 <= Rank(stage) < 8
  {
    match stage
    case Queued => DumpRecord(t)
    case Dumped => EndOriginal(t)
    case Finished => Uncount(t)
  }

  /** A bio whose clone has completed never waits for anything: its next action can be done. */
  lemma WorkIsPossible(d: Device, t: Token)
    requires Inv(d) && t in d.bios && 5 <= Rank(d.bios[t].stage) < 8
    ensures Step(d, NextWork(t, d.bios[t].stage)).Some?
  {
    assert !Quiet(d);
    assert TracedOk(d.bios[t], |d.order|, d.clock - d.startTs);
  }

  lemma SomeWork(d: Device) returns (e: Event)
    requires Inv(d) && Completed(d) && !Quiet(d)
    ensures IsWork(e) && Step(d, e).Some?
  {
    var t :| t in d.bios && d.bios[t].stage != Gone;
    WorkIsPossible(d, t);
    e := NextWork(t, d.bios[t].stage);
  }

  lemma NoWorkWhenQuiet(d: Device, e: Event)
    requires ClockOk(d) && Quiet(d) && IsWork(e)
    ensures Step(d, e) == None
  {
  }

  /** All dump work has been done exactly when none is possible any more. */
  lemma QuietIffNoWork(d: Device)
    requires Inv(d) && Completed(d)
    ensures Quiet(d) <==> !CanWork(d)
  {
    if Quiet(d) {
      forall e | IsWork(e) ensures Step(d, e) == None {
        NoWorkWhenQuiet(d, e);
      }
    } else {
      var e := SomeWork(d);
    }
  }

  lemma QuietLeavesNothing(d: Device)
    requires Completed(d) && Quiet(d)
    ensures |Left(d.bios)| == 0
  {
    assert Left(d.bios) == {};
  }

  /** e is dump work that leads from d to m, where ok still holds and less is left. */
  ghost predicate Advances(ok: Device -> bool, d: Device, e: Event, m: Device) {
    IsWork(e) && 0 <= d.startTs <= d.clock && Step(d, e) == Some(m) && ok(m) && |Left(m.bios)| < |Left(d.bios)|
  }

  ghost predicate GoesOn(ok: Device -> bool, d: Device) {
    Quiet(d) || exists e, m :: Advances(ok, d, e, m)
  }

  lemma {:induction false} WorkGetsDone(ok: Device -> bool, d: Device) returns (work: seq<Event>, d': Device)
    requires ok(d) && forall c: Device | ok(c) :: GoesOn(ok, c)
    ensures AllWork(work) && Runs(d, work, d') && Quiet(d')
    decreases |Left(d.bios)|
  {
    assert GoesOn(ok, d);
    if Quiet(d) {
      work, d' := [], d;
    } else {
      var e, m :| Advances(ok, d, e, m);
      var rest;
      rest, d' := WorkGetsDone(ok, m);
      work := [e] + rest;
      OneFirst(d, e, m, rest, d');
    }
  }

  ghost function Ok(): Device -> bool {
    (d: Device) => Inv(d) && Completed(d)
  }

  lemma OkGoesOn(d: Device)
    requires Inv(d) && Completed(d)
    ensures GoesOn(Ok(), d)
  {
    if !Quiet(d) {
      var e := SomeWork(d);
      var m := Step(d, e).value;
      WorkStep(d, e, m);
      assert Advances(Ok(), d, e, m);
    }
  }

  /** Some order of dump work does it all, with the same bios, records and ids. */
  lemma FlushExists(d: Device) returns (work: seq<Event>, d': Device)
    requires Inv(d) && Completed(d)
    ensures AllWork(work) && Runs(d, work, d') && Quiet(d') && SameSession(d, d')
  {
    forall c: Device | Ok()(c) ensures GoesOn(Ok(), c) {
      OkGoesOn(c);
    }
    work, d' := WorkGetsDone(Ok(), d);
    WorkCountsDown(d, work, d');
  }

  /**
   * Session completeness for disabling as the source does it. Every clone has completed; dump
   * work then runs, in any order, until there is none left, which takes exactly as many actions
   * as were outstanding. The device can then be detached, no bio and no record has changed, and
   * the session is complete.
   */
  lemma SessionCompleteAfterFlush(es: seq<Event>, boot: s64, d: Device, work: seq<Event>, q: Device)
    requires Reaches(es, boot, d) && d.attached && !d.enabled && Completed(d)
    requires AllWork(work) && Runs(d, work, q) && 0 <= q.startTs <= q.clock && !CanWork(q)
    ensures |work| == |Left(d.bios)| && SameSession(d, q) && Step(q, Detach).Some?
    ensures var d' := Step(q, Detach).value;
      && |d'.files| == |q.order| == |d.order| && q.inflight == 0
      && (forall t | t in q.bios :: CapturedOnce(q, t))
      && (forall c | 0 <= c < |q.order| ::
            (forall i | 0 <= i < |q.order[c]| :: q.order[c][i] in q.bios) && FileHolds(q, d', c))
  {
    RunKeepsInv(es, boot, d);
    WorkCountsDown(d, work, q);
    RunsKeepInv(d, work, q);
    QuietIffNoWork(q);
    QuietLeavesNothing(q);
    OneAfterOther(Created0(boot), es, d, work, q);
    SessionComplete(es + work, boot, q, Step(q, Detach).value);
  }
}
