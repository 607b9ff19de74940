/** The proxy device as an object: its callbacks are runs of the capture protocol. */
module Capturing {
  import opened Options
  import opened Bytes
  import opened Record
  import opened Stream
  import opened DumpLog
  import opened DumpSet
  import opened Capture
  import opened CaptureInvariant
  import opened CaptureSession
  import opened CaptureFlush

  // ----- the events of each callback, and what they come to -----

  /** What process_bio does before and after it has the clone. */
  function DescribeEvents(t: Token, cpu: s32, now: s64): seq<Event>
    requires cpu >= 0
  {
    [Create(t)] + ([Tick(now)] + ([Fill(t, cpu)] + []))
  }

  function LaunchEvents(t: Token): seq<Event> {
    [Count(t)] + ([Send(t)] + [])
  }

  function ProcessEvents(t: Token, cpu: s32, now: s64): seq<Event>
    requires cpu >= 0
  {
    DescribeEvents(t, cpu, now) + LaunchEvents(t)
  }

  function SubmitEvents(t: Token, bio: Bio, enabled: bool, cpu: s32, now: s64): seq<Event>
    requires enabled ==> cpu >= 0
  {
    [Submit(t, bio)] + if enabled then ProcessEvents(t, cpu, now) else []
  }

  function EndEvents(t: Token, status: byte, now: s64): seq<Event> {
    [Tick(now)] + ([EndIo(t, status)] + [])
  }

  function ReleaseEvents(t: Token): seq<Event> {
    [EndOriginal(t)] + ([Uncount(t)] + [])
  }

  function WorkEvents(t: Token): seq<Event> {
    [DumpRecord(t)] + ReleaseEvents(t)
  }

  function EnableEvents(payload: bool, cpus: nat, bufSize: nat, now: s64): seq<Event> {
    [Tick(now)] + ([Enable(payload, cpus, bufSize)] + [])
  }

  lemma FirstOf(d: Device, e: Event, es: seq<Event>, d': Device)
    requires Runs(d, [e] + es, d')
    ensures 0 <= d.startTs <= d.clock && Step(d, e).Some? && Runs(Step(d, e).value, es, d')
  {
    assert ([e] + es)[0] == e && ([e] + es)[1..] == es;
  }

  /** The parts of a device that the callbacks of a bio leave alone. */
  predicate SameSetting(d: Device, d': Device) {
    && d'.schema == d.schema && d'.attached == d.attached && d'.enabled == d.enabled && d'.startTs == d.startTs
    && |d'.order| == |d.order| && |d'.writers| == |d.writers|
  }

  /** d' has the bio t at this stage, as submitted on this cpu, and the others as d has them. */
  predicate Puts(d: Device, t: Token, stage: Stage, bio: Bio, cpu: int, d': Device) {
    && SameSetting(d, d') && At(d', t, stage) && d'.bios[t].bio == bio && d'.bios[t].info.cpu == cpu
    && d'.bios == d.bios[t := d'.bios[t]]
  }

  lemma DescribeOutcome(d: Device, t: Token, cpu: s32, now: s64, d': Device)
    requires cpu >= 0 && t in d.bios && Runs(d, DescribeEvents(t, cpu, now), d')
    ensures Puts(d, t, Filled, d.bios[t].bio, cpu, d') && d'.clock == now
    ensures d.startTs + d'.bios[t].info.startTs == now
  {
    FirstOf(d, Create(t), [Tick(now)] + ([Fill(t, cpu)] + []), d');
    var d1 := Step(d, Create(t)).value;
    FirstOf(d1, Tick(now), [Fill(t, cpu)] + [], d');
    FirstOf(Step(d1, Tick(now)).value, Fill(t, cpu), [], d');
  }

  lemma LaunchOutcome(d: Device, t: Token, d': Device)
    requires t in d.bios && Runs(d, LaunchEvents(t), d')
    ensures Puts(d, t, Sent, d.bios[t].bio, d.bios[t].info.cpu, d') && d'.clock == d.clock
    ensures d'.bios[t].info == d.bios[t].info
  {
    FirstOf(d, Count(t), [Send(t)] + [], d');
    FirstOf(Step(d, Count(t)).value, Send(t), [], d');
  }

  /** A bio submitted to an enabled device is traced on its cpu, with the time since the session began. */
  lemma SubmitOutcome(d: Device, t: Token, bio: Bio, cpu: s32, now: s64, d': Device)
    requires cpu >= 0 && d.enabled && Runs(d, SubmitEvents(t, bio, true, cpu, now), d')
    ensures Puts(d, t, Sent, bio, cpu, d') && d'.clock == now
    ensures d.startTs + d'.bios[t].info.startTs == now
  {
    FirstOf(d, Submit(t, bio), ProcessEvents(t, cpu, now), d');
    var a := Step(d, Submit(t, bio)).value;
    var m := Midway(a, DescribeEvents(t, cpu, now), LaunchEvents(t), d');
    DescribeOutcome(a, t, cpu, now, m);
    LaunchOutcome(m, t, d');
  }

  /** A bio submitted to a disabled device is not seen at all. */
  lemma PassOutcome(d: Device, t: Token, bio: Bio, d': Device)
    requires !d.enabled && Runs(d, SubmitEvents(t, bio, false, 0, 0), d')
    ensures d' == d
  {
    FirstOf(d, Submit(t, bio), [], d');
  }

  /** A completed one has the time of its completion and the status of its clone. */
  lemma EndOutcome(d: Device, t: Token, status: byte, now: s64, d': Device)
    requires t in d.bios && Runs(d, EndEvents(t, status, now), d')
    ensures Puts(d, t, Queued, d.bios[t].bio, d.bios[t].info.cpu, d') && d'.clock == now
    ensures d'.bios[t].info.startTs == d.bios[t].info.startTs && d.startTs + d'.bios[t].info.endTs == now
    ensures d'.bios[t].info.status == status
  {
    FirstOf(d, Tick(now), [EndIo(t, status)] + [], d');
    FirstOf(Step(d, Tick(now)).value, EndIo(t, status), [], d');
  }

  lemma EnableOutcome(d: Device, payload: bool, cpus: nat, bufSize: nat, now: s64, d': Device)
    requires !d.attached && Runs(d, EnableEvents(payload, cpus, bufSize, now), d')
    ensures d'.enabled && d'.attached && d'.bios == map[] && d'.clock == d'.startTs == now &&
      |d'.order| == |d'.writers| == cpus
    ensures d'.schema == SchemaFor(payload)
  {
    FirstOf(d, Tick(now), [Enable(payload, cpus, bufSize)] + [], d');
    FirstOf(Step(d, Tick(now)).value, Enable(payload, cpus, bufSize), [], d');
  }

  predicate SameRecords(d: Device, d': Device) {
    && d'.bios.Keys == d.bios.Keys && d'.schema == d.schema && |d'.order| == |d.order|
    && forall t | t in d.bios :: d'.bios[t].bio == d.bios[t].bio && d'.bios[t].info == d.bios[t].info
  }

  /** Disabling changes no bio and no record. */
  lemma DisableOutcome(d: Device, work: seq<Event>, d': Device)
    requires Inv(d) && Completed(d) && AllWork(work) && Runs(d, [DisableFlag] + (work + ([Detach] + [])), d')
    ensures SameRecords(d, d')
  {
    FirstOf(d, DisableFlag, work + ([Detach] + []), d');
    var a := Step(d, DisableFlag).value;
    StepKeepsInv(d, DisableFlag, a);
    var q := Midway(a, work, [Detach] + [], d');
    WorkCountsDown(a, work, q);
    FirstOf(q, Detach, [], d');
  }

  /** d' has the bio t at this stage, and all other bios as d has them, in the same session. */
  predicate Brings(d: Device, t: Token, stage: Stage, d': Device) {
    && d'.schema == d.schema && d'.attached == d.attached && |d'.order| == |d.order| && |d'.writers| == |d.writers|
    && At(d', t, stage) && (forall u | u in d'.bios && u != t :: u in d.bios && d'.bios[u] == d.bios[u])
    && (forall u | u in d.bios && u != t :: u in d'.bios)
  }

  lemma ReleaseOutcome(d: Device, t: Token, d': Device)
    requires Runs(d, ReleaseEvents(t), d')
    ensures Brings(d, t, Gone, d')
  {
    FirstOf(d, EndOriginal(t), [Uncount(t)] + [], d');
    FirstOf(Step(d, EndOriginal(t)).value, Uncount(t), [], d');
  }

  lemma WorkOutcome(d: Device, t: Token, d': Device)
    requires Runs(d, WorkEvents(t), d')
    ensures Brings(d, t, Gone, d')
  {
    FirstOf(d, DumpRecord(t), ReleaseEvents(t), d');
    ReleaseOutcome(Step(d, DumpRecord(t)).value, t, d');
  }

  /** All bios but these are done with, and these have completed. */
  predicate AllDoneBut(d: Device, todo: set<Token>) {
    (forall t | t in todo :: t in d.bios && Rank(d.bios[t].stage) >= 5)
    && forall t | t in d.bios && t !in todo :: d.bios[t].stage == Gone
  }

  /** The record of a bio with queued work has a place to go to. */
  predicate CanBeDumped(schema: Schema, x: Traced, cpus: nat) {
    x.stage == Queued ==> 0 <= x.info.cpu < cpus && Storable(schema, x.info)
  }

  ghost predicate AllCanBeDumped(d: Device) {
    d.attached && |d.writers| == |d.order| && forall t | t in d.bios :: CanBeDumped(d.schema, d.bios[t], |d.order|)
  }

  lemma InvCanBeDumped(d: Device)
    requires Inv(d) && d.attached
    ensures AllCanBeDumped(d)
  {
    forall t | t in d.bios ensures CanBeDumped(d.schema, d.bios[t], |d.order|) {
      if d.bios[t].stage == Queued {
        QueuedFits(d, t);
      }
    }
  }

  /** A flush that began in d has come to m, and these bios are left. */
  ghost predicate Flushing(d: Device, work: seq<Event>, m: Device, todo: set<Token>) {
    AllWork(work) && Runs(d, work, m) && AllDoneBut(m, todo) && AllCanBeDumped(m)
  }

  lemma NoneDone(d: Device)
    ensures Completed(d) ==> AllDoneBut(d, d.bios.Keys)
    ensures AllDoneBut(d, {}) ==> Quiet(d)
  {
  }

  lemma OneDone(m: Device, t: Token, d': Device, todo: set<Token>)
    requires AllCanBeDumped(m) && AllDoneBut(m, todo) && t in todo && Brings(m, t, Gone, d')
    ensures AllCanBeDumped(d') && AllDoneBut(d', todo - {t})
  {
    forall u | u in d'.bios ensures CanBeDumped(d'.schema, d'.bios[u], |d'.order|) {
      assert u != t ==> CanBeDumped(m.schema, m.bios[u], |m.order|);
    }
  }

  /** The file reads as exactly the records of the bios in cpu c's list. */
  ghost predicate HoldsList(d: Device, c: nat, file: seq<byte>) {
    && c < |d.order| && (forall i | 0 <= i < |d.order[c]| :: d.order[c][i] in d.bios)
    && ReadsAs(d.schema, file, Records(d.bios, d.order[c]))
  }

  /** What closing leaves behind, in terms of the closed device. */
  lemma ClosedOutcome(q: Device, d': Device)
    requires Inv(q) && Step(q, Detach) == Some(d')
    ensures |d'.files| == |d'.order| && forall t | t in d'.bios :: CapturedOnce(d', t)
    ensures forall c | 0 <= c < |d'.order| :: HoldsList(d', c, d'.files[c])
  {
    ClosingCompletes(q, d');
    forall t | t in d'.bios ensures CapturedOnce(d', t) {
      assert CapturedOnce(q, t);
    }
    forall c | 0 <= c < |d'.order| ensures HoldsList(d', c, d'.files[c]) {
      assert FileHolds(q, d', c);
    }
  }

  /** d with the record of t in the log of its cpu. */
  function WithLog(d: Device, t: Token): Device
    requires t in d.bios && 0 <= d.bios[t].info.cpu < |d.writers|
  {
    var info := d.bios[t].info;
    d.(writers := d.writers[info.cpu := Append(d.writers[info.cpu], RecordBytes(d.schema, info), true)])
  }

  /** d with t in the list of its cpu. */
  function Listed(d: Device, t: Token): Device
    requires t in d.bios && 0 <= d.bios[t].info.cpu < |d.order|
  {
    var info := d.bios[t].info;
    Moved(d, t, info, Dumped).(order := d.order[info.cpu := d.order[info.cpu] + [t]])
  }

  lemma DumpIsLogThenList(d: Device, t: Token)
    requires 0 <= d.startTs <= d.clock && At(d, t, Queued) && 0 <= d.bios[t].info.cpu < |d.writers| == |d.order|
    ensures Step(d, DumpRecord(t)) == Some(Listed(WithLog(d, t), t))
  {
  }

  /** The bios are kept as values under their tokens; issued, order, files and clock are history. */
  class Proxy {
    var enabled: bool
    var dumps: Dumps?
    var counter: u32
    var inflight: int
    var startTs: s64
    var bios: map<Token, Traced>
    ghost var schema: Schema
    ghost var files: seq<seq<byte>>
    ghost var issued: seq<Token>
    ghost var order: seq<seq<Token>>
    ghost var clock: s64

    ghost function Objects(): set<object>
      reads this, dumps
    {
      if dumps == null then {this} else {this, dumps} + dumps.repr
    }

    /** The dumps are in order and belong to the session. */
    ghost predicate Linked()
      reads this, dumps, Objects()
    {
      && 0 <= startTs <= clock
      && (dumps != null ==> this !in dumps.repr && dumps.Valid() && dumps.schema == schema)
    }

    ghost function View(): Device
      reads this, dumps
    {
      Device(enabled, dumps != null, schema, if dumps != null then dumps.writers else [], files,
             counter, inflight, startTs, clock, bios, issued, order)
    }

    /** Between the callbacks the device also meets the invariant of the protocol. */
    ghost predicate Valid()
      reads this, dumps, Objects()
    {
      Linked() && Inv(View())
    }

    constructor (now: s64)
      requires now >= 0
      ensures Valid() && View() == Created0(now) && fresh(Objects())
    {
      enabled, dumps, counter, inflight, startTs := false, null, ID_SPAN - 1, 0, 0;
      bios := map[];
      schema, files, issued, order, clock := [], [], [], [], now;
      new;
      NewDeviceInv(now);
    }

    /** The clock is read. */
    ghost method Observe(now: s64)
      requires Linked() && clock <= now
      modifies this`clock
      ensures Linked() && clock == now && Step(old(View()), Tick(now)) == Some(View())
    {
      clock := now;
    }

    // ----- submission -----

    method NextBioId() returns (id: u32)
      modifies this`counter
      ensures id == counter == (old(counter) + 1) % ID_SPAN
    {
      counter := (counter + 1) % ID_SPAN;
      id := counter;
    }

    method Admit(t: Token, bio: Bio)
      requires Linked() && enabled && t !in bios && ValidBio(bio)
      modifies this`bios
      ensures Linked() && At(View(), t, Admitted) && Step(old(View()), Submit(t, bio)) == Some(View())
    {
      bios := bios[t := Traced(bio, BLANK_INFO, Admitted, 0, 0)];
    }

    method CreateBio(t: Token)
      requires Linked() && At(View(), t, Admitted)
      modifies this`counter, this`bios, this`issued
      ensures Linked() && Step(old(View()), Create(t)) == Some(View())
    {
      var id := NextBioId();
      bios := bios[t := bios[t].(info := BLANK_INFO.(id := id), stage := Created)];
      issued := issued + [t];
    }

    method FillInfo(t: Token, cpu: s32, now: s64)
      requires Linked() && At(View(), t, Created) && now == clock && 0 <= cpu < |View().writers|
      modifies this`bios
      ensures Linked() && Step(old(View()), Fill(t, cpu)) == Some(View())
    {
      var bio := bios[t].bio;
      var info := bios[t].info.(sector := bio.sector, size := bio.size, op := bio.op, cpu := cpu,
          startTs := now - startTs);
      if IsWrite(bio) {
        info := info.(payload := Payload(bio.size, bio.segs));
      } else {
        info := info.(payload := Payload(0, bio.segs));
      }
      bios := bios[t := bios[t].(info := info, stage := Filled)];
    }

    method CountBio(t: Token)
      requires Linked() && At(View(), t, Filled)
      modifies this`bios, this`inflight
      ensures Linked() && Step(old(View()), Count(t)) == Some(View())
    {
      inflight := inflight + 1;
      bios := bios[t := bios[t].(stage := Counted)];
    }

    method SendClone(t: Token)
      requires Linked() && At(View(), t, Counted)
      modifies this`bios
      ensures Linked() && Step(old(View()), Send(t)) == Some(View())
    {
      bios := bios[t := bios[t].(stage := Sent)];
    }

    method StampInfo(t: Token, cpu: s32, now: s64)
      requires Linked() && At(View(), t, Created) && 0 <= cpu < |View().writers| && clock <= now
      modifies this`bios, this`clock
      ensures Linked() && At(View(), t, Filled) && Runs(old(View()), [Tick(now)] + ([Fill(t, cpu)] + []), View())
    {
      ghost var d := View();
      Observe(now);
      ghost var m := View();
      FillInfo(t, cpu, now);
      OneFirst(m, Fill(t, cpu), View(), [], View());
      OneFirst(d, Tick(now), m, [Fill(t, cpu)] + [], View());
    }

    method DescribeBio(t: Token, cpu: s32, now: s64)
      requires Linked() && At(View(), t, Admitted) && 0 <= cpu < |View().writers| && clock <= now
      modifies this`counter, this`bios, this`issued, this`clock
      ensures Linked() && At(View(), t, Filled) && Runs(old(View()), DescribeEvents(t, cpu, now), View())
    {
      ghost var d := View();
      CreateBio(t);
      ghost var m := View();
      StampInfo(t, cpu, now);
      OneFirst(d, Create(t), m, [Tick(now)] + ([Fill(t, cpu)] + []), View());
    }

    method LaunchClone(t: Token)
      requires Linked() && At(View(), t, Filled)
      modifies this`bios, this`inflight
      ensures Linked() && At(View(), t, Sent) && Runs(old(View()), LaunchEvents(t), View())
    {
      ghost var d := View();
      CountBio(t);
      ghost var d1 := View();
      SendClone(t);
      OneFirst(d1, Send(t), View(), [], View());
      OneFirst(d, Count(t), d1, [Send(t)] + [], View());
    }

    /** blgy_prxy_process_bio on the given cpu, up to handing the clone to the target device. */
    method ProcessBio(t: Token, cpu: s32, now: s64)
      requires Linked() && At(View(), t, Admitted) && 0 <= cpu < |View().writers| && clock <= now
      modifies this`counter, this`bios, this`issued, this`inflight, this`clock
      ensures Linked() && At(View(), t, Sent) && Runs(old(View()), ProcessEvents(t, cpu, now), View())
    {
      ghost var d := View();
      DescribeBio(t, cpu, now);
      ghost var m := View();
      LaunchClone(t);
      OneAfterOther(d, DescribeEvents(t, cpu, now), m, LaunchEvents(t), View());
    }

    method Trace(t: Token, bio: Bio, cpu: s32, now: s64)
      requires Linked() && t !in bios && ValidBio(bio) && clock <= now
      requires enabled ==> 0 <= cpu < |View().writers|
      modifies this`counter, this`bios, this`issued, this`inflight, this`clock
      ensures Linked() && Runs(old(View()), SubmitEvents(t, bio, enabled, cpu, now), View())
    {
      ghost var d := View();
      if enabled {
        Admit(t, bio);
        ghost var m := View();
        ProcessBio(t, cpu, now);
        OneFirst(d, Submit(t, bio), m, ProcessEvents(t, cpu, now), View());
      } else {
        OneFirst(d, Submit(t, bio), d, [], d);
      }
    }

    /** blgy_prxy_dev_submit_bio: traced while enabled, passed through otherwise. */
    method SubmitBio(t: Token, bio: Bio, cpu: s32, now: s64)
      requires Valid() && t !in bios && ValidBio(bio) && clock <= now
      requires enabled ==> 0 <= cpu < |View().writers|
      modifies this`counter, this`bios, this`issued, this`inflight, this`clock
      ensures Valid() && Runs(old(View()), SubmitEvents(t, bio, enabled, cpu, now), View())
      ensures !enabled ==> View() == old(View())
      ensures enabled ==> Puts(old(View()), t, Sent, bio, cpu, View())
      ensures enabled ==> bios[t].info.startTs == now - startTs && clock == now
    {
      ghost var d := View();
      Trace(t, bio, cpu, now);
      RunsKeepInv(d, SubmitEvents(t, bio, enabled, cpu, now), View());
      if enabled {
        SubmitOutcome(d, t, bio, cpu, now, View());
      } else {
        PassOutcome(d, t, bio, View());
      }
    }

    // ----- completion -----

    method CompleteBio(t: Token, status: byte, now: s64)
      requires Linked() && At(View(), t, Sent) && now == clock
      modifies this`bios
      ensures Linked() && Step(old(View()), Capture.EndIo(t, status)) == Some(View())
    {
      var info := bios[t].info.(endTs := now - startTs, status := status);
      bios := bios[t := bios[t].(info := info, stage := Queued, status := status)];
    }

    method Finish(t: Token, status: byte, now: s64)
      requires Linked() && At(View(), t, Sent) && clock <= now
      modifies this`bios, this`clock
      ensures Linked() && Runs(old(View()), EndEvents(t, status, now), View())
    {
      ghost var d := View();
      Observe(now);
      ghost var m := View();
      CompleteBio(t, status, now);
      OneFirst(m, Capture.EndIo(t, status), View(), [], View());
      OneFirst(d, Tick(now), m, [Capture.EndIo(t, status)] + [], View());
    }

    /** blgy_prxy_bio_end_io, when the target device has completed the clone. */
    method EndIo(t: Token, status: byte, now: s64)
      requires Valid() && At(View(), t, Sent) && clock <= now
      modifies this`bios, this`clock
      ensures Valid() && Runs(old(View()), EndEvents(t, status, now), View())
      ensures Puts(old(View()), t, Queued, old(bios)[t].bio, old(bios)[t].info.cpu, View()) && clock == now
      ensures bios[t].info.startTs == old(bios)[t].info.startTs && bios[t].info.endTs == now - startTs
      ensures bios[t].info.status == status
    {
      ghost var d := View();
      Finish(t, status, now);
      RunsKeepInv(d, EndEvents(t, status, now), View());
      EndOutcome(d, t, status, now, View());
    }

    /** The record goes to the log of the bio's cpu; the logs of the other cpus stay as they are. */
    method LogRecord(t: Token)
      requires Linked() && t in bios && dumps != null && Storable(schema, bios[t].info)
      requires 0 <= bios[t].info.cpu < |dumps.writers|
      modifies dumps, dumps.repr
      ensures Linked() && fresh(dumps.repr - old(dumps.repr)) && View() == WithLog(old(View()), t)
    {
      var ret := dumps.Append(bios[t].info.cpu, bios[t].info, true);
    }

    method ListRecord(t: Token)
      requires Linked() && t in bios && 0 <= bios[t].info.cpu < |order|
      modifies this`bios, this`order
      ensures Linked() && View() == Listed(old(View()), t)
    {
      var cpu := bios[t].info.cpu;
      bios := bios[t := bios[t].(stage := Dumped)];
      order := order[cpu := order[cpu] + [t]];
    }

    method DumpBio(t: Token)
      requires Linked() && At(View(), t, Queued) && dumps != null && Storable(schema, bios[t].info)
      requires 0 <= bios[t].info.cpu < |dumps.writers| == |order|
      modifies this`bios, this`order, dumps, dumps.repr
      ensures Linked() && fresh(dumps.repr - old(dumps.repr))
      ensures At(View(), t, Dumped) && Step(old(View()), DumpRecord(t)) == Some(View())
    {
      DumpIsLogThenList(View(), t);
      LogRecord(t);
      ListRecord(t);
    }

    method EndBio(t: Token)
      requires Linked() && At(View(), t, Dumped)
      modifies this`bios
      ensures Linked() && At(View(), t, Finished) && Step(old(View()), EndOriginal(t)) == Some(View())
    {
      bios := bios[t := bios[t].(stage := Finished, endios := bios[t].endios + 1)];
    }

    method UncountBio(t: Token)
      requires Linked() && At(View(), t, Finished)
      modifies this`bios, this`inflight
      ensures Linked() && Step(old(View()), Uncount(t)) == Some(View())
    {
      inflight := inflight - 1;
      bios := bios[t := bios[t].(stage := Gone)];
    }

    method LetGo(t: Token)
      requires Linked() && At(View(), t, Dumped)
      modifies this`bios, this`inflight
      ensures Linked() && Runs(old(View()), ReleaseEvents(t), View())
    {
      ghost var d := View();
      EndBio(t);
      ghost var m := View();
      UncountBio(t);
      OneFirst(m, Uncount(t), View(), [], View());
      OneFirst(d, EndOriginal(t), m, [Uncount(t)] + [], View());
    }

    method RunWork(t: Token)
      requires Linked() && At(View(), t, Queued) && dumps != null && Storable(schema, bios[t].info)
      requires 0 <= bios[t].info.cpu < |dumps.writers| == |order|
      modifies this`bios, this`order, this`inflight, dumps, dumps.repr
      ensures Linked() && fresh(dumps.repr - old(dumps.repr))
      ensures Runs(old(View()), WorkEvents(t), View())
    {
      ghost var d := View();
      DumpBio(t);
      ghost var m := View();
      LetGo(t);
      OneFirst(d, DumpRecord(t), m, ReleaseEvents(t), View());
    }

    /** blgy_prxy_bio_dump_work: the record is dumped, the original bio ended, and the bio let go. */
    method DumpWork(t: Token)
      requires Valid() && At(View(), t, Queued)
      modifies this`bios, this`order, this`inflight, Objects() - {this}
      ensures Valid() && fresh(Objects() - old(Objects()))
      ensures Runs(old(View()), WorkEvents(t), View()) && Brings(old(View()), t, Gone, View())
    {
      ghost var d := View();
      QueuedFits(d, t);
      RunWork(t);
      RunsKeepInv(d, WorkEvents(t), View());
      WorkOutcome(d, t, View());
    }

    // ----- flushing -----

    method LastWork(t: Token) returns (ghost work: seq<Event>)
      requires Linked() && At(View(), t, Finished)
      modifies this`bios, this`inflight
      ensures Linked() && AllWork(work) && Runs(old(View()), work, View()) && Brings(old(View()), t, Gone, View())
    {
      ghost var d := View();
      UncountBio(t);
      work := [Uncount(t)] + [];
      OneFirst(d, Uncount(t), View(), [], View());
    }

    method RestOfWork(t: Token) returns (ghost work: seq<Event>)
      requires Linked() && t in bios && Rank(bios[t].stage) >= 6
      modifies this`bios, this`inflight
      ensures Linked() && AllWork(work) && Runs(old(View()), work, View()) && Brings(old(View()), t, Gone, View())
    {
      ghost var d := View();
      work := [];
      if bios[t].stage == Dumped {
        LetGo(t);
        work := ReleaseEvents(t);
        ReleaseOutcome(d, t, View());
      } else if bios[t].stage == Finished {
        work := LastWork(t);
      }
    }

    /** What is left of the dump work of a bio whose clone has completed. */
    method FinishBio(t: Token) returns (ghost work: seq<Event>)
      requires Linked() && t in bios && Rank(bios[t].stage) >= 5
      requires dumps != null && |dumps.writers| == |order| && CanBeDumped(schema, bios[t], |order|)
      modifies this`bios, this`order, this`inflight, dumps, dumps.repr
      ensures Linked() && fresh(dumps.repr - old(dumps.repr))
      ensures AllWork(work) && Runs(old(View()), work, View()) && Brings(old(View()), t, Gone, View())
    {
      if bios[t].stage == Queued {
        ghost var d := View();
        RunWork(t);
        work := WorkEvents(t);
        WorkOutcome(d, t, View());
      } else {
        work := RestOfWork(t);
      }
    }

    /** One more bio is done with; d is where the flush began and work what has been done since. */
    method FlushOne(t: Token, ghost todo: set<Token>, ghost d: Device, ghost work: seq<Event>)
        returns (ghost more: seq<Event>)
      requires Linked() && dumps != null && t in todo && Flushing(d, work, View(), todo)
      modifies this`bios, this`order, this`inflight, dumps, dumps.repr
      ensures Linked() && fresh(dumps.repr - old(dumps.repr)) && Flushing(d, more, View(), todo - {t})
    {
      ghost var m := View();
      assert CanBeDumped(m.schema, m.bios[t], |m.order|);
      ghost var last := FinishBio(t);
      OneAfterOther(d, work, m, last, View());
      OneDone(m, t, View(), todo);
      more := work + last;
    }

    /** flush_workqueue, as far as these bios are concerned: dump work that is queued or under way is done. */
    method Flush(todo: set<Token>, ghost d: Device, ghost work: seq<Event>) returns (ghost all: seq<Event>)
      requires Linked() && dumps != null && Flushing(d, work, View(), todo)
      modifies this`bios, this`order, this`inflight, dumps, dumps.repr
      ensures Linked() && fresh(dumps.repr - old(dumps.repr)) && Flushing(d, all, View(), {})
      decreases |todo|
    {
      if todo == {} {
        return work;
      }
      var t :| t in todo;
      ghost var more := FlushOne(t, todo, d, work);
      all := Flush(todo - {t}, d, more);
    }

    // ----- sessions -----

    method OpenDumps(chosen: Schema, cpus: nat, bufSize: nat)
      requires Linked() && dumps == null && |chosen| < 0x1_0000_0000 && |HeaderBytes(chosen)| <= bufSize
      modifies this`dumps, this`schema
      ensures Linked() && fresh(dumps) && fresh(dumps.repr)
      ensures View() == old(View()).(attached := true, schema := chosen,
        writers := FreshAll(HeaderBytes(chosen), bufSize, cpus))
    {
      schema := chosen;
      dumps := new Dumps(cpus, chosen, bufSize);
    }

    method ResetCounters(now: s64)
      requires Linked() && now == clock
      modifies this`counter, this`startTs, this`enabled
      ensures Linked() && View() == old(View()).(enabled := true, counter := ID_SPAN - 1, startTs := now)
    {
      counter, startTs, enabled := ID_SPAN - 1, now, true;
    }

    /** A new history begins. */
    method ForgetBios(cpus: nat)
      requires Linked()
      modifies this`bios, this`files, this`issued, this`order
      ensures Linked()
      ensures View() == old(View()).(bios := map[], files := [], issued := [], order := seq(cpus, _ => []))
    {
      bios, files, issued, order := map[], [], [], seq(cpus, _ => []);
    }

    method Attach(payload: bool, cpus: nat, bufSize: nat, now: s64) returns (ret: bool)
      requires Linked() && clock == now && cpus < 0x8000_0000
      requires |HeaderBytes(SchemaFor(payload))| <= bufSize
      modifies this
      ensures Linked() && ret == (old(dumps) == null)
      ensures if ret then fresh(dumps) && fresh(dumps.repr) else dumps == old(dumps) && dumps.repr == old(dumps.repr)
      ensures Step(old(View()), Capture.Enable(payload, cpus, bufSize)) == Some(View())
    {
      if dumps != null {
        return false;
      }
      OpenDumps(SchemaFor(payload), cpus, bufSize);
      ResetCounters(now);
      ForgetBios(cpus);
      ret := true;
    }

    /** blgy_prxy_dev_enable; false is EALREADY. */
    method Enable(payload: bool, cpus: nat, bufSize: nat, now: s64) returns (ret: bool)
      requires Valid() && clock <= now && cpus < 0x8000_0000
      requires |HeaderBytes(SchemaFor(payload))| <= bufSize
      modifies this
      ensures Valid() && ret == (old(dumps) == null)
      ensures if ret then fresh(dumps) && fresh(dumps.repr) else dumps == old(dumps) && dumps.repr == old(dumps.repr)
      ensures Runs(old(View()), EnableEvents(payload, cpus, bufSize, now), View())
      ensures ret ==> enabled && startTs == clock == now && bios == map[] && schema == SchemaFor(payload)
      ensures ret ==> |order| == |dumps.writers| == cpus
    {
      ghost var d := View();
      Observe(now);
      ghost var m := View();
      ret := Attach(payload, cpus, bufSize, now);
      OneFirst(m, Capture.Enable(payload, cpus, bufSize), View(), [], View());
      OneFirst(d, Tick(now), m, [Capture.Enable(payload, cpus, bufSize)] + [], View());
      RunsKeepInv(d, EnableEvents(payload, cpus, bufSize, now), View());
      if ret {
        EnableOutcome(d, payload, cpus, bufSize, now, View());
      }
    }

    method CloseDumps()
      requires Linked() && dumps != null && !enabled && Quiet(View())
      modifies this`dumps, this`files, Objects() - {this}
      ensures Linked() && dumps == null && Step(old(View()), Detach) == Some(View())
      ensures |files| == |old(dumps).dumps| && forall c | 0 <= c < |files| :: files[c] == old(dumps).dumps[c].file.bytes
    {
      ghost var closed := ClosedFiles(dumps.writers);
      dumps.Destroy(seq(|dumps.dumps|, _ => true));
      files := closed;
      dumps := null;
    }

    /** The device is disabled, all work is done, and the dumps are closed. */
    method FlushAndClose() returns (ghost work: seq<Event>, ghost q: Device)
      requires Valid() && dumps != null && !enabled && Completed(View())
      modifies this`bios, this`order, this`inflight, this`dumps, this`files, Objects() - {this}
      ensures Valid() && dumps == null && AllWork(work) && Runs(old(View()), work, q)
      ensures Inv(q) && Step(q, Detach) == Some(View())
      ensures |files| == |old(dumps).dumps| && forall c | 0 <= c < |files| :: files[c] == old(dumps).dumps[c].file.bytes
    {
      ghost var d := View();
      InvCanBeDumped(d);
      NoneDone(d);
      work := Flush(bios.Keys, d, []);
      q := View();
      NoneDone(q);
      RunsKeepInv(d, work, q);
      CloseDumps();
      StepKeepsInv(q, Detach, View());
    }

    /**
     * blgy_prxy_dev_disable, when every clone has completed. The flag is cleared, the work queue
     * flushed and the dumps closed; then every traced bio is captured, once, and the real file of
     * every cpu reads as exactly the records of that cpu's bios.
     */
    method Disable() returns (ghost work: seq<Event>)
      requires Valid() && Completed(View())
      modifies this`enabled, this`bios, this`order, this`inflight, this`dumps, this`files, Objects() - {this}
      ensures Valid() && dumps == null && AllWork(work)
      ensures Runs(old(View()), [DisableFlag] + (work + if old(dumps) == null then [] else [Detach] + []), View())
      ensures old(dumps) != null ==> SameRecords(old(View()), View())
      ensures old(dumps) != null ==> |order| == |old(dumps).dumps| && forall t | t in bios :: CapturedOnce(View(), t)
      ensures old(dumps) != null ==> forall c | 0 <= c < |order| ::
        HoldsList(View(), c, old(dumps).dumps[c].file.bytes)
    {
      ghost var d := View();
      enabled := false;
      ghost var m := View();
      StepKeepsInv(d, DisableFlag, m);
      work := [];
      if dumps == null {
        OneFirst(d, DisableFlag, m, [], m);
        return;
      }
      ghost var q;
      work, q := FlushAndClose();
      ClosedOutcome(q, View());
      OneFirst(q, Detach, View(), [], View());
      OneAfterOther(m, work, q, [Detach] + [], View());
      OneFirst(d, DisableFlag, m, work + ([Detach] + []), View());
      DisableOutcome(d, work, View());
    }
  }
}
