/**
 * The capture protocol of one proxy device as a step relation. Every step is one action that is
 * atomic in the source; steps of different bios, cpus and work items interleave freely.
 */
module Capture {
  import opened Options
  import opened Bytes
  import opened Record
  import opened DumpLog

  const ID_SPAN := 0x1_0000_0000
  const REQ_OP_WRITE := 1

  /** One submission of a bio; a bio that is submitted again counts as a new one. */
  type Token = nat

  datatype Bio = Bio(sector: u64, size: u32, op: u32, segs: seq<seq<byte>>)

  /** Assumption on the block layer: the segments add up to the size. */
  predicate ValidBio(bio: Bio) {
    bio.size > 0 ==> |Flatten(bio.segs)| == bio.size
  }

  predicate IsWrite(bio: Bio) {
    bio.op % 0x100 == REQ_OP_WRITE
  }

  /** An operation's flags are above its low byte, and do not matter to what it is. */
  lemma WriteByLowByte(bio: Bio, flags: nat, op: nat)
    requires bio.op == 0x100 * flags + op && op < 0x100
    ensures IsWrite(bio) <==> op == 1
  {
    assert bio.op % 0x100 == op;
  }

  /** How far a traced bio has got. */
  datatype Stage =
    | Admitted  // submit_bio has seen the device enabled
    | Created   // has its id
    | Filled    // its info describes the request
    | Counted   // counted in bio_inflight
    | Sent      // the clone is with the target device
    | Queued    // the clone has completed, the dump work is queued
    | Dumped    // the record is in the log of its cpu
    | Finished  // the original bio has been ended
    | Gone      // no longer counted, freed

  function Rank(s: Stage): nat {
    match s
    case Admitted => 0
    case Created => 1
    case Filled => 2
    case Counted => 3
    case Sent => 4
    case Queued => 5
    case Dumped => 6
    case Finished => 7
    case Gone => 8
  }

  /** status is what the clone completed with, endios how often the original bio has been ended. */
  datatype Traced = Traced(bio: Bio, info: Info, stage: Stage, status: byte, endios: nat)

  /**
   * attached says that the dumps exist. bios, issued and order are the history of the session:
   * the traced bios, the order in which they got their ids, and per cpu that of their records.
   */
  datatype Device = Device(
    enabled: bool, attached: bool, schema: Schema, writers: seq<Writer>, files: seq<seq<byte>>,
    counter: u32, inflight: int, startTs: s64, clock: s64,
    bios: map<Token, Traced>, issued: seq<Token>, order: seq<seq<Token>>)

  const BLANK_INFO := Info(-1, 0, 0, 0, 0, 0, 0, 0, Payload(0, []))

  /** blgy_prxy_dev_create, at a given boot time. */
  function Created0(now: s64): Device {
    Device(false, false, [], [], [], ID_SPAN - 1, 0, 0, now, map[], [], [])
  }

  datatype Event =
    | Tick(now: s64)
    | Enable(payload: bool, cpus: nat, bufSize: nat)
    | DisableFlag
    | Detach
    | Submit(token: Token, bio: Bio)
    | Create(token: Token)
    | Fill(token: Token, cpu: nat)
    | Count(token: Token)
    | Send(token: Token)
    | EndIo(token: Token, status: byte)
    | DumpRecord(token: Token)
    | EndOriginal(token: Token)
    | Uncount(token: Token)

  predicate At(d: Device, t: Token, stage: Stage) {
    t in d.bios && d.bios[t].stage == stage
  }

  function Moved(d: Device, t: Token, info: Info, stage: Stage): Device
    requires t in d.bios
  {
    d.(bios := d.bios[t := d.bios[t].(info := info, stage := stage)])
  }

  /** Time since the session started. */
  function Since(d: Device): s64
    requires 0 <= d.startTs <= d.clock
  {
    d.clock - d.startTs
  }

  function FilledInfo(d: Device, t: Traced, cpu: s32): Info
    requires 0 <= d.startTs <= d.clock
  {
    t.info.(sector := t.bio.sector, size := t.bio.size, op := t.bio.op, cpu := cpu, startTs := Since(d),
            payload := Payload(if IsWrite(t.bio) then t.bio.size else 0, t.bio.segs))
  }

  /** All dump work has run, which is what flush_workqueue waits for, and no clone is outstanding. */
  predicate Quiet(d: Device) {
    forall t | t in d.bios :: d.bios[t].stage == Gone
  }

  /**
   * The device after the event; None when the event cannot happen in this state. Enabling an
   * enabled device is EALREADY and changes nothing; submitting to a disabled one passes through.
   */
  function Step(d: Device, e: Event): Option<Device>
    requires 0 <= d.startTs <= d.clock
  {
    match e
    case Tick(now) => if d.clock <= now then Some(d.(clock := now)) else None
    case Enable(payload, cpus, bufSize) =>
      var schema := SchemaFor(payload);
      if d.attached then Some(d)
      else if |HeaderBytes(schema)| > bufSize || cpus >= 0x8000_0000 then None
      else Some(d.(enabled := true, attached := true, schema := schema,
                   writers := FreshAll(HeaderBytes(schema), bufSize, cpus), files := [],
                   counter := ID_SPAN - 1, startTs := d.clock,
                   bios := map[], issued := [], order := seq(cpus, _ => [])))
    case DisableFlag => Some(d.(enabled := false))
    case Detach =>
      if d.enabled || !d.attached || !Quiet(d) then None
      else Some(d.(attached := false, writers := [], files := ClosedFiles(d.writers)))
    case Submit(t, bio) =>
      if t in d.bios || !ValidBio(bio) then None
      else if !d.enabled then Some(d)
      else Some(d.(bios := d.bios[t := Traced(bio, BLANK_INFO, Admitted, 0, 0)]))
    case Create(t) =>
      if !At(d, t, Admitted) then None
      else
        var id := (d.counter + 1) % ID_SPAN;
        Some(Moved(d, t, BLANK_INFO.(id := id), Created).(counter := id, issued := d.issued + [t]))
    case Fill(t, cpu) =>
      if !At(d, t, Created) || cpu >= |d.writers| || cpu >= 0x8000_0000 then None
      else Some(Moved(d, t, FilledInfo(d, d.bios[t], cpu), Filled))
    case Count(t) =>
      if !At(d, t, Filled) then None
      else Some(Moved(d, t, d.bios[t].info, Counted).(inflight := d.inflight + 1))
    case Send(t) =>
      if !At(d, t, Counted) then None else Some(Moved(d, t, d.bios[t].info, Sent))
    case EndIo(t, status) =>
      if !At(d, t, Sent) then None
      else
        var info := d.bios[t].info.(endTs := Since(d), status := status);
        Some(d.(bios := d.bios[t := d.bios[t].(info := info, stage := Queued, status := status)]))
    case DumpRecord(t) =>
      if !At(d, t, Queued) || !(0 <= d.bios[t].info.cpu < |d.writers|) || |d.order| != |d.writers| then None
      else
        var info := d.bios[t].info;
        var w := Append(d.writers[info.cpu], RecordBytes(d.schema, info), true);
        Some(Moved(d, t, info, Dumped).(writers := d.writers[info.cpu := w],
                                        order := d.order[info.cpu := d.order[info.cpu] + [t]]))
    case EndOriginal(t) =>
      if !At(d, t, Dumped) then None
      else Some(d.(bios := d.bios[t := d.bios[t].(stage := Finished, endios := d.bios[t].endios + 1)]))
    case Uncount(t) =>
      if !At(d, t, Finished) then None
      else Some(Moved(d, t, d.bios[t].info, Gone).(inflight := d.inflight - 1))
  }

  /** The events es take d to d'. */
  predicate Runs(d: Device, es: seq<Event>, d': Device)
    decreases |es|
  {
    if es == [] then d' == d
    else 0 <= d.startTs <= d.clock && Step(d, es[0]).Some? && Runs(Step(d, es[0]).value, es[1..], d')
  }

  lemma OneFirst(d: Device, e: Event, m: Device, es: seq<Event>, d': Device)
    requires 0 <= d.startTs <= d.clock && Step(d, e) == Some(m) && Runs(m, es, d')
    ensures Runs(d, [e] + es, d')
  {
    assert ([e] + es)[1..] == es;
  }

  lemma {:induction false} OneAfterOther(d: Device, es: seq<Event>, m: Device, es': seq<Event>, d': Device)
    requires Runs(d, es, m) && Runs(m, es', d')
    ensures Runs(d, es + es', d')
    decreases |es|
  {
    if es == [] {
      assert es + es' == es';
    } else {
      OneAfterOther(Step(d, es[0]).value, es[1..], m, es', d');
      assert (es + es')[1..] == es[1..] + es';
    }
  }

  lemma {:induction false} Midway(d: Device, es: seq<Event>, es': seq<Event>, d': Device) returns (m: Device)
    requires Runs(d, es + es', d')
    ensures Runs(d, es, m) && Runs(m, es', d')
    decreases |es|
  {
    if es == [] {
      assert es + es' == es';
      m := d;
    } else {
      assert (es + es')[1..] == es[1..] + es' && (es + es')[0] == es[0];
      m := Midway(Step(d, es[0]).value, es[1..], es', d');
    }
  }
}
