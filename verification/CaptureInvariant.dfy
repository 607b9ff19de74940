/** What every step of the capture protocol keeps, under any interleaving. */
module CaptureInvariant {
  import opened Numbers
  import opened Options
  import opened Bytes
  import opened Record
  import opened Stream
  import opened DumpLog
  import opened Capture

  ghost predicate ClockOk(d: Device) {
    && 0 <= d.startTs <= d.clock
    && (!d.attached ==> !d.enabled && Quiet(d))
  }

  // ----- per bio -----

  /** The info of a filled bio describes the request and where and when it was submitted. */
  predicate Describes(bio: Bio, info: Info, cpus: nat, since: int) {
    && info.sector == bio.sector && info.size == bio.size && info.op == bio.op
    && 0 <= info.cpu < cpus && 0 <= info.startTs <= since
    && info.payload == Payload(if IsWrite(bio) then bio.size else 0, bio.segs)
  }

  predicate TracedOk(x: Traced, cpus: nat, since: int) {
    && ValidBio(x.bio)
    && x.endios == (if Rank(x.stage) >= 7 then 1 else 0)
    && (Rank(x.stage) >= 2 ==> Describes(x.bio, x.info, cpus, since))
    && (Rank(x.stage) >= 5 ==> x.info.startTs <= x.info.endTs <= since && x.info.status == x.status)
  }

  ghost predicate BiosOk(d: Device) {
    forall t | t in d.bios :: TracedOk(d.bios[t], |d.order|, d.clock - d.startTs)
  }

  // ----- ids -----

  ghost predicate IdsOk(bios: map<Token, Traced>, issued: seq<Token>, counter: u32) {
    && Distinct(issued)
    && counter == (|issued| + ID_SPAN - 1) % ID_SPAN
    && (forall k | 0 <= k < |issued| :: HasId(bios, issued[k], k))
    && (forall t | t in bios && Rank(bios[t].stage) >= 1 :: t in issued)
  }

  predicate HasId(bios: map<Token, Traced>, t: Token, k: nat) {
    t in bios && Rank(bios[t].stage) >= 1 && bios[t].info.id == k % ID_SPAN
  }

  // ----- the in-flight counter -----

  predicate InFlight(x: Traced) {
    3 <= Rank(x.stage) < 8
  }

  function InFlightSet(bios: map<Token, Traced>): set<Token> {
    set t | t in bios && InFlight(bios[t])
  }

  ghost predicate CountOk(d: Device) {
    d.inflight == |InFlightSet(d.bios)|
  }

  // ----- the logs -----

  predicate Logged(bios: map<Token, Traced>, t: Token) {
    t in bios && Rank(bios[t].stage) >= 6
  }

  predicate LoggedOn(bios: map<Token, Traced>, t: Token, c: int) {
    Logged(bios, t) && bios[t].info.cpu == c
  }

  /** The list of cpu c holds exactly the bios dumped on c, each once. */
  ghost predicate ListOk(bios: map<Token, Traced>, list: seq<Token>, c: int) {
    && Distinct(list)
    && (forall i | 0 <= i < |list| :: LoggedOn(bios, list[i], c))
    && (forall t | LoggedOn(bios, t, c) :: t in list)
  }

  ghost predicate OrderOk(bios: map<Token, Traced>, order: seq<seq<Token>>) {
    && (forall c | 0 <= c < |order| :: ListOk(bios, order[c], c))
    && (forall t | Logged(bios, t) :: 0 <= bios[t].info.cpu < |order|)
  }

  /** The records of a list of bios, in order. */
  function Records(bios: map<Token, Traced>, list: seq<Token>): (r: seq<Info>)
    requires forall i | 0 <= i < |list| :: list[i] in bios
    ensures |r| == |list|
  {
    seq(|list|, i requires 0 <= i < |list| => bios[list[i]].info)
  }

  /** File and buffer of a cpu together are the header and the records of its list. */
  ghost predicate LogOk(schema: Schema, w: Writer, bios: map<Token, Traced>, list: seq<Token>)
    requires forall i | 0 <= i < |list| :: list[i] in bios
  {
    && Log(w) == HeaderBytes(schema) + RecordsBytes(schema, Records(bios, list))
    && |w.pending| <= w.cap
  }

  ghost predicate LogsOk(d: Device)
    requires OrderOk(d.bios, d.order)
  {
    d.attached ==>
      && (d.schema == SCHEMA_DEFAULT || d.schema == SCHEMA_PAYLOAD)
      && |d.order| == |d.writers|
      && forall c | 0 <= c < |d.order| :: LogOkOn(d, c)
  }

  ghost predicate LogOkOn(d: Device, c: nat)
    requires OrderOk(d.bios, d.order) && c < |d.order| == |d.writers|
  {
    assert ListOk(d.bios, d.order[c], c);
    LogOk(d.schema, d.writers[c], d.bios, d.order[c])
  }

  ghost predicate Inv(d: Device) {
    ClockOk(d) && BiosOk(d) && IdsOk(d.bios, d.issued, d.counter) && CountOk(d) && OrderOk(d.bios, d.order) && LogsOk(d)
  }

  // ----- steps -----

  /** The bio an event moves on, and the state it moves to; None for the other events. */
  function MovedBio(e: Event): Option<Token> {
    match e
    case Create(t) => Some(t)
    case Fill(t, _) => Some(t)
    case Count(t) => Some(t)
    case Send(t) => Some(t)
    case EndIo(t, _) => Some(t)
    case DumpRecord(t) => Some(t)
    case EndOriginal(t) => Some(t)
    case Uncount(t) => Some(t)
    case _ => None
  }

  /** The event moves the bio t one stage on and touches no other bio. */
  ghost predicate Moves(d: Device, e: Event, d': Device, t: Token) {
    && t in d.bios && t in d'.bios && d'.bios == d.bios[t := d'.bios[t]]
    && Rank(d'.bios[t].stage) == Rank(d.bios[t].stage) + 1 && d'.bios[t].bio == d.bios[t].bio
    && (if e.Create? then
          d.bios[t].stage == Admitted && d'.issued == d.issued + [t]
          && d'.counter == d'.bios[t].info.id == (d.counter + 1) % ID_SPAN
        else
          d'.bios[t].info.id == d.bios[t].info.id && Rank(d.bios[t].stage) >= 1
          && d'.issued == d.issued && d'.counter == d.counter)
    && d'.attached == d.attached && d'.clock == d.clock && d'.startTs == d.startTs && d'.schema == d.schema
    && (if e.DumpRecord? then DumpsOn(d, d', t, d.bios[t].info.cpu)
        else d.bios[t].stage != Queued && d'.order == d.order && d'.writers == d.writers)
    && (Rank(d.bios[t].stage) >= 5 ==> d'.bios[t].info == d.bios[t].info)
    && d'.inflight == d.inflight - Counts(d.bios[t]) + Counts(d'.bios[t])
  }

  /** The record of t is appended to the log and to the list of one cpu. */
  predicate DumpsOn(d: Device, d': Device, t: Token, cpu: int) {
    && t in d.bios && d.bios[t].stage == Queued
    && 0 <= cpu < |d.writers| == |d.order|
    && d'.order == d.order[cpu := d.order[cpu] + [t]]
    && d'.writers == d.writers[cpu := DumpLog.Append(d.writers[cpu], RecordBytes(d.schema, d.bios[t].info), true)]
  }

  function Counts(x: Traced): int {
    if InFlight(x) then 1 else 0
  }

  lemma StepMovesOne(d: Device, e: Event, d': Device, t: Token)
    requires ClockOk(d) && Step(d, e) == Some(d') && MovedBio(e) == Some(t)
    ensures Moves(d, e, d', t)
  {
  }

  /** The other steps start a session, admit a bio, or leave all bios alone. */
  datatype Shape = Starts | Admits | Ends | Passes

  ghost predicate Stays(d: Device, e: Event, d': Device, shape: Shape) {
    match shape
    case Starts =>
      && e.Enable? && !d.attached && |HeaderBytes(d'.schema)| <= e.bufSize
      && d'.bios == map[] && d'.issued == [] && d'.counter == ID_SPAN - 1 && d'.inflight == d.inflight
      && (d'.schema == SCHEMA_DEFAULT || d'.schema == SCHEMA_PAYLOAD)
      && d'.writers == FreshAll(HeaderBytes(d'.schema), e.bufSize, e.cpus) && d'.order == seq(e.cpus, _ => [])
    case Admits =>
      && e.Submit? && e.token !in d.bios && ValidBio(e.bio) && d.attached
      && d' == d.(bios := d.bios[e.token := Traced(e.bio, BLANK_INFO, Admitted, 0, 0)])
    case Ends =>
      !d'.attached && d' == d.(attached := false, writers := d'.writers, files := d'.files)
    case Passes =>
      d.clock <= d'.clock && d' == d.(clock := d'.clock, enabled := d'.enabled)
  }

  function ShapeOf(d: Device, e: Event): Shape {
    match e
    case Enable(_, _, _) => if d.attached then Passes else Starts
    case Submit(_, _) => if d.enabled then Admits else Passes
    case Detach => Ends
    case _ => Passes
  }

  lemma StepMovesNone(d: Device, e: Event, d': Device)
    requires ClockOk(d) && Step(d, e) == Some(d') && MovedBio(e) == None
    ensures Stays(d, e, d', ShapeOf(d, e))
  {
  }

  lemma StepKeepsClock(d: Device, e: Event, d': Device)
    requires ClockOk(d) && Step(d, e) == Some(d')
    ensures ClockOk(d')
  {
  }

  lemma MoveKeepsDescription(d: Device, e: Event, d': Device, t: Token)
    requires ClockOk(d) && Step(d, e) == Some(d') && MovedBio(e) == Some(t)
    requires t in d.bios && TracedOk(d.bios[t], |d.order|, d.clock - d.startTs)
    requires d.attached ==> |d.order| == |d.writers|
    ensures t in d'.bios
    ensures Rank(d'.bios[t].stage) >= 2 ==> Describes(d'.bios[t].bio, d'.bios[t].info, |d.order|, d.clock - d.startTs)
  {
  }

  lemma MoveKeepsTraced(d: Device, e: Event, d': Device, t: Token)
    requires ClockOk(d) && Step(d, e) == Some(d') && MovedBio(e) == Some(t)
    requires t in d.bios && TracedOk(d.bios[t], |d.order|, d.clock - d.startTs)
    requires d.attached ==> |d.order| == |d.writers|
    ensures t in d'.bios && TracedOk(d'.bios[t], |d.order|, d.clock - d.startTs)
  {
    MoveKeepsDescription(d, e, d', t);
  }

  lemma MoveKeepsBios(d: Device, e: Event, d': Device, t: Token)
    requires BiosOk(d) && Moves(d, e, d', t) && TracedOk(d'.bios[t], |d.order|, d.clock - d.startTs)
    ensures BiosOk(d')
  {
  }

  lemma StayKeepsBios(d: Device, e: Event, d': Device, shape: Shape)
    requires BiosOk(d) && Stays(d, e, d', shape)
    ensures BiosOk(d')
  {
  }

  lemma CreateKeepsIds(bios: map<Token, Traced>, issued: seq<Token>, counter: u32, t: Token, x: Traced)
    requires IdsOk(bios, issued, counter) && t in bios && Rank(bios[t].stage) == 0
    requires Rank(x.stage) >= 1 && x.info.id == (counter + 1) % ID_SPAN
    ensures IdsOk(bios[t := x], issued + [t], (counter + 1) % ID_SPAN)
  {
    var n := |issued|;
    assert (counter + 1) % ID_SPAN == n % ID_SPAN;
    assert t !in issued;
    forall k | 0 <= k < n + 1 ensures HasId(bios[t := x], (issued + [t])[k], k) {
      if k < n {
        assert HasId(bios, issued[k], k);
      }
    }
  }

  lemma MoveKeepsIds(bios: map<Token, Traced>, issued: seq<Token>, counter: u32, t: Token, x: Traced)
    requires IdsOk(bios, issued, counter) && t in bios && Rank(bios[t].stage) >= 1
    requires Rank(x.stage) >= 1 && x.info.id == bios[t].info.id
    ensures IdsOk(bios[t := x], issued, counter)
  {
    forall k | 0 <= k < |issued| ensures HasId(bios[t := x], issued[k], k) {
      assert HasId(bios, issued[k], k);
    }
  }

  lemma AdmitKeepsIds(bios: map<Token, Traced>, issued: seq<Token>, counter: u32, t: Token, x: Traced)
    requires IdsOk(bios, issued, counter) && t !in bios && Rank(x.stage) == 0
    ensures IdsOk(bios[t := x], issued, counter)
  {
    forall k | 0 <= k < |issued| ensures HasId(bios[t := x], issued[k], k) {
      assert HasId(bios, issued[k], k);
    }
  }

  lemma MoveKeepsAllIds(d: Device, e: Event, d': Device, t: Token)
    requires IdsOk(d.bios, d.issued, d.counter) && Moves(d, e, d', t)
    ensures IdsOk(d'.bios, d'.issued, d'.counter)
  {
    if e.Create? {
      CreateKeepsIds(d.bios, d.issued, d.counter, t, d'.bios[t]);
    } else {
      MoveKeepsIds(d.bios, d.issued, d.counter, t, d'.bios[t]);
    }
  }

  lemma StayKeepsIds(d: Device, e: Event, d': Device, shape: Shape)
    requires IdsOk(d.bios, d.issued, d.counter) && Stays(d, e, d', shape)
    ensures IdsOk(d'.bios, d'.issued, d'.counter)
  {
    if shape == Admits {
      AdmitKeepsIds(d.bios, d.issued, d.counter, e.token, d'.bios[e.token]);
    }
  }

  lemma InFlightChange(bios: map<Token, Traced>, t: Token, x: Traced)
    ensures |InFlightSet(bios[t := x])| == |InFlightSet(bios)| - (if t in bios then Counts(bios[t]) else 0) + Counts(x)
  {
    var a, b := InFlightSet(bios), InFlightSet(bios[t := x]);
    assert b - {t} == a - {t};
    RemoveOne(a, t);
    RemoveOne(b, t);
  }

  lemma RemoveOne(s: set<Token>, t: Token)
    ensures |s| == |s - {t}| + if t in s then 1 else 0
  {
    if t in s {
      assert s == (s - {t}) + {t};
    } else {
      assert s == s - {t};
    }
  }

  lemma QuietCountsNone(d: Device)
    requires Quiet(d)
    ensures |InFlightSet(d.bios)| == 0
  {
    assert InFlightSet(d.bios) == {};
  }

  lemma MoveKeepsCount(d: Device, e: Event, d': Device, t: Token)
    requires CountOk(d) && Moves(d, e, d', t)
    ensures CountOk(d')
  {
    InFlightChange(d.bios, t, d'.bios[t]);
  }

  lemma StayKeepsCount(d: Device, e: Event, d': Device, shape: Shape)
    requires CountOk(d) && Stays(d, e, d', shape) && (!d.attached ==> Quiet(d))
    ensures CountOk(d')
  {
    if shape == Admits {
      InFlightChange(d.bios, e.token, d'.bios[e.token]);
    } else if shape == Starts {
      QuietCountsNone(d);
      QuietCountsNone(d');
    }
  }

  lemma MoveKeepsOrder(bios: map<Token, Traced>, order: seq<seq<Token>>, t: Token, x: Traced)
    requires OrderOk(bios, order) && t in bios && Rank(x.stage) == Rank(bios[t].stage) + 1 != 6
    requires Rank(bios[t].stage) >= 6 ==> x.info == bios[t].info
    ensures OrderOk(bios[t := x], order)
  {
    forall c | 0 <= c < |order| ensures ListOk(bios[t := x], order[c], c) {
      assert ListOk(bios, order[c], c);
      assert forall u :: LoggedOn(bios[t := x], u, c) <==> LoggedOn(bios, u, c);
    }
    assert forall u :: Logged(bios[t := x], u) <==> Logged(bios, u);
  }

  lemma AppendedDistinct(list: seq<Token>, t: Token)
    requires Distinct(list) && t !in list
    ensures Distinct(list + [t])
  {
  }

  lemma DumpKeepsOrder(bios: map<Token, Traced>, order: seq<seq<Token>>, t: Token, x: Traced, cpu: int)
    requires OrderOk(bios, order) && t in bios && bios[t].stage == Queued && x.stage == Dumped
    requires 0 <= cpu < |order| && x.info.cpu == cpu
    ensures OrderOk(bios[t := x], order[cpu := order[cpu] + [t]])
  {
    var bios', order' := bios[t := x], order[cpu := order[cpu] + [t]];
    forall c | 0 <= c < |order| ensures ListOk(bios', order'[c], c) {
      assert ListOk(bios, order[c], c);
      assert !LoggedOn(bios, t, c);
      assert t !in order[c];
      assert forall u :: LoggedOn(bios', u, c) <==> LoggedOn(bios, u, c) || (u == t && c == cpu);
      if c == cpu {
        AppendedDistinct(order[c], t);
      }
    }
    assert forall u :: Logged(bios', u) <==> Logged(bios, u) || u == t;
  }

  lemma MoveKeepsAllOrder(d: Device, e: Event, d': Device, t: Token)
    requires OrderOk(d.bios, d.order) && Moves(d, e, d', t)
    ensures OrderOk(d'.bios, d'.order)
  {
    if e.DumpRecord? {
      DumpKeepsOrder(d.bios, d.order, t, d'.bios[t], d.bios[t].info.cpu);
    } else {
      MoveKeepsOrder(d.bios, d.order, t, d'.bios[t]);
    }
  }

  lemma StayKeepsOrder(d: Device, e: Event, d': Device, shape: Shape)
    requires OrderOk(d.bios, d.order) && Stays(d, e, d', shape)
    ensures OrderOk(d'.bios, d'.order)
  {
    if shape == Admits {
      AdmitKeepsOrder(d.bios, d.order, e.token, d'.bios[e.token]);
    }
  }

  lemma AdmitKeepsOrder(bios: map<Token, Traced>, order: seq<seq<Token>>, t: Token, x: Traced)
    requires OrderOk(bios, order) && t !in bios && x.stage == Admitted
    ensures OrderOk(bios[t := x], order)
  {
    forall c | 0 <= c < |order| ensures ListOk(bios[t := x], order[c], c) {
      assert ListOk(bios, order[c], c);
      assert forall u :: LoggedOn(bios[t := x], u, c) <==> LoggedOn(bios, u, c);
    }
    assert forall u :: Logged(bios[t := x], u) <==> Logged(bios, u);
  }

  lemma MoveKeepsLog(schema: Schema, w: Writer, bios: map<Token, Traced>, list: seq<Token>, c: int, t: Token, x: Traced)
    requires ListOk(bios, list, c) && LogOk(schema, w, bios, list)
    requires t in bios && Rank(bios[t].stage) >= 6 ==> x.info == bios[t].info
    ensures forall i | 0 <= i < |list| :: list[i] in bios[t := x]
    ensures LogOk(schema, w, bios[t := x], list)
  {
    forall i | 0 <= i < |list| ensures list[i] in bios && bios[t := x][list[i]].info == bios[list[i]].info {
      assert LoggedOn(bios, list[i], c);
    }
    assert Records(bios[t := x], list) == Records(bios, list);
  }

  lemma DumpKeepsLog(schema: Schema, w: Writer, bios: map<Token, Traced>, list: seq<Token>, c: int, t: Token, x: Traced)
    requires ListOk(bios, list, c) && LogOk(schema, w, bios, list)
    requires t in bios && bios[t].stage == Queued
    ensures forall i | 0 <= i < |list| :: (list + [t])[i] in bios[t := x]
    ensures LogOk(schema, DumpLog.Append(w, RecordBytes(schema, x.info), true), bios[t := x], list + [t])
  {
    MoveKeepsLog(schema, w, bios, list, c, t, x);
    var bios' := bios[t := x];
    assert Records(bios', list + [t]) == Records(bios', list) + [x.info];
    AppendKeepsLog(w, RecordBytes(schema, x.info));
    RecordsBytesAppend(schema, Records(bios', list), x.info);
    Associative(HeaderBytes(schema), RecordsBytes(schema, Records(bios', list)), RecordBytes(schema, x.info));
  }

  lemma MoveKeepsLogOn(d: Device, e: Event, d': Device, t: Token, c: nat)
    requires OrderOk(d.bios, d.order) && OrderOk(d'.bios, d'.order) && Moves(d, e, d', t)
    requires c < |d.order| == |d.writers| && LogOkOn(d, c)
    requires |d'.order| == |d'.writers| == |d.order|
    ensures LogOkOn(d', c)
  {
    assert ListOk(d.bios, d.order[c], c) && ListOk(d'.bios, d'.order[c], c);
    if e.DumpRecord? && c == d.bios[t].info.cpu {
      DumpKeepsLog(d.schema, d.writers[c], d.bios, d.order[c], c, t, d'.bios[t]);
    } else {
      MoveKeepsLog(d.schema, d.writers[c], d.bios, d.order[c], c, t, d'.bios[t]);
    }
  }

  lemma MoveKeepsLogs(d: Device, e: Event, d': Device, t: Token)
    requires OrderOk(d.bios, d.order) && OrderOk(d'.bios, d'.order) && LogsOk(d) && Moves(d, e, d', t)
    ensures LogsOk(d')
  {
    if d.attached {
      forall c | 0 <= c < |d'.order| ensures LogOkOn(d', c) {
        MoveKeepsLogOn(d, e, d', t, c);
      }
    }
  }

  lemma FreshLog(schema: Schema, bufSize: nat, bios: map<Token, Traced>)
    requires |HeaderBytes(schema)| <= bufSize
    ensures LogOk(schema, Fresh(HeaderBytes(schema), bufSize), bios, [])
  {
    assert Records(bios, []) == [];
    assert RecordsBytes(schema, []) == [];
    assert HeaderBytes(schema) + [] == HeaderBytes(schema);
  }

  lemma StayKeepsLogOn(d: Device, e: Event, d': Device, shape: Shape, c: nat)
    requires OrderOk(d.bios, d.order) && OrderOk(d'.bios, d'.order) && LogsOk(d) && Stays(d, e, d', shape)
    requires d'.attached && c < |d'.order| == |d'.writers|
    ensures LogOkOn(d', c)
  {
    if shape == Starts {
      FreshLog(d'.schema, e.bufSize, d'.bios);
    } else {
      assert LogOkOn(d, c);
      if shape == Admits {
        assert ListOk(d.bios, d.order[c], c);
        MoveKeepsLog(d.schema, d.writers[c], d.bios, d.order[c], c, e.token, d'.bios[e.token]);
      }
    }
  }

  lemma StayKeepsLogs(d: Device, e: Event, d': Device, shape: Shape)
    requires OrderOk(d.bios, d.order) && OrderOk(d'.bios, d'.order) && LogsOk(d) && Stays(d, e, d', shape)
    ensures LogsOk(d')
  {
    if d'.attached {
      forall c | 0 <= c < |d'.order| ensures LogOkOn(d', c) {
        StayKeepsLogOn(d, e, d', shape, c);
      }
    }
  }

  lemma MoveKeepsInv(d: Device, e: Event, d': Device, t: Token)
    requires Inv(d) && Moves(d, e, d', t) && ClockOk(d') && TracedOk(d'.bios[t], |d.order|, d.clock - d.startTs)
    ensures Inv(d')
  {
    MoveKeepsBios(d, e, d', t);
    MoveKeepsAllIds(d, e, d', t);
    MoveKeepsCount(d, e, d', t);
    MoveKeepsAllOrder(d, e, d', t);
    MoveKeepsLogs(d, e, d', t);
  }

  lemma StayKeepsInv(d: Device, e: Event, d': Device, shape: Shape)
    requires Inv(d) && Stays(d, e, d', shape) && ClockOk(d')
    ensures Inv(d')
  {
    StayKeepsBios(d, e, d', shape);
    StayKeepsIds(d, e, d', shape);
    StayKeepsCount(d, e, d', shape);
    StayKeepsOrder(d, e, d', shape);
    StayKeepsLogs(d, e, d', shape);
  }

  /** Every step keeps the whole invariant. */
  lemma StepKeepsInv(d: Device, e: Event, d': Device)
    requires Inv(d) && Step(d, e) == Some(d')
    ensures Inv(d')
  {
    StepKeepsClock(d, e, d');
    if t: Token :| MovedBio(e) == Some(t) {
      StepMovesOne(d, e, d', t);
      MoveKeepsTraced(d, e, d', t);
      MoveKeepsInv(d, e, d', t);
    } else {
      StepMovesNone(d, e, d');
      StayKeepsInv(d, e, d', ShapeOf(d, e));
    }
  }
}
