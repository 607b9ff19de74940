/** Whole sessions of the capture protocol: what holds in every run and what a session leaves behind. */
module CaptureSession {
  import opened Numbers
  import opened Options
  import opened Bytes
  import opened Record
  import opened Stream
  import opened DumpLog
  import opened Pipeline
  import opened Capture
  import opened CaptureInvariant

  /** d is reached from a new device by the events es. */
  ghost predicate Reaches(es: seq<Event>, boot: s64, d: Device) {
    boot >= 0 && Runs(Created0(boot), es, d)
  }

  lemma NewDeviceInv(boot: s64)
    requires boot >= 0
    ensures Inv(Created0(boot))
  {
    assert InFlightSet(Created0(boot).bios) == {};
  }

  lemma {:induction false} RunsKeepInv(d: Device, es: seq<Event>, d': Device)
    requires Inv(d) && Runs(d, es, d')
    ensures Inv(d')
    decreases |es|
  {
    if es != [] {
      var m := Step(d, es[0]).value;
      StepKeepsInv(d, es[0], m);
      RunsKeepInv(m, es[1..], d');
    }
  }

  /** The invariant holds after every run, whatever the interleaving. */
  lemma RunKeepsInv(es: seq<Event>, boot: s64, d: Device)
    requires Reaches(es, boot, d)
    ensures Inv(d)
  {
    NewDeviceInv(boot);
    RunsKeepInv(Created0(boot), es, d);
  }

  // ----- at every moment -----

  /** bio_inflight counts the traced bios that are submitted and not yet done with. */
  lemma InFlightIsCounted(es: seq<Event>, boot: s64, d: Device)
    requires Reaches(es, boot, d)
    ensures d.inflight == |InFlightSet(d.bios)|
  {
    RunKeepsInv(es, boot, d);
  }

  /** An original bio is ended at most once, and its record is in the log of its cpu by then. */
  lemma EndedOnceAfterLogged(es: seq<Event>, boot: s64, d: Device, t: Token)
    requires Reaches(es, boot, d) && t in d.bios
    ensures d.bios[t].endios <= 1
    ensures d.bios[t].endios == 1 ==> 0 <= d.bios[t].info.cpu < |d.order| && t in d.order[d.bios[t].info.cpu]
  {
    RunKeepsInv(es, boot, d);
    assert TracedOk(d.bios[t], |d.order|, d.clock - d.startTs);
    if d.bios[t].endios == 1 {
      assert Logged(d.bios, t);
      var c := d.bios[t].info.cpu;
      assert ListOk(d.bios, d.order[c], c) && LoggedOn(d.bios, t, c);
    }
  }

  lemma RepeatsModulo(id: nat -> int, n: nat)
    requires forall k: nat | k < n :: id(k) == k % ID_SPAN
    ensures (forall j: nat, k: nat | j < k < n :: id(j) != id(k)) <==> n <= ID_SPAN
  {
    if n > ID_SPAN {
      assert id(0) == 0 && id(ID_SPAN) == ID_SPAN % ID_SPAN;
    }
  }

  /** The id of the k-th bio traced since the device was enabled. */
  ghost function IdOfNth(d: Device): nat -> int {
    (k: nat) => if k < |d.issued| && d.issued[k] in d.bios then d.bios[d.issued[k]].info.id else -1
  }

  /**
   * The ids of a session are handed out in order from 0, modulo 2^32; they are all different
   * exactly as long as no more than 2^32 bios have been traced since the device was enabled.
   */
  lemma IdsDistinctIffFew(es: seq<Event>, boot: s64, d: Device)
    requires Reaches(es, boot, d)
    ensures forall k: nat | k < |d.issued| :: IdOfNth(d)(k) == k % ID_SPAN
    ensures (forall j: nat, k: nat | j < k < |d.issued| :: IdOfNth(d)(j) != IdOfNth(d)(k)) <==> |d.issued| <= ID_SPAN
  {
    RunKeepsInv(es, boot, d);
    forall k: nat | k < |d.issued| ensures IdOfNth(d)(k) == k % ID_SPAN {
      assert HasId(d.bios, d.issued[k], k);
    }
    RepeatsModulo(IdOfNth(d), |d.issued|);
  }

  /** A session in which n bios have got their ids. */
  lemma {:induction false} ManyBios(n: nat) returns (es: seq<Event>, d: Device)
    ensures Reaches(es, 0, d) && |d.issued| == n
    ensures d.enabled && d.attached && d.startTs == d.clock == 0 && forall t | t in d.bios :: t < n
  {
    if n == 0 {
      es := [Enable(false, 1, |HeaderBytes(SCHEMA_DEFAULT)|)];
      d := Step(Created0(0), es[0]).value;
      OneFirst(Created0(0), es[0], d, [], d);
    } else {
      var before, c := ManyBios(n - 1);
      var submit, create := Submit(n - 1, Bio(0, 0, 0, [])), Create(n - 1);
      var m := Step(c, submit).value;
      d := Step(m, create).value;
      OneFirst(m, create, d, [], d);
      OneFirst(c, submit, m, [create] + [], d);
      OneAfterOther(Created0(0), before, c, [submit] + ([create] + []), d);
      es := before + ([submit] + ([create] + []));
    }
  }

  /** Ids do repeat: some run hands out the same id to its first and to its last bio. */
  lemma RepeatedIdReachable() returns (es: seq<Event>, d: Device)
    ensures Reaches(es, 0, d) && |d.issued| == ID_SPAN + 1
    ensures d.issued[0] != d.issued[ID_SPAN] && IdOfNth(d)(0) == IdOfNth(d)(ID_SPAN) == 0
  {
    es, d := ManyBios(ID_SPAN + 1);
    IdsDistinctIffFew(es, 0, d);
    RunKeepsInv(es, 0, d);
    var first: nat, last: nat := 0, ID_SPAN;
    assert IdOfNth(d)(first) == first % ID_SPAN && IdOfNth(d)(last) == last % ID_SPAN;
  }

  // ----- when the session ends -----

  lemma {:induction false} SizeBound(schema: Schema, k: nat, info: Info)
    requires k <= |schema| && info.payload.size < 0x1_0000_0000
    ensures SizeTo(schema, k, info) <= k * 0x1_0000_0008
  {
    if k > 0 {
      SizeBound(schema, k - 1, info);
    }
  }

  lemma DescribedStorable(d: Device, t: Token)
    requires Inv(d) && d.attached && t in d.bios && Rank(d.bios[t].stage) >= 2
    ensures Storable(d.schema, d.bios[t].info)
  {
    assert TracedOk(d.bios[t], |d.order|, d.clock - d.startTs);
    SizeBound(d.schema, |d.schema|, d.bios[t].info);
  }

  lemma QueuedFits(d: Device, t: Token)
    requires Inv(d) && At(d, t, Queued)
    ensures d.attached && 0 <= d.bios[t].info.cpu < |d.writers| == |d.order|
    ensures Storable(d.schema, d.bios[t].info)
  {
    assert TracedOk(d.bios[t], |d.order|, d.clock - d.startTs);
    DescribedStorable(d, t);
  }

  /** When dump work runs, its cpu has a dump and the record fits the format: nothing is lost there. */
  lemma QueuedCanBeDumped(es: seq<Event>, boot: s64, d: Device, t: Token)
    requires Reaches(es, boot, d) && At(d, t, Queued)
    ensures d.attached && 0 <= d.bios[t].info.cpu < |d.writers| == |d.order|
    ensures Storable(d.schema, d.bios[t].info)
  {
    RunKeepsInv(es, boot, d);
    QueuedFits(d, t);
  }

  lemma LoggedStorable(d: Device, c: nat)
    requires Inv(d) && d.attached && c < |d.order|
    ensures forall i | 0 <= i < |d.order[c]| :: d.order[c][i] in d.bios
    ensures AllStorable(d.schema, Records(d.bios, d.order[c]))
  {
    assert ListOk(d.bios, d.order[c], c);
    forall i | 0 <= i < |d.order[c]|
      ensures d.order[c][i] in d.bios && Storable(d.schema, d.bios[d.order[c][i]].info)
    {
      assert LoggedOn(d.bios, d.order[c][i], c);
      DescribedStorable(d, d.order[c][i]);
    }
  }

  /** What the record of a traced bio says once the session is over. */
  predicate Truthful(x: Traced) {
    && x.info.sector == x.bio.sector && x.info.size == x.bio.size && x.info.op == x.bio.op
    && x.info.status == x.status
    && 0 <= x.info.startTs <= x.info.endTs
    && Content(x.info.payload) == if IsWrite(x.bio) && x.bio.size > 0 then Flatten(x.bio.segs) else []
  }

  /** The file decodes to these records, in order, and to nothing else. */
  ghost predicate ReadsAs(schema: Schema, file: seq<byte>, infos: seq<Info>) {
    && AllStorable(schema, infos) && file == FileOf(schema, infos)
    && DecodeHeader(file) == Header(schema)
    && ParseAll(schema, file[|HeaderBytes(schema)|..]) == (ReplayedAll(schema, infos), Empty)
  }

  /** cpu c's file decodes to the records of cpu c's list. */
  ghost predicate FileHolds(d: Device, d': Device, c: nat)
    requires c < |d.order| && forall i | 0 <= i < |d.order[c]| :: d.order[c][i] in d.bios
  {
    c < |d'.files| && ReadsAs(d.schema, d'.files[c], Records(d.bios, d.order[c]))
  }

  lemma ClosedFileHolds(d: Device, d': Device, c: nat)
    requires Inv(d) && d.attached && c < |d.order| == |d.writers| == |d'.files|
    requires d'.files[c] == Drained(d.writers[c], true).file
    ensures forall i | 0 <= i < |d.order[c]| :: d.order[c][i] in d.bios
    ensures FileHolds(d, d', c)
  {
    LoggedStorable(d, c);
    assert LogOkOn(d, c);
    FileReadsBack(d.schema, Records(d.bios, d.order[c]));
  }

  /** t is in the list of exactly one cpu, exactly once, and its record is faithful. */
  ghost predicate CapturedOnce(d: Device, t: Token)
    requires t in d.bios
  {
    var c := d.bios[t].info.cpu;
    && 0 <= c < |d.order| && t in d.order[c] && Distinct(d.order[c])
    && (forall b | 0 <= b < |d.order| && t in d.order[b] :: b == c)
    && Truthful(d.bios[t])
  }

  lemma FinishedIsCaptured(d: Device, t: Token)
    requires Inv(d) && t in d.bios && d.bios[t].stage == Gone
    ensures CapturedOnce(d, t)
  {
    assert TracedOk(d.bios[t], |d.order|, d.clock - d.startTs);
    assert Logged(d.bios, t);
    var c := d.bios[t].info.cpu;
    assert ListOk(d.bios, d.order[c], c) && LoggedOn(d.bios, t, c);
    forall b | 0 <= b < |d.order| && t in d.order[b] ensures b == c {
      assert ListOk(d.bios, d.order[b], b);
      var i :| 0 <= i < |d.order[b]| && d.order[b][i] == t;
      assert LoggedOn(d.bios, d.order[b][i], b);
    }
  }

  /** What closing leaves behind, for any device that meets the invariant. */
  lemma ClosingCompletes(d: Device, d': Device)
    requires Inv(d) && Step(d, Detach) == Some(d')
    ensures |d'.files| == |d.order| && d.inflight == 0
    ensures forall t | t in d.bios :: CapturedOnce(d, t)
    ensures forall c | 0 <= c < |d.order| ::
      (forall i | 0 <= i < |d.order[c]| :: d.order[c][i] in d.bios) && FileHolds(d, d', c)
  {
    QuietCountsNone(d);
    forall t | t in d.bios ensures CapturedOnce(d, t) {
      FinishedIsCaptured(d, t);
    }
    forall c | 0 <= c < |d.order|
      ensures (forall i | 0 <= i < |d.order[c]| :: d.order[c][i] in d.bios) && FileHolds(d, d', c)
    {
      ClosedFileHolds(d, d', c);
    }
  }

  /**
   * Session completeness, from the moment all dump work is done. Every bio traced since the
   * device was enabled is in the list of the cpu that submitted it, once, with the status its
   * clone completed with and ordered time stamps; and each cpu's file, decoded by the generator's
   * reader, is exactly that cpu's list.
   */
  lemma SessionComplete(es: seq<Event>, boot: s64, d: Device, d': Device)
    requires Reaches(es, boot, d) && 0 <= d.startTs <= d.clock && Step(d, Detach) == Some(d')
    ensures |d'.files| == |d.order| && d.inflight == 0
    ensures forall t | t in d.bios :: CapturedOnce(d, t)
    ensures forall c | 0 <= c < |d.order| ::
      (forall i | 0 <= i < |d.order[c]| :: d.order[c][i] in d.bios) && FileHolds(d, d', c)
  {
    RunKeepsInv(es, boot, d);
    ClosingCompletes(d, d');
  }
}
