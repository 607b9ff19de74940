/** A captured session, replayed: what each worker submits to its target device. */
module EndToEnd {
  import opened Options
  import opened Bytes
  import opened Record
  import opened Stream
  import opened Capture
  import opened CaptureInvariant
  import opened CaptureSession
  import Replay

  /** The request that a bio read from a dump file makes is the one that was captured. */
  predicate SameRequest(schema: Schema, x: Traced, got: Info) {
    && got.sector == x.bio.sector && got.size == x.bio.size && got.op == x.bio.op
    && got.startTs == x.info.startTs && got.cpu == x.info.cpu
    && got.id == x.info.id && got.endTs == x.info.endTs && got.status == x.info.status
    && Content(got.payload) ==
         if schema == SCHEMA_PAYLOAD && IsWrite(x.bio) && x.bio.size > 0 then Flatten(x.bio.segs) else []
  }

  lemma ScalarReplayed(schema: Schema, info: Info, f: Field)
    requires ValidInfo(info) && (schema == SCHEMA_DEFAULT || schema == SCHEMA_PAYLOAD) && f != Data
    ensures Scalar(f, Replayed(schema, info)) == Scalar(f, info)
  {
    ReceivedIsRestored(schema, ZERO_INFO, info, f);
  }

  lemma ScalarsReplayed(schema: Schema, info: Info)
    requires ValidInfo(info) && (schema == SCHEMA_DEFAULT || schema == SCHEMA_PAYLOAD)
    ensures var got := Replayed(schema, info);
      && got.sector == info.sector && got.size == info.size && got.op == info.op
      && got.startTs == info.startTs && got.cpu == info.cpu
      && got.id == info.id && got.endTs == info.endTs && got.status == info.status
  {
    ScalarReplayed(schema, info, Sector);
    ScalarReplayed(schema, info, Size);
    ScalarReplayed(schema, info, Op);
    ScalarReplayed(schema, info, StartTs);
    ScalarReplayed(schema, info, Cpu);
    ScalarReplayed(schema, info, Id);
    ScalarReplayed(schema, info, EndTs);
    ScalarReplayed(schema, info, Status);
  }

  lemma ReplayedIsSameRequest(schema: Schema, x: Traced, cpus: nat, since: int)
    requires (schema == SCHEMA_DEFAULT || schema == SCHEMA_PAYLOAD) && Storable(schema, x.info)
    requires TracedOk(x, cpus, since) && Rank(x.stage) >= 2
    ensures SameRequest(schema, x, Replayed(schema, x.info))
  {
    ScalarsReplayed(schema, x.info);
    ReceivedIsRestored(schema, ZERO_INFO, x.info, Data);
  }

  /** A worker keeps its place in the group, its schema and its file. */
  ghost predicate Keeps(g: Replay.Group, g': Replay.Group, w: nat) {
    && w < |g.workers| && w < |g'.workers|
    && g'.workers[w].schema == g.workers[w].schema && g'.workers[w].file == g.workers[w].file
  }

  lemma {:induction false} RunKeepsFile(g: Replay.Group, es: seq<Replay.Event>, g': Replay.Group, w: nat)
    requires w < |g.workers| && Replay.Runs(g, es, g')
    ensures Keeps(g, g', w)
    decreases |es|
  {
    if es != [] {
      RunKeepsFile(Replay.Step(g, es[0]).value, es[1..], g', w);
    }
  }

  /** Cpu c's file of a closed session, and what reading it back delivers. */
  lemma SessionFile(es: seq<Event>, boot: s64, d: Device, d': Device, c: nat)
    requires Reaches(es, boot, d) && 0 <= d.startTs <= d.clock && Step(d, Detach) == Some(d') && c < |d'.files|
    ensures c < |d.order| && (forall i | 0 <= i < |d.order[c]| :: d.order[c][i] in d.bios)
    ensures DecodeHeader(d'.files[c]) == Header(d.schema) && |HeaderBytes(d.schema)| <= |d'.files[c]|
    ensures AllStorable(d.schema, Records(d.bios, d.order[c]))
    ensures ParseAll(d.schema, d'.files[c][|HeaderBytes(d.schema)|..]).0 ==
      ReplayedAll(d.schema, Records(d.bios, d.order[c]))
  {
    SessionComplete(es, boot, d, d');
    assert FileHolds(d, d', c);
  }

  /** A worker can be spawned on every file of a closed session. */
  lemma SessionFileOpens(es: seq<Event>, boot: s64, d: Device, d': Device, c: nat, g: Replay.Group)
    requires Reaches(es, boot, d) && 0 <= d.startTs <= d.clock && Step(d, Detach) == Some(d') && c < |d'.files|
    requires g.creating
    ensures Replay.Step(g, Replay.Spawn(d'.files[c])).Some?
  {
    SessionFile(es, boot, d, d', c);
  }

  /** The worker replays this dump file. */
  ghost predicate On(x: Replay.Worker, file: seq<byte>) {
    DecodeHeader(file) == Header(x.schema) && |HeaderBytes(x.schema)| <= |file| &&
        x.file == file[|HeaderBytes(x.schema)|..]
  }

  /** The worker spawned on a file stays on it, in its place in the group, in every further run. */
  lemma SpawnedStaysOn(g: Replay.Group, file: seq<byte>, m: Replay.Group, after: seq<Replay.Event>, g': Replay.Group)
    requires Replay.Step(g, Replay.Spawn(file)) == Some(m) && Replay.Runs(m, after, g')
    ensures |g.workers| < |g'.workers| && On(g'.workers[|g.workers|], file)
  {
    RunKeepsFile(m, after, g', |g.workers|);
  }

  /** The bios of list c, up to the n-th, as the worker on its file submits them. */
  ghost predicate Submits(d: Device, c: nat, got: seq<Info>)
    requires c < |d.order|
  {
    |got| <= |d.order[c]| && forall i | 0 <= i < |got| ::
      d.order[c][i] in d.bios && SameRequest(d.schema, d.bios[d.order[c][i]], got[i])
  }

  lemma SessionSubmits(d: Device, c: nat, got: seq<Info>)
    requires Inv(d) && (d.schema == SCHEMA_DEFAULT || d.schema == SCHEMA_PAYLOAD) && c < |d.order|
    requires forall i | 0 <= i < |d.order[c]| :: d.order[c][i] in d.bios
    requires AllStorable(d.schema, Records(d.bios, d.order[c]))
    requires got <= ReplayedAll(d.schema, Records(d.bios, d.order[c]))
    ensures Submits(d, c, got)
  {
    assert ListOk(d.bios, d.order[c], c);
    var infos := Records(d.bios, d.order[c]);
    forall i | 0 <= i < |got| ensures SameRequest(d.schema, d.bios[d.order[c][i]], got[i]) {
      var t := d.order[c][i];
      assert LoggedOn(d.bios, t, c) && infos[i] == d.bios[t].info && Storable(d.schema, infos[i]);
      assert TracedOk(d.bios[t], |d.order|, d.clock - d.startTs);
      ReplayedIsSameRequest(d.schema, d.bios[t], |d.order|, d.clock - d.startTs);
      assert got[i] == ReplayedAll(d.schema, infos)[i];
    }
  }

  /**
   * From the traced device to the target device. Whatever the interleaving on either side, the
   * worker on cpu c's file of a closed session has submitted, at any moment, a prefix of the
   * requests that cpu c dumped, in that order, with the data of every write if the session was
   * captured with payload; and if it has died without the group being stopped, it has submitted
   * them all.
   */
  lemma ReplaySubmitsTheSession(es: seq<Event>, boot: s64, d: Device, d': Device, c: nat,
                                rs: seq<Replay.Event>, g: Replay.Group, w: nat)
    requires Reaches(es, boot, d) && 0 <= d.startTs <= d.clock && Step(d, Detach) == Some(d') && c < |d'.files|
    requires Replay.Runs(Replay.NEW_GROUP, rs, g) && w < |g.workers| && On(g.workers[w], d'.files[c])
    ensures c < |d.order| && Submits(d, c, g.workers[w].submitted)
    ensures g.active && g.workers[w].stage == Replay.Dead ==> |g.workers[w].submitted| == |d.order[c]|
  {
    SessionFile(es, boot, d, d', c);
    RunKeepsInv(es, boot, d);
    Replay.SubmissionsArePrefix(rs, g, w);
    SessionSubmits(d, c, g.workers[w].submitted);
  }
}
