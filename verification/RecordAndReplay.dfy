/**
 * All the objects together: a proxy traces bios into real dump files, is disabled, and the
 * generator's reader replays one of the files. Bios are submitted and completed one by one here;
 * that other orders make no difference is what the protocols' theorems are about.
 */
module RecordAndReplay {
  import Numbers
  import opened Bytes
  import opened Record
  import opened Stream
  import opened Dumping
  import opened DumpSet
  import opened Parsing
  import opened Pipeline
  import opened Capture
  import opened CaptureInvariant
  import opened CaptureSession
  import opened CaptureFlush
  import opened Capturing
  import opened EndToEnd

  // ----- recording -----

  /** A bio, the cpu and the moment of its submission, and the moment and the status of its completion. */
  datatype Job = Job(bio: Bio, cpu: s32, submitted: s64, completed: s64, status: byte)

  /** The jobs can be done in this order, by a machine of so many cpus, from now on. */
  predicate Doable(jobs: seq<Job>, cpuCount: nat, now: s64) {
    && (forall i | 0 <= i < |jobs| :: ValidBio(jobs[i].bio) && 0 <= jobs[i].cpu < cpuCount && now <= jobs[i].submitted)
    && (forall i, j | 0 <= i < j < |jobs| ::
          jobs[i].submitted <= jobs[j].submitted && jobs[i].completed <= jobs[j].completed)
    && (forall i, j | 0 <= i < |jobs| && 0 <= j < |jobs| :: jobs[i].submitted <= jobs[j].completed)
  }

  /** What is traced of a job in a session that began at start. */
  predicate TracedAs(x: Traced, job: Job, start: int, stage: Stage) {
    && x.bio == job.bio && x.info.cpu == job.cpu && x.info.startTs == job.submitted - start && x.stage == stage
    && (Rank(stage) >= 5 ==> x.info.endTs == job.completed - start && x.info.status == job.status)
  }

  /** The first n jobs have been submitted, and the first k of them completed. */
  predicate Holding(d: Device, jobs: seq<Job>, n: nat, k: nat) {
    && d.enabled && |d.order| == |d.writers| && k <= n <= |jobs|
    && Doable(jobs, |d.writers|, d.startTs)
    && (forall i | n <= i < |jobs| :: d.clock <= jobs[i].submitted)
    && (forall i | k <= i < |jobs| :: d.clock <= jobs[i].completed)
    && (forall t | t in d.bios :: t < n)
    && (forall i: nat | i < n :: i in d.bios && TracedAs(d.bios[i], jobs[i], d.startTs, if i < k then Queued else Sent))
  }

  lemma SubmittedOneMore(d: Device, jobs: seq<Job>, n: nat, d': Device)
    requires n < |jobs| && Holding(d, jobs, n, 0) && Puts(d, n, Sent, jobs[n].bio, jobs[n].cpu, d')
    requires d'.clock == jobs[n].submitted && d'.bios[n].info.startTs == jobs[n].submitted - d.startTs
    ensures Holding(d', jobs, n + 1, 0)
  {
    forall i: nat | i < n + 1 ensures i in d'.bios && TracedAs(d'.bios[i], jobs[i], d'.startTs, Sent) {
      assert i < n ==> i in d.bios && TracedAs(d.bios[i], jobs[i], d.startTs, Sent);
    }
  }

  lemma CompletedOneMore(d: Device, jobs: seq<Job>, k: nat, d': Device)
    requires k < |jobs| && Holding(d, jobs, |jobs|, k) && k in d.bios
    requires Puts(d, k, Queued, d.bios[k].bio, d.bios[k].info.cpu, d')
    requires d'.clock == jobs[k].completed && d'.bios[k].info.startTs == d.bios[k].info.startTs
    requires d'.bios[k].info.endTs == jobs[k].completed - d.startTs && d'.bios[k].info.status == jobs[k].status
    ensures Holding(d', jobs, |jobs|, k + 1)
  {
    forall i: nat | i < |jobs|
      ensures i in d'.bios && TracedAs(d'.bios[i], jobs[i], d'.startTs, if i < k + 1 then Queued else Sent)
    {
      assert i in d.bios && TracedAs(d.bios[i], jobs[i], d.startTs, if i < k then Queued else Sent);
    }
  }

  method SubmitNext(proxy: Proxy, jobs: seq<Job>, n: nat)
    requires proxy.Valid() && n < |jobs| && Holding(proxy.View(), jobs, n, 0)
    modifies proxy`counter, proxy`bios, proxy`issued, proxy`inflight, proxy`clock
    ensures proxy.Valid() && Holding(proxy.View(), jobs, n + 1, 0) && proxy.schema == old(proxy.schema)
  {
    ghost var d := proxy.View();
    proxy.SubmitBio(n, jobs[n].bio, jobs[n].cpu, jobs[n].submitted);
    SubmittedOneMore(d, jobs, n, proxy.View());
  }

  method SubmitAll(proxy: Proxy, jobs: seq<Job>, n: nat)
    requires proxy.Valid() && Holding(proxy.View(), jobs, n, 0)
    modifies proxy`counter, proxy`bios, proxy`issued, proxy`inflight, proxy`clock
    ensures proxy.Valid() && Holding(proxy.View(), jobs, |jobs|, 0) && proxy.schema == old(proxy.schema)
    decreases |jobs| - n
  {
    if n < |jobs| {
      SubmitNext(proxy, jobs, n);
      SubmitAll(proxy, jobs, n + 1);
    }
  }

  method CompleteNext(proxy: Proxy, jobs: seq<Job>, k: nat)
    requires proxy.Valid() && k < |jobs| && Holding(proxy.View(), jobs, |jobs|, k)
    modifies proxy`bios, proxy`clock
    ensures proxy.Valid() && Holding(proxy.View(), jobs, |jobs|, k + 1)
  {
    ghost var d := proxy.View();
    assert k in d.bios && TracedAs(d.bios[k], jobs[k], d.startTs, Sent);
    proxy.EndIo(k, jobs[k].status, jobs[k].completed);
    CompletedOneMore(d, jobs, k, proxy.View());
  }

  method CompleteAll(proxy: Proxy, jobs: seq<Job>, k: nat)
    requires proxy.Valid() && Holding(proxy.View(), jobs, |jobs|, k)
    modifies proxy`bios, proxy`clock
    ensures proxy.Valid() && Holding(proxy.View(), jobs, |jobs|, |jobs|)
    decreases |jobs| - k
  {
    if k < |jobs| {
      CompleteNext(proxy, jobs, k);
      CompleteAll(proxy, jobs, k + 1);
    }
  }

  lemma HoldingCompleted(d: Device, jobs: seq<Job>)
    requires Holding(d, jobs, |jobs|, |jobs|)
    ensures Completed(d)
  {
    forall t | t in d.bios ensures Rank(d.bios[t].stage) >= 5 {
      assert TracedAs(d.bios[t], jobs[t], d.startTs, Queued);
    }
  }

  method Start(payload: bool, jobs: seq<Job>, cpuCount: nat, writeSize: nat, now: s64) returns (proxy: Proxy)
    requires now >= 0 && cpuCount < 0x8000_0000 && 4 + 4 * |SchemaFor(payload)| <= writeSize
    requires Doable(jobs, cpuCount, now)
    ensures fresh(proxy) && proxy.Valid() && proxy.startTs == now && Holding(proxy.View(), jobs, 0, 0)
    ensures proxy.dumps != null && fresh(proxy.dumps) && fresh(proxy.dumps.repr)
    ensures proxy.schema == SchemaFor(payload) && |proxy.order| == cpuCount
  {
    proxy := new Proxy(now);
    var ret := proxy.Enable(payload, cpuCount, writeSize, now);
  }

  /** The record of a job of a session that began at start. */
  predicate IsRecordOf(info: Info, job: Job, start: int) {
    && info.cpu == job.cpu && info.startTs == job.submitted - start && info.endTs == job.completed - start
    && info.status == job.status
  }

  /** The session has traced exactly these jobs, with their cpus, times and statuses. */
  ghost predicate Traces(d: Device, jobs: seq<Job>, start: int) {
    (forall t: nat :: t in d.bios <==> t < |jobs|)
    && forall t | t in d.bios :: d.bios[t].bio == jobs[t].bio && IsRecordOf(d.bios[t].info, jobs[t], start)
  }

  lemma HeldIsTraced(d: Device, jobs: seq<Job>, d': Device)
    requires Holding(d, jobs, |jobs|, |jobs|) && SameRecords(d, d')
    ensures Traces(d', jobs, d.startTs)
  {
    assert forall t :: t in d'.bios.Keys <==> t in d.bios.Keys;
    forall t | t in d'.bios ensures d'.bios[t].bio == jobs[t].bio && IsRecordOf(d'.bios[t].info, jobs[t], d.startTs) {
      assert t in d.bios && TracedAs(d.bios[t], jobs[t], d.startTs, Queued);
    }
  }

  method DoJobs(proxy: Proxy, jobs: seq<Job>)
    requires proxy.Valid() && Holding(proxy.View(), jobs, 0, 0)
    modifies proxy`counter, proxy`bios, proxy`issued, proxy`inflight, proxy`clock
    ensures proxy.Valid() && Holding(proxy.View(), jobs, |jobs|, |jobs|) && proxy.schema == old(proxy.schema)
  {
    SubmitAll(proxy, jobs, 0);
    CompleteAll(proxy, jobs, 0);
  }

  method Close(proxy: Proxy, dumps: Dumps, jobs: seq<Job>)
    requires proxy.Valid() && proxy.dumps == dumps && Holding(proxy.View(), jobs, |jobs|, |jobs|)
    modifies proxy, dumps, dumps.repr
    ensures proxy.Valid() && Traces(proxy.View(), jobs, old(proxy.startTs)) && proxy.schema == old(proxy.schema)
    ensures |proxy.order| == |dumps.dumps| == old(|proxy.order|)
    ensures forall t | t in proxy.bios :: CapturedOnce(proxy.View(), t)
    ensures forall c | 0 <= c < |proxy.order| :: HoldsList(proxy.View(), c, dumps.dumps[c].file.bytes)
  {
    ghost var d := proxy.View();
    HoldingCompleted(d, jobs);
    ghost var work := proxy.Disable();
    HeldIsTraced(d, jobs, proxy.View());
  }

  /** A whole session: enable, submit all bios, complete all clones, disable. */
  method RecordSession(payload: bool, jobs: seq<Job>, cpuCount: nat, writeSize: nat, now: s64)
    returns (proxy: Proxy, dumps: Dumps)
    requires now >= 0 && cpuCount < 0x8000_0000 && 4 + 4 * |SchemaFor(payload)| <= writeSize
    requires Doable(jobs, cpuCount, now)
    ensures proxy.Valid() && Traces(proxy.View(), jobs, now)
    ensures proxy.schema == SchemaFor(payload) && |proxy.order| == |dumps.dumps| == cpuCount
    ensures forall t | t in proxy.bios :: CapturedOnce(proxy.View(), t)
    ensures forall c | 0 <= c < cpuCount :: HoldsList(proxy.View(), c, dumps.dumps[c].file.bytes)
  {
    proxy := Start(payload, jobs, cpuCount, writeSize, now);
    dumps := proxy.dumps;
    DoJobs(proxy, jobs);
    Close(proxy, dumps, jobs);
  }

  // ----- replaying -----

  /** cpu c's list has exactly the jobs submitted on c, each once. */
  lemma ListHasCpu(d: Device, jobs: seq<Job>, start: int, c: nat)
    requires Inv(d) && Traces(d, jobs, start) && c < |d.order|
    requires forall t | t in d.bios :: CapturedOnce(d, t)
    ensures Numbers.Distinct(d.order[c])
    ensures forall t: nat :: t in d.order[c] <==> t < |jobs| && jobs[t].cpu == c
  {
    assert ListOk(d.bios, d.order[c], c);
    forall t: nat ensures t in d.order[c] <==> t < |jobs| && jobs[t].cpu == c {
      if t in d.order[c] {
        var i :| 0 <= i < |d.order[c]| && d.order[c][i] == t;
        assert LoggedOn(d.bios, d.order[c][i], c);
      }
      if t < |jobs| && jobs[t].cpu == c {
        assert CapturedOnce(d, t);
      }
    }
  }

  /** What is replayed of a job: its request, and when it was made and done, counted from the start of the session. */
  predicate Replays(payload: bool, job: Job, start: int, got: Info) {
    && got.sector == job.bio.sector && got.size == job.bio.size && got.op == job.bio.op && IsRecordOf(got, job, start)
    && Content(got.payload) == if payload && IsWrite(job.bio) && job.bio.size > 0 then Flatten(job.bio.segs) else []
  }

  /** got are the jobs listed in order, one after the other. */
  ghost predicate ReplaysAll(payload: bool, jobs: seq<Job>, start: int, order: seq<nat>, got: seq<Info>) {
    |got| == |order| && forall i | 0 <= i < |order| ::
      order[i] < |jobs| && Replays(payload, jobs[order[i]], start, got[i])
  }

  lemma SubmitsReplays(payload: bool, d: Device, jobs: seq<Job>, start: int, c: nat, got: seq<Info>)
    requires Traces(d, jobs, start) && d.schema == SchemaFor(payload) && c < |d.order|
    requires Submits(d, c, got) && |got| == |d.order[c]|
    ensures ReplaysAll(payload, jobs, start, d.order[c], got)
  {
    forall i | 0 <= i < |got| ensures d.order[c][i] < |jobs| && Replays(payload, jobs[d.order[c][i]], start, got[i]) {
      var t := d.order[c][i];
      assert t in d.bios && SameRequest(d.schema, d.bios[t], got[i]);
    }
  }

  /**
   * A proxy that really writes its files, and a reader that really reads one of them: what is
   * read of cpu c's file are the jobs done on cpu c, each exactly once, with the times and the
   * status of each, and with the data of every write if the session is captured with payload.
   */
  method RecordThenReplay(payload: bool, jobs: seq<Job>, cpuCount: nat, c: nat,
                          writeSize: nat, readSize: nat, now: s64)
    returns (got: seq<Info>, last: Ret, ghost order: seq<nat>)
    requires now >= 0 && c < cpuCount < 0x8000_0000 && Doable(jobs, cpuCount, now)
    requires 4 + 4 * |SchemaFor(payload)| <= writeSize && 4 + 4 * |SchemaFor(payload)| <= readSize
    ensures last == ReadEmpty && ReplaysAll(payload, jobs, now, order, got)
    ensures Numbers.Distinct(order) && forall t: nat :: t in order <==> t < |jobs| && jobs[t].cpu == c
  {
    var proxy, dumps := RecordSession(payload, jobs, cpuCount, writeSize, now);
    ghost var d := proxy.View();
    order := d.order[c];
    ListHasCpu(d, jobs, now, c);
    assert HoldsList(d, c, dumps.dumps[c].file.bytes);
    ghost var infos := Records(d.bios, order);
    var parser := Open(dumps.dumps[c].file, d.schema, infos, readSize);
    got, last := ReplayFile(parser, infos);
    SessionSubmits(d, c, got);
    SubmitsReplays(payload, d, jobs, now, c, got);
  }
}
