/** What the capture protocol stamps on a record, and when sessions begin and end. */
module CaptureTimes {
  import opened Options
  import opened Bytes
  import opened Record
  import opened Capture
  import opened CaptureInvariant

  // ----- single steps -----

  /** A bio is traced exactly when it is submitted to an enabled device; otherwise nothing happens. */
  lemma SubmitTracesIffEnabled(d: Device, t: Token, bio: Bio, d': Device)
    requires 0 <= d.startTs <= d.clock && Step(d, Submit(t, bio)) == Some(d')
    ensures if d.enabled
      then t !in d.bios && d'.bios == d.bios[t := Traced(bio, BLANK_INFO, Admitted, 0, 0)]
      else d' == d
  {
  }

  /** The recorded start is the time from the beginning of the session to this moment, and the cpu this one. */
  lemma FillStampsStart(d: Device, t: Token, cpu: nat, d': Device)
    requires 0 <= d.startTs <= d.clock && Step(d, Fill(t, cpu)) == Some(d')
    ensures t in d'.bios && d.startTs + d'.bios[t].info.startTs == d.clock && d'.bios[t].info.cpu == cpu
  {
  }

  /** The recorded end likewise, and the recorded status is the one the clone completed with. */
  lemma EndStampsEnd(d: Device, t: Token, status: byte, d': Device)
    requires 0 <= d.startTs <= d.clock && Step(d, EndIo(t, status)) == Some(d')
    ensures t in d'.bios && d.startTs + d'.bios[t].info.endTs == d.clock
    ensures d'.bios[t].info.status == status && d'.bios[t].status == status
    ensures d'.bios[t].info.startTs == d.bios[t].info.startTs
  {
  }

  /** A session begins at this moment, with no bios; on an attached device nothing happens. */
  lemma EnableBeginsSession(d: Device, payload: bool, cpus: nat, bufSize: nat, d': Device)
    requires 0 <= d.startTs <= d.clock && Step(d, Enable(payload, cpus, bufSize)) == Some(d')
    ensures d.attached ==> d' == d
    ensures !d.attached ==>
      && d'.enabled && d'.attached && d'.startTs == d.clock == d'.clock && d'.bios == map[] && d'.issued == []
      && d'.counter == ID_SPAN - 1 && d'.schema == SchemaFor(payload)
  {
  }

  lemma EnableOpensDumps(d: Device, payload: bool, cpus: nat, bufSize: nat, d': Device)
    requires 0 <= d.startTs <= d.clock && !d.attached && Step(d, Enable(payload, cpus, bufSize)) == Some(d')
    ensures |d'.writers| == |d'.order| == cpus && forall c | 0 <= c < cpus :: d'.order[c] == []
  {
  }

  /** Of an enable that begins a session, what matters to the times. */
  predicate Begins(d: Device, a: Device) {
    !d.attached && a.attached && a.startTs == a.clock == d.clock && a.bios == map[]
  }

  lemma EnableBegins(d: Device, e: Event, a: Device)
    requires 0 <= d.startTs <= d.clock && e.Enable? && !d.attached && Step(d, e) == Some(a)
    ensures Begins(d, a)
  {
  }

  // ----- runs -----

  /** While the dumps are not taken away a session goes on, and it began when it began. */
  lemma {:induction false} SessionGoesOn(d: Device, es: seq<Event>, d': Device)
    requires d.attached && Runs(d, es, d') && Detach !in es
    ensures d'.attached && d'.startTs == d.startTs
    decreases |es|
  {
    if es != [] {
      assert es[0] in es && (forall e | e in es[1..] :: e in es);
      SessionGoesOn(Step(d, es[0]).value, es[1..], d');
    }
  }

  /** From when it is filled on, a record keeps its start time and its cpu. */
  predicate Stamped(d: Device, t: Token, startTs: int, cpu: int) {
    t in d.bios && Rank(d.bios[t].stage) >= 2 && d.bios[t].info.startTs == startTs && d.bios[t].info.cpu == cpu
  }

  lemma StepKeepsStamp(d: Device, e: Event, d': Device, t: Token, startTs: int, cpu: int)
    requires 0 <= d.startTs <= d.clock && d.attached && e != Detach && Step(d, e) == Some(d') &&
      Stamped(d, t, startTs, cpu)
    ensures Stamped(d', t, startTs, cpu)
  {
  }

  lemma {:induction false} RunKeepsStamp(d: Device, es: seq<Event>, d': Device, t: Token, startTs: int, cpu: int)
    requires d.attached && Runs(d, es, d') && Detach !in es && Stamped(d, t, startTs, cpu)
    ensures Stamped(d', t, startTs, cpu)
    decreases |es|
  {
    if es != [] {
      var m := Step(d, es[0]).value;
      assert es[0] in es && (forall e | e in es[1..] :: e in es);
      StepKeepsStamp(d, es[0], m, t, startTs, cpu);
      SessionGoesOn(d, [es[0]], m);
      RunKeepsStamp(m, es[1..], d', t, startTs, cpu);
    }
  }

  /**
   * Anywhere in a session, the start on a record is the time that has passed since the device was
   * enabled: from d, where a session begins, by way of es, to the moment in which t is filled, and
   * from there on to d', as long as the session lasts.
   */
  lemma StartIsSinceEnabled(d: Device, a: Device, es: seq<Event>, m: Device,
                            t: Token, cpu: nat, b: Device, later: seq<Event>, d': Device)
    requires Begins(d, a) && Runs(a, es, m) && Detach !in es
    requires 0 <= m.startTs <= m.clock && Step(m, Fill(t, cpu)) == Some(b)
    requires Runs(b, later, d') && Detach !in later
    ensures Stamped(d', t, m.clock - d.clock, cpu)
  {
    SessionGoesOn(a, es, m);
    FillStampsStart(m, t, cpu, b);
    RunKeepsStamp(b, later, d', t, m.clock - d.clock, cpu);
  }

  /** The start times of two bios of a session differ by exactly the clock between their submissions. */
  lemma StartsApart(d: Device, t: Token, cpu: nat, es: seq<Event>, m: Device, u: Token, cpu': nat, d': Device)
    requires d.attached && 0 <= d.startTs <= d.clock && Step(d, Fill(t, cpu)).Some?
    requires Runs(Step(d, Fill(t, cpu)).value, es, m) && Detach !in es
    requires 0 <= m.startTs <= m.clock && Step(m, Fill(u, cpu')) == Some(d')
    ensures t in d'.bios && u in d'.bios && d'.bios[u].info.startTs - d'.bios[t].info.startTs == m.clock - d.clock
  {
    var a := Step(d, Fill(t, cpu)).value;
    FillStampsStart(d, t, cpu, a);
    SessionGoesOn(a, es, m);
    RunKeepsStamp(a, es, m, t, d.clock - d.startTs, cpu);
    FillStampsStart(m, u, cpu', d');
    StepKeepsStamp(m, Fill(u, cpu'), d', t, d.clock - d.startTs, cpu);
  }

  /** Between two enables the device is enabled exactly until it is disabled. */
  lemma {:induction false} EnabledUntilDisabled(d: Device, es: seq<Event>, d': Device)
    requires Runs(d, es, d') && forall e | e in es :: !e.Enable?
    ensures d'.enabled <==> d.enabled && DisableFlag !in es
    decreases |es|
  {
    if es != [] {
      var m := Step(d, es[0]).value;
      assert es[0] in es && (forall e | e in es[1..] :: e in es);
      assert es == [es[0]] + es[1..];
      StepEnables(d, es[0], m);
      EnabledUntilDisabled(m, es[1..], d');
    }
  }

  lemma StepEnables(d: Device, e: Event, d': Device)
    requires 0 <= d.startTs <= d.clock && Step(d, e) == Some(d') && !e.Enable?
    ensures d'.enabled <==> d.enabled && e != DisableFlag
  {
  }
}
