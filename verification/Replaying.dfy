/** The replay workers as objects: each with a windowed reader of its own, and a group they share. */
module Replaying {
  import opened Options
  import opened Bytes
  import opened Record
  import opened Stream
  import opened Parsing
  import Replay
  import opened ReplayTiming

  /** The part of a group that its workers share; destroyed counts the calls of group_destroy. */
  class Group {
    var active: bool
    var refcount: int
    var destroyed: nat

    constructor ()
      ensures active && refcount == 1 && destroyed == 0
    {
      active, refcount, destroyed := true, 1, 0;
    }

    /** The group as seen from one of its workers. */
    ghost function View(x: Replay.Worker): Replay.Group
      reads this
    {
      Replay.Group(active, false, refcount, destroyed, [x])
    }

    method Get()
      modifies this`refcount
      ensures refcount == old(refcount) + 1
    {
      refcount := refcount + 1;
    }

    method Put()
      modifies this`refcount, this`destroyed
      ensures refcount == old(refcount) - 1
      ensures destroyed == old(destroyed) + if old(refcount) == 1 then 1 else 0
    {
      refcount := refcount - 1;
      if refcount == 0 {
        destroyed := destroyed + 1;
      }
    }

    /** group_stop is the stop of the protocol, whatever the workers are doing. */
    method Stop()
      requires refcount > 0
      modifies this`active
      ensures !active && forall x :: Replay.Step(old(View(x)), Replay.Stop) == Some(View(x))
    {
      active := false;
    }
  }

  /** work_submit is the test of the flag and, if that goes well, the read behind it. */
  function Resubmitted(x: Replay.Worker, active: bool): Option<Replay.Worker> {
    match Replay.Act(x, Replay.Check, active)
    case None => None
    case Some(y) => if active then Replay.Act(y, Replay.Read, active) else Some(y)
  }

  /** The events of one work_submit of worker w. */
  function SubmitEvents(w: nat, active: bool): seq<Replay.Event> {
    if active then [Replay.Work(w, Replay.Check), Replay.Work(w, Replay.Read)] else [Replay.Work(w, Replay.Check)]
  }

  /** Left alone, work_submit is a run of the protocol that only touches its own worker. */
  lemma SubmitIsRun(g: Replay.Group, w: nat)
    requires w < |g.workers| && Resubmitted(g.workers[w], g.active).Some?
    ensures Replay.Runs(g, SubmitEvents(w, g.active), Replay.Replaced(g, w, Resubmitted(g.workers[w], g.active).value))
  {
    var y := Replay.Act(g.workers[w], Replay.Check, g.active).value;
    var m := Replay.Replaced(g, w, y);
    assert SubmitEvents(w, g.active)[1..] == if g.active then [Replay.Work(w, Replay.Read)] else [];
    if g.active {
      var z := Replay.Act(y, Replay.Read, true).value;
      assert m.workers[w := z] == g.workers[w := z];
      assert Replay.Runs(m, [Replay.Work(w, Replay.Read)], Replay.Replaced(m, w, z)) by {
        assert [Replay.Work(w, Replay.Read)][1..] == [];
      }
    }
  }

  /** And so is what happens when the timer of worker w has run out. */
  lemma WorkIsRun(g: Replay.Group, w: nat)
    requires w < |g.workers| && Replay.Act(g.workers[w], Replay.Fire, g.active).Some?
    requires Resubmitted(Replay.Act(g.workers[w], Replay.Fire, g.active).value, g.active).Some?
    ensures Replay.Runs(g, [Replay.Work(w, Replay.Fire)] + SubmitEvents(w, g.active),
      Replay.Replaced(g, w, Resubmitted(Replay.Act(g.workers[w], Replay.Fire, g.active).value, g.active).value))
  {
    var y := Replay.Act(g.workers[w], Replay.Fire, g.active).value;
    var m := Replay.Replaced(g, w, y);
    var z := Resubmitted(y, g.active).value;
    SubmitIsRun(m, w);
    assert m.workers[w := z] == g.workers[w := z];
    var es := [Replay.Work(w, Replay.Fire)] + SubmitEvents(w, g.active);
    assert es[1..] == SubmitEvents(w, g.active);
  }

  class Worker {
    const group: Group
    const parser: Parser
    const startTs: int
    const timing: Timing
    var alive: bool
    var bio: Option<Info>
    var timer: nat
    ghost const file: seq<byte>
    ghost var submitted: seq<Info>
    ghost var late: nat
    ghost var looks: seq<int>
    ghost var fires: seq<int>
    ghost var look: int

    ghost predicate Valid()
      reads this, parser, parser.file, parser.buf
    {
      parser.Valid()
    }

    ghost function View(): Replay.Worker
      requires Valid()
      reads this, parser, parser.file, parser.buf
    {
      var stage := if !alive then Replay.Dead else if bio.Some? then Replay.Scheduled(bio.value) else Replay.Checking;
      Replay.Worker(parser.schema, file, parser.Rest(), stage, submitted, late)
    }

    /** The submissions so far are a timeline, and a bio that waits has its timer set accordingly. */
    ghost predicate Timed()
      reads this
    {
      && |fires| == |submitted| && Timeline(timing, submitted, looks, fires)
      && (bio.Some? ==> Waits(timing, Last(fires), bio.value.startTs, look, timer))
    }

    /** A run of a worker is a timeline over the bios of its file. */
    lemma TimedOverFile()
      requires Valid() && Timed() && Replay.WorkerOk(View(), group.active)
      ensures Timeline(timing, Replay.BiosOf(View()), looks, fires) && |fires| == |submitted|
    {
      TimelineOfMore(timing, submitted, Replay.BiosOf(View()), looks, fires);
    }

    /** worker_create, on a reader that has read the header, up to its first work_submit. */
    constructor (group: Group, parser: Parser, startTs: int, timing: Timing)
      requires parser.Valid() && timing.jiffy > 0
      modifies group
      ensures Valid() && Timed() && this.group == group && this.parser == parser && alive && bio == None
      ensures this.startTs == startTs && this.timing == timing && fires == []
      ensures View() == Replay.NewWorker(parser.schema, parser.Rest())
      ensures group.active == old(group.active) && group.destroyed == old(group.destroyed)
      ensures group.refcount == old(group.refcount) + 1
    {
      this.group, this.parser, this.startTs, this.timing := group, parser, startTs, timing;
      alive, bio, timer := true, None, 0;
      file, submitted, late := parser.Rest(), [], 0;
      looks, fires, look := [], [], 0;
      new;
      group.Get();
    }

    /** work_destroy and worker_destroy: the worker drops its reference to the group. */
    method Destroy()
      requires Valid() && alive
      modifies this`alive, group
      ensures Valid() && !alive && View() == old(View()).(stage := Replay.Dead)
      ensures group.View(View()) == Replay.Replaced(old(group.View(View())), 0, View())
    {
      alive := false;
      group.Put();
    }

    /** The worker between the test of the flag and the outcome of read_next. */
    method ReadNext() returns (ret: Ret, info: Info)
      requires Valid() && alive && bio == None
      requires Replay.Act(View().(stage := Replay.Reading), Replay.Read, true).Some?
      modifies parser, parser.buf
      ensures Valid() && (parser.buf == old(parser.buf) || fresh(parser.buf))
      ensures Replay.Act(old(View()).(stage := Replay.Reading), Replay.Read, true) ==
        Some(View().(stage := if ret == ReadOk then Replay.Scheduled(info) else Replay.Dead))
    {
      ret, info := parser.ReadNext(ZERO_INFO);
    }

    /** schedule_delayed_work_on with what is left of the time until the bio was recorded. */
    method Schedule(info: Info, now: int)
      requires Valid() && Timed() && alive && bio == None
      requires Last(fires) <= now - startTs <= Last(fires) + timing.overhead
      modifies this`bio, this`timer, this`look
      ensures Valid() && Timed() && bio == Some(info) && View() == old(View()).(stage := Replay.Scheduled(info))
      ensures look == now - startTs
    {
      bio := Some(info);
      var delay := if now - startTs < info.startTs then info.startTs - (now - startTs) else 0;
      timer := delay / timing.jiffy;
      look := now - startTs;
    }

    /**
     * blgy_gen_work_submit: dies when the group has been stopped or the file has no more whole
     * record, and otherwise puts the next bio on a timer that starts at now.
     */
    method WorkSubmit(now: int)
      requires Valid() && Timed() && alive && bio == None
      requires Last(fires) <= now - startTs <= Last(fires) + timing.overhead
      requires Resubmitted(View(), group.active).Some?
      modifies this`alive, this`bio, this`timer, this`look, group, parser, parser.buf
      ensures Valid() && Timed() && (parser.buf == old(parser.buf) || fresh(parser.buf))
      ensures View() == Resubmitted(old(View()), old(group.active)).value
      ensures group.View(View()) == Replay.Replaced(old(group.View(View())), 0, View())
      ensures alive ==> bio.Some? && look == now - startTs
    {
      if !group.active {
        Destroy();
        return;
      }
      var ret, info := ReadNext();
      if ret != ReadOk {
        Destroy();
        return;
      }
      Schedule(info, now);
    }

    /** submit_bio, at the moment the timer fires. */
    method SubmitBio(fired: int)
      requires Valid() && Timed() && alive && bio.Some? && Fires(timing, look, timer, fired - startTs)
      modifies this`bio, this`submitted, this`late, this`fires, this`looks
      ensures Valid() && Timed() && bio == None
      ensures submitted == old(submitted) + [old(bio).value] && fires == old(fires) + [fired - startTs]
      ensures Replay.Act(old(View()), Replay.Fire, group.active) == Some(View())
    {
      TimelineGoesOn(timing, submitted, looks, fires, bio.value, look, timer, fired - startTs);
      submitted, looks, fires := submitted + [bio.value], looks + [look], fires + [fired - startTs];
      late := if group.active then late else late + 1;
      bio := None;
    }

    /** blgy_gen_work, when the timer has run out: submits the bio and goes on. */
    method Work(fired: int, now: int)
      requires Valid() && Timed() && alive && bio.Some? && Fires(timing, look, timer, fired - startTs)
      requires fired <= now <= fired + timing.overhead
      requires var x := Replay.Act(View(), Replay.Fire, group.active).value; Resubmitted(x, group.active).Some?
      modifies this, group, parser, parser.buf
      ensures Valid() && Timed() && (parser.buf == old(parser.buf) || fresh(parser.buf))
      ensures View() == Resubmitted(Replay.Act(old(View()), Replay.Fire, old(group.active)).value,
        old(group.active)).value
      ensures submitted == old(submitted) + [old(bio).value] && fires == old(fires) + [fired - startTs]
      ensures group.View(View()) == Replay.Replaced(old(group.View(View())), 0, View())
    {
      SubmitBio(fired);
      WorkSubmit(now);
    }
  }
}
