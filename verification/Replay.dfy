/**
 * The replay generator: one worker per dump file, each rescheduling itself, sharing a stop flag
 * and a reference count. Steps of the creator, the stopper and all workers interleave freely.
 */
module Replay {
  import opened Options
  import opened Bytes
  import opened Record
  import opened Stream

  /** Where a worker is: before the test of the flag, before read_next, or with a bio on a timer. */
  datatype Stage = Checking | Reading | Scheduled(bio: Info) | Dead

  /** file is what was behind the header, rest what is unread; late counts submissions after stop. */
  datatype Worker = Worker(schema: Schema, file: seq<byte>, rest: seq<byte>, stage: Stage, submitted: seq<Info>,
      late: nat)

  /** creating says that group_create has not yet given up its reference. */
  datatype Group = Group(active: bool, creating: bool, refcount: int, destroyed: nat, workers: seq<Worker>)

  const NEW_GROUP := Group(true, true, 1, 0, [])

  /** Check tests the flag, Read calls read_next and schedules, Fire is the timer: it submits. */
  datatype Action = Check | Read | Fire

  datatype Event = Spawn(file: seq<byte>) | FinishCreate | Stop | Work(w: nat, action: Action)

  /** kref_put: the last reference destroys the group. */
  function Put(g: Group): Group {
    g.(refcount := g.refcount - 1, destroyed := if g.refcount == 1 then g.destroyed + 1 else g.destroyed)
  }

  /** The worker after one of its actions; None when it is not at that point. */
  function Act(x: Worker, action: Action, active: bool): Option<Worker> {
    match action
    case Check =>
      if x.stage != Checking then None else Some(x.(stage := if active then Reading else Dead))
    case Read =>
      if x.stage != Reading then None
      else
        (match ParseNext(x.schema, ZERO_INFO, x.rest)
         case Ok(info, used) => Some(x.(stage := Scheduled(info), rest := x.rest[used..]))
         case BadRecord => None
         case _ => Some(x.(stage := Dead)))
    case Fire =>
      if !x.stage.Scheduled? then None
      else Some(x.(stage := Checking, submitted := x.submitted + [x.stage.bio],
                   late := if active then x.late else x.late + 1))
  }

  /** The group with worker w replaced by x; a worker that dies drops its reference. */
  function Replaced(g: Group, w: nat, x: Worker): Group
    requires w < |g.workers|
  {
    var g' := g.(workers := g.workers[w := x]);
    if x.stage == Dead then Put(g') else g'
  }

  function NewWorker(schema: Schema, rest: seq<byte>): Worker {
    Worker(schema, rest, rest, Checking, [], 0)
  }

  /**
   * The group after the event; None when the event cannot happen in this state. A worker is
   * spawned on a file with a whole header; its first check and read are steps of their own.
   */
  function Step(g: Group, e: Event): Option<Group> {
    match e
    case Spawn(file) =>
      (match DecodeHeader(file)
       case Header(schema) =>
         if !g.creating || |HeaderBytes(schema)| > |file| then None
         else Some(g.(refcount := g.refcount + 1,
                      workers := g.workers + [NewWorker(schema, file[|HeaderBytes(schema)|..])]))
       case _ => None)
    case FinishCreate => if g.creating then Some(Put(g.(creating := false))) else None
    case Stop => if g.refcount > 0 then Some(g.(active := false)) else None
    case Work(w, action) =>
      if w >= |g.workers| then None
      else
        match Act(g.workers[w], action, g.active)
        case Some(x) => Some(Replaced(g, w, x))
        case None => None
  }

  // ----- the invariant -----

  function One(x: Worker): nat {
    if x.stage == Dead then 0 else 1
  }

  function Live(workers: seq<Worker>): nat {
    if workers == [] then 0 else Live(workers[..|workers| - 1]) + One(workers[|workers| - 1])
  }

  /** What the worker has taken out of its file so far. */
  function Delivered(x: Worker): seq<Info> {
    x.submitted + if x.stage.Scheduled? then [x.stage.bio] else []
  }

  /** All the bios of the worker's file. */
  function BiosOf(x: Worker): seq<Info> {
    ParseAll(x.schema, x.file).0
  }

  ghost predicate WorkerOk(x: Worker, active: bool) {
    && Delivered(x) + ParseAll(x.schema, x.rest).0 == BiosOf(x)
    && x.late <= 1
    && (active || x.stage == Reading || x.stage.Scheduled? ==> x.late == 0)
    && (active && x.stage == Dead ==> ParseAll(x.schema, x.rest).0 == [])
  }

  /** Every reference is accounted for, and the group has been destroyed just when there is none. */
  predicate Counted(g: Group) {
    && g.refcount == Live(g.workers) + (if g.creating then 1 else 0)
    && g.destroyed == (if g.refcount == 0 then 1 else 0)
  }

  ghost predicate WorkersOk(g: Group) {
    forall w | 0 <= w < |g.workers| :: WorkerOk(g.workers[w], g.active)
  }

  ghost predicate Inv(g: Group) {
    Counted(g) && WorkersOk(g)
  }

  lemma {:induction false} LiveUpdate(workers: seq<Worker>, w: nat, x: Worker)
    requires w < |workers|
    ensures Live(workers[w := x]) == Live(workers) - One(workers[w]) + One(x)
  {
    var n := |workers| - 1;
    if w < n {
      LiveUpdate(workers[..n], w, x);
      assert workers[w := x][..n] == workers[..n][w := x];
    } else {
      assert workers[w := x][..n] == workers[..n];
    }
  }

  lemma {:induction false} LiveIsZeroIffAllDead(workers: seq<Worker>)
    ensures Live(workers) == 0 <==> forall w | 0 <= w < |workers| :: workers[w].stage == Dead
  {
    if workers != [] {
      var n := |workers| - 1;
      LiveIsZeroIffAllDead(workers[..n]);
      assert forall w | 0 <= w < n :: workers[..n][w] == workers[w];
    }
  }

  /**
   * A worker that reads takes exactly the first unread bio of its file and leaves the others
   * unread, and dies exactly when there is none; either way it has submitted nothing.
   */
  lemma ReadTakesFirst(x: Worker, active: bool)
    requires Act(x, Read, active).Some?
    ensures var y := Act(x, Read, active).value;
      var unread := ParseAll(x.schema, x.rest).0;
      && y.submitted == x.submitted && y.late == x.late && y.schema == x.schema && y.file == x.file
      && if unread == [] then y.stage == Dead && y.rest == x.rest
         else y.stage == Scheduled(unread[0]) && ParseAll(y.schema, y.rest).0 == unread[1..]
              && y.rest == x.rest[ParseNext(x.schema, ZERO_INFO, x.rest).used..]
  {
    var p := ParseNext(x.schema, ZERO_INFO, x.rest);
    if p.Ok? {
      var tail := ParseAll(x.schema, x.rest[p.used..]).0;
      assert ([p.info] + tail)[1..] == tail;
    }
  }

  lemma ReadKeepsOk(x: Worker, active: bool)
    requires WorkerOk(x, active) && Act(x, Read, active).Some?
    ensures WorkerOk(Act(x, Read, active).value, active)
  {
    ReadTakesFirst(x, active);
    var unread := ParseAll(x.schema, x.rest).0;
    if unread != [] {
      assert x.submitted + [] == x.submitted;
      assert unread == [unread[0]] + unread[1..];
      assert x.submitted + ([unread[0]] + unread[1..]) == (x.submitted + [unread[0]]) + unread[1..];
    }
  }

  lemma ActKeepsOk(x: Worker, action: Action, active: bool)
    requires WorkerOk(x, active) && Act(x, action, active).Some?
    ensures WorkerOk(Act(x, action, active).value, active)
  {
    match action
    case Read => ReadKeepsOk(x, active);
    case Check =>
    case Fire => assert Delivered(x) + [] == Delivered(x);
  }

  lemma ReplaceKeepsCount(g: Group, w: nat, x: Worker)
    requires Counted(g) && w < |g.workers| && g.workers[w].stage != Dead
    ensures Counted(Replaced(g, w, x))
  {
    LiveUpdate(g.workers, w, x);
    LiveIsZeroIffAllDead(g.workers);
  }

  lemma SpawnKeepsCount(g: Group, x: Worker)
    requires Counted(g) && g.creating && x.stage != Dead
    ensures Counted(g.(refcount := g.refcount + 1, workers := g.workers + [x]))
  {
    assert (g.workers + [x])[..|g.workers|] == g.workers;
  }

  lemma SpawnKeepsInv(g: Group, schema: Schema, rest: seq<byte>)
    requires Inv(g) && g.creating
    ensures Inv(g.(refcount := g.refcount + 1, workers := g.workers + [NewWorker(schema, rest)]))
  {
    var x := NewWorker(schema, rest);
    assert x.submitted + [] + BiosOf(x) == BiosOf(x);
    SpawnKeepsCount(g, x);
  }

  lemma StopKeepsInv(g: Group)
    requires Inv(g)
    ensures Inv(g.(active := false))
  {
    forall w | 0 <= w < |g.workers| ensures WorkerOk(g.workers[w], false) {
      assert WorkerOk(g.workers[w], g.active);
    }
  }

  lemma WorkKeepsInv(g: Group, w: nat, action: Action)
    requires Inv(g) && w < |g.workers| && Act(g.workers[w], action, g.active).Some?
    ensures Inv(Replaced(g, w, Act(g.workers[w], action, g.active).value))
  {
    var x := Act(g.workers[w], action, g.active).value;
    ActKeepsOk(g.workers[w], action, g.active);
    ReplaceKeepsCount(g, w, x);
  }

  /** Every step of the creator, the stopper and the workers keeps the invariant. */
  lemma StepKeepsInv(g: Group, e: Event, g': Group)
    requires Inv(g) && Step(g, e) == Some(g')
    ensures Inv(g')
  {
    match e
    case Spawn(file) =>
      var schema := DecodeHeader(file).schema;
      SpawnKeepsInv(g, schema, file[|HeaderBytes(schema)|..]);
    case FinishCreate =>
    case Stop => StopKeepsInv(g);
    case Work(w, action) => WorkKeepsInv(g, w, action);
  }

  // ----- whole runs -----

  /** The events es take g to g'. */
  predicate Runs(g: Group, es: seq<Event>, g': Group)
    decreases |es|
  {
    if es == [] then g' == g
    else Step(g, es[0]).Some? && Runs(Step(g, es[0]).value, es[1..], g')
  }

  lemma {:induction false} RunKeepsInv(g: Group, es: seq<Event>, g': Group)
    requires Inv(g) && Runs(g, es, g')
    ensures Inv(g')
    decreases |es|
  {
    if es != [] {
      var m := Step(g, es[0]).value;
      StepKeepsInv(g, es[0], m);
      RunKeepsInv(m, es[1..], g');
    }
  }

  /**
   * The reference count is the number of live workers, and one more while the group is being
   * created. So the group is destroyed at most once, and it has been exactly when creation is
   * over and the last worker has died.
   */
  lemma DestroyedOnceAfterLastWorker(es: seq<Event>, g: Group)
    requires Runs(NEW_GROUP, es, g)
    ensures g.refcount == Live(g.workers) + (if g.creating then 1 else 0)
    ensures g.destroyed <= 1
    ensures g.destroyed == 1 <==> !g.creating && forall w | 0 <= w < |g.workers| :: g.workers[w].stage == Dead
  {
    RunKeepsInv(NEW_GROUP, es, g);
    LiveIsZeroIffAllDead(g.workers);
  }

  /**
   * At any moment of any run a worker has submitted a prefix of its file's bios, in file order;
   * one that has died without the group being stopped has submitted them all.
   */
  lemma SubmissionsArePrefix(es: seq<Event>, g: Group, w: nat)
    requires Runs(NEW_GROUP, es, g) && w < |g.workers|
    ensures g.workers[w].submitted <= BiosOf(g.workers[w])
    ensures g.active && g.workers[w].stage == Dead ==> g.workers[w].submitted == BiosOf(g.workers[w])
  {
    RunKeepsInv(NEW_GROUP, es, g);
    assert WorkerOk(g.workers[w], g.active);
  }

  // ----- after the stop -----

  /** From x to x' the worker has submitted as many bios as it has counted late. */
  predicate Tallied(x: Worker, x': Worker) {
    |x'.submitted| - |x.submitted| == x'.late - x.late
  }

  ghost predicate AllTallied(g: Group, g': Group) {
    !g'.active && |g.workers| <= |g'.workers| && forall w | 0 <= w < |g.workers| :: Tallied(g.workers[w], g'.workers[w])
  }

  lemma StoppedStepTallies(g: Group, e: Event, g': Group)
    requires !g.active && Step(g, e) == Some(g')
    ensures AllTallied(g, g')
  {
    if e.Work? {
      var x := Act(g.workers[e.w], e.action, false).value;
      assert Tallied(g.workers[e.w], x);
      assert g'.workers == g.workers[e.w := x];
    }
  }

  lemma {:induction false} StoppedRunTallies(g: Group, es: seq<Event>, g': Group)
    requires !g.active && Runs(g, es, g')
    ensures AllTallied(g, g')
    decreases |es|
  {
    if es != [] {
      var m := Step(g, es[0]).value;
      StoppedStepTallies(g, es[0], m);
      StoppedRunTallies(m, es[1..], g');
      forall w | 0 <= w < |g.workers| ensures Tallied(g.workers[w], g'.workers[w]) {
        assert Tallied(g.workers[w], m.workers[w]) && Tallied(m.workers[w], g'.workers[w]);
      }
    }
  }

  /** The group is active just as long as no stop has happened; nothing makes it active again. */
  lemma {:induction false} ActiveUntilStop(g: Group, es: seq<Event>, g': Group)
    requires Runs(g, es, g')
    ensures g'.active <==> g.active && Stop !in es
    decreases |es|
  {
    if es != [] {
      var m := Step(g, es[0]).value;
      ActiveUntilStop(m, es[1..], g');
      assert es == [es[0]] + es[1..];
    }
  }

  /** After a stop, at whatever moment, every worker submits at most one more bio, however long it runs on. */
  lemma AtMostOneAfterStop(before: seq<Event>, g: Group, after: seq<Event>, g': Group, w: nat)
    requires Runs(NEW_GROUP, before, g) && Stop in before && Runs(g, after, g') && w < |g.workers|
    ensures w < |g'.workers| && |g'.workers[w].submitted| <= |g.workers[w].submitted| + 1
  {
    ActiveUntilStop(NEW_GROUP, before, g);
    RunKeepsInv(NEW_GROUP, before, g);
    RunKeepsInv(g, after, g');
    StoppedRunTallies(g, after, g');
    assert Tallied(g.workers[w], g'.workers[w]) && WorkerOk(g'.workers[w], false);
  }

  /** A worker that has not yet tested the flag when the group is stopped submits nothing more. */
  lemma StoppedCheckDies(x: Worker)
    requires x.stage == Checking
    ensures Act(x, Check, false) == Some(x.(stage := Dead))
    ensures forall action :: Act(x, action, false).Some? ==> Act(x, action, false).value.submitted == x.submitted
  {
  }

  // ----- every worker comes to an end -----

  /** How many actions a worker can still make at most. */
  function ActionsLeft(x: Worker): nat {
    var unread := |ParseAll(x.schema, x.rest).0|;
    match x.stage
    case Checking => 3 * unread + 2
    case Reading => 3 * unread + 1
    case Scheduled(_) => 3 * unread + 3
    case Dead => 0
  }

  lemma ActCountsDown(x: Worker, action: Action, active: bool)
    requires Act(x, action, active).Some?
    ensures ActionsLeft(Act(x, action, active).value) < ActionsLeft(x)
  {
  }

  /** Every live worker can go on, unless a record of its file overruns its own length. */
  lemma LiveWorkerCanAct(x: Worker, active: bool)
    requires x.stage != Dead && ParseAll(x.schema, x.rest).1 != BadRecord
    ensures exists action :: Act(x, action, active).Some?
  {
    var action := match x.stage case Checking => Check case Reading => Read case _ => Fire;
    assert Act(x, action, active).Some?;
  }
}
