/** `VoodooQueue`: the scheduler that keeps at most `maxDownloads` patches
    downloading and at most `maxExtractions` patches extracting, pausing and
    resuming managed patches through their handles.

    The queue is one immutable value and every public method or event handler
    is a function from the queue before to the queue after plus the commands
    it sends to patch handles, in order. A command does not change the queue:
    the patch answers `stop`/`start` from the queue by firing its
    paused/resumed event with `voodooQueue == true`, and `Apply` delivers
    those answers. */
module VoodooQueue {
  import opened Outcomes
  import opened QueueFetch

  /** What the queue asks of a patch handle. */
  datatype Command =
    | Pause(task: TaskId)       // patch.stop({ voodooQueue: true })
    | Resume(task: TaskId)      // patch.start({ voodooQueue: true })
    | StopTask(task: TaskId)    // patch.stop() from reset
    | CancelTask(task: TaskId)  // patch.cancel() from reset

  datatype Profile = Profile(downloads: nat, extractions: nat)

  const FastProfile := Profile(3, 3)
  const SlowProfile := Profile(0, 0)

  /** The state object and event handlers one `manage` call creates for one
      patch. `gen` tells apart the bindings of successive `manage` calls. */
  datatype Binding = Binding(task: TaskId, gen: nat)

  function BindingOf(e: Entry): Binding {
    Binding(e.task, e.gen)
  }

  /** The queue's static fields. `bound` holds every binding ever created,
      `retired` those whose state object was unmanaged (`managed == false`,
      handlers deregistered), and `deferred` the lanes whose `setMax…`
      continuation still waits for the next turn of the event loop, oldest
      first. */
  datatype Queue = Queue(
    registry: seq<Entry>,
    maxDownloads: nat,
    maxExtractions: nat,
    settingDownloads: bool,
    settingExtractions: bool,
    deferred: seq<bool>,
    nextGen: nat,
    bound: set<Binding>,
    retired: set<Binding>)

  /** The queue after a step, and the commands the step sent, in order. */
  datatype QStep = QStep(q: Queue, cmds: seq<Command>)

  /** One registration per patch; every registered binding is live; every
      binding was handed out before `nextGen`. */
  predicate Wf(q: Queue) {
    && UniqueTasks(q.registry)
    && (forall i :: 0 <= i < |q.registry| ==> BindingOf(q.registry[i]) in q.bound - q.retired)
    && q.retired <= q.bound
    && (forall b :: b in q.bound ==> b.gen < q.nextGen)
  }

  /** The queue as the module loads it: the fast profile, nothing managed. */
  function Initial(): (q: Queue)
    ensures Wf(q)
    ensures q.maxDownloads == FastProfile.downloads && q.maxExtractions == FastProfile.extractions
    ensures |q.registry| == 0 && !q.settingDownloads && !q.settingExtractions
  {
    Queue([], 3, 3, false, false, [], 0, {}, {})
  }

  /** A binding whose handlers are still registered. */
  predicate Live(q: Queue, b: Binding) {
    b in q.bound && b !in q.retired
  }

  /** True when `b` is the binding currently registered for its patch. */
  predicate Current(q: Queue, b: Binding) {
    Lookup(q.registry, b.task).Some? && BindingOf(Lookup(q.registry, b.task).value) == b
  }

  function Min(a: int, b: int): int {
    if a <= b then a else b
  }

  function Ceiling(q: Queue, downloading: bool): nat {
    if downloading then q.maxDownloads else q.maxExtractions
  }

  /** `fetch(true, downloading)`. */
  function Running(q: Queue, downloading: bool, ph: Phase): seq<Entry> {
    Fetch(q.registry, true, OnlyLane(downloading), ph)
  }

  /** `fetch(false, downloading)`. */
  function Pending(q: Queue, downloading: bool, ph: Phase): seq<Entry> {
    Fetch(q.registry, false, OnlyLane(downloading), ph)
  }

  /** The tasks a command list addresses. */
  function Targets(cmds: seq<Command>): set<TaskId> {
    set c | c in cmds :: c.task
  }

  // -------------------------------------------------------------- commands

  /** One resume per entry, in order. */
  function Resumes(s: seq<Entry>): (r: seq<Command>)
    ensures |r| == |s| && forall i :: 0 <= i < |s| ==> r[i] == Resume(s[i].task)
  {
    if |s| == 0 then [] else [Resume(s[0].task)] + Resumes(s[1..])
  }

  /** One pause per entry, in order. */
  function Pauses(s: seq<Entry>): (r: seq<Command>)
    ensures |r| == |s| && forall i :: 0 <= i < |s| ==> r[i] == Pause(s[i].task)
  {
    if |s| == 0 then [] else [Pause(s[0].task)] + Pauses(s[1..])
  }

  /** The patch's answer to one command: a queue-initiated pause or resume
      flips the record's `queued` flag; `stop`/`cancel` from reset reach
      patches whose handlers are already gone. */
  function ApplyCommand(q: Queue, c: Command): Queue {
    match c
    case Pause(t) => q.(registry := Mark(q.registry, {t}, true))
    case Resume(t) => q.(registry := Mark(q.registry, {t}, false))
    case StopTask(_) => q
    case CancelTask(_) => q
  }

  /** Every command answered, in order. */
  function Apply(q: Queue, cmds: seq<Command>): Queue
    decreases |cmds|
  {
    if |cmds| == 0 then q else Apply(ApplyCommand(q, cmds[0]), cmds[1..])
  }

  lemma {:induction false} ApplyConcat(q: Queue, a: seq<Command>, b: seq<Command>)
    ensures Apply(q, a + b) == Apply(Apply(q, a), b)
    decreases |a|
  {
    if |a| > 0 {
      assert (a + b)[1..] == a[1..] + b;
      ApplyConcat(ApplyCommand(q, a[0]), a[1..], b);
    } else {
      assert a + b == b;
    }
  }

  /** Marking the first task, then the rest, marks them all. */
  lemma MarkStep(reg: seq<Entry>, s: seq<Entry>, queued: bool)
    requires |s| > 0
    ensures Mark(Mark(reg, {s[0].task}, queued), TaskSet(s[1..]), queued) == Mark(reg, TaskSet(s), queued)
  {
    MarkMark(reg, {s[0].task}, TaskSet(s[1..]), queued);
    assert s == [s[0]] + s[1..];
    TaskSetCons(s[0], s[1..]);
  }

  lemma {:induction false} ResumesMark(q: Queue, s: seq<Entry>)
    ensures Apply(q, Resumes(s)) == q.(registry := Mark(q.registry, TaskSet(s), false))
    decreases |s|
  {
    if |s| == 0 {
      assert TaskSet(s) == {};
      MarkNothing(q.registry, false);
    } else {
      var c := Resumes(s);
      assert c[0] == Resume(s[0].task) && c[1..] == Resumes(s[1..]);
      var q1 := ApplyCommand(q, c[0]);
      assert Apply(q, c) == Apply(q1, c[1..]);
      assert q1.registry == Mark(q.registry, {s[0].task}, false);
      ResumesMark(q1, s[1..]);
      MarkStep(q.registry, s, false);
    }
  }

  lemma ResumesTargets(s: seq<Entry>)
    ensures Targets(Resumes(s)) == TaskSet(s)
  {
    var r := Resumes(s);
    forall t ensures t in Targets(r) <==> t in TaskSet(s) {
      if t in Targets(r) {
        var c :| c in r && c.task == t;
        var i :| 0 <= i < |r| && r[i] == c;
        assert s[i] in s;
      }
      if t in TaskSet(s) {
        var e :| e in s && e.task == t;
        var i :| 0 <= i < |s| && s[i] == e;
        assert r[i] in r;
      }
    }
  }

  /** Answering resumes marks exactly the listed tasks running. */
  lemma ApplyResumes(q: Queue, s: seq<Entry>)
    ensures Apply(q, Resumes(s)) == q.(registry := Mark(q.registry, TaskSet(s), false))
    ensures Targets(Resumes(s)) == TaskSet(s)
  {
    ResumesMark(q, s);
    ResumesTargets(s);
  }

  lemma {:induction false} PausesMark(q: Queue, s: seq<Entry>)
    ensures Apply(q, Pauses(s)) == q.(registry := Mark(q.registry, TaskSet(s), true))
    decreases |s|
  {
    if |s| == 0 {
      assert TaskSet(s) == {};
      MarkNothing(q.registry, true);
    } else {
      var c := Pauses(s);
      assert c[0] == Pause(s[0].task) && c[1..] == Pauses(s[1..]);
      var q1 := ApplyCommand(q, c[0]);
      assert Apply(q, c) == Apply(q1, c[1..]);
      assert q1.registry == Mark(q.registry, {s[0].task}, true);
      PausesMark(q1, s[1..]);
      MarkStep(q.registry, s, true);
    }
  }

  lemma PausesTargets(s: seq<Entry>)
    ensures Targets(Pauses(s)) == TaskSet(s)
  {
    var r := Pauses(s);
    forall t ensures t in Targets(r) <==> t in TaskSet(s) {
      if t in Targets(r) {
        var c :| c in r && c.task == t;
        var i :| 0 <= i < |r| && r[i] == c;
        assert s[i] in s;
      }
      if t in TaskSet(s) {
        var e :| e in s && e.task == t;
        var i :| 0 <= i < |s| && s[i] == e;
        assert r[i] in r;
      }
    }
  }

  /** Answering pauses marks exactly the listed tasks pending. */
  lemma ApplyPauses(q: Queue, s: seq<Entry>)
    ensures Apply(q, Pauses(s)) == q.(registry := Mark(q.registry, TaskSet(s), true))
    ensures Targets(Pauses(s)) == TaskSet(s)
  {
    PausesMark(q, s);
    PausesTargets(s);
  }

  // ------------------------------------------------------------------ tick

  /** `tick(downloading)`: resume the pending patches with the least time
      left while the lane is under its ceiling, or pause the running patches
      at the front of the running list while it is over it. */
  function Tick(q: Queue, downloading: bool, ph: Phase): (r: seq<Command>)
    ensures |r| == if Ceiling(q, downloading) < |Running(q, downloading, ph)|
                   then |Running(q, downloading, ph)| - Target(q, downloading, ph)
                   else Target(q, downloading, ph) - |Running(q, downloading, ph)|
    ensures AddressesLane(r, q.registry, downloading, ph)
  {
    var run, pend := Running(q, downloading, ph), Pending(q, downloading, ph);
    FetchInLane(q.registry, true, downloading, ph);
    FetchInLane(q.registry, false, downloading, ph);
    DecideAddressesLane(run, pend, Ceiling(q, downloading), q.registry, downloading, ph);
    Decide(run, pend, Ceiling(q, downloading))
  }

  /** Every command is for a registered patch of lane `d`. */
  predicate AddressesLane(cmds: seq<Command>, reg: seq<Entry>, d: bool, ph: Phase) {
    forall i :: 0 <= i < |cmds| ==> cmds[i].task in TaskSet(reg) && ph(cmds[i].task) == d
  }

  lemma DecideAddressesLane(run: seq<Entry>, pend: seq<Entry>, c: nat, reg: seq<Entry>, d: bool, ph: Phase)
    requires forall i :: 0 <= i < |run| ==> run[i].task in TaskSet(reg) && ph(run[i].task) == d
    requires forall i :: 0 <= i < |pend| ==> pend[i].task in TaskSet(reg) && ph(pend[i].task) == d
    ensures AddressesLane(Decide(run, pend, c), reg, d, ph)
  {
    var r := Decide(run, pend, c);
    assert forall i :: 0 <= i < |r| ==> r[i].task == (if c < |run| then run[i] else pend[i]).task;
  }

  /** The decision of `tick` from the running list, the pending list and the
      lane's ceiling: as many commands as the running count is away from its
      target, pausing the front of the running list when over the ceiling,
      resuming the front of the pending list otherwise. */
  function Decide(running: seq<Entry>, pending: seq<Entry>, ceiling: nat): (r: seq<Command>)
    ensures var target := Settle(|running|, |pending|, ceiling);
      |r| == if ceiling < |running| then |running| - target else target - |running|
    ensures ceiling < |running| ==> forall i :: 0 <= i < |r| ==> r[i] == Pause(running[i].task)
    ensures ceiling >= |running| ==> forall i :: 0 <= i < |r| ==> r[i] == Resume(pending[i].task)
  {
    var slack := ceiling - |running|;
    if slack > 0 then Resumes(pending[..Min(slack, |pending|)])
    else if slack < 0 then Pauses(running[..-slack])
    else []
  }

  /** `tick()` without a lane: the extraction lane, then the download lane,
      both decided on the queue as it stands. */
  function TickAll(q: Queue, ph: Phase): (r: seq<Command>)
    ensures forall i :: 0 <= i < |r| ==> r[i].task in TaskSet(q.registry)
    ensures forall i, j :: 0 <= i < j < |r| && !ph(r[j].task) ==> !ph(r[i].task)
  {
    var a, b := Tick(q, false, ph), Tick(q, true, ph);
    ExtractionsFirst(a, b, q.registry, ph);
    a + b
  }

  /** Extraction commands followed by download commands: all registered, and
      no extraction command after a download command. */
  lemma ExtractionsFirst(a: seq<Command>, b: seq<Command>, reg: seq<Entry>, ph: Phase)
    requires AddressesLane(a, reg, false, ph) && AddressesLane(b, reg, true, ph)
    ensures var r := a + b;
      && (forall i :: 0 <= i < |r| ==> r[i].task in TaskSet(reg))
      && (forall i, j :: 0 <= i < j < |r| && !ph(r[j].task) ==> !ph(r[i].task))
  {
    var r := a + b;
    assert forall j :: 0 <= j < |a| ==> r[j] == a[j];
    assert forall j :: |a| <= j < |r| ==> r[j] == b[j - |a|];
  }

  /** The running count a lane reaches once its tick's commands are answered. */
  function Target(q: Queue, downloading: bool, ph: Phase): nat {
    Settle(|Running(q, downloading, ph)|, |Pending(q, downloading, ph)|, Ceiling(q, downloading))
  }

  /** A lane with `run` running and `pend` pending patches under ceiling `c`
      fills up to `c` from the pending ones, or is paused down to `c`. */
  function Settle(run: nat, pend: nat, c: nat): nat {
    if run <= c then Min(c, run + pend) else c
  }

  /** Every member of a prefix of a lane's list belongs to that lane. */
  lemma PrefixInLane(s: seq<Entry>, k: nat, d: bool, ph: Phase)
    requires k <= |s|
    requires forall x :: x in s ==> ph(x.task) == d
    ensures forall t :: t in TaskSet(s[..k]) ==> ph(t) == d
  {
    forall t | t in TaskSet(s[..k]) ensures ph(t) == d {
      var x :| x in s[..k] && x.task == t;
      assert x in s;
    }
  }

  /** Under its ceiling, a lane's tick resumes the front of the pending list. */
  lemma TickUnder(q: Queue, d: bool, ph: Phase)
    requires Ceiling(q, d) >= |Running(q, d, ph)|
    ensures var pend := Pending(q, d, ph);
      var k := Min(Ceiling(q, d) - |Running(q, d, ph)|, |pend|);
      && Apply(q, Tick(q, d, ph)) == q.(registry := Mark(q.registry, TaskSet(pend[..k]), false))
      && Targets(Tick(q, d, ph)) == TaskSet(pend[..k])
      && (forall t :: t in TaskSet(pend[..k]) ==> ph(t) == d)
  {
    var pend := Pending(q, d, ph);
    var k := Min(Ceiling(q, d) - |Running(q, d, ph)|, |pend|);
    if Ceiling(q, d) > |Running(q, d, ph)| {
      assert Tick(q, d, ph) == Resumes(pend[..k]);
    } else {
      assert Tick(q, d, ph) == [] == Resumes(pend[..k]);
    }
    ApplyResumes(q, pend[..k]);
    PrefixInLane(pend, k, d, ph);
  }

  /** Over its ceiling, a lane's tick pauses the front of the running list. */
  lemma TickOver(q: Queue, d: bool, ph: Phase)
    requires Ceiling(q, d) < |Running(q, d, ph)|
    ensures var run := Running(q, d, ph);
      var k := |run| - Ceiling(q, d);
      && Apply(q, Tick(q, d, ph)) == q.(registry := Mark(q.registry, TaskSet(run[..k]), true))
      && Targets(Tick(q, d, ph)) == TaskSet(run[..k])
      && (forall t :: t in TaskSet(run[..k]) ==> ph(t) == d)
  {
    var run := Running(q, d, ph);
    var k := |run| - Ceiling(q, d);
    assert Tick(q, d, ph) == Pauses(run[..k]);
    ApplyPauses(q, run[..k]);
    PrefixInLane(run, k, d, ph);
  }

  /** What answering a tick does: one `queued` flag per addressed patch, all
      in the ticked lane. */
  lemma TickApply(q: Queue, d: bool, ph: Phase)
    ensures var over := Ceiling(q, d) < |Running(q, d, ph)|;
      var cmds := Tick(q, d, ph);
      && Apply(q, cmds) == q.(registry := Mark(q.registry, Targets(cmds), over))
      && (forall t :: t in Targets(cmds) ==> ph(t) == d)
  {
    if Ceiling(q, d) < |Running(q, d, ph)| {
      TickOver(q, d, ph);
    } else {
      TickUnder(q, d, ph);
    }
  }

  /** The running count of the ticked lane once the tick is answered: the
      pending patches fill the lane up to its ceiling, or the excess is paused
      down to it. */
  lemma TickSettles(q: Queue, d: bool, ph: Phase)
    requires Wf(q)
    ensures |Running(Apply(q, Tick(q, d, ph)), d, ph)| == Target(q, d, ph)
  {
    if Ceiling(q, d) < |Running(q, d, ph)| {
      TickOverSettles(q, d, ph);
    } else {
      TickUnderSettles(q, d, ph);
    }
  }

  lemma TickUnderSettles(q: Queue, d: bool, ph: Phase)
    requires Wf(q) && Ceiling(q, d) >= |Running(q, d, ph)|
    ensures |Running(Apply(q, Tick(q, d, ph)), d, ph)| == Target(q, d, ph)
  {
    var pend := Pending(q, d, ph);
    var k := Min(Ceiling(q, d) - |Running(q, d, ph)|, |pend|);
    TickUnder(q, d, ph);
    assert Apply(q, Tick(q, d, ph)).registry == Mark(q.registry, TaskSet(pend[..k]), false);
    ResumePrefix(q.registry, d, ph, k);
  }

  lemma TickOverSettles(q: Queue, d: bool, ph: Phase)
    requires Wf(q) && Ceiling(q, d) < |Running(q, d, ph)|
    ensures |Running(Apply(q, Tick(q, d, ph)), d, ph)| == Target(q, d, ph)
  {
    var run := Running(q, d, ph);
    var k := |run| - Ceiling(q, d);
    TickOver(q, d, ph);
    assert Apply(q, Tick(q, d, ph)).registry == Mark(q.registry, TaskSet(run[..k]), true);
    PausePrefix(q.registry, d, ph, k);
  }

  /** A tick addresses only patches of its lane, so it leaves the other lane's
      running and pending lists as they were. */
  lemma TickOtherLane(q: Queue, d: bool, other: bool, ph: Phase)
    requires other != d
    ensures Running(Apply(q, Tick(q, d, ph)), other, ph) == Running(q, other, ph)
    ensures Pending(Apply(q, Tick(q, d, ph)), other, ph) == Pending(q, other, ph)
  {
    var run := Running(q, d, ph);
    var T := Targets(Tick(q, d, ph));
    TickApply(q, d, ph);
    MarkOtherLane(q.registry, T, Ceiling(q, d) < |run|, true, other, ph);
    MarkOtherLane(q.registry, T, Ceiling(q, d) < |run|, false, other, ph);
  }

  lemma ApplyKeepsWf(q: Queue, tasks: set<TaskId>, queued: bool)
    requires Wf(q)
    ensures Wf(q.(registry := Mark(q.registry, tasks, queued)))
  {
    MarkUnique(q.registry, tasks, queued);
  }

  /** Answering the extraction lane's tick does not change the download
      lane's tick. */
  lemma TickAllSplit(q: Queue, ph: Phase)
    requires Wf(q)
    ensures var qa := Apply(q, Tick(q, false, ph));
      && Wf(qa)
      && qa == q.(registry := qa.registry)
      && Apply(q, TickAll(q, ph)) == Apply(qa, Tick(qa, true, ph))
      && Running(qa, true, ph) == Running(q, true, ph)
      && Pending(qa, true, ph) == Pending(q, true, ph)
  {
    var a := Tick(q, false, ph);
    var qa := Apply(q, a);
    TickApply(q, false, ph);
    ApplyKeepsWf(q, Targets(a), Ceiling(q, false) < |Running(q, false, ph)|);
    TickOtherLane(q, false, true, ph);
    assert Tick(qa, true, ph) == Tick(q, true, ph);
    ApplyConcat(q, a, Tick(q, true, ph));
  }

  /** `tick()` settles both lanes: once its commands are answered, each lane
      runs its target count. */
  lemma TickAllSettles(q: Queue, ph: Phase)
    requires Wf(q)
    ensures |Running(Apply(q, TickAll(q, ph)), false, ph)| == Target(q, false, ph)
    ensures |Running(Apply(q, TickAll(q, ph)), true, ph)| == Target(q, true, ph)
  {
    TickAllExtractions(q, ph);
    TickAllDownloads(q, ph);
  }

  lemma TickAllExtractions(q: Queue, ph: Phase)
    requires Wf(q)
    ensures |Running(Apply(q, TickAll(q, ph)), false, ph)| == Target(q, false, ph)
  {
    TickAllSplit(q, ph);
    TickSettles(q, false, ph);
    var qa := Apply(q, Tick(q, false, ph));
    TickOtherLane(qa, true, false, ph);
  }

  lemma TickAllDownloads(q: Queue, ph: Phase)
    requires Wf(q)
    ensures |Running(Apply(q, TickAll(q, ph)), true, ph)| == Target(q, true, ph)
  {
    TickAllSplit(q, ph);
    var qa := Apply(q, Tick(q, false, ph));
    TickSettles(qa, true, ph);
    assert Ceiling(qa, true) == Ceiling(q, true);
  }

  /** The patches a tick resumes are pending ones with the least time left,
      and the patches it pauses are running ones with the least time left. */
  lemma TickPrefersSoonest(q: Queue, d: bool, ph: Phase)
    requires Wf(q)
    ensures var run := Running(q, d, ph);
      var pend := Pending(q, d, ph);
      var chosen := Targets(Tick(q, d, ph));
      var from := if Ceiling(q, d) < |run| then run else pend;
      && chosen <= TaskSet(from)
      && forall e, f :: e in from && f in from && e.task in chosen && f.task !in chosen ==> KeyLe(KeyOf(e), KeyOf(f))
  {
    var run := Running(q, d, ph);
    var pend := Pending(q, d, ph);
    if Ceiling(q, d) < |run| {
      TickOver(q, d, ph);
      FetchCard(q.registry, true, OnlyLane(d), ph);
      CardUnique(run);
      PrefixCard(run, |run| - Ceiling(q, d));
      PrefixLeast(run, |run| - Ceiling(q, d));
    } else {
      var k := Min(Ceiling(q, d) - |run|, |pend|);
      TickUnder(q, d, ph);
      FetchCard(q.registry, false, OnlyLane(d), ph);
      CardUnique(pend);
      PrefixCard(pend, k);
      PrefixLeast(pend, k);
    }
  }

  // ---------------------------------------------------------------- manage

  /** What `manage` returns besides the queue: the new record, or none for a
      finished patch, and the commands sent. */
  datatype ManageStep = ManageStep(q: Queue, state: Option<TaskState>, cmds: seq<Command>)

  /** `manage(patch)`: a finished patch is refused; otherwise the patch gets a
      fresh record, queued when its lane is already at its ceiling, and is
      paused right away if queued. */
  function Manage(q: Queue, t: TaskId, finished: bool, ph: Phase): (r: ManageStep)
    ensures finished ==> r == ManageStep(q, None, [])
    ensures !finished ==>
      && r.state.Some? && r.state.value.managed && r.state.value.timeLeft == PosInfinity
      && (r.state.value.queued <==> |Running(q, ph(t), ph)| >= Ceiling(q, ph(t)))
      && (r.cmds == [Pause(t)] <==> r.state.value.queued)
      && (r.cmds == [] <==> !r.state.value.queued)
      && Lookup(r.q.registry, t) == Some(Entry(t, q.nextGen, r.state.value))
      && TaskSet(r.q.registry) == TaskSet(q.registry) + {t}
      && Current(r.q, Binding(t, q.nextGen))
      && r.q.retired == q.retired
      && (forall x :: x in q.registry && x.task != t ==> x in r.q.registry)
      && (UniqueTasks(q.registry) ==>
            forall x :: x in r.q.registry ==> x == Entry(t, q.nextGen, r.state.value) || (x in q.registry && x.task != t))
  {
    if finished then ManageStep(q, None, [])
    else
      var d := ph(t);
      var st := TaskState(|Running(q, d, ph)| >= Ceiling(q, d), PosInfinity, true);
      var e := Entry(t, q.nextGen, st);
      LookupPut(q.registry, e);
      assert UniqueTasks(q.registry) ==> forall x :: x in Put(q.registry, e) ==> x == e || (x in q.registry && x.task != t) by {
        if UniqueTasks(q.registry) { PutUnique(q.registry, e); }
      }
      var q1 := q.(registry := Put(q.registry, e), nextGen := q.nextGen + 1,
                   bound := q.bound + {Binding(t, q.nextGen)});
      ManageStep(q1, Some(st), if st.queued then [Pause(t)] else [])
  }

  lemma ManageKeepsWf(q: Queue, t: TaskId, finished: bool, ph: Phase)
    requires Wf(q)
    ensures var q1 := Manage(q, t, finished, ph).q;
      && Wf(q1)
      && (!finished ==> Live(q1, Binding(t, q.nextGen)))
      && q1 == q.(registry := q1.registry, nextGen := q1.nextGen, bound := q1.bound)
  {
    if !finished {
      var r := Manage(q, t, finished, ph);
      var e := Entry(t, q.nextGen, r.state.value);
      assert r.q.registry == Put(q.registry, e);
      assert r.q.bound == q.bound + {BindingOf(e)};
      PutUnique(q.registry, e);
      assert BindingOf(e) !in q.retired;
      forall i | 0 <= i < |r.q.registry|
        ensures BindingOf(r.q.registry[i]) in r.q.bound - r.q.retired
      {
        var x := r.q.registry[i];
        assert x in r.q.registry;
        if x != e {
          var j := IndexOfEntry(q.registry, x);
          assert BindingOf(q.registry[j]) in q.bound - q.retired;
        }
      }
    }
  }

  /** A newly managed patch adds one to its lane's running count when the lane
      is under its ceiling and one to its pending count otherwise; the other
      lane is untouched. */
  lemma ManageCounts(q: Queue, t: TaskId, ph: Phase)
    requires Wf(q) && t !in TaskSet(q.registry)
    ensures var r := Manage(q, t, false, ph);
      var d := ph(t);
      var queued := |Running(q, d, ph)| >= Ceiling(q, d);
      && |Running(r.q, d, ph)| == |Running(q, d, ph)| + (if queued then 0 else 1)
      && |Pending(r.q, d, ph)| == |Pending(q, d, ph)| + (if queued then 1 else 0)
      && Running(r.q, !d, ph) == Running(q, !d, ph)
      && Pending(r.q, !d, ph) == Pending(q, !d, ph)
  {
    var r := Manage(q, t, false, ph);
    var e := Entry(t, q.nextGen, r.state.value);
    assert r.q.registry == q.registry + [e];
    ManageSelect(q.registry, e, true, ph(t), ph);
    ManageSelect(q.registry, e, false, ph(t), ph);
    ManageSelect(q.registry, e, true, !ph(t), ph);
    ManageSelect(q.registry, e, false, !ph(t), ph);
  }

  lemma ManageSelect(reg: seq<Entry>, e: Entry, running: bool, d: bool, ph: Phase)
    ensures |Fetch(reg + [e], running, OnlyLane(d), ph)|
         == |Fetch(reg, running, OnlyLane(d), ph)| + (if Selected(e, running, OnlyLane(d), ph) then 1 else 0)
    ensures !Selected(e, running, OnlyLane(d), ph) ==>
      Fetch(reg + [e], running, OnlyLane(d), ph) == Fetch(reg, running, OnlyLane(d), ph)
  {
    SelectAppend(reg, e, running, OnlyLane(d), ph);
    var sel := Select(reg, running, OnlyLane(d), ph);
    assert sel + [] == sel;
  }

  /** `ts` are distinct patches of lane `d`, none of them among `known`. */
  predicate FreshLane(ts: seq<TaskId>, known: set<TaskId>, d: bool, ph: Phase) {
    && (forall i :: 0 <= i < |ts| ==> ph(ts[i]) == d && ts[i] !in known)
    && (forall i, j :: 0 <= i < j < |ts| ==> ts[i] != ts[j])
  }

  /** `manage` called for each patch in turn, none of them finished. */
  function ManageAll(q: Queue, ts: seq<TaskId>, ph: Phase): Queue
    decreases |ts|
  {
    if |ts| == 0 then q else ManageAll(Manage(q, ts[0], false, ph).q, ts[1..], ph)
  }

  /** Managing `n` new patches of one lane fills the lane up to its ceiling
      and queues the rest. */
  lemma {:induction false} ManageFillsLane(q: Queue, ts: seq<TaskId>, d: bool, ph: Phase)
    requires Wf(q)
    requires FreshLane(ts, TaskSet(q.registry), d, ph)
    ensures var after := ManageAll(q, ts, ph);
      var run := |Running(q, d, ph)|;
      var c := Ceiling(q, d);
      && Wf(after)
      && Ceiling(after, d) == c
      && |Running(after, d, ph)| == (if run <= c then Min(c, run + |ts|) else run)
      && |Running(after, d, ph)| + |Pending(after, d, ph)| == run + |Pending(q, d, ph)| + |ts|
    decreases |ts|
  {
    if |ts| > 0 {
      var q1 := Manage(q, ts[0], false, ph).q;
      ManageFirst(q, ts, d, ph);
      ManageFillsLane(q1, ts[1..], d, ph);
      assert ManageAll(q, ts, ph) == ManageAll(q1, ts[1..], ph);
    }
  }

  /** The first step of `ManageAll`, in the terms `ManageFillsLane` needs. */
  lemma ManageFirst(q: Queue, ts: seq<TaskId>, d: bool, ph: Phase)
    requires Wf(q) && |ts| > 0
    requires FreshLane(ts, TaskSet(q.registry), d, ph)
    ensures var q1 := Manage(q, ts[0], false, ph).q;
      var run := |Running(q, d, ph)|;
      var c := Ceiling(q, d);
      && Wf(q1)
      && Ceiling(q1, d) == c
      && |Running(q1, d, ph)| + |Pending(q1, d, ph)| == run + |Pending(q, d, ph)| + 1
      && |Running(q1, d, ph)| == (if run >= c then run else run + 1)
      && FreshLane(ts[1..], TaskSet(q1.registry), d, ph)
  {
    var t := ts[0];
    assert ph(ts[0]) == d && ts[0] !in TaskSet(q.registry);
    var q1 := Manage(q, t, false, ph).q;
    ManageKeepsWf(q, t, false, ph);
    ManageCountsIn(q, t, ph);
    FreshTail(ts, TaskSet(q.registry), TaskSet(q1.registry), d, ph);
  }

  /** `ManageCounts` for the patch's own lane only. */
  lemma ManageCountsIn(q: Queue, t: TaskId, ph: Phase)
    requires Wf(q) && t !in TaskSet(q.registry)
    ensures var q1 := Manage(q, t, false, ph).q;
      var run := |Running(q, ph(t), ph)|;
      var c := Ceiling(q, ph(t));
      && Ceiling(q1, ph(t)) == c
      && |Running(q1, ph(t), ph)| + |Pending(q1, ph(t), ph)| == run + |Pending(q, ph(t), ph)| + 1
      && |Running(q1, ph(t), ph)| == (if run >= c then run else run + 1)
  {
    ManageCounts(q, t, ph);
  }

  lemma FreshTail(ts: seq<TaskId>, before: set<TaskId>, after: set<TaskId>, d: bool, ph: Phase)
    requires |ts| > 0 && after == before + {ts[0]}
    requires FreshLane(ts, before, d, ph)
    ensures FreshLane(ts[1..], after, d, ph)
  {
    var rest := ts[1..];
    forall i | 0 <= i < |rest|
      ensures ph(rest[i]) == d && rest[i] !in after
    {
      assert rest[i] == ts[i + 1];
      assert ts[i + 1] != ts[0];
    }
    forall i, j | 0 <= i < j < |rest|
      ensures rest[i] != rest[j]
    {
      assert rest[i] == ts[i + 1] && rest[j] == ts[j + 1];
    }
  }

  /** Five downloads handed to a fresh queue: three run, two wait. */
  lemma FiveDownloads()
    ensures var after := ManageAll(Initial(), [1, 2, 3, 4, 5], t => true);
      |Running(after, true, t => true)| == 3 && |Pending(after, true, t => true)| == 2
  {
    var ph: Phase := t => true;
    var ts := [1, 2, 3, 4, 5];
    assert |Running(Initial(), true, ph)| == 0 && |Pending(Initial(), true, ph)| == 0;
    assert FreshLane(ts, TaskSet(Initial().registry), true, ph);
    ManageFillsLane(Initial(), ts, true, ph);
  }

  // -------------------------------------------------------------- unmanage

  /** The queue part of `unmanage(patch)`: an unknown patch is ignored;
      otherwise its handlers are dropped (its binding retired) and its record
      is removed, every other record kept in order. */
  function Release(q: Queue, t: TaskId): (r: Queue)
    ensures t !in TaskSet(q.registry) ==> r == q
    ensures t in TaskSet(q.registry) ==>
      && TaskSet(r.registry) == TaskSet(q.registry) - {t}
      && (forall e :: e in r.registry <==> e in q.registry && e.task != t)
      && r.retired == q.retired + {BindingOf(Lookup(q.registry, t).value)}
      && r == q.(registry := r.registry, retired := r.retired)
  {
    match Lookup(q.registry, t)
    case None => q
    case Some(e) => q.(registry := Remove(q.registry, t), retired := q.retired + {BindingOf(e)})
  }

  /** `unmanage(patch)`: an unknown patch is ignored; otherwise the patch's
      current binding is retired, its record leaves the registry, and both
      lanes are ticked (`UnmanageSettles` states what the tick achieves). */
  function Unmanage(q: Queue, t: TaskId, ph: Phase): (r: QStep)
    ensures t !in TaskSet(q.registry) ==> r == QStep(q, [])
    ensures t in TaskSet(q.registry) ==>
      && TaskSet(r.q.registry) == TaskSet(q.registry) - {t}
      && (forall e :: e in r.q.registry <==> e in q.registry && e.task != t)
      && r.q.retired == q.retired + {BindingOf(Lookup(q.registry, t).value)}
      && r.q == q.(registry := r.q.registry, retired := r.q.retired)
    ensures Wf(q) ==> Wf(r.q)
  {
    var q1 := Release(q, t);
    assert Wf(q) ==> Wf(q1) by {
      if Wf(q) { ReleaseKeepsWf(q, t); }
    }
    QStep(q1, if t in TaskSet(q.registry) then TickAll(q1, ph) else [])
  }

  lemma ReleaseKeepsWf(q: Queue, t: TaskId)
    requires Wf(q)
    ensures Wf(Release(q, t))
  {
    if t in TaskSet(q.registry) {
      RemoveUnique(q.registry, t);
      var r := Release(q, t);
      var gone := BindingOf(Lookup(q.registry, t).value);
      assert r.retired == q.retired + {gone} && gone.task == t;
      forall i | 0 <= i < |r.registry|
        ensures BindingOf(r.registry[i]) in r.bound - r.retired
      {
        var x := r.registry[i];
        assert x in r.registry;
        assert x in q.registry && x.task != t;
        var j := IndexOfEntry(q.registry, x);
        assert BindingOf(q.registry[j]) in q.bound - q.retired;
      }
    }
  }

  /** Unmanaging a registered patch settles both lanes without it. */
  lemma UnmanageSettles(q: Queue, e: Entry, ph: Phase)
    requires Wf(q) && e in q.registry
    ensures var r := Unmanage(q, e.task, ph);
      var q1 := q.(registry := Remove(q.registry, e.task));
      && |Running(Apply(r.q, r.cmds), false, ph)| == Target(q1, false, ph)
      && |Running(Apply(r.q, r.cmds), true, ph)| == Target(q1, true, ph)
  {
    var r := Unmanage(q, e.task, ph);
    assert e.task in TaskSet(q.registry);
    assert r.cmds == TickAll(r.q, ph);
    TickAllSettles(r.q, ph);
    assert r.q.registry == Remove(q.registry, e.task);
  }

  // -------------------------------------------------------------- handlers

  /** An event a patch fires at the handlers of one binding; `Settled` is the
      patch's promise resolving or rejecting. */
  datatype Signal =
    | Progress(b: Binding, eta: Eta)
    | Patching(b: Binding)
    | ExtractProgress(b: Binding, eta: Eta)
    | Paused(b: Binding, byQueue: bool)
    | Resumed(b: Binding, byQueue: bool)
    | Canceled(b: Binding)
    | Settled(b: Binding)

  /** `onProgress`/`onExtractProgress`: the binding's record takes the new
      time left; a record no longer in the registry changes nothing visible. */
  function OnTimeLeft(q: Queue, b: Binding, eta: Eta): (r: Queue)
    ensures !Current(q, b) ==> r == q
    ensures Current(q, b) ==>
      && Lookup(r.registry, b.task) == Some(Lookup(q.registry, b.task).value.(st := Lookup(q.registry, b.task).value.st.(timeLeft := eta)))
      && TaskSet(r.registry) == TaskSet(q.registry)
      && r == q.(registry := r.registry)
      && (forall x :: x in q.registry && x.task != b.task ==> x in r.registry)
      && (UniqueTasks(q.registry) ==>
            forall x :: x in r.registry ==> x.task != b.task ==> x in q.registry)
  {
    if Current(q, b) then
      var e := Lookup(q.registry, b.task).value;
      var e1 := e.(st := e.st.(timeLeft := eta));
      LookupPut(q.registry, e1);
      assert UniqueTasks(q.registry) ==> forall x :: x in Put(q.registry, e1) ==> x.task != b.task ==> x in q.registry by {
        if UniqueTasks(q.registry) { PutUnique(q.registry, e1); }
      }
      q.(registry := Put(q.registry, e1))
    else q
  }

  /** `onPatching`: a patch that starts extracting sends at most a pause, to
      itself; `PatchingAdmitsLikeManage` states when. */
  function OnPatching(q: Queue, t: TaskId, ph: Phase): (cmds: seq<Command>)
    ensures cmds == [] || cmds == [Pause(t)]
  {
    if |Running(q, false, ph)| > q.maxExtractions then [Pause(t)] else []
  }

  /** `state.queued = …` from a queue-initiated pause or resume: only the
      record currently registered is visible in the registry, and of it only
      the `queued` flag changes. */
  function SetQueued(q: Queue, b: Binding, queued: bool): (r: Queue)
    ensures !Current(q, b) ==> r == q
    ensures Current(q, b) ==>
      && r == q.(registry := r.registry)
      && |r.registry| == |q.registry|
      && forall i :: 0 <= i < |q.registry| ==>
           r.registry[i] == if q.registry[i].task == b.task
                            then q.registry[i].(st := q.registry[i].st.(queued := queued))
                            else q.registry[i]
  {
    if Current(q, b) then q.(registry := Mark(q.registry, {b.task}, queued)) else q
  }

  /** A signal delivered to the handlers of its binding. Handlers of a
      binding that was unmanaged are deregistered, and its promise callbacks
      see `managed == false`, so such a signal changes nothing. A pause or
      resume not initiated by the queue, a cancel and a settled promise all
      unmanage the patch. */
  function Handle(q: Queue, s: Signal, ph: Phase): (r: QStep)
    ensures !Live(q, s.b) ==> r == QStep(q, [])
    ensures Live(q, s.b) && (s.Canceled? || s.Settled? || ((s.Paused? || s.Resumed?) && !s.byQueue))
      ==> r == Unmanage(q, s.b.task, ph)
    ensures Live(q, s.b) && (s.Paused? || s.Resumed?) && s.byQueue ==> r == QStep(SetQueued(q, s.b, s.Paused?), [])
  {
    if !Live(q, s.b) then QStep(q, [])
    else
      match s
      case Progress(b, eta) => QStep(OnTimeLeft(q, b, eta), [])
      case ExtractProgress(b, eta) => QStep(OnTimeLeft(q, b, eta), [])
      case Patching(b) => QStep(q, OnPatching(q, b.task, ph))
      case Paused(b, byQueue) => if byQueue then QStep(SetQueued(q, b, true), []) else Unmanage(q, b.task, ph)
      case Resumed(b, byQueue) => if byQueue then QStep(SetQueued(q, b, false), []) else Unmanage(q, b.task, ph)
      case Canceled(b) => Unmanage(q, b.task, ph)
      case Settled(b) => Unmanage(q, b.task, ph)
  }

  lemma HandleKeepsWf(q: Queue, s: Signal, ph: Phase)
    requires Wf(q)
    ensures Wf(Handle(q, s, ph).q)
  {
    if Live(q, s.b) {
      match s
      case Progress(b, eta) => TimeLeftKeepsWf(q, b, eta);
      case ExtractProgress(b, eta) => TimeLeftKeepsWf(q, b, eta);
      case Patching(_) =>
      case Paused(b, byQueue) =>
        if byQueue {
          assert Handle(q, s, ph).q == SetQueued(q, b, true);
          SetQueuedKeepsWf(q, b, true);
        } else {
          assert Handle(q, s, ph) == Unmanage(q, b.task, ph);
        }
      case Resumed(b, byQueue) =>
        if byQueue {
          assert Handle(q, s, ph).q == SetQueued(q, b, false);
          SetQueuedKeepsWf(q, b, false);
        } else {
          assert Handle(q, s, ph) == Unmanage(q, b.task, ph);
        }
      case Canceled(b) => assert Handle(q, s, ph) == Unmanage(q, b.task, ph);
      case Settled(b) => assert Handle(q, s, ph) == Unmanage(q, b.task, ph);
    }
  }

  lemma SetQueuedKeepsWf(q: Queue, b: Binding, queued: bool)
    requires Wf(q)
    ensures Wf(SetQueued(q, b, queued))
  {
    if Current(q, b) {
      MarkUnique(q.registry, {b.task}, queued);
      var r := SetQueued(q, b, queued);
      assert r.registry == Mark(q.registry, {b.task}, queued);
      assert forall i :: 0 <= i < |r.registry| ==> BindingOf(r.registry[i]) == BindingOf(q.registry[i]);
    }
  }

  lemma TimeLeftKeepsWf(q: Queue, b: Binding, eta: Eta)
    requires Wf(q)
    ensures Wf(OnTimeLeft(q, b, eta))
  {
    if Current(q, b) {
      var e := Lookup(q.registry, b.task).value;
      PutUnique(q.registry, e.(st := e.st.(timeLeft := eta)));
    }
  }

  /** The queue's own commands are answered exactly as the patch's
      queue-initiated paused/resumed events would be handled. */
  lemma ApplyIsHandling(q: Queue, e: Entry, ph: Phase)
    requires Wf(q) && e in q.registry
    ensures ApplyCommand(q, Pause(e.task)) == Handle(q, Paused(BindingOf(e), true), ph).q
    ensures ApplyCommand(q, Resume(e.task)) == Handle(q, Resumed(BindingOf(e), true), ph).q
    ensures Handle(q, Paused(BindingOf(e), true), ph).cmds == []
    ensures Handle(q, Resumed(BindingOf(e), true), ph).cmds == []
  {
    RegisteredIsCurrent(q, e);
    PausedByQueue(q, BindingOf(e), ph);
    ResumedByQueue(q, BindingOf(e), ph);
  }

  lemma PausedByQueue(q: Queue, b: Binding, ph: Phase)
    requires Live(q, b) && Current(q, b)
    ensures Handle(q, Paused(b, true), ph) == QStep(q.(registry := Mark(q.registry, {b.task}, true)), [])
  {
    assert SetQueued(q, b, true) == q.(registry := Mark(q.registry, {b.task}, true));
  }

  lemma ResumedByQueue(q: Queue, b: Binding, ph: Phase)
    requires Live(q, b) && Current(q, b)
    ensures Handle(q, Resumed(b, true), ph) == QStep(q.(registry := Mark(q.registry, {b.task}, false)), [])
  {
    assert SetQueued(q, b, false) == q.(registry := Mark(q.registry, {b.task}, false));
  }

  /** The binding of a registered record is live and current. */
  lemma RegisteredIsCurrent(q: Queue, e: Entry)
    requires Wf(q) && e in q.registry
    ensures Live(q, BindingOf(e)) && Current(q, BindingOf(e))
    ensures Lookup(q.registry, e.task) == Some(e)
  {
    LookupUnique(q.registry, e);
    assert e == q.registry[IndexOfEntry(q.registry, e)];
  }

  function IndexOfEntry(s: seq<Entry>, e: Entry): (i: nat)
    requires e in s
    ensures i < |s| && s[i] == e
  {
    if s[0] == e then 0 else 1 + IndexOfEntry(s[1..], e)
  }

  /** A new time-left estimate reorders the lists but changes no count. */
  lemma ProgressKeepsCounts(q: Queue, b: Binding, eta: Eta, d: bool, ph: Phase)
    requires Wf(q)
    ensures var r := Handle(q, Progress(b, eta), ph).q;
      && |Running(r, d, ph)| == |Running(q, d, ph)|
      && |Pending(r, d, ph)| == |Pending(q, d, ph)|
      && TaskSet(r.registry) == TaskSet(q.registry)
  {
    if Live(q, b) && Current(q, b) {
      var e := Lookup(q.registry, b.task).value;
      var e1 := e.(st := e.st.(timeLeft := eta));
      PutKeepsSelection(q.registry, e1, true, OnlyLane(d), ph);
      PutKeepsSelection(q.registry, e1, false, OnlyLane(d), ph);
    }
  }

  /** A running extraction is paused on `onPatching` exactly when `manage`
      would have queued it, had it arrived now: the `>` in the source counts
      the patch itself, `manage`'s `>=` does not. */
  lemma PatchingAdmitsLikeManage(q: Queue, e: Entry, ph: Phase)
    requires Wf(q) && e in q.registry && !e.st.queued && !ph(e.task)
    ensures var cmds := Handle(q, Patching(BindingOf(e)), ph).cmds;
      var without := q.(registry := Remove(q.registry, e.task));
      && (cmds == [] || cmds == [Pause(e.task)])
      && (cmds == [Pause(e.task)] <==> Manage(without, e.task, false, ph).state.value.queued)
  {
    SelectRemove(q.registry, e, true, OnlyLane(false), ph);
    assert q.registry[IndexOfEntry(q.registry, e)] == e;
  }

  /** A pause the queue did not ask for takes the patch out of the queue for
      good: its record is gone and every later event of that binding, even a
      resume, is ignored. */
  lemma ExternalPauseReleases(q: Queue, e: Entry, later: Signal, ph: Phase)
    requires Wf(q) && e in q.registry && later.b == BindingOf(e)
    ensures var r := Handle(q, Paused(BindingOf(e), false), ph);
      && e.task !in TaskSet(r.q.registry)
      && Handle(r.q, later, ph) == QStep(r.q, [])
  {
    LookupUnique(q.registry, e);
    assert q.registry[IndexOfEntry(q.registry, e)] == e;
  }

  /** Once a patch is unmanaged, a late completion of that binding does
      nothing, even after the same patch is managed again: the new record
      stays registered. */
  lemma CompletionAfterUnmanage(q: Queue, e: Entry, ph: Phase)
    requires Wf(q) && e in q.registry
    ensures var u := Unmanage(q, e.task, ph).q;
      var m := Manage(u, e.task, false, ph).q;
      && Handle(u, Settled(BindingOf(e)), ph) == QStep(u, [])
      && Handle(m, Settled(BindingOf(e)), ph) == QStep(m, [])
      && Current(m, Binding(e.task, q.nextGen))
  {
    LookupUnique(q.registry, e);
    assert q.registry[IndexOfEntry(q.registry, e)] == e;
  }

  /** `manage` does not unmanage a record it replaces: the replaced binding
      stays live, and its promise settling later unmanages the new record. */
  lemma RemanageLeavesOldBindingLive(q: Queue, e: Entry, ph: Phase)
    requires Wf(q) && e in q.registry
    ensures var m := Manage(q, e.task, false, ph).q;
      && Live(m, BindingOf(e))
      && e.task !in TaskSet(Handle(m, Settled(BindingOf(e)), ph).q.registry)
  {
    assert q.registry[IndexOfEntry(q.registry, e)] == e;
  }

  // ----------------------------------------------------------------- reset

  /** The registry's patches in iteration order. */
  function Tasks(reg: seq<Entry>): (ts: seq<TaskId>)
    ensures |ts| == |reg|
    ensures forall i :: 0 <= i < |reg| ==> ts[i] == reg[i].task
  {
    if |reg| == 0 then [] else [reg[0].task] + Tasks(reg[1..])
  }

  /** `unmanage` for each patch in turn, collecting the commands. */
  function UnmanageEach(q: Queue, ts: seq<TaskId>, ph: Phase): QStep
    decreases |ts|
  {
    if |ts| == 0 then QStep(q, [])
    else
      var u := Unmanage(q, ts[0], ph);
      var rest := UnmanageEach(u.q, ts[1..], ph);
      QStep(rest.q, u.cmds + rest.cmds)
  }

  /** The `stop()` or `cancel()` that `reset` sends each patch, in order. */
  function Finalize(ts: seq<TaskId>, cancel: bool): seq<Command>
  {
    if |ts| == 0 then []
    else [if cancel then CancelTask(ts[0]) else StopTask(ts[0])] + Finalize(ts[1..], cancel)
  }

  /** `reset(cancel)`: every patch is unmanaged, the fast profile and idle
      setter flags are restored, the registry is cleared, and every patch
      that was managed is stopped, or cancelled when `cancel` is set. */
  function Reset(q: Queue, cancel: bool, ph: Phase): (r: QStep)
    ensures |r.q.registry| == 0
    ensures r.q.maxDownloads == FastProfile.downloads && r.q.maxExtractions == FastProfile.extractions
    ensures !r.q.settingDownloads && !r.q.settingExtractions
    ensures r.q.deferred == q.deferred
    ensures |r.cmds| >= |q.registry|
    ensures forall i :: 0 <= i < |q.registry| ==>
      r.cmds[|r.cmds| - |q.registry| + i] == (if cancel then CancelTask(q.registry[i].task) else StopTask(q.registry[i].task))
  {
    var ts := Tasks(q.registry);
    var u := UnmanageEach(q, ts, ph);
    UnmanageEachKeeps(q, ts, ph);
    FinalizeShape(ts, cancel);
    var q1 := u.q.(registry := [], maxDownloads := FastProfile.downloads, maxExtractions := FastProfile.extractions,
                   settingDownloads := false, settingExtractions := false);
    QStep(q1, u.cmds + Finalize(ts, cancel))
  }

  lemma {:induction false} FinalizeShape(ts: seq<TaskId>, cancel: bool)
    ensures |Finalize(ts, cancel)| == |ts|
    ensures forall i :: 0 <= i < |ts| ==> Finalize(ts, cancel)[i] == (if cancel then CancelTask(ts[i]) else StopTask(ts[i]))
  {
    if |ts| > 0 {
      FinalizeShape(ts[1..], cancel);
    }
  }

  /** Unmanaging patches one after another changes only the registry and the
      set of retired bindings, which only grows. */
  lemma {:induction false} UnmanageEachKeeps(q: Queue, ts: seq<TaskId>, ph: Phase)
    ensures var r := UnmanageEach(q, ts, ph).q;
      r == q.(registry := r.registry, retired := r.retired) && q.retired <= r.retired
    decreases |ts|
  {
    if |ts| > 0 {
      UnmanageEachKeeps(Unmanage(q, ts[0], ph).q, ts[1..], ph);
    }
  }

  /** Unmanaging the listed patches retires the binding of each of them. */
  lemma {:induction false} UnmanageEachRetires(q: Queue, ts: seq<TaskId>, ph: Phase)
    requires Wf(q)
    ensures var r := UnmanageEach(q, ts, ph).q;
      && Wf(r)
      && forall e :: e in q.registry && e.task in ts ==> BindingOf(e) in r.retired
    decreases |ts|
  {
    if |ts| > 0 {
      var u := Unmanage(q, ts[0], ph).q;
      var r := UnmanageEach(q, ts, ph).q;
      UnmanageEachRetires(u, ts[1..], ph);
      UnmanageEachKeeps(u, ts[1..], ph);
      forall e | e in q.registry && e.task in ts
        ensures BindingOf(e) in r.retired
      {
        if e.task == ts[0] {
          LookupUnique(q.registry, e);
        } else {
          assert e in u.registry;
          assert e.task in ts[1..];
        }
      }
    }
  }

  /** After `reset`, no event of a registered patch's binding reaches the
      queue: the binding of every registered record is retired. A binding
      whose record a later `manage` replaced is not among them
      (`ResetLeavesReplacedBindingLive`). */
  lemma ResetRetiresAll(q: Queue, cancel: bool, ph: Phase)
    requires Wf(q)
    ensures var r := Reset(q, cancel, ph);
      && Wf(r.q)
      && forall e, s: Signal :: e in q.registry && s.b == BindingOf(e) ==> Handle(r.q, s, ph) == QStep(r.q, [])
  {
    var ts := Tasks(q.registry);
    UnmanageEachRetires(q, ts, ph);
    UnmanageEachKeeps(q, ts, ph);
    forall e | e in q.registry ensures e.task in ts {
      assert q.registry[IndexOfEntry(q.registry, e)] == e;
    }
  }

  /** The bindings of a registry's records. */
  function Bindings(reg: seq<Entry>): set<Binding> {
    set e | e in reg :: BindingOf(e)
  }

  /** Unmanaging patches in turn retires nothing but bindings of records
      registered at the start. */
  lemma {:induction false} UnmanageEachRetiresOnly(q: Queue, ts: seq<TaskId>, ph: Phase)
    ensures UnmanageEach(q, ts, ph).q.retired <= q.retired + Bindings(q.registry)
    decreases |ts|
  {
    if |ts| > 0 {
      var u := Unmanage(q, ts[0], ph).q;
      assert UnmanageEach(q, ts, ph).q == UnmanageEach(u, ts[1..], ph).q;
      UnmanageEachRetiresOnly(u, ts[1..], ph);
      assert Bindings(u.registry) <= Bindings(q.registry);
      if ts[0] in TaskSet(q.registry) {
        var gone := Lookup(q.registry, ts[0]).value;
        assert gone in q.registry;
        assert u.retired <= q.retired + Bindings(q.registry);
      }
    }
  }

  /** `unmanage` works on the state the registry holds, so `reset` leaves
      live a binding whose record a second `manage` of the same patch
      replaced: that binding's events still reach the queue afterwards. */
  lemma ResetLeavesReplacedBindingLive(q: Queue, e: Entry, cancel: bool, ph: Phase)
    requires Wf(q) && e in q.registry
    ensures var m := Manage(q, e.task, false, ph).q;
      Live(Reset(m, cancel, ph).q, BindingOf(e))
  {
    var m := Manage(q, e.task, false, ph).q;
    RemanageLeavesOldBindingLive(q, e, ph);
    var ts := Tasks(m.registry);
    UnmanageEachRetiresOnly(m, ts, ph);
    UnmanageEachKeeps(m, ts, ph);
    assert e.gen < q.nextGen by {
      assert q.registry[IndexOfEntry(q.registry, e)] == e;
    }
    assert BindingOf(e) !in Bindings(m.registry) by {
      PutUnique(q.registry, Entry(e.task, q.nextGen, Manage(q, e.task, false, ph).state.value));
    }
  }

  // -------------------------------------------------------------- profiles

  /** `applyProfile`: both ceilings are set, nothing else changes, and both
      lanes are ticked so that, once the commands are answered, each lane runs
      what its new ceiling admits: the pending patches fill it up to the
      ceiling, or the excess over the ceiling is paused. */
  function ApplyProfile(q: Queue, p: Profile, ph: Phase): (r: QStep)
    ensures r.q == q.(maxDownloads := p.downloads, maxExtractions := p.extractions)
    ensures Wf(q) ==>
      var after := Apply(r.q, r.cmds);
      && |Running(after, true, ph)| == Settle(|Running(q, true, ph)|, |Pending(q, true, ph)|, p.downloads)
      && |Running(after, false, ph)| == Settle(|Running(q, false, ph)|, |Pending(q, false, ph)|, p.extractions)
  {
    var q1 := q.(maxDownloads := p.downloads, maxExtractions := p.extractions);
    assert Running(q1, true, ph) == Running(q, true, ph) && Pending(q1, true, ph) == Pending(q, true, ph);
    assert Running(q1, false, ph) == Running(q, false, ph) && Pending(q1, false, ph) == Pending(q, false, ph);
    assert Wf(q) ==>
      && |Running(Apply(q1, TickAll(q1, ph)), true, ph)| == Target(q1, true, ph)
      && |Running(Apply(q1, TickAll(q1, ph)), false, ph)| == Target(q1, false, ph) by {
      if Wf(q) { TickAllSettles(q1, ph); }
    }
    QStep(q1, TickAll(q1, ph))
  }

  /** `faster()`: the fast profile. Once answered, each lane runs three
      patches, or all it has when fewer; a lane over three is paused down to
      three. */
  function Faster(q: Queue, ph: Phase): (r: QStep)
    ensures r.q.maxDownloads == 3 && r.q.maxExtractions == 3
    ensures Wf(q) ==>
      forall d: bool :: |Running(Apply(r.q, r.cmds), d, ph)| == Settle(|Running(q, d, ph)|, |Pending(q, d, ph)|, 3)
  {
    ApplyProfile(q, FastProfile, ph)
  }

  /** `slower()`: the slow profile. Once answered, nothing runs in either
      lane. */
  function Slower(q: Queue, ph: Phase): (r: QStep)
    ensures r.q.maxDownloads == 0 && r.q.maxExtractions == 0
    ensures Wf(q) ==>
      |Running(Apply(r.q, r.cmds), false, ph)| == 0 && |Running(Apply(r.q, r.cmds), true, ph)| == 0
  {
    ApplyProfile(q, SlowProfile, ph)
  }

  // ---------------------------------------------------------------- setMax

  /** What `setMaxDownloads`/`setMaxExtractions` report synchronously: false
      when a change for the lane is still in flight. */
  datatype SetStep = SetStep(q: Queue, accepted: bool)

  function Setting(q: Queue, downloading: bool): bool {
    if downloading then q.settingDownloads else q.settingExtractions
  }

  /** `setMaxDownloads(n)` (`downloading`) or `setMaxExtractions(n)`: refused
      while the lane's flag is set; otherwise the ceiling changes at once,
      the flag is set, and the lane's tick waits for the next turn. */
  function SetMax(q: Queue, downloading: bool, n: nat): (r: SetStep)
    ensures Setting(q, downloading) ==> r == SetStep(q, false)
    ensures !Setting(q, downloading) ==>
      && r.accepted
      && Ceiling(r.q, downloading) == n && Setting(r.q, downloading)
      && Ceiling(r.q, !downloading) == Ceiling(q, !downloading) && Setting(r.q, !downloading) == Setting(q, !downloading)
      && r.q.deferred == q.deferred + [downloading]
      && r.q.registry == q.registry
  {
    if Setting(q, downloading) then SetStep(q, false)
    else if downloading then SetStep(q.(maxDownloads := n, settingDownloads := true, deferred := q.deferred + [true]), true)
    else SetStep(q.(maxExtractions := n, settingExtractions := true, deferred := q.deferred + [false]), true)
  }

  /** The oldest waiting `setMax…` continuation: it ticks its lane and clears
      its flag. */
  function RunDeferred(q: Queue, ph: Phase): (r: QStep)
    requires |q.deferred| > 0
    ensures var d := q.deferred[0];
      && r.q.deferred == q.deferred[1..]
      && !Setting(r.q, d) && Setting(r.q, !d) == Setting(q, !d)
      && r.q.registry == q.registry && Ceiling(r.q, d) == Ceiling(q, d) && Ceiling(r.q, !d) == Ceiling(q, !d)
      && r.cmds == Tick(q, d, ph)
  {
    var d := q.deferred[0];
    var q1 := if d then q.(settingDownloads := false, deferred := q.deferred[1..])
              else q.(settingExtractions := false, deferred := q.deferred[1..]);
    assert Running(q1, d, ph) == Running(q, d, ph) && Pending(q1, d, ph) == Pending(q, d, ph);
    QStep(q1, Tick(q, d, ph))
  }

  /** While a ceiling change is in flight, another one for the same lane is
      refused and the first value stays. */
  lemma SetMaxRefusedWhileSetting(q: Queue, d: bool, a: nat, b: nat)
    requires !Setting(q, d)
    ensures var first := SetMax(q, d, a);
      && first.accepted
      && SetMax(first.q, d, b) == SetStep(first.q, false)
      && Ceiling(SetMax(first.q, d, b).q, d) == a
  {
  }

  /** A ceiling change on an idle queue, once its continuation has run and its
      commands are answered: the lane settles under the new ceiling, the other
      lane is untouched, and the lane accepts changes again. */
  lemma SetMaxSettles(q: Queue, d: bool, n: nat, ph: Phase)
    requires Wf(q) && !Setting(q, d) && |q.deferred| == 0
    ensures var s := SetMax(q, d, n).q;
      var r := RunDeferred(s, ph);
      var after := Apply(r.q, r.cmds);
      && !Setting(r.q, d) && |r.q.deferred| == 0
      && |Running(after, d, ph)| == Settle(|Running(q, d, ph)|, |Pending(q, d, ph)|, n)
      && Running(after, !d, ph) == Running(q, !d, ph)
      && Ceiling(after, d) == n
  {
    var s := SetMax(q, d, n).q;
    var r := RunDeferred(s, ph);
    assert s.deferred == [d];
    assert Tick(r.q, d, ph) == Tick(s, d, ph) by {
      assert Running(r.q, d, ph) == Running(s, d, ph) && Pending(r.q, d, ph) == Pending(s, d, ph);
    }
    assert Wf(r.q);
    TickSettles(r.q, d, ph);
    TickOtherLane(r.q, d, !d, ph);
    TickApply(r.q, d, ph);
    assert Running(s, d, ph) == Running(q, d, ph) && Pending(s, d, ph) == Pending(q, d, ph);
    assert Running(r.q, !d, ph) == Running(q, !d, ph);
  }
}
