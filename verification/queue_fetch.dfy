/** The queue's registry and its one query, `fetch`: the managed tasks in one
    state (running or pending) and, optionally, one lane, ordered by estimated
    time left with a stable sort. Also the set-and-count facts about registries
    that the scheduling proofs rest on. */
module QueueFetch {
  import opened Outcomes

  /** Identity of a managed task (a patch handle). */
  type TaskId = nat

  /** `patch.isDownloading()` of every task at the moment of a call: true in
      the download lane, false in the extraction lane. */
  type Phase = TaskId -> bool

  /** A `timeLeft` number as JavaScript holds it. */
  datatype Eta = Finite(seconds: int) | PosInfinity | NegInfinity | NotANumber | Absent

  /** The sort key of `fetch`: the extended integers. */
  datatype Key = NegInf | Fin(n: int) | PosInf

  /** A time left sorts as itself when JavaScript reads it as true or when it
      is zero; every other value JavaScript reads as false (NaN, a missing
      value) sorts as +Infinity. */
  function SortKey(e: Eta): (k: Key)
    ensures e.Finite? ==> k == Fin(e.seconds)
    ensures e.NegInfinity? <==> k == NegInf
    ensures !e.Finite? && !e.NegInfinity? <==> k == PosInf
  {
    match e
    case Finite(n) => Fin(n)
    case NegInfinity => NegInf
    case _ => PosInf
  }

  predicate KeyLe(a: Key, b: Key) {
    match (a, b)
    case (NegInf, _) => true
    case (_, PosInf) => true
    case (Fin(x), Fin(y)) => x <= y
    case _ => false
  }

  /** The queue's record of one task. */
  datatype TaskState = TaskState(queued: bool, timeLeft: Eta, managed: bool)

  /** A registry entry: the task, the generation of the `manage` call that
      created its record (which identifies the handlers bound to that record),
      and the record itself. */
  datatype Entry = Entry(task: TaskId, gen: nat, st: TaskState)

  /** The optional lane argument of `fetch` and `tick`. */
  datatype Lane = AnyLane | OnlyLane(downloading: bool)

  function KeyOf(e: Entry): Key {
    SortKey(e.st.timeLeft)
  }

  // --------------------------------------------------------------- select

  /** The filter of `fetch`: `running !== queued`, and the lane if one is given. */
  predicate Selected(e: Entry, running: bool, lane: Lane, ph: Phase) {
    running != e.st.queued && (lane.AnyLane? || lane.downloading == ph(e.task))
  }

  /** The selected entries in registry order. */
  function Select(reg: seq<Entry>, running: bool, lane: Lane, ph: Phase): (r: seq<Entry>)
    ensures |r| <= |reg|
    ensures forall e :: e in r <==> e in reg && Selected(e, running, lane, ph)
  {
    if |reg| == 0 then []
    else (if Selected(reg[0], running, lane, ph) then [reg[0]] else []) + Select(reg[1..], running, lane, ph)
  }

  /** The entries of one lane, whatever their state. */
  function InLane(reg: seq<Entry>, downloading: bool, ph: Phase): seq<Entry>
  {
    if |reg| == 0 then []
    else (if ph(reg[0].task) == downloading then [reg[0]] else []) + InLane(reg[1..], downloading, ph)
  }

  // ----------------------------------------------------------- stable sort

  predicate Sorted(s: seq<Entry>) {
    forall i, j :: 0 <= i < j < |s| ==> KeyLe(KeyOf(s[i]), KeyOf(s[j]))
  }

  /** The entries of `s` whose key is `k`, in order. */
  function WithKey(s: seq<Entry>, k: Key): seq<Entry>
  {
    if |s| == 0 then []
    else (if KeyOf(s[0]) == k then [s[0]] else []) + WithKey(s[1..], k)
  }

  /** Put `x` before the first element whose key is not smaller than its own. */
  function Insert(x: Entry, s: seq<Entry>): (r: seq<Entry>)
    ensures multiset(r) == multiset(s) + multiset{x}
  {
    if |s| == 0 || KeyLe(KeyOf(x), KeyOf(s[0])) then
      [x] + s
    else
      assert s == [s[0]] + s[1..];
      [s[0]] + Insert(x, s[1..])
  }

  lemma {:induction false} InsertSorted(x: Entry, s: seq<Entry>)
    requires Sorted(s)
    ensures Sorted(Insert(x, s))
  {
    if |s| > 0 && !KeyLe(KeyOf(x), KeyOf(s[0])) {
      var rest := Insert(x, s[1..]);
      InsertSorted(x, s[1..]);
      forall e | e in rest
        ensures KeyLe(KeyOf(s[0]), KeyOf(e))
      {
        assert e in multiset(rest);
        assert e == x || e in s[1..];
      }
    }
  }

  lemma WithKeyCons(a: Entry, t: seq<Entry>, k: Key)
    ensures WithKey([a] + t, k) == (if KeyOf(a) == k then [a] else []) + WithKey(t, k)
  {
    assert ([a] + t)[1..] == t;
  }

  /** Insertion keeps `x` ahead of every element with the same key. */
  lemma {:induction false} InsertWithKey(x: Entry, s: seq<Entry>, k: Key)
    ensures WithKey(Insert(x, s), k) == if KeyOf(x) == k then [x] + WithKey(s, k) else WithKey(s, k)
  {
    if |s| == 0 || KeyLe(KeyOf(x), KeyOf(s[0])) {
      WithKeyCons(x, s, k);
    } else {
      var a, t := s[0], s[1..];
      assert s == [a] + t;
      assert Insert(x, s) == [a] + Insert(x, t);
      assert KeyOf(a) != KeyOf(x);
      InsertWithKey(x, t, k);
      WithKeyCons(a, Insert(x, t), k);
      WithKeyCons(a, t, k);
      if KeyOf(a) == k {
        assert WithKey(s, k) == [a] + WithKey(t, k);
        assert WithKey(Insert(x, s), k) == [a] + WithKey(Insert(x, t), k);
      } else {
        assert WithKey(s, k) == WithKey(t, k);
        assert WithKey(Insert(x, s), k) == WithKey(Insert(x, t), k);
      }
    }
  }

  /** Insertion sort keeping equal keys in their original order, as
      `_.sortBy` does. */
  function SortByKey(s: seq<Entry>): (r: seq<Entry>)
    ensures multiset(r) == multiset(s)
    ensures Sorted(r)
    ensures forall k :: WithKey(r, k) == WithKey(s, k)
  {
    if |s| == 0 then []
    else
      var sorted := SortByKey(s[1..]);
      var r := Insert(s[0], sorted);
      InsertSorted(s[0], sorted);
      assert s == [s[0]] + s[1..];
      assert forall k :: WithKey(r, k) == WithKey(s, k) by {
        forall k ensures WithKey(r, k) == WithKey(s, k) {
          InsertWithKey(s[0], sorted, k);
          WithKeyCons(s[0], s[1..], k);
        }
      }
      r
  }

  /** `fetch(running, lane)`: exactly the selected entries, sorted by key, and
      entries with equal keys in registry order. */
  function Fetch(reg: seq<Entry>, running: bool, lane: Lane, ph: Phase): (r: seq<Entry>)
    ensures multiset(r) == multiset(Select(reg, running, lane, ph))
    ensures forall e :: e in r <==> e in reg && Selected(e, running, lane, ph)
    ensures |r| == |Select(reg, running, lane, ph)|
    ensures Sorted(r)
    ensures forall k :: WithKey(r, k) == WithKey(Select(reg, running, lane, ph), k)
  {
    var r := SortByKey(Select(reg, running, lane, ph));
    assert forall e :: e in r <==> e in multiset(r);
    assert |r| == |multiset(r)|;
    r
  }

  // ------------------------------------------------------- tasks and counts

  function TaskSet(s: seq<Entry>): set<TaskId> {
    set e | e in s :: e.task
  }

  predicate UniqueTasks(s: seq<Entry>) {
    forall i, j :: 0 <= i < j < |s| ==> s[i].task != s[j].task
  }

  lemma {:induction false} TaskSetBound(s: seq<Entry>)
    ensures |TaskSet(s)| <= |s|
  {
    if |s| > 0 {
      TaskSetBound(s[1..]);
      assert TaskSet(s) == {s[0].task} + TaskSet(s[1..]);
    }
  }

  lemma {:induction false} UniqueCard(s: seq<Entry>)
    requires UniqueTasks(s)
    ensures |TaskSet(s)| == |s|
  {
    if |s| > 0 {
      UniqueCard(s[1..]);
      assert TaskSet(s) == {s[0].task} + TaskSet(s[1..]);
      assert s[0].task !in TaskSet(s[1..]);
    }
  }

  /** A sequence without repeated tasks has `k` distinct tasks in its first `k` elements. */
  lemma PrefixCard(s: seq<Entry>, k: nat)
    requires |TaskSet(s)| == |s| && k <= |s|
    ensures |TaskSet(s[..k])| == k && TaskSet(s[..k]) <= TaskSet(s)
  {
    assert s == s[..k] + s[k..];
    assert TaskSet(s) == TaskSet(s[..k]) + TaskSet(s[k..]);
    TaskSetBound(s[..k]);
    TaskSetBound(s[k..]);
  }

  lemma {:induction false} SelectUnique(reg: seq<Entry>, running: bool, lane: Lane, ph: Phase)
    requires UniqueTasks(reg)
    ensures UniqueTasks(Select(reg, running, lane, ph))
  {
    if |reg| > 0 {
      SelectUnique(reg[1..], running, lane, ph);
      var rest := Select(reg[1..], running, lane, ph);
      assert forall e :: e in rest ==> e.task != reg[0].task;
    }
  }

  /** The fetched entries name as many tasks as there are entries. */
  lemma FetchCard(reg: seq<Entry>, running: bool, lane: Lane, ph: Phase)
    requires UniqueTasks(reg)
    ensures var r := Fetch(reg, running, lane, ph);
      |TaskSet(r)| == |r| && TaskSet(r) == TaskSet(Select(reg, running, lane, ph))
  {
    var sel := Select(reg, running, lane, ph);
    var r := Fetch(reg, running, lane, ph);
    SelectUnique(reg, running, lane, ph);
    UniqueCard(sel);
    assert forall e :: e in r <==> e in sel;
    assert TaskSet(r) == TaskSet(sel);
  }

  /** With one entry per task, no task is both running and pending. */
  lemma RunPendDisjoint(reg: seq<Entry>, lane: Lane, ph: Phase)
    requires UniqueTasks(reg)
    ensures TaskSet(Select(reg, true, lane, ph)) !! TaskSet(Select(reg, false, lane, ph))
  {
    forall t | t in TaskSet(Select(reg, true, lane, ph)) && t in TaskSet(Select(reg, false, lane, ph))
      ensures false
    {
    }
  }

  // --------------------------------------------------------------- marking

  /** Set the `queued` flag of every entry whose task is in `tasks`. */
  function Mark(reg: seq<Entry>, tasks: set<TaskId>, queued: bool): (r: seq<Entry>)
    ensures |r| == |reg|
    ensures forall i :: 0 <= i < |r| ==> r[i].task == reg[i].task && r[i].gen == reg[i].gen
    ensures forall i :: 0 <= i < |r| ==> r[i].st.queued == (if reg[i].task in tasks then queued else reg[i].st.queued)
    ensures forall i :: 0 <= i < |r| ==> r[i].st.timeLeft == reg[i].st.timeLeft && r[i].st.managed == reg[i].st.managed
  {
    if |reg| == 0 then []
    else
      var e := reg[0];
      [if e.task in tasks then e.(st := e.st.(queued := queued)) else e] + Mark(reg[1..], tasks, queued)
  }

  lemma {:induction false} MarkMark(reg: seq<Entry>, a: set<TaskId>, b: set<TaskId>, queued: bool)
    ensures Mark(Mark(reg, a, queued), b, queued) == Mark(reg, a + b, queued)
  {
    if |reg| > 0 {
      MarkMark(reg[1..], a, b, queued);
    }
  }

  lemma MarkUnique(reg: seq<Entry>, tasks: set<TaskId>, queued: bool)
    requires UniqueTasks(reg)
    ensures UniqueTasks(Mark(reg, tasks, queued))
  {
  }

  lemma TaskSetCons(a: Entry, s: seq<Entry>)
    ensures TaskSet([a] + s) == {a.task} + TaskSet(s)
  {
  }

  /** The tasks selected from a non-empty registry: those of its head, then of its tail. */
  lemma SelectCons(reg: seq<Entry>, running: bool, lane: Lane, ph: Phase)
    requires |reg| > 0
    ensures TaskSet(Select(reg, running, lane, ph))
         == (if Selected(reg[0], running, lane, ph) then {reg[0].task} else {}) + TaskSet(Select(reg[1..], running, lane, ph))
  {
    var rest := Select(reg[1..], running, lane, ph);
    if Selected(reg[0], running, lane, ph) {
      TaskSetCons(reg[0], rest);
    } else {
      assert Select(reg, running, lane, ph) == rest;
    }
  }

  /** Resuming a set of tasks adds its pending members of the lane to the running ones. */
  lemma {:induction false} MarkRunning(reg: seq<Entry>, tasks: set<TaskId>, d: bool, ph: Phase)
    ensures TaskSet(Select(Mark(reg, tasks, false), true, OnlyLane(d), ph))
         == TaskSet(Select(reg, true, OnlyLane(d), ph)) + (tasks * TaskSet(Select(reg, false, OnlyLane(d), ph)))
  {
    if |reg| > 0 {
      MarkRunning(reg[1..], tasks, d, ph);
      var m := Mark(reg, tasks, false);
      assert m[1..] == Mark(reg[1..], tasks, false);
      SelectCons(m, true, OnlyLane(d), ph);
      SelectCons(reg, true, OnlyLane(d), ph);
      SelectCons(reg, false, OnlyLane(d), ph);
    }
  }

  /** Pausing a set of tasks removes it from the running ones. */
  lemma {:induction false} MarkPaused(reg: seq<Entry>, tasks: set<TaskId>, d: bool, ph: Phase)
    ensures TaskSet(Select(Mark(reg, tasks, true), true, OnlyLane(d), ph))
         == TaskSet(Select(reg, true, OnlyLane(d), ph)) - tasks
  {
    if |reg| > 0 {
      MarkPaused(reg[1..], tasks, d, ph);
      var m := Mark(reg, tasks, true);
      assert m[1..] == Mark(reg[1..], tasks, true);
      SelectCons(m, true, OnlyLane(d), ph);
      SelectCons(reg, true, OnlyLane(d), ph);
    }
  }

  /** Marking tasks of one lane leaves the other lane's selections alone. */
  lemma {:induction false} MarkOtherLane(reg: seq<Entry>, tasks: set<TaskId>, queued: bool, running: bool, d: bool, ph: Phase)
    requires forall t :: t in tasks ==> ph(t) != d
    ensures Select(Mark(reg, tasks, queued), running, OnlyLane(d), ph) == Select(reg, running, OnlyLane(d), ph)
  {
    if |reg| > 0 {
      MarkOtherLane(reg[1..], tasks, queued, running, d, ph);
      assert Mark(reg, tasks, queued)[1..] == Mark(reg[1..], tasks, queued);
    }
  }

  // -------------------------------------------------------------- lookup

  /** The registry entry of a task (`_patches.get(patch)`). */
  function Lookup(reg: seq<Entry>, t: TaskId): (r: Option<Entry>)
    ensures r.Some? <==> t in TaskSet(reg)
    ensures r.Some? ==> r.value in reg && r.value.task == t
  {
    if |reg| == 0 then None
    else if reg[0].task == t then Some(reg[0])
    else
      assert TaskSet(reg) == {reg[0].task} + TaskSet(reg[1..]);
      Lookup(reg[1..], t)
  }

  /** `_patches.delete(patch)`: every entry of the task removed, order kept. */
  function Remove(reg: seq<Entry>, t: TaskId): (r: seq<Entry>)
    ensures forall e :: e in r <==> e in reg && e.task != t
    ensures TaskSet(r) == TaskSet(reg) - {t}
  {
    if |reg| == 0 then []
    else (if reg[0].task == t then [] else [reg[0]]) + Remove(reg[1..], t)
  }

  /** `_patches.set(patch, state)`: an existing key keeps its position and
      gets the new record; a new key goes last. */
  function Put(reg: seq<Entry>, e: Entry): (r: seq<Entry>)
    ensures TaskSet(r) == TaskSet(reg) + {e.task}
    ensures e in r
    ensures e.task !in TaskSet(reg) ==> r == reg + [e]
    ensures forall x :: x in r ==> x == e || x in reg
    ensures forall x :: x in reg && x.task != e.task ==> x in r
  {
    if |reg| == 0 then [e]
    else if reg[0].task == e.task then [e] + reg[1..]
    else
      assert reg == [reg[0]] + reg[1..];
      TaskSetCons(reg[0], reg[1..]);
      TaskSetCons(reg[0], Put(reg[1..], e));
      [reg[0]] + Put(reg[1..], e)
  }

  /** Every entry `Put` leaves in place is the new one or an old one. */
  lemma {:induction false} PutUnique(reg: seq<Entry>, e: Entry)
    requires UniqueTasks(reg)
    ensures UniqueTasks(Put(reg, e))
    ensures forall x :: x in Put(reg, e) ==> x == e || (x in reg && x.task != e.task)
  {
    if |reg| > 0 && reg[0].task != e.task {
      PutUnique(reg[1..], e);
      assert reg[0].task !in TaskSet(reg[1..]);
    } else if |reg| > 0 {
      assert forall x :: x in reg[1..] ==> x.task != e.task;
    }
  }

  lemma RemoveUnique(reg: seq<Entry>, t: TaskId)
    requires UniqueTasks(reg)
    ensures UniqueTasks(Remove(reg, t))
  {
    if |reg| > 0 {
      RemoveUnique(reg[1..], t);
      assert forall x :: x in Remove(reg[1..], t) ==> x.task != reg[0].task;
    }
  }

  /** With one entry per task, the entry of a task is the one `Lookup` finds. */
  lemma LookupUnique(reg: seq<Entry>, e: Entry)
    requires UniqueTasks(reg) && e in reg
    ensures Lookup(reg, e.task) == Some(e)
  {
    if reg[0] != e {
      assert e in reg[1..];
      LookupUnique(reg[1..], e);
    }
  }

  lemma SelectAppend(reg: seq<Entry>, e: Entry, running: bool, lane: Lane, ph: Phase)
    ensures Select(reg + [e], running, lane, ph)
         == Select(reg, running, lane, ph) + (if Selected(e, running, lane, ph) then [e] else [])
  {
    if |reg| > 0 {
      assert (reg + [e])[1..] == reg[1..] + [e];
      SelectAppend(reg[1..], e, running, lane, ph);
    }
  }

  /** Removing a registered task takes its entry out of every selection that held it. */
  lemma {:induction false} SelectRemove(reg: seq<Entry>, e: Entry, running: bool, lane: Lane, ph: Phase)
    requires UniqueTasks(reg) && e in reg
    ensures |Select(reg, running, lane, ph)|
         == |Select(Remove(reg, e.task), running, lane, ph)| + (if Selected(e, running, lane, ph) then 1 else 0)
  {
    if reg[0] == e {
      assert forall x :: x in reg[1..] ==> x.task != e.task;
      RemoveNothing(reg[1..], e.task);
      assert Remove(reg, e.task) == reg[1..];
    } else {
      assert e in reg[1..];
      assert reg[0].task != e.task;
      SelectRemove(reg[1..], e, running, lane, ph);
      var rest := Remove(reg[1..], e.task);
      assert Remove(reg, e.task) == [reg[0]] + rest;
      assert ([reg[0]] + rest)[1..] == rest;
    }
  }

  lemma RemoveNothing(reg: seq<Entry>, t: TaskId)
    requires forall x :: x in reg ==> x.task != t
    ensures Remove(reg, t) == reg
  {
  }

  /** For one lane, the running and the pending entries split its entries. */
  lemma {:induction false} SelectPartition(reg: seq<Entry>, d: bool, ph: Phase)
    ensures multiset(Select(reg, true, OnlyLane(d), ph)) + multiset(Select(reg, false, OnlyLane(d), ph))
         == multiset(InLane(reg, d, ph))
  {
    if |reg| > 0 {
      SelectPartition(reg[1..], d, ph);
    }
  }

  /** `fetch(true, lane)` and `fetch(false, lane)` share no entry and together
      hold exactly the lane's entries. */
  lemma FetchPartition(reg: seq<Entry>, d: bool, ph: Phase)
    ensures multiset(Fetch(reg, true, OnlyLane(d), ph)) + multiset(Fetch(reg, false, OnlyLane(d), ph))
         == multiset(InLane(reg, d, ph))
    ensures forall e :: e in Fetch(reg, true, OnlyLane(d), ph) ==> e !in Fetch(reg, false, OnlyLane(d), ph)
  {
    SelectPartition(reg, d, ph);
  }

  lemma MarkNothing(reg: seq<Entry>, queued: bool)
    ensures Mark(reg, {}, queued) == reg
  {
  }

  /** A sequence naming as many tasks as it has entries repeats no task. */
  lemma CardUnique(s: seq<Entry>)
    requires |TaskSet(s)| == |s|
    ensures UniqueTasks(s)
  {
    forall i, j | 0 <= i < j < |s|
      ensures s[i].task != s[j].task
    {
      if s[i].task == s[j].task {
        var rest := s[..j] + s[j + 1..];
        assert s == s[..j] + [s[j]] + s[j + 1..];
        assert s[i] in s[..j];
        assert TaskSet(s) == TaskSet(rest) by {
          forall t | t in TaskSet(s) ensures t in TaskSet(rest) {
            var x :| x in s && x.task == t;
            if x == s[j] { assert s[i] in rest; } else { assert x in rest; }
          }
        }
        TaskSetBound(rest);
        assert false;
      }
    }
  }

  /** Changing a registered task's record without touching its `queued` flag
      keeps the size of every selection. */
  lemma {:induction false} PutKeepsSelection(reg: seq<Entry>, e: Entry, running: bool, lane: Lane, ph: Phase)
    requires Lookup(reg, e.task).Some? && Lookup(reg, e.task).value.st.queued == e.st.queued
    ensures |Select(Put(reg, e), running, lane, ph)| == |Select(reg, running, lane, ph)|
  {
    var h := if Selected(reg[0], running, lane, ph) then 1 else 0;
    assert |Select(reg, running, lane, ph)| == h + |Select(reg[1..], running, lane, ph)|;
    if reg[0].task == e.task {
      var p := [e] + reg[1..];
      assert Put(reg, e) == p && p[0] == e && p[1..] == reg[1..];
      assert Selected(e, running, lane, ph) == Selected(reg[0], running, lane, ph);
      assert |Select(p, running, lane, ph)| == h + |Select(reg[1..], running, lane, ph)|;
    } else {
      assert Lookup(reg[1..], e.task) == Lookup(reg, e.task);
      PutKeepsSelection(reg[1..], e, running, lane, ph);
      var rest := Put(reg[1..], e);
      var p := [reg[0]] + rest;
      assert Put(reg, e) == p && p[0] == reg[0] && p[1..] == rest;
      assert |Select(p, running, lane, ph)| == h + |Select(rest, running, lane, ph)|;
    }
  }

  lemma SelectCard(reg: seq<Entry>, running: bool, lane: Lane, ph: Phase)
    requires UniqueTasks(reg)
    ensures |TaskSet(Select(reg, running, lane, ph))| == |Select(reg, running, lane, ph)|
  {
    SelectUnique(reg, running, lane, ph);
    UniqueCard(Select(reg, running, lane, ph));
  }

  /** Resuming pending tasks of a lane adds exactly them to its running count. */
  lemma ResumeCount(reg: seq<Entry>, tasks: set<TaskId>, d: bool, ph: Phase)
    requires UniqueTasks(reg)
    requires tasks <= TaskSet(Select(reg, false, OnlyLane(d), ph))
    ensures |Select(Mark(reg, tasks, false), true, OnlyLane(d), ph)| == |Select(reg, true, OnlyLane(d), ph)| + |tasks|
  {
    var m := Mark(reg, tasks, false);
    MarkUnique(reg, tasks, false);
    SelectCard(reg, true, OnlyLane(d), ph);
    SelectCard(m, true, OnlyLane(d), ph);
    MarkRunning(reg, tasks, d, ph);
    RunPendDisjoint(reg, OnlyLane(d), ph);
    var runSet := TaskSet(Select(reg, true, OnlyLane(d), ph));
    assert tasks * TaskSet(Select(reg, false, OnlyLane(d), ph)) == tasks;
    assert |runSet + tasks| == |runSet| + |tasks|;
  }

  /** Pausing running tasks of a lane takes exactly them off its running count. */
  lemma PauseCount(reg: seq<Entry>, tasks: set<TaskId>, d: bool, ph: Phase)
    requires UniqueTasks(reg)
    requires tasks <= TaskSet(Select(reg, true, OnlyLane(d), ph))
    ensures |Select(Mark(reg, tasks, true), true, OnlyLane(d), ph)| == |Select(reg, true, OnlyLane(d), ph)| - |tasks|
  {
    var m := Mark(reg, tasks, true);
    MarkUnique(reg, tasks, true);
    SelectCard(reg, true, OnlyLane(d), ph);
    SelectCard(m, true, OnlyLane(d), ph);
    MarkPaused(reg, tasks, d, ph);
    var runSet := TaskSet(Select(reg, true, OnlyLane(d), ph));
    assert |runSet - tasks| == |runSet| - |tasks|;
  }

  /** Every entry `fetch` lists for a lane is registered and in that lane. */
  lemma FetchInLane(reg: seq<Entry>, running: bool, d: bool, ph: Phase)
    ensures var f := Fetch(reg, running, OnlyLane(d), ph);
      forall i :: 0 <= i < |f| ==> f[i].task in TaskSet(reg) && ph(f[i].task) == d
  {
    var f := Fetch(reg, running, OnlyLane(d), ph);
    forall i | 0 <= i < |f|
      ensures f[i].task in TaskSet(reg) && ph(f[i].task) == d
    {
      assert f[i] in f;
      assert f[i] in reg;
    }
  }

  /** Pausing the first `k` patches of a lane's running list leaves `k` fewer
      running. */
  lemma PausePrefix(reg: seq<Entry>, d: bool, ph: Phase, k: nat)
    requires UniqueTasks(reg) && k <= |Fetch(reg, true, OnlyLane(d), ph)|
    ensures var run := Fetch(reg, true, OnlyLane(d), ph);
      |Fetch(Mark(reg, TaskSet(run[..k]), true), true, OnlyLane(d), ph)| == |run| - k
  {
    var run := Fetch(reg, true, OnlyLane(d), ph);
    var paused := TaskSet(run[..k]);
    FetchCard(reg, true, OnlyLane(d), ph);
    PrefixCard(run, k);
    PauseCount(reg, paused, d, ph);
  }

  /** Resuming the first `k` patches of a lane's pending list leaves `k` more
      running. */
  lemma ResumePrefix(reg: seq<Entry>, d: bool, ph: Phase, k: nat)
    requires UniqueTasks(reg) && k <= |Fetch(reg, false, OnlyLane(d), ph)|
    ensures var pend := Fetch(reg, false, OnlyLane(d), ph);
      |Fetch(Mark(reg, TaskSet(pend[..k]), false), true, OnlyLane(d), ph)|
        == |Fetch(reg, true, OnlyLane(d), ph)| + k
  {
    var pend := Fetch(reg, false, OnlyLane(d), ph);
    var resumed := TaskSet(pend[..k]);
    FetchCard(reg, false, OnlyLane(d), ph);
    PrefixCard(pend, k);
    ResumeCount(reg, resumed, d, ph);
  }

  /** `Put` makes the new record the one `Lookup` finds. */
  lemma {:induction false} LookupPut(reg: seq<Entry>, e: Entry)
    ensures Lookup(Put(reg, e), e.task) == Some(e)
  {
    if |reg| > 0 && reg[0].task != e.task {
      LookupPut(reg[1..], e);
      assert ([reg[0]] + Put(reg[1..], e))[1..] == Put(reg[1..], e);
    }
  }

  /** In a sorted list without repeated tasks, the tasks of a prefix have
      keys no greater than those of every task outside it. */
  lemma PrefixLeast(s: seq<Entry>, k: nat)
    requires Sorted(s) && UniqueTasks(s) && k <= |s|
    ensures forall e, f ::
      e in s && f in s && e.task in TaskSet(s[..k]) && f.task !in TaskSet(s[..k]) ==> KeyLe(KeyOf(e), KeyOf(f))
  {
    forall e, f | e in s && f in s && e.task in TaskSet(s[..k]) && f.task !in TaskSet(s[..k])
      ensures KeyLe(KeyOf(e), KeyOf(f))
    {
      var i :| 0 <= i < |s| && s[i] == e;
      var j :| 0 <= j < |s| && s[j] == f;
      var x :| x in s[..k] && x.task == e.task;
      var m :| 0 <= m < k && s[m] == x;
      assert m == i;
      assert j >= k;
    }
  }
}
