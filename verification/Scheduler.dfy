/**
 Sleeping, waking and scheduling (kernel/waitqueue.cc, kernel/sched_core.cc) as a state machine
 over many CPUs. A step is a region in which the source holds one lock, so that a run is any
 interleaving of such regions.
 */
module Scheduler {
  import opened Distinct
  import opened Options
  import opened RunQueue

  type Cpu = nat
  type Wq = nat
  /** Someone in the middle of `wake_one` or `wake_all`. */
  type Waker = nat

  datatype RunState = Running | Runnable | Sleeping

  datatype ListId = RunList(cpu: Cpu, prio: nat) | WaitList(wq: Wq)

  /** Where `run_link` is: nowhere, in a list, or taken out of one by a waker. */
  datatype Link = Unlinked | On(list: ListId) | InHand(waker: Waker)

  datatype Task = Task(state: RunState, cpu: Cpu, prio: nat, link: Link)

  /**
   `leaving` are the CPUs whose current task has put itself on a wait queue and has not called
   `schedule` yet.
   */
  datatype Sys = Sys(
    tasks: map<Tid, Task>,
    lists: map<ListId, seq<Tid>>,
    current: map<Cpu, Tid>,
    idle: map<Cpu, Tid>,
    held: map<Waker, Tid>,
    leaving: set<Cpu>)

  // ----- The steps -----

  datatype Step =
    | Sleep(c: Cpu, w: Wq)
    | WakeTake(k: Waker, w: Wq)
    | WakePut(k: Waker)
    | Reschedule(c: Cpu)
    | Spawn(t: Tid, c: Cpu, prio: nat)

  /** What the source can do: a CPU that is leaving does nothing but call `schedule`. */
  ghost predicate Enabled(s: Sys, step: Step) {
    match step
    case Sleep(c, w) => c in s.current && c in s.idle && s.current[c] != s.idle[c] && c !in s.leaving && WaitList(w) in s.lists
    case WakeTake(k, w) => k !in s.held && WaitList(w) in s.lists && s.lists[WaitList(w)] != []
    case WakePut(k) => k in s.held
    case Reschedule(c) => c in s.current
    case Spawn(t, c, prio) => t !in s.tasks && c in s.current && prio < PRIORITIES
  }

  /** Link a task that is nowhere to the end of a list. */
  function Append(s: Sys, t: Tid, l: ListId, state: RunState): Sys
    requires t in s.tasks && l in s.lists
  {
    s.(tasks := s.tasks[t := s.tasks[t].(state := state, link := On(l))], lists := s.lists[l := s.lists[l] + [t]])
  }

  function Unlink(s: Sys, t: Tid, l: ListId, state: RunState): Sys
    requires t in s.tasks && l in s.lists
  {
    s.(tasks := s.tasks[t := s.tasks[t].(state := state, link := Unlinked)], lists := s.lists[l := Remove(s.lists[l], t)])
  }

  function Hold(s: Sys, t: Tid, k: Waker): Sys
    requires t in s.tasks
  {
    s.(tasks := s.tasks[t := s.tasks[t].(link := InHand(k))], held := s.held[k := t])
  }

  function LetGo(s: Sys, k: Waker): Sys
    requires k in s.held && s.held[k] in s.tasks
  {
    var t := s.held[k];
    s.(tasks := s.tasks[t := s.tasks[t].(link := Unlinked)], held := s.held - {k})
  }

  function SetState(s: Sys, t: Tid, state: RunState): Sys
    requires t in s.tasks
  {
    s.(tasks := s.tasks[t := s.tasks[t].(state := state)])
  }

  function HomeOf(x: Task): ListId { RunList(x.cpu, x.prio) }

  ghost predicate HasQueue(s: Sys, c: Cpu) {
    forall p :: 0 <= p < PRIORITIES ==> RunList(c, p) in s.lists
  }

  /** The run queue of a CPU. */
  function QueueOf(s: Sys, c: Cpu): Lists
    requires HasQueue(s, c)
  {
    seq(PRIORITIES, p requires 0 <= p < PRIORITIES => s.lists[RunList(c, p)])
  }

  /** `pick_next_task`: the idle task when the run queue is empty. */
  function Next(s: Sys, c: Cpu): Tid
    requires HasQueue(s, c) && c in s.idle
  {
    match Pick(QueueOf(s, c))
    case None => s.idle[c]
    case Some(t) => t
  }

  /** `schedule` up to the pick: a current task that is still running goes back on the run queue. */
  ghost function Requeue(s: Sys, c: Cpu): Sys
    requires Inv(s) && c in s.current
  {
    var prev := s.current[c];
    if s.tasks[prev].state != Running then s
    else if prev == s.idle[c] then SetState(s, prev, Runnable)
    else Append(s, prev, HomeOf(s.tasks[prev]), Runnable)
  }

  ghost function Switch(s: Sys, c: Cpu): Sys
    requires HasQueue(s, c) && c in s.idle && Next(s, c) in s.tasks && HomeOf(s.tasks[Next(s, c)]) in s.lists
  {
    var next := Next(s, c);
    var s1 := if next == s.idle[c] then SetState(s, next, Running)
              else Unlink(s, next, HomeOf(s.tasks[next]), Running);
    s1.(current := s1.current[c := next], leaving := s1.leaving - {c})
  }

  ghost function StepTo(s: Sys, step: Step): Sys
    requires Inv(s) && Enabled(s, step)
  {
    match step
    case Sleep(c, w) =>
      var t := s.current[c];
      var s1 := Append(s, t, WaitList(w), Sleeping);
      s1.(leaving := s1.leaving + {c})
    case WakeTake(k, w) =>
      var t := s.lists[WaitList(w)][0];
      Hold(Unlink(s, t, WaitList(w), Runnable), t, k)
    case WakePut(k) =>
      var t := s.held[k];
      Append(LetGo(s, k), t, HomeOf(s.tasks[t]), Runnable)
    case Reschedule(c) =>
      RequeueReady(s, c);
      Switch(Requeue(s, c), c)
    case Spawn(t, c, prio) =>
      var s1 := s.(tasks := s.tasks[t := Task(Runnable, c, prio, Unlinked)]);
      Append(s1, t, RunList(c, prio), Runnable)
  }

  // ----- The invariant -----

  /** Lists and wakers agree with what each task says about its link. */
  ghost predicate Linked(s: Sys) {
    && (forall l :: l in s.lists ==> Once(s.lists[l]))
    && (forall l, t :: l in s.lists && t in s.lists[l] ==> t in s.tasks && s.tasks[t].link == On(l))
    && (forall t :: t in s.tasks && s.tasks[t].link.On? ==> IsOn(s, t, s.tasks[t].link.list))
    && (forall k :: k in s.held ==> s.held[k] in s.tasks && s.tasks[s.held[k]].link == InHand(k))
    && (forall t :: t in s.tasks && s.tasks[t].link.InHand? ==> IsHeld(s, t, s.tasks[t].link.waker))
  }

  predicate IsOn(s: Sys, t: Tid, l: ListId) { l in s.lists && t in s.lists[l] }

  predicate IsHeld(s: Sys, t: Tid, k: Waker) { k in s.held && s.held[k] == t }

  /** CPUs have a run queue, an idle task and a current task of their own. */
  ghost predicate Cpus(s: Sys) {
    && s.idle.Keys == s.current.Keys && s.leaving <= s.current.Keys
    && forall c :: c in s.current ==> CpuOk(s, c)
  }

  ghost predicate CpuOk(s: Sys, c: Cpu)
    requires c in s.current && c in s.idle
  {
    && HasQueue(s, c)
    && s.current[c] in s.tasks && s.tasks[s.current[c]].cpu == c
    && s.idle[c] in s.tasks && s.tasks[s.idle[c]].cpu == c
  }

  /** What the state of a task, its link, and whether it is current have to do with each other. */
  ghost predicate TaskOk(s: Sys, t: Tid)
    requires t in s.tasks
  {
    var x := s.tasks[t];
    && x.cpu in s.current && x.cpu in s.idle && x.prio < PRIORITIES
    && (match x.link
        case Unlinked => t == s.current[x.cpu] || (t == s.idle[x.cpu] && x.state != Sleeping)
        case On(RunList(c, p)) => c == x.cpu && p == x.prio && x.state == Runnable
        case On(WaitList(_)) => x.state == Sleeping
        case InHand(_) => x.state == Runnable)
    && (t == s.idle[x.cpu] ==> x.link == Unlinked)
    && (t == s.current[x.cpu] ==> (x.link == Unlinked <==> x.cpu !in s.leaving) && (x.link == Unlinked <==> x.state == Running))
  }

  ghost predicate Inv(s: Sys) {
    Linked(s) && Cpus(s) && forall t :: t in s.tasks ==> TaskOk(s, t)
  }

  lemma RequeueReady(s: Sys, c: Cpu)
    requires Inv(s) && c in s.current
    ensures var s1 := Requeue(s, c);
            && HasQueue(s1, c) && c in s1.idle && Next(s1, c) in s1.tasks && HomeOf(s1.tasks[Next(s1, c)]) in s1.lists
  {
    RequeueMid(s, c);
    NextOk(Requeue(s, c), c);
  }

  // ----- The primitives keep lists and links in step -----

  lemma AppendLinked(s: Sys, t: Tid, l: ListId, state: RunState)
    requires Linked(s) && t in s.tasks && s.tasks[t].link == Unlinked && l in s.lists
    ensures Linked(Append(s, t, l, state))
  {
    assert Once(s.lists[l] + [t]);
    hide Once;
  }

  lemma UnlinkLinked(s: Sys, t: Tid, l: ListId, state: RunState)
    requires Linked(s) && t in s.tasks && s.tasks[t].link == On(l) && l in s.lists
    ensures Linked(Unlink(s, t, l, state))
  {
    RemoveSpec(s.lists[l], t);
    hide Once, Remove;
  }

  lemma HoldLinked(s: Sys, t: Tid, k: Waker)
    requires Linked(s) && t in s.tasks && s.tasks[t].link == Unlinked && k !in s.held
    ensures Linked(Hold(s, t, k))
  {
    hide Once;
  }

  lemma LetGoLinked(s: Sys, k: Waker)
    requires Linked(s) && k in s.held
    ensures s.held[k] in s.tasks && Linked(LetGo(s, k))
  {
    hide Once;
  }

  lemma StateLinked(s: Sys, t: Tid, state: RunState)
    requires Linked(s) && t in s.tasks
    ensures Linked(SetState(s, t, state))
  {
    hide Once;
  }

  // ----- Every step keeps the invariant -----

  lemma SleepInv(s: Sys, c: Cpu, w: Wq)
    requires Inv(s) && Enabled(s, Sleep(c, w))
    ensures Inv(StepTo(s, Sleep(c, w)))
  {
    hide Linked;
    assert CpuOk(s, c);
    var t := s.current[c];
    assert TaskOk(s, t);
    AppendLinked(s, t, WaitList(w), Sleeping);
    var s1 := Append(s, t, WaitList(w), Sleeping);
    LinkedOnly(s1, s1.(leaving := s1.leaving + {c}));
    hide HasQueue;
    KeepsCpus(s, StepTo(s, Sleep(c, w)));
  }

  /** Who is current, and who is leaving, matters to no list. */
  lemma LinkedOnly(s: Sys, s': Sys)
    requires Linked(s) && s'.tasks == s.tasks && s'.lists == s.lists && s'.held == s.held
    ensures Linked(s')
  {
    hide Once;
  }

  lemma KeepsCpus(s: Sys, s': Sys)
    requires Cpus(s) && s'.current == s.current && s'.idle == s.idle && s'.leaving <= s'.current.Keys
    requires s'.lists.Keys == s.lists.Keys
    requires forall t :: t in s.tasks ==> t in s'.tasks && s'.tasks[t].cpu == s.tasks[t].cpu
    ensures Cpus(s')
  {
    forall c | c in s'.current
      ensures CpuOk(s', c)
    {
      assert CpuOk(s, c);
    }
  }

  /** Only task `t` has changed, so it is the only one to look at. */
  lemma OthersOk(s: Sys, s': Sys, t: Tid)
    requires s'.current == s.current && s'.idle == s.idle && s'.leaving == s.leaving
    requires forall u :: u in s.tasks && u != t ==> TaskOk(s, u)
    requires forall u :: u in s'.tasks && u != t ==> u in s.tasks && s'.tasks[u] == s.tasks[u]
    requires t in s'.tasks && TaskOk(s', t)
    ensures forall u :: u in s'.tasks ==> TaskOk(s', u)
  {
    forall u | u in s'.tasks
      ensures TaskOk(s', u)
    {
      if u != t { assert TaskOk(s, u); }
    }
  }

  lemma HeadLink(s: Sys, l: ListId)
    requires Linked(s) && l in s.lists && s.lists[l] != []
    ensures s.lists[l][0] in s.tasks && s.tasks[s.lists[l][0]].link == On(l)
  {
    assert s.lists[l][0] in s.lists[l];
  }

  lemma HeldLink(s: Sys, k: Waker)
    requires Linked(s) && k in s.held
    ensures s.held[k] in s.tasks && s.tasks[s.held[k]].link == InHand(k)
  {
  }

  lemma WakeTakeInv(s: Sys, k: Waker, w: Wq)
    requires Inv(s) && Enabled(s, WakeTake(k, w))
    ensures Inv(StepTo(s, WakeTake(k, w)))
  {
    hide Linked, HasQueue, Remove, Cpus;
    var l := WaitList(w);
    HeadLink(s, l);
    var t := s.lists[l][0];
    assert TaskOk(s, t);
    UnlinkLinked(s, t, l, Runnable);
    var s1 := Unlink(s, t, l, Runnable);
    HoldLinked(s1, t, k);
    var s' := Hold(s1, t, k);
    LeavingSubset(s);
    KeepsCpus(s, s');
    OthersOk(s, s', t);
  }

  lemma LeavingSubset(s: Sys)
    requires Cpus(s)
    ensures s.leaving <= s.current.Keys
  {
  }

  lemma WakePutInv(s: Sys, k: Waker)
    requires Inv(s) && Enabled(s, WakePut(k))
    ensures Inv(StepTo(s, WakePut(k)))
  {
    hide Linked, Cpus;
    LetGoLinked(s, k);
    HeldLink(s, k);
    var t := s.held[k];
    assert TaskOk(s, t);
    HomeExists(s, t);
    LeavingSubset(s);
    var s1, l := LetGo(s, k), HomeOf(s.tasks[t]);
    AppendLinked(s1, t, l, Runnable);
    var s' := Append(s1, t, l, Runnable);
    KeepsCpus(s, s');
    OthersOk(s, s', t);
  }

  lemma HomeExists(s: Sys, t: Tid)
    requires Cpus(s) && t in s.tasks && TaskOk(s, t)
    ensures HomeOf(s.tasks[t]) in s.lists
  {
    assert CpuOk(s, s.tasks[t].cpu);
  }

  lemma SpawnInv(s: Sys, t: Tid, c: Cpu, prio: nat)
    requires Inv(s) && Enabled(s, Spawn(t, c, prio))
    ensures Inv(StepTo(s, Spawn(t, c, prio)))
  {
    hide Linked;
    var s1 := s.(tasks := s.tasks[t := Task(Runnable, c, prio, Unlinked)]);
    NewLinked(s, t, Task(Runnable, c, prio, Unlinked));
    assert CpuOk(s, c);
    AppendLinked(s1, t, RunList(c, prio), Runnable);
    var s' := Append(s1, t, RunList(c, prio), Runnable);
    KeepsCpus(s, s');
    OthersOk(s, s', t);
  }

  lemma NewLinked(s: Sys, t: Tid, x: Task)
    requires Linked(s) && t !in s.tasks && x.link == Unlinked
    ensures Linked(s.(tasks := s.tasks[t := x]))
  {
    hide Once;
  }

  /** The state in the middle of `schedule`, with the run queue lock held. */
  ghost predicate MidSchedule(s: Sys, c: Cpu) {
    && Linked(s) && Cpus(s) && c in s.current
    && forall t :: t in s.tasks ==> if t == s.current[c] then PrevOk(s, c) else TaskOk(s, t)
  }

  /** The task that was current: on the run queue, on its way there, asleep, or idle. */
  ghost predicate PrevOk(s: Sys, c: Cpu)
    requires c in s.current && c in s.idle && s.current[c] in s.tasks
  {
    var t := s.current[c];
    var x := s.tasks[t];
    && x.cpu == c && x.prio < PRIORITIES
    && (match x.link
        case Unlinked => t == s.idle[c] && x.state != Sleeping
        case On(RunList(d, p)) => d == c && p == x.prio && x.state == Runnable
        case On(WaitList(_)) => x.state == Sleeping
        case InHand(_) => x.state == Runnable)
    && (t == s.idle[c] ==> x.link == Unlinked)
  }

  lemma RequeueMid(s: Sys, c: Cpu)
    requires Inv(s) && c in s.current
    ensures MidSchedule(Requeue(s, c), c)
  {
    hide Linked;
    assert CpuOk(s, c);
    var prev := s.current[c];
    assert TaskOk(s, prev);
    var s1 := Requeue(s, c);
    if s.tasks[prev].state == Running {
      if prev == s.idle[c] {
        StateLinked(s, prev, Runnable);
      } else {
        AppendLinked(s, prev, HomeOf(s.tasks[prev]), Runnable);
      }
    }
    hide HasQueue;
    KeepsCpus(s, s1);
    forall t | t in s1.tasks
      ensures if t == s1.current[c] then PrevOk(s1, c) else TaskOk(s1, t)
    {
      assert TaskOk(s, t);
    }
  }

  /** The task picked is on the run queue, or is the idle task. */
  lemma NextOk(s: Sys, c: Cpu)
    requires MidSchedule(s, c)
    ensures HasQueue(s, c) && c in s.idle && Next(s, c) in s.tasks
    ensures var x := s.tasks[Next(s, c)];
            && x.cpu == c && x.prio < PRIORITIES && HomeOf(x) in s.lists
            && x.link == if Next(s, c) == s.idle[c] then Unlinked else On(HomeOf(x))
  {
    hide Linked, Once, Level;
    assert CpuOk(s, c);
    var q := QueueOf(s, c);
    match Pick(q) {
      case None =>
        if s.idle[c] != s.current[c] { assert TaskOk(s, s.idle[c]); }
      case Some(t) =>
        var p := Level(q, 0);
        HeadLink(s, RunList(c, p));
        if t != s.current[c] { assert TaskOk(s, t); }
    }
  }

  lemma SwitchInv(s: Sys, c: Cpu)
    requires MidSchedule(s, c)
    ensures HasQueue(s, c) && c in s.idle && Next(s, c) in s.tasks && HomeOf(s.tasks[Next(s, c)]) in s.lists
    ensures Inv(Switch(s, c))
  {
    hide Linked, Cpus, Next, Pick, QueueOf, Remove;
    NextOk(s, c);
    var next := Next(s, c);
    var l := HomeOf(s.tasks[next]);
    var s1 := if next == s.idle[c] then SetState(s, next, Running) else Unlink(s, next, l, Running);
    if next == s.idle[c] {
      StateLinked(s, next, Running);
    } else {
      UnlinkLinked(s, next, l, Running);
    }
    var s' := Switch(s, c);
    LinkedOnly(s1, s');
    SwitchCpus(s, s1, c, next);
    SwitchOthers(s, s', c, next);
  }

  lemma SwitchOthers(s: Sys, s': Sys, c: Cpu, next: Tid)
    requires Cpus(s) && c in s.current && next in s.tasks && s.tasks[next].cpu == c && s.tasks[next].prio < PRIORITIES
    requires forall t :: t in s.tasks ==> if t == s.current[c] then PrevOk(s, c) else TaskOk(s, t)
    requires s'.current == s.current[c := next] && s'.idle == s.idle && s'.leaving == s.leaving - {c}
    requires s'.tasks == s.tasks[next := s.tasks[next].(state := Running, link := Unlinked)]
    ensures forall t :: t in s'.tasks ==> TaskOk(s', t)
  {
    hide HasQueue;
    assert CpuOk(s, c);
    forall t | t in s'.tasks
      ensures TaskOk(s', t)
    {
      if t != s.current[c] { assert TaskOk(s, t); }
    }
  }

  lemma SwitchCpus(s: Sys, s1: Sys, c: Cpu, next: Tid)
    requires Cpus(s) && c in s.current && next in s.tasks && s.tasks[next].cpu == c
    requires s1.current == s.current && s1.idle == s.idle && s1.leaving == s.leaving && s1.lists.Keys == s.lists.Keys
    requires s1.tasks.Keys == s.tasks.Keys && forall t :: t in s.tasks ==> s1.tasks[t].cpu == s.tasks[t].cpu
    ensures Cpus(s1.(current := s1.current[c := next], leaving := s1.leaving - {c}))
  {
    var s' := s1.(current := s1.current[c := next], leaving := s1.leaving - {c});
    forall d | d in s'.current
      ensures CpuOk(s', d)
    {
      assert CpuOk(s, d);
    }
  }

  lemma StepInv(s: Sys, step: Step)
    requires Inv(s) && Enabled(s, step)
    ensures Inv(StepTo(s, step))
  {
    match step
    case Sleep(c, w) => SleepInv(s, c, w);
    case WakeTake(k, w) => WakeTakeInv(s, k, w);
    case WakePut(k) => WakePutInv(s, k);
    case Spawn(t, c, prio) => SpawnInv(s, t, c, prio);
    case Reschedule(c) =>
      RequeueMid(s, c);
      SwitchInv(Requeue(s, c), c);
  }

  // ----- What the invariant is for -----

  predicate HasAt(s: Sys, l: ListId, i: int) { l in s.lists && 0 <= i < |s.lists[l]| }

  /** A link is in at most one place of one list. */
  ghost predicate AtMostOnce(s: Sys) {
    forall l, m, i, j :: HasAt(s, l, i) && HasAt(s, m, j) && s.lists[l][i] == s.lists[m][j] ==> l == m && i == j
  }

  predicate IsIdle(s: Sys, t: Tid) {
    t in s.tasks && s.tasks[t].cpu in s.idle && s.idle[s.tasks[t].cpu] == t
  }

  predicate IsCurrent(s: Sys, t: Tid) {
    t in s.tasks && s.tasks[t].cpu in s.current && s.current[s.tasks[t].cpu] == t
  }

  /** On the run queue of its CPU at its priority, or held by a waker who will put it there. */
  ghost predicate WillRun(s: Sys, t: Tid) {
    t in s.tasks && (IsOn(s, t, HomeOf(s.tasks[t])) || exists k :: IsHeld(s, t, k))
  }

  ghost predicate Waits(s: Sys, t: Tid) {
    exists w :: IsOn(s, t, WaitList(w))
  }

  /** No task is lost: it runs, will run, waits, or is idle. */
  ghost predicate Found(s: Sys, t: Tid)
    requires t in s.tasks
  {
    match s.tasks[t].state
    case Running => IsCurrent(s, t) || IsIdle(s, t)
    case Runnable => WillRun(s, t) || IsIdle(s, t)
    case Sleeping => Waits(s, t)
  }

  ghost predicate Safe(s: Sys) {
    && AtMostOnce(s)
    && (forall t :: t in s.tasks ==> Found(s, t))
    && (forall c, d :: c in s.current && d in s.current && s.current[c] == s.current[d] ==> c == d)
  }

  lemma InvSafe(s: Sys)
    requires Inv(s)
    ensures Safe(s)
  {
    forall t | t in s.tasks
      ensures Found(s, t)
    {
      InvFound(s, t);
    }
    forall l, m, i, j | HasAt(s, l, i) && HasAt(s, m, j) && s.lists[l][i] == s.lists[m][j]
      ensures l == m && i == j
    {
      var t := s.lists[l][i];
      assert t in s.lists[l] && t in s.lists[m];
      assert s.tasks[t].link == On(l) && s.tasks[t].link == On(m);
      assert Once(s.lists[l]);
    }
    forall c, d | c in s.current && d in s.current && s.current[c] == s.current[d]
      ensures c == d
    {
      assert CpuOk(s, c) && CpuOk(s, d);
    }
  }

  lemma InvFound(s: Sys, t: Tid)
    requires Inv(s) && t in s.tasks
    ensures Found(s, t)
  {
    assert TaskOk(s, t);
    match s.tasks[t].link
    case Unlinked =>
    case InHand(k) => assert IsHeld(s, t, k);
    case On(l) =>
      assert IsOn(s, t, l);
      if l.WaitList? { assert IsOn(s, t, WaitList(l.wq)); }
  }

  // ----- Runs -----

  /** From `s` the steps, each of them possible when it is taken, lead to `s'`. */
  ghost predicate Reaches(s: Sys, steps: seq<Step>, s': Sys)
    requires Inv(s)
    decreases |steps|
  {
    if steps == [] then s' == s
    else Enabled(s, steps[0]) && (StepInv(s, steps[0]); Reaches(StepTo(s, steps[0]), steps[1..], s'))
  }

  /** Over every interleaving of any length, no link is in two places and no task is lost. */
  lemma {:induction false} RunSafe(s: Sys, steps: seq<Step>, s': Sys)
    requires Inv(s) && Reaches(s, steps, s')
    ensures Inv(s') && Safe(s')
    decreases |steps|
  {
    if steps == [] {
      InvSafe(s);
    } else {
      StepInv(s, steps[0]);
      RunSafe(StepTo(s, steps[0]), steps[1..], s');
    }
  }

  /** CPUs that have just come up: a boot task runs on each, and nothing is queued. */
  ghost predicate Booted(s: Sys) {
    && s.held == map[] && s.leaving == {} && s.idle.Keys == s.current.Keys
    && (forall l :: l in s.lists ==> s.lists[l] == [])
    && (forall c :: c in s.current ==> HasQueue(s, c) && s.current[c] != s.idle[c])
    && (forall c :: c in s.current ==> s.current[c] in s.tasks && s.tasks[s.current[c]] == Task(Running, c, 0, Unlinked))
    && (forall c :: c in s.idle ==> s.idle[c] in s.tasks && s.tasks[s.idle[c]] == Task(Runnable, c, PRIORITIES - 1, Unlinked))
    && (forall t :: t in s.tasks ==> IsCurrent(s, t) || IsIdle(s, t))
  }

  lemma BootedInv(s: Sys)
    requires Booted(s)
    ensures Inv(s)
  {
    forall c | c in s.current
      ensures CpuOk(s, c)
    {
    }
  }

  /** A woken task stays on its way until its own CPU runs it. */
  lemma WokenRuns(s: Sys, step: Step, t: Tid)
    requires Inv(s) && Enabled(s, step) && t in s.tasks && s.tasks[t].state == Runnable && !IsIdle(s, t)
    ensures var s' := StepTo(s, step);
            && t in s'.tasks && s'.tasks[t].cpu == s.tasks[t].cpu
            && (if s'.tasks[t].state == Runnable then WillRun(s', t) else step == Reschedule(s.tasks[t].cpu) && IsCurrent(s', t))
  {
    StepInv(s, step);
    var s' := StepTo(s, step);
    assert TaskOk(s, t);
    StateChange(s, step, t);
    InvFound(s', t);
  }

  /** Who can change the state of a task that is runnable or asleep. */
  lemma StateChange(s: Sys, step: Step, t: Tid)
    requires Inv(s) && Enabled(s, step) && t in s.tasks && s.tasks[t].state != Running
    ensures var s' := StepTo(s, step);
            && t in s'.tasks && s'.tasks[t].cpu == s.tasks[t].cpu && s'.idle == s.idle
            && (s.tasks[t].state == Runnable && !IsIdle(s, t) && s'.tasks[t].state != Runnable ==>
                  step == Reschedule(s.tasks[t].cpu) && IsCurrent(s', t))
            && (s.tasks[t].state == Sleeping && s'.tasks[t].state != Sleeping ==> step.WakeTake? && t == s.lists[WaitList(step.w)][0])
  {
    hide Linked, Cpus, Remove, Requeue, Switch;
    assert TaskOk(s, t);
    match step {
      case Sleep(c, w) =>
        CurrentTask(s, c);
      case WakeTake(k, w) =>
        HeadLink(s, WaitList(w));
        assert TaskOk(s, s.lists[WaitList(w)][0]);
      case WakePut(k) =>
        HeldLink(s, k);
        assert TaskOk(s, s.held[k]);
      case Spawn(u, c, prio) =>
      case Reschedule(c) =>
        RequeueMid(s, c);
        RequeueChange(s, c, t);
        SwitchChange(Requeue(s, c), c, t);
    }
  }

  lemma CurrentTask(s: Sys, c: Cpu)
    requires Inv(s) && c in s.current
    ensures s.current[c] in s.tasks && s.tasks[s.current[c]].cpu == c && TaskOk(s, s.current[c])
  {
    assert CpuOk(s, c);
  }

  /** Requeueing touches the current task only if it runs. */
  lemma RequeueChange(s: Sys, c: Cpu, t: Tid)
    requires Inv(s) && c in s.current && t in s.tasks && s.tasks[t].state != Running
    ensures var s1 := Requeue(s, c); t in s1.tasks && s1.tasks[t] == s.tasks[t] && s1.idle == s.idle
  {
    hide Inv;
    CurrentTask(s, c);
  }

  lemma SwitchChange(s: Sys, c: Cpu, t: Tid)
    requires MidSchedule(s, c) && t in s.tasks
    ensures HasQueue(s, c) && c in s.idle && Next(s, c) in s.tasks && HomeOf(s.tasks[Next(s, c)]) in s.lists
    ensures var s' := Switch(s, c);
            && t in s'.tasks && s'.tasks[t].cpu == s.tasks[t].cpu && s'.idle == s.idle
            && (s'.tasks[t].state != s.tasks[t].state ==> t == Next(s, c) && s.tasks[t].cpu == c && IsCurrent(s', t))
            && (t == Next(s, c) ==> s.tasks[t].state != Sleeping)
  {
    hide Linked, Next, Pick, QueueOf, Remove;
    NextOk(s, c);
    if t != s.current[c] { assert TaskOk(s, t); }
  }

  // ----- Waking everyone -----

  /** `wake_all` by waker `k`: take and put, until nobody waits. */
  ghost function WakeAllTo(s: Sys, k: Waker, w: Wq): Sys
    requires Inv(s) && k !in s.held && WaitList(w) in s.lists
    decreases |s.lists[WaitList(w)]|
  {
    if s.lists[WaitList(w)] == [] then s
    else
      WakeBoth(s, k, w);
      WakeAllTo(StepTo(StepTo(s, WakeTake(k, w)), WakePut(k)), k, w)
  }

  /** One turn of the drain loop. */
  lemma WakeBoth(s: Sys, k: Waker, w: Wq)
    requires Inv(s) && k !in s.held && WaitList(w) in s.lists && s.lists[WaitList(w)] != []
    ensures var s1 := StepTo(s, WakeTake(k, w));
            && Inv(s1) && Enabled(s1, WakePut(k)) && Inv(StepTo(s1, WakePut(k)))
    ensures var s2, l, t := StepTo(StepTo(s, WakeTake(k, w)), WakePut(k)), WaitList(w), s.lists[WaitList(w)][0];
            && k !in s2.held && l in s2.lists && s2.lists[l] == s.lists[l][1..] && t in s.tasks
            && s2.lists == s.lists[l := s.lists[l][1..]][HomeOf(s.tasks[t]) := s.lists[HomeOf(s.tasks[t])] + [t]]
            && s2.tasks == s.tasks[t := s.tasks[t].(state := Runnable, link := On(HomeOf(s.tasks[t])))]
            && s2.current == s.current && s2.idle == s.idle && s2.leaving == s.leaving && s2.held == s.held
  {
    hide Inv;
    WakeTakeInv(s, k, w);
    HeadTask(s, WaitList(w));
    WakePutInv(StepTo(s, WakeTake(k, w)), k);
    assert s.held[k := s.lists[WaitList(w)][0]] - {k} == s.held;
  }

  /** Those of `ts` whose run list is `l`, in order. */
  function HomeIn(tasks: map<Tid, Task>, ts: seq<Tid>, l: ListId): seq<Tid>
    requires forall i :: 0 <= i < |ts| ==> ts[i] in tasks
  {
    if ts == [] then []
    else (if HomeOf(tasks[ts[0]]) == l then [ts[0]] else []) + HomeIn(tasks, ts[1..], l)
  }

  lemma {:induction false} HomeInSame(tasks: map<Tid, Task>, tasks': map<Tid, Task>, ts: seq<Tid>, l: ListId)
    requires forall i :: 0 <= i < |ts| ==> ts[i] in tasks && ts[i] in tasks' && HomeOf(tasks[ts[i]]) == HomeOf(tasks'[ts[i]])
    ensures HomeIn(tasks, ts, l) == HomeIn(tasks', ts, l)
  {
    if ts != [] { HomeInSame(tasks, tasks', ts[1..], l); }
  }

  lemma HeadEnabled(s: Sys, k: Waker, w: Wq)
    requires k !in s.held && WaitList(w) in s.lists && s.lists[WaitList(w)] != []
    ensures Enabled(s, WakeTake(k, w))
  {
  }

  lemma WaitersAreTasks(s: Sys, l: ListId)
    requires Inv(s) && l in s.lists
    ensures forall i :: 0 <= i < |s.lists[l]| ==> s.lists[l][i] in s.tasks
  {
    forall i | 0 <= i < |s.lists[l]|
      ensures s.lists[l][i] in s.tasks
    {
      assert s.lists[l][i] in s.lists[l];
    }
  }

  /** Everyone who waited goes to the end of their own run queue, in the order of waiting. */
  lemma {:induction false} WakeAllOrder(s: Sys, k: Waker, w: Wq, l: ListId)
    requires Inv(s) && k !in s.held && WaitList(w) in s.lists && l in s.lists && l != WaitList(w)
    ensures forall i :: 0 <= i < |s.lists[WaitList(w)]| ==> s.lists[WaitList(w)][i] in s.tasks
    ensures var s' := WakeAllTo(s, k, w);
            && Inv(s') && WaitList(w) in s'.lists && s'.lists[WaitList(w)] == [] && l in s'.lists
            && s'.lists[l] == s.lists[l] + HomeIn(s.tasks, s.lists[WaitList(w)], l)
            && s'.held == s.held && s'.current == s.current && s'.leaving == s.leaving
    decreases |s.lists[WaitList(w)]|
  {
    hide StepTo, Enabled, Inv;
    WaitersAreTasks(s, WaitList(w));
    if s.lists[WaitList(w)] != [] {
      var ts := s.lists[WaitList(w)];
      HeadEnabled(s, k, w);
      WakeBoth(s, k, w);
      var s2 := StepTo(StepTo(s, WakeTake(k, w)), WakePut(k));
      WakeAllOrder(s2, k, w, l);
      HomeInSame(s.tasks, s2.tasks, ts[1..], l);
    }
  }

  // ----- Start-up -----

  /** Task 2c is the boot task of CPU c, and task 2c + 1 its idle task. */
  function BootTask(t: Tid): Task {
    if t % 2 == 0 then Task(Running, t / 2, 0, Unlinked) else Task(Runnable, t / 2, PRIORITIES - 1, Unlinked)
  }

  function BootTasks(cpus: nat): map<Tid, Task> { map t: Tid | t < 2 * cpus :: BootTask(t) }

  function BootLists(cpus: nat, queues: nat): map<ListId, seq<Tid>> {
    (map c: nat, p: nat | c < cpus && p < PRIORITIES :: RunList(c, p) := []) + (map w: nat | w < queues :: WaitList(w) := [])
  }

  function Nobody(w: Wq): seq<Tid> { [] }

  function BootWaits(queues: nat): map<Wq, seq<Tid>> { map w: Wq | w < queues :: Nobody(w) }

  function BootState(cpus: nat, queues: nat): Sys {
    Sys(BootTasks(cpus), BootLists(cpus, queues), map c: nat | c < cpus :: 2 * c, map c: nat | c < cpus :: 2 * c + 1, map[], {})
  }

  lemma BootStateBooted(cpus: nat, queues: nat)
    ensures Booted(BootState(cpus, queues))
  {
    var s := BootState(cpus, queues);
    forall c | c in s.current
      ensures HasQueue(s, c) && s.tasks[s.current[c]] == Task(Running, c, 0, Unlinked)
      ensures s.tasks[s.idle[c]] == Task(Runnable, c, PRIORITIES - 1, Unlinked)
    {
      HalfOf(c);
    }
    forall t | t in s.tasks
      ensures IsCurrent(s, t) || IsIdle(s, t)
    {
      assert t / 2 in s.current && (s.current[t / 2] == t || s.idle[t / 2] == t);
    }
  }

  lemma HalfOf(c: nat)
    ensures 2 * c / 2 == c && 2 * c % 2 == 0 && (2 * c + 1) / 2 == c && (2 * c + 1) % 2 == 1
  {
  }

  // ----- The code, region by region -----

  /** The queues are the lists, every bitmap is exact, and no two CPUs share a run queue. */
  ghost predicate Matches(rqs: seq<O1RunQueue>, waits: map<Wq, seq<Tid>>, lists: map<ListId, seq<Tid>>)
    reads rqs
  {
    && (forall c, d :: 0 <= c < d < |rqs| ==> rqs[c] != rqs[d])
    && (forall c :: 0 <= c < |rqs| ==> Queued(rqs[c], c, lists))
    && (forall w :: w in waits <==> WaitList(w) in lists)
    && (forall w :: w in waits ==> waits[w] == lists[WaitList(w)])
    && (forall l :: l in lists && l.RunList? ==> l.cpu < |rqs| && l.prio < PRIORITIES)
  }

  ghost predicate Queued(rq: O1RunQueue, c: Cpu, lists: map<ListId, seq<Tid>>)
    reads rq
  {
    rq.Valid() && forall p :: 0 <= p < PRIORITIES ==> RunList(c, p) in lists && lists[RunList(c, p)] == rq.queues[p]
  }

  class Kernel {
    var tasks: map<Tid, Task>
    /** The wait queues, and the run queue of each CPU. */
    var waits: map<Wq, seq<Tid>>
    const rqs: seq<O1RunQueue>
    var current: map<Cpu, Tid>
    var idle: map<Cpu, Tid>
    var held: map<Waker, Tid>
    ghost var leaving: set<Cpu>
    /** The lists of the state machine. */
    ghost var lists: map<ListId, seq<Tid>>

    ghost predicate Coupled()
      reads this, rqs
    {
      Matches(rqs, waits, lists)
    }

    ghost function State(): Sys
      reads this
    {
      Sys(tasks, lists, current, idle, held, leaving)
    }

    /** Start-up of `cpus` CPUs, with `queues` wait queues. */
    constructor (cpus: nat, queues: nat)
      ensures State() == BootState(cpus, queues) && Booted(State()) && Inv(State()) && Coupled()
    {
      hide Booted, Inv, Matches, BootTasks, BootLists, O1RunQueue.Valid;
      var made: seq<O1RunQueue> := [];
      while |made| < cpus
        invariant |made| <= cpus && forall c, d :: 0 <= c < d < |made| ==> made[c] != made[d]
        invariant forall c :: 0 <= c < |made| ==> made[c].Valid() && made[c].queues == seq(PRIORITIES, _ => [])
      {
        var rq := new O1RunQueue();
        made := made + [rq];
      }
      rqs, waits := made, BootWaits(queues);
      tasks, lists := BootTasks(cpus), BootLists(cpus, queues);
      current, idle := map c: nat | c < cpus :: 2 * c, map c: nat | c < cpus :: 2 * c + 1;
      held, leaving := map[], {};
      new;
      BootStateBooted(cpus, queues);
      BootedInv(State());
      BootMatches(rqs, queues);
    }

    /** Put a task at the end of a run queue, or take it out. */
    method PutRun(l: ListId, t: Tid)
      requires Coupled() && l.RunList? && l in lists
      modifies this`lists, rqs
      ensures Coupled() && lists == old(lists)[l := old(lists)[l] + [t]]
    {
      hide O1RunQueue.Valid;
      rqs[l.cpu].Enqueue(t, l.prio);
      lists := lists[l := lists[l] + [t]];
      assert Queued(rqs[l.cpu], l.cpu, lists);
      assert forall c :: 0 <= c < |rqs| && c != l.cpu ==> rqs[c] != rqs[l.cpu] && old(Queued(rqs[c], c, lists));
    }

    method TakeRun(l: ListId, t: Tid)
      requires Coupled() && l.RunList? && l in lists && t in lists[l]
      modifies this`lists, rqs
      ensures Coupled() && lists == old(lists)[l := Remove(old(lists)[l], t)]
    {
      hide O1RunQueue.Valid, Remove;
      rqs[l.cpu].Dequeue(t, l.prio);
      lists := lists[l := Remove(lists[l], t)];
      assert Queued(rqs[l.cpu], l.cpu, lists);
      assert forall c :: 0 <= c < |rqs| && c != l.cpu ==> rqs[c] != rqs[l.cpu] && old(Queued(rqs[c], c, lists));
    }

    /** Change a wait queue. */
    method SetWait(w: Wq, ts: seq<Tid>)
      requires Coupled() && w in waits
      modifies this`lists, this`waits
      ensures Coupled() && WaitList(w) in old(lists) && lists == old(lists)[WaitList(w) := ts] && waits == old(waits)[w := ts]
    {
      hide O1RunQueue.Valid;
      waits := waits[w := ts];
      lists := lists[WaitList(w) := ts];
      assert forall c :: 0 <= c < |rqs| ==> old(Queued(rqs[c], c, lists));
    }

    lemma WaitIs(w: Wq)
      requires Coupled()
      ensures w in waits <==> WaitList(w) in lists
      ensures w in waits ==> waits[w] == lists[WaitList(w)]
    {
    }

    /** The region of `WaitQueue::sleep` under the wait queue's lock. `schedule` follows it. */
    method SleepOn(c: Cpu, w: Wq)
      requires Coupled() && Inv(State()) && Enabled(State(), Sleep(c, w))
      modifies this
      ensures State() == StepTo(old(State()), Sleep(c, w)) && Inv(State()) && Coupled()
    {
      hide Inv, Matches;
      WaitIs(w);
      StepInv(State(), Sleep(c, w));
      SleepReady(State(), c);
      var curr, l := current[c], WaitList(w);
      tasks := tasks[curr := tasks[curr].(state := Sleeping, link := On(l))];
      SetWait(w, waits[w] + [curr]);
      leaving := leaving + {c};
    }

    /** `WaitQueue::wake_one` up to its call of `sched_enqueue`. */
    method TakeWaiter(k: Waker, w: Wq) returns (t: Option<Tid>)
      requires Coupled() && Inv(State()) && k !in held && w in waits
      modifies this
      ensures Coupled() && Inv(State()) && t.None? == (old(lists)[WaitList(w)] == [])
      ensures State() == if t.None? then old(State()) else StepTo(old(State()), WakeTake(k, w))
      ensures t.Some? ==> k in held && held[k] == t.value
    {
      hide Inv, Remove, Matches;
      WaitIs(w);
      ghost var l := WaitList(w);
      if waits[w] == [] {
        return None;
      }
      StepInv(State(), WakeTake(k, w));
      var task := waits[w][0];
      HeadTask(State(), l);
      SetWait(w, Remove(waits[w], task));
      tasks := tasks[task := tasks[task].(state := Runnable, link := InHand(k))];
      held := held[k := task];
      assert tasks == StepTo(old(State()), WakeTake(k, w)).tasks;
      return Some(task);
    }

    /** `sched_enqueue` of the task that waker `k` has taken, under the lock of its run queue. */
    method SchedEnqueue(k: Waker)
      requires Coupled() && Inv(State()) && k in held
      modifies this, rqs
      ensures Coupled() && Inv(State()) && State() == StepTo(old(State()), WakePut(k))
    {
      hide Inv, Matches;
      StepInv(State(), WakePut(k));
      HomeFor(State(), k);
      var task := held[k];
      var l := HomeOf(tasks[task]);
      PutRun(l, task);
      tasks := tasks[task := tasks[task].(state := Runnable, link := On(l))];
      held := held - {k};
      assert tasks == StepTo(old(State()), WakePut(k)).tasks;
    }

    /** `WaitQueue::wake_one`. */
    method WakeOne(k: Waker, w: Wq) returns (r: bool)
      requires Coupled() && Inv(State()) && k !in held && w in waits
      modifies this, rqs
      ensures Coupled() && Inv(State()) && r == (old(lists)[WaitList(w)] != [])
      ensures r ==> var s1 := StepTo(old(State()), WakeTake(k, w));
                    Inv(s1) && Enabled(s1, WakePut(k)) && State() == StepTo(s1, WakePut(k))
      ensures !r ==> State() == old(State())
    {
      hide Inv, StepTo, Matches;
      var t := TakeWaiter(k, w);
      if t.None? {
        return false;
      }
      SchedEnqueue(k);
      return true;
    }

    /** `WaitQueue::wake_all`. */
    method WakeAll(k: Waker, w: Wq) returns (count: nat)
      requires Coupled() && Inv(State()) && k !in held && w in waits
      modifies this, rqs
      ensures WaitList(w) in old(lists) && Coupled() && Inv(State()) && State() == WakeAllTo(old(State()), k, w)
      ensures count == |old(lists)[WaitList(w)]|
    {
      hide Inv, StepTo, Matches;
      WaitIs(w);
      count := 0;
      while waits[w] != []
        invariant Coupled() && Inv(State()) && k !in held && w in waits && WaitList(w) in lists
        invariant WakeAllTo(State(), k, w) == WakeAllTo(old(State()), k, w)
        invariant count + |lists[WaitList(w)]| == |old(lists)[WaitList(w)]|
        decreases |lists[WaitList(w)]|
      {
        WaitIs(w);
        WakeBoth(State(), k, w);
        var woke := WakeOne(k, w);
        WaitIs(w);
        count := count + 1;
      }
      WaitIs(w);
    }

    /** `schedule` on CPU `c`, under the lock of its run queue. */
    method Schedule(c: Cpu)
      requires Coupled() && Inv(State()) && c in current
      modifies this, rqs
      ensures Coupled() && Inv(State()) && State() == StepTo(old(State()), Reschedule(c))
    {
      hide Inv, Requeue, Switch, Next, Matches;
      StepInv(State(), Reschedule(c));
      ScheduleReady(State(), c);
      var prev := current[c];
      RequeuePrev(c, prev);
      var next := PickNextTask(c);
      SwitchTo(c, prev, next);
    }

    /** A current task that is still running goes back on the run queue. */
    method RequeuePrev(c: Cpu, prev: Tid)
      requires Coupled() && Inv(State()) && c in current && prev == current[c]
      modifies this, rqs
      ensures Coupled() && State() == Requeue(old(State()), c)
    {
      hide Inv, Matches;
      ScheduleReady(State(), c);
      if tasks[prev].state == Running {
        tasks := tasks[prev := tasks[prev].(state := Runnable)];
        if prev != idle[c] {
          var l := HomeOf(tasks[prev]);
          PutRun(l, prev);
          tasks := tasks[prev := tasks[prev].(link := On(l))];
        }
      }
    }

    /** The switch itself. When the task picked is the one that was running, it just goes on. */
    method SwitchTo(c: Cpu, prev: Tid, next: Tid)
      requires Coupled() && HasQueue(State(), c) && c in current && c in idle && prev == current[c]
      requires next != idle[c] ==> next in tasks && HomeOf(tasks[next]) in lists && next in lists[HomeOf(tasks[next])]
      requires next == Next(State(), c) && next in tasks && HomeOf(tasks[next]) in lists
      requires next == idle[c] ==> tasks[next].link == Unlinked
      modifies this, rqs
      ensures Coupled() && State() == Switch(old(State()), c)
    {
      hide Next, HasQueue, Remove, Matches;
      if next != idle[c] {
        var l := HomeOf(tasks[next]);
        TakeRun(l, next);
        tasks := tasks[next := tasks[next].(link := Unlinked)];
      }
      tasks := tasks[next := tasks[next].(state := Running)];
      if prev != next {
        current := current[c := next];
      } else {
        assert current[c := next] == current;
      }
      leaving := leaving - {c};
    }

    /** `pick_next_task`: the run queue first, by its bitmap, then the idle task. */
    method PickNextTask(c: Cpu) returns (t: Tid)
      requires Coupled() && HasQueue(State(), c) && c in idle
      ensures t == Next(State(), c)
    {
      hide Pick;
      assert RunList(c, 0) in lists;
      assert Queued(rqs[c], c, lists);
      assert rqs[c].queues == QueueOf(State(), c);
      var picked := rqs[c].PickNext();
      match picked
      case None => t := idle[c];
      case Some(u) => t := u;
    }
  }

  lemma BootMatches(rqs: seq<O1RunQueue>, queues: nat)
    requires forall c, d :: 0 <= c < d < |rqs| ==> rqs[c] != rqs[d]
    requires forall c :: 0 <= c < |rqs| ==> rqs[c].Valid() && rqs[c].queues == seq(PRIORITIES, _ => [])
    ensures Matches(rqs, BootWaits(queues), BootLists(|rqs|, queues))
  {
    hide O1RunQueue.Valid;
  }

  lemma HomeFor(s: Sys, k: Waker)
    requires Inv(s) && k in s.held
    ensures s.held[k] in s.tasks && HomeOf(s.tasks[s.held[k]]) in s.lists
  {
    HeldLink(s, k);
    assert TaskOk(s, s.held[k]);
    HomeExists(s, s.held[k]);
  }

  lemma HeadTask(s: Sys, l: ListId)
    requires Inv(s) && l in s.lists && s.lists[l] != []
    ensures s.lists[l][0] in s.tasks
  {
    HeadLink(s, l);
  }

  lemma SleepReady(s: Sys, c: Cpu)
    requires Inv(s) && c in s.current
    ensures s.current[c] in s.tasks
  {
    assert CpuOk(s, c);
  }

  /** What `schedule` relies on, before and after the current task is requeued. */
  lemma ScheduleReady(s: Sys, c: Cpu)
    requires Inv(s) && c in s.current
    ensures c in s.idle && s.current[c] in s.tasks && HomeOf(s.tasks[s.current[c]]) in s.lists
    ensures var s1 := Requeue(s, c);
            && s1.current == s.current && c in s1.idle && HasQueue(s1, c) && Next(s1, c) in s1.tasks
            && HomeOf(s1.tasks[Next(s1, c)]) in s1.lists
            && (if Next(s1, c) == s1.idle[c] then s1.tasks[Next(s1, c)].link == Unlinked
                else Next(s1, c) in s1.lists[HomeOf(s1.tasks[Next(s1, c)])])
  {
    hide Linked;
    assert CpuOk(s, c);
    assert TaskOk(s, s.current[c]);
    HomeExists(s, s.current[c]);
    RequeueMid(s, c);
    NextOk(Requeue(s, c), c);
    OnItsList(Requeue(s, c), Next(Requeue(s, c), c));
  }

  lemma OnItsList(s: Sys, t: Tid)
    requires Linked(s) && t in s.tasks
    ensures s.tasks[t].link.On? ==> IsOn(s, t, s.tasks[t].link.list)
  {
  }
}
