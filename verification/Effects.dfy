/**
 What each step of the scheduler does to the tasks, the queues and the CPUs, told without naming the step's
 own definition, and what that means for a task that goes to sleep.
 */
module Effects {
  import opened Distinct
  import opened Options
  import opened RunQueue
  import opened Scheduler
  import opened Turns

  /** `sleep` marks the current task and puts it at the end of the wait queue; nothing else changes. */
  lemma SleepEffect(s: Sys, c: Cpu, w: Wq)
    requires Inv(s) && Enabled(s, Sleep(c, w))
    ensures var t, l, s' := s.current[c], WaitList(w), StepTo(s, Sleep(c, w));
            && t in s.tasks && s'.tasks == s.tasks[t := Task(Sleeping, s.tasks[t].cpu, s.tasks[t].prio, On(l))]
            && s'.lists == s.lists[l := s.lists[l] + [t]] && s'.leaving == s.leaving + {c}
            && s'.current == s.current && s'.idle == s.idle && s'.held == s.held
  {
    CurrentTask(s, c);
  }

  /** Taking a waiter wakes the first one of the queue, and the waker holds it; nothing else changes. */
  lemma TakeEffect(s: Sys, k: Waker, w: Wq)
    requires Inv(s) && Enabled(s, WakeTake(k, w))
    ensures var l, s' := WaitList(w), StepTo(s, WakeTake(k, w));
            var t := s.lists[l][0];
            && t in s.tasks && s'.tasks == s.tasks[t := Task(Runnable, s.tasks[t].cpu, s.tasks[t].prio, InHand(k))]
            && s'.lists == s.lists[l := s.lists[l][1..]] && s'.held == s.held[k := t]
            && s'.current == s.current && s'.idle == s.idle && s'.leaving == s.leaving
  {
    HeadLink(s, WaitList(w));
  }

  /** The held task goes to the end of its level on its own CPU; nothing else changes. */
  lemma PutEffect(s: Sys, k: Waker)
    requires Inv(s) && Enabled(s, WakePut(k))
    ensures var t, s' := s.held[k], StepTo(s, WakePut(k));
            && t in s.tasks
            && var l := RunList(s.tasks[t].cpu, s.tasks[t].prio);
               && l in s.lists && s'.tasks == s.tasks[t := Task(Runnable, s.tasks[t].cpu, s.tasks[t].prio, On(l))]
               && s'.lists == s.lists[l := s.lists[l] + [t]] && s'.held == s.held - {k}
               && s'.current == s.current && s'.idle == s.idle && s'.leaving == s.leaving
  {
    hide Inv;
    HomeFor(s, k);
  }

  /** A new task goes to the end of its level; nothing else changes. */
  lemma SpawnEffect(s: Sys, t: Tid, c: Cpu, prio: nat)
    requires Inv(s) && Enabled(s, Spawn(t, c, prio))
    ensures var l, s' := RunList(c, prio), StepTo(s, Spawn(t, c, prio));
            && l in s.lists && s'.tasks == s.tasks[t := Task(Runnable, c, prio, On(l))]
            && s'.lists == s.lists[l := s.lists[l] + [t]]
            && s'.current == s.current && s'.idle == s.idle && s'.held == s.held && s'.leaving == s.leaving
  {
    assert CpuOk(s, c);
  }

  /** What `schedule` leaves alone. */
  lemma ScheduleFrame(s: Sys, c: Cpu)
    requires Inv(s) && c in s.current
    ensures var s' := StepTo(s, Reschedule(c));
            && s'.idle == s.idle && s'.held == s.held && s'.leaving == s.leaving - {c}
            && s'.current.Keys == s.current.Keys && (forall d :: d in s.current && d != c ==> s'.current[d] == s.current[d])
            && s'.tasks.Keys == s.tasks.Keys && s'.current[c] in s.tasks
            && (forall t :: t in s.tasks && t != s.current[c] && t != s'.current[c] ==> s'.tasks[t] == s.tasks[t])
            && s'.lists.Keys == s.lists.Keys && forall l :: l in s.lists && (l.WaitList? || l.cpu != c) ==> s'.lists[l] == s.lists[l]
  {
    hide Inv, TaskOk, CpuOk, PrevOk, Next, Remove;
    CurrentTask(s, c);
    RequeueMid(s, c);
    NextOk(Requeue(s, c), c);
    HomeOfCurrent(s, c);
  }

  lemma HomeOfCurrent(s: Sys, c: Cpu)
    requires Inv(s) && c in s.current
    ensures s.current[c] in s.tasks && HomeOf(s.tasks[s.current[c]]) in s.lists && HomeOf(s.tasks[s.current[c]]).cpu == c
  {
    CurrentTask(s, c);
    HomeExists(s, s.current[c]);
  }

  /** Strict priority: after `schedule` nothing queued on the CPU is more urgent than what runs; the idle task runs only if nothing is queued. */
  lemma SchedulePriority(s: Sys, c: Cpu)
    requires Inv(s) && c in s.current
    ensures var s' := StepTo(s, Reschedule(c));
            && c in s'.idle && c in s'.current && s'.current[c] in s'.tasks && s'.tasks[s'.current[c]].state == Running
            && (s'.current[c] != s'.idle[c] ==> NoneAbove(s', c, s'.tasks[s'.current[c]].prio))
            && (s'.current[c] == s'.idle[c] ==> NoneAbove(s', c, PRIORITIES))
  {
    hide Inv, TaskOk, CpuOk, PrevOk;
    CurrentTask(s, c);
    RequeueMid(s, c);
    var s1 := Requeue(s, c);
    NextOk(s1, c);
    NextLevel(s1, c);
  }

  /** The task that is picked is the first of the most urgent level that is not empty. */
  lemma NextLevel(s: Sys, c: Cpu)
    requires MidSchedule(s, c)
    ensures HasQueue(s, c) && c in s.idle && Next(s, c) in s.tasks
    ensures forall p :: 0 <= p < PRIORITIES && (Next(s, c) == s.idle[c] || p < s.tasks[Next(s, c)].prio) ==> s.lists[RunList(c, p)] == []
  {
    NextOk(s, c);
    var q := QueueOf(s, c);
    var k := Level(q, 0);
    assert forall p :: 0 <= p < k ==> q[p] == s.lists[RunList(c, p)];
    if k < PRIORITIES {
      HeadLink(s, RunList(c, k));
    }
  }

  /** A task that was running and is not picked goes to the end of its level; one that sleeps stays as it is. */
  lemma SchedulePrevious(s: Sys, c: Cpu)
    requires Inv(s) && c in s.current
    ensures var t, s' := s.current[c], StepTo(s, Reschedule(c));
            && t in s.tasks && c in s.idle && c in s'.current && t in s'.tasks
            && (s'.current[c] != t && s.tasks[t].state == Running && t != s.idle[c] ==>
                  && s'.tasks[t] == Task(Runnable, c, s.tasks[t].prio, On(RunList(c, s.tasks[t].prio)))
                  && var l := RunList(c, s.tasks[t].prio);
                     l in s'.lists && s'.lists[l] != [] && s'.lists[l][|s'.lists[l]| - 1] == t)
            && (s.tasks[t].state != Running && s'.current[c] != t ==> s'.tasks[t] == s.tasks[t])
  {
    hide Inv, TaskOk, CpuOk, PrevOk, Next;
    CurrentTask(s, c);
    HomeOfCurrent(s, c);
    RequeueMid(s, c);
    var s1 := Requeue(s, c);
    NextOk(s1, c);
    if Next(s1, c) != s.current[c] && s.tasks[s.current[c]].state == Running && s.current[c] != s.idle[c] {
      LastStays(s1.lists[HomeOf(s.tasks[s.current[c]])], s.current[c], Next(s1, c));
    }
  }

  lemma {:induction false} LastStays(ts: seq<Tid>, t: Tid, n: Tid)
    requires ts != [] && ts[|ts| - 1] == t && n != t
    ensures Remove(ts, n) != [] && Remove(ts, n)[|Remove(ts, n)| - 1] == t
  {
    if |ts| > 1 && ts[0] != n { LastStays(ts[1..], t, n); }
  }

  /** No step changes the priority or the CPU of a task. */
  lemma PrioKept(s: Sys, step: Step, t: Tid)
    requires Inv(s) && Enabled(s, step) && t in s.tasks
    ensures var s' := StepTo(s, step); t in s'.tasks && s'.tasks[t].prio == s.tasks[t].prio && s'.tasks[t].cpu == s.tasks[t].cpu
  {
    hide Inv, TaskOk, CpuOk, PrevOk, Next, Remove;
    match step {
      case Sleep(c, w) => SleepEffect(s, c, w);
      case WakeTake(k, w) => TakeEffect(s, k, w);
      case WakePut(k) => PutEffect(s, k);
      case Spawn(u, c, prio) =>
      case Reschedule(c) =>
        RequeueMid(s, c);
        NextOk(Requeue(s, c), c);
    }
  }

  // ----- Going to sleep -----

  /** A task on a wait queue is not current, unless its CPU has not left it yet. */
  lemma WaiterNotCurrent(s: Sys, w: Wq, t: Tid)
    requires Inv(s) && WaitList(w) in s.lists && t in s.lists[WaitList(w)]
    ensures t in s.tasks && s.tasks[t].state == Sleeping && s.tasks[t].link == On(WaitList(w))
    ensures forall c :: c in s.current && s.current[c] == t ==> c in s.leaving
  {
    assert TaskOk(s, t);
    forall c | c in s.current && s.current[c] == t
      ensures c in s.leaving
    {
      assert CpuOk(s, c);
    }
  }

  ghost predicate OffCpu(s: Sys, t: Tid) { forall c :: c in s.current ==> s.current[c] != t }

  /** A step does not make a waiter current, and a `schedule` of its CPU takes it off that CPU. */
  lemma WaiterStep(s: Sys, step: Step, w: Wq, t: Tid)
    requires Inv(s) && Enabled(s, step) && WaitList(w) in s.lists && t in s.lists[WaitList(w)]
    requires WaitList(w) in StepTo(s, step).lists && t in StepTo(s, step).lists[WaitList(w)]
    ensures t in s.tasks && (OffCpu(s, t) || step == Reschedule(s.tasks[t].cpu) ==> OffCpu(StepTo(s, step), t))
  {
    hide Inv, StepTo;
    WaiterNotCurrent(s, w, t);
    StepInv(s, step);
    WaiterNotCurrent(StepTo(s, step), w, t);
    CurrentHome(s, t);
    match step {
      case Sleep(c, q) => SleepEffect(s, c, q);
      case WakeTake(k, q) => TakeEffect(s, k, q);
      case WakePut(k) => PutEffect(s, k);
      case Spawn(u, c, prio) => SpawnEffect(s, u, c, prio);
      case Reschedule(c) => ScheduleFrame(s, c);
    }
  }

  /** A task is current on its own CPU only. */
  lemma CurrentHome(s: Sys, t: Tid)
    requires Inv(s) && t in s.tasks
    ensures forall c :: c in s.current && s.current[c] == t ==> c == s.tasks[t].cpu
  {
    forall c | c in s.current && s.current[c] == t
      ensures c == s.tasks[t].cpu
    {
      CurrentTask(s, c);
    }
  }

  /** Over every run that wakes no more waiters than are ahead of it, a waiter is off its CPU for good once its CPU has called `schedule`. */
  lemma {:induction false} WaiterStaysOff(s: Sys, steps: seq<Step>, s': Sys, w: Wq, k: nat)
    requires Inv(s) && Reaches(s, steps, s') && WaitList(w) in s.lists && k < |s.lists[WaitList(w)]| && CountWakes(steps, w) <= k
    ensures var t := s.lists[WaitList(w)][k]; t in s.tasks && (OffCpu(s, t) || Reschedule(s.tasks[t].cpu) in steps ==> OffCpu(s', t))
    decreases |steps|
  {
    hide Inv, StepTo, Enabled, OffCpu;
    var l, t := WaitList(w), s.lists[WaitList(w)][k];
    WaiterNotCurrent(s, w, t);
    if steps != [] {
      var step, rest := steps[0], steps[1..];
      StepInv(s, step);
      WaitStep(s, step, w);
      var s1 := StepTo(s, step);
      var k1 := if Wakes(step, w) then k - 1 else k;
      assert s1.lists[l][k1] == t;
      WaiterStep(s, step, w, t);
      PrioKept(s, step, t);
      WaiterStaysOff(s1, rest, s', w, k1);
    }
  }

  /**
   A task that goes to sleep has everyone who waited before ahead of it. Over every run from there, as long
   as no more of them are woken than were ahead, it sleeps on that queue; and once its CPU has called
   `schedule` it is not current anywhere.
   */
  lemma SleeperWaits(s: Sys, c: Cpu, w: Wq, steps: seq<Step>, s': Sys)
    requires Inv(s) && Enabled(s, Sleep(c, w))
    requires Inv(StepTo(s, Sleep(c, w))) && Reaches(StepTo(s, Sleep(c, w)), steps, s')
    requires CountWakes(steps, w) <= |s.lists[WaitList(w)]|
    ensures var t, l, k := s.current[c], WaitList(w), |s.lists[WaitList(w)]| - CountWakes(steps, w);
            && l in s'.lists && k < |s'.lists[l]| && s'.lists[l][k] == t
            && t in s'.tasks && s'.tasks[t].state == Sleeping && s'.tasks[t].link == On(l)
            && (Reschedule(c) in steps ==> OffCpu(s', t))
  {
    hide Inv, StepTo, OffCpu;
    var t, l, s1 := s.current[c], WaitList(w), StepTo(s, Sleep(c, w));
    SleepEffect(s, c, w);
    CurrentTask(s, c);
    WaitsInTurn(s1, steps, s', w, |s.lists[l]|);
    WaiterStaysOff(s1, steps, s', w, |s.lists[l]|);
    RunSafe(s1, steps, s');
    assert s'.lists[l][|s.lists[l]| - CountWakes(steps, w)] in s'.lists[l];
    WaiterNotCurrent(s', w, t);
  }

  /** The `schedule` that follows leaves the CPU to another task. */
  lemma SleeperLeaves(s: Sys, c: Cpu, w: Wq)
    requires Inv(s) && Enabled(s, Sleep(c, w))
    ensures Inv(StepTo(s, Sleep(c, w))) && Enabled(StepTo(s, Sleep(c, w)), Reschedule(c))
    ensures var t, s2 := s.current[c], StepTo(StepTo(s, Sleep(c, w)), Reschedule(c));
            && c in s2.current && s2.current[c] != t && t in s2.tasks && s2.tasks[t].state == Sleeping
            && WaitList(w) in s2.lists && s2.lists[WaitList(w)] == s.lists[WaitList(w)] + [t]
  {
    hide Inv, StepTo;
    var t, s1 := s.current[c], StepTo(s, Sleep(c, w));
    SleepEffect(s, c, w);
    StepInv(s, Sleep(c, w));
    ScheduleFrame(s1, c);
    StepInv(s1, Reschedule(c));
    var s2 := StepTo(s1, Reschedule(c));
    assert t in s2.lists[WaitList(w)];
    WaiterNotCurrent(s2, w, t);
  }
}
