/** How long a task waits: over every run, nobody on a wait queue or a run queue is overtaken. */
module Turns {
  import opened Distinct
  import opened RunQueue
  import opened Scheduler

  // ----- Wait queues -----

  predicate Wakes(step: Step, w: Wq) { step.WakeTake? && step.w == w }

  function CountWakes(steps: seq<Step>, w: Wq): nat {
    if steps == [] then 0 else (if Wakes(steps[0], w) then 1 else 0) + CountWakes(steps[1..], w)
  }

  /** A step takes the first waiter, or lets the queue grow at its end. */
  lemma WaitStep(s: Sys, step: Step, w: Wq)
    requires Inv(s) && Enabled(s, step) && WaitList(w) in s.lists
    ensures var s', l := StepTo(s, step), WaitList(w);
            && l in s'.lists
            && (if Wakes(step, w) then s'.lists[l] == s.lists[l][1..] && step.k in s'.held && s'.held[step.k] == s.lists[l][0]
                else s.lists[l] <= s'.lists[l])
  {
    hide Inv, Requeue, Switch;
    match step {
      case Sleep(_, _) =>
      case WakeTake(_, _) =>
      case WakePut(_) =>
      case Spawn(_, _, _) =>
      case Reschedule(c) => RescheduleLists(s, c, WaitList(w));
    }
  }

  /** What `schedule` does to a list: the current task may go to its end, and the next one leaves its own. */
  lemma RescheduleLists(s: Sys, c: Cpu, l: ListId)
    requires Inv(s) && c in s.current && l in s.lists
    ensures var s1, s' := Requeue(s, c), StepTo(s, Reschedule(c));
            && l in s1.lists && s.lists[l] <= s1.lists[l] && HasQueue(s1, c) && c in s1.idle && l in s'.lists
            && c in s'.current && s'.current[c] == Next(s1, c)
            && (l.WaitList? || l.cpu != c ==> s'.lists[l] == s1.lists[l])
            && (Next(s1, c) in s1.lists[l] ==> s'.lists[l] == Remove(s1.lists[l], Next(s1, c)))
            && s'.current.Keys == s.current.Keys
  {
    hide Next, Remove, Inv, TaskOk, CpuOk, PrevOk;
    CurrentTask(s, c);
    RequeueMid(s, c);
    NextOk(Requeue(s, c), c);
    var s1 := Requeue(s, c);
    if Next(s1, c) in s1.lists[l] {
      assert s1.tasks[Next(s1, c)].link == On(l);
    }
  }

  /** A waiter with `k` ahead of it is `k` less the number of wakes from the front, and the next wake is its own. */
  lemma {:induction false} WaitsInTurn(s: Sys, steps: seq<Step>, s': Sys, w: Wq, k: nat)
    requires Inv(s) && Reaches(s, steps, s') && WaitList(w) in s.lists && k < |s.lists[WaitList(w)]|
    ensures var l, n := WaitList(w), CountWakes(steps, w);
            && (n <= k ==> l in s'.lists && k - n < |s'.lists[l]| && s'.lists[l][k - n] == s.lists[l][k])
            && (n == k + 1 && Wakes(steps[|steps| - 1], w) ==>
                  var waker := steps[|steps| - 1].k; waker in s'.held && s'.held[waker] == s.lists[l][k])
    decreases |steps|
  {
    hide Inv, StepTo, Enabled;
    if steps != [] {
      var step, rest := steps[0], steps[1..];
      StepInv(s, step);
      WaitStep(s, step, w);
      if !Wakes(step, w) {
        WaitsInTurn(StepTo(s, step), rest, s', w, k);
      } else if k > 0 {
        WaitsInTurn(StepTo(s, step), rest, s', w, k - 1);
      } else if rest != [] {
        LastWakes(rest, w);
      }
    }
  }

  lemma {:induction false} LastWakes(steps: seq<Step>, w: Wq)
    requires steps != []
    ensures Wakes(steps[|steps| - 1], w) ==> CountWakes(steps, w) > 0
  {
    if |steps| > 1 { LastWakes(steps[1..], w); }
  }

  // ----- Run queues -----

  function CountTurns(steps: seq<Step>, c: Cpu): nat {
    if steps == [] then 0 else (if steps[0] == Reschedule(c) then 1 else 0) + CountTurns(steps[1..], c)
  }

  /** Nothing more urgent than `p` is on the run queue of `c`. */
  ghost predicate NoneAbove(s: Sys, c: Cpu, p: nat) {
    forall i :: 0 <= i < p && RunList(c, i) in s.lists ==> s.lists[RunList(c, i)] == []
  }

  /** Whenever `c` picks a task, nothing more urgent than `p` is runnable there. */
  ghost predicate Quiet(s: Sys, steps: seq<Step>, c: Cpu, p: nat)
    requires Inv(s)
    decreases |steps|
  {
    steps != [] && Enabled(s, steps[0]) ==>
      && (steps[0] == Reschedule(c) ==> NoneAbove(Requeue(s, c), c, p))
      && (StepInv(s, steps[0]); Quiet(StepTo(s, steps[0]), steps[1..], c, p))
  }

  /** A pick takes the first task of the level; any other step lets the level grow at its end. */
  lemma RunStep(s: Sys, step: Step, c: Cpu, p: nat)
    requires Inv(s) && Enabled(s, step) && p < PRIORITIES && RunList(c, p) in s.lists && c in s.current
    requires step == Reschedule(c) ==> s.lists[RunList(c, p)] != [] && NoneAbove(Requeue(s, c), c, p)
    ensures var s', l := StepTo(s, step), RunList(c, p);
            && l in s'.lists && c in s'.current
            && (if step == Reschedule(c) then s.lists[l][1..] <= s'.lists[l] && s'.current[c] == s.lists[l][0]
                else s.lists[l] <= s'.lists[l])
  {
    hide Inv, Requeue, Switch, NoneAbove;
    match step {
      case Sleep(_, _) =>
      case WakeTake(_, _) =>
      case WakePut(_) =>
      case Spawn(_, _, _) =>
      case Reschedule(d) =>
        RescheduleLists(s, d, RunList(c, p));
        if c == d { PicksFirst(Requeue(s, c), c, p); }
    }
  }

  lemma PicksFirst(s: Sys, c: Cpu, p: nat)
    requires HasQueue(s, c) && c in s.idle && p < PRIORITIES && s.lists[RunList(c, p)] != [] && NoneAbove(s, c, p)
    ensures Next(s, c) == s.lists[RunList(c, p)][0]
    ensures Remove(s.lists[RunList(c, p)], Next(s, c)) == s.lists[RunList(c, p)][1..]
  {
    var q := QueueOf(s, c);
    assert q[p] != [] && forall i :: 0 <= i < p ==> q[i] == [];
    assert Level(q, 0) == p;
  }

  /**
   While nothing more urgent is runnable on its CPU, a task with `k` ahead of it on its level moves up
   one place with each `schedule` there and is current after the one numbered `k + 1`, whatever other
   CPUs and wakers do.
   */
  lemma {:induction false} RunsInTurn(s: Sys, steps: seq<Step>, s': Sys, c: Cpu, p: nat, k: nat)
    requires Inv(s) && Reaches(s, steps, s') && Quiet(s, steps, c, p)
    requires p < PRIORITIES && c in s.current && RunList(c, p) in s.lists && k < |s.lists[RunList(c, p)]|
    ensures var l, n := RunList(c, p), CountTurns(steps, c);
            && (n <= k ==> l in s'.lists && k - n < |s'.lists[l]| && s'.lists[l][k - n] == s.lists[l][k])
            && (n == k + 1 && steps[|steps| - 1] == Reschedule(c) ==> c in s'.current && s'.current[c] == s.lists[l][k])
    decreases |steps|
  {
    hide Inv, StepTo, Enabled, NoneAbove, Requeue;
    if steps != [] {
      var step, rest := steps[0], steps[1..];
      StepInv(s, step);
      RunStep(s, step, c, p);
      if step != Reschedule(c) {
        RunsInTurn(StepTo(s, step), rest, s', c, p, k);
      } else if k > 0 {
        RunsInTurn(StepTo(s, step), rest, s', c, p, k - 1);
      } else if rest != [] {
        LastTurns(rest, c);
      }
    }
  }

  lemma {:induction false} LastTurns(steps: seq<Step>, c: Cpu)
    requires steps != []
    ensures steps[|steps| - 1] == Reschedule(c) ==> CountTurns(steps, c) > 0
  {
    if |steps| > 1 { LastTurns(steps[1..], c); }
  }
}
