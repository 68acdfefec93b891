/** Whole runs of threads that wait for events: what holds over every interleaving of their steps. */
module EventRuns {
  import opened Events

  ghost predicate AllEnabled(s: State, steps: seq<Step>)
    decreases |steps|
  {
    steps == [] || (Enabled(s, steps[0]) && AllEnabled(After(s, steps[0]), steps[1..]))
  }

  ghost function AfterAll(s: State, steps: seq<Step>): State
    requires AllEnabled(s, steps)
    decreases |steps|
  {
    if steps == [] then s else AfterAll(After(s, steps[0]), steps[1..])
  }

  /** An event as NtCreateEvent makes it. */
  function Created(kind: Kind, initial: bool): Event {
    Event(kind, initial, initial, 0, 0, 0, 0)
  }

  ghost predicate Initial(s: State) {
    && (forall e :: 0 <= e < |s.events| ==> s.events[e] == Created(s.events[e].kind, s.events[e].initial))
    && (forall t :: 0 <= t < |s.threads| ==> s.threads[t].Running?)
  }

  lemma {:induction false} RunConserves(s: State, steps: seq<Step>, e: nat)
    requires AllEnabled(s, steps) && e < |s.events| && Conserved(s.events[e])
    ensures |AfterAll(s, steps).events| == |s.events| && Conserved(AfterAll(s, steps).events[e])
    decreases |steps|
  {
    if steps != [] {
      StepConserves(s, steps[0], e);
      RunConserves(After(s, steps[0]), steps[1..], e);
    }
  }

  /** Over all interleavings, timed or not, a synchronization event lets no more waits succeed than
      it has been signaled, at the start and by NtSetEvent. */
  lemma SuccessesAreSignaled(s: State, steps: seq<Step>, e: nat)
    requires Initial(s) && AllEnabled(s, steps) && e < |s.events|
    ensures |AfterAll(s, steps).events| == |s.events|
    ensures var v := AfterAll(s, steps).events[e];
      v.kind.SynchronizationEvent? ==> v.successes <= Count(v.initial) + v.sets
  {
    assert s.events[e] == Created(s.events[e].kind, s.events[e].initial);
    RunConserves(s, steps, e);
  }

  /** No step of the run loses a wakeup. */
  ghost predicate NoStepLoses(s: State, steps: seq<Step>, e: nat)
    requires AllEnabled(s, steps) && e < |s.events|
    decreases |steps|
  {
    steps == [] || (!Loses(s, steps[0], e) && NoStepLoses(After(s, steps[0]), steps[1..], e))
  }

  lemma {:induction false} RunKeeps(s: State, steps: seq<Step>, e: nat)
    requires AllEnabled(s, steps) && e < |s.events| && NoneLost(s, e) && NoStepLoses(s, steps, e)
    ensures NoneLost(AfterAll(s, steps), e)
    decreases |steps|
  {
    if steps != [] {
      StepKeeps(s, steps[0], e);
      RunKeeps(After(s, steps[0]), steps[1..], e);
    }
  }

  /** No wait on the event has a Timeout. */
  ghost predicate Untimed(steps: seq<Step>, e: nat) {
    forall i :: 0 <= i < |steps| && steps[i].Wait? && steps[i].event == e ==> !steps[i].timed
  }

  /** What rules out the step that loses: the kind of event, waits without a Timeout, or no second
      thread. */
  ghost predicate Guarded(s: State, e: nat)
    requires e < |s.events|
  {
    s.events[e].kind.NotificationEvent? || |s.threads| < 2
    || forall t: nat :: IsBlocked(s, t, e) || IsWoken(s, t, e) ==> !s.threads[t].timed
  }

  lemma GuardedStep(s: State, step: Step, e: nat)
    requires Enabled(s, step) && e < |s.events| && NoneLost(s, e) && Guarded(s, e)
    ensures !Loses(s, step, e)
    ensures Untimed([step], e) || s.events[e].kind.NotificationEvent? || |s.threads| < 2 ==> Guarded(After(s, step), e)
  {
    var s' := After(s, step);
    assert s'.events[e].kind == s.events[e].kind;
    if s.events[e].kind.SynchronizationEvent? && |s.threads| >= 2 && Untimed([step], e) {
      assert [step][0] == step;
      forall t: nat | IsBlocked(s', t, e) || IsWoken(s', t, e) ensures !s'.threads[t].timed {
        assert IsBlocked(s, t, e) || IsWoken(s, t, e) || (step.Wait? && step.event == e && step.t == t);
      }
    }
  }

  lemma {:induction false} GuardedRun(s: State, steps: seq<Step>, e: nat)
    requires AllEnabled(s, steps) && e < |s.events| && NoneLost(s, e) && Guarded(s, e)
    requires Untimed(steps, e) || s.events[e].kind.NotificationEvent? || |s.threads| < 2
    ensures NoStepLoses(s, steps, e)
    decreases |steps|
  {
    if steps != [] {
      var s' := After(s, steps[0]);
      assert s'.events[e].kind == s.events[e].kind;
      GuardedStep(s, steps[0], e);
      StepKeeps(s, steps[0], e);
      GuardedRun(s', steps[1..], e);
    }
  }

  ghost predicate Leads(s: State, step: Step, s': State) {
    Enabled(s, step) && s' == After(s, step)
  }

  /** Two threads wait, the first with a Timeout; the event is set, which wakes the first; the first
      times out all the same. The event then stays signaled while the second thread stays blocked. */
  lemma LosingRunLoses(s: State, e: nat) returns (s1: State, s2: State, s3: State, s4: State, s5: State)
    requires Initial(s) && e < |s.events| && s.events[e].kind.SynchronizationEvent? && |s.threads| >= 2
    ensures Leads(s, Reset(e), s1) && Leads(s1, Wait(0, e, true), s2) && Leads(s2, Wait(1, e, false), s3)
    ensures Leads(s3, Set(e, {0}), s4) && Leads(s4, GiveUp(0), s5)
    ensures |s5.events| == |s.events| && s5.events[e].signaled && IsBlocked(s5, 1, e)
    ensures !NoneLost(s5, e) && forall u: nat :: !IsWoken(s5, u, e)
  {
    s1 := After(s, Reset(e));
    s2 := After(s1, Wait(0, e, true));
    s3 := After(s2, Wait(1, e, false));
    assert IsBlocked(s3, 0, e) && IsBlocked(s3, 1, e);
    s4 := After(s3, Set(e, {0}));
    s5 := After(s4, GiveUp(0));
    assert IsBlocked(s5, 1, e);
  }

  lemma OneStepMore(s: State, step: Step, s': State, steps: seq<Step>)
    requires Leads(s, step, s') && AllEnabled(s', steps)
    ensures AllEnabled(s, [step] + steps) && AfterAll(s, [step] + steps) == AfterAll(s', steps)
  {
    assert ([step] + steps)[0] == step && ([step] + steps)[1..] == steps;
  }

  lemma SomeRunLoses(s: State, e: nat) returns (steps: seq<Step>)
    requires Initial(s) && e < |s.events| && s.events[e].kind.SynchronizationEvent? && |s.threads| >= 2
    ensures AllEnabled(s, steps) && !NoneLost(AfterAll(s, steps), e)
  {
    var s1, s2, s3, s4, s5 := LosingRunLoses(s, e);
    var r4 := [GiveUp(0)] + [];
    var r3 := [Set(e, {0})] + r4;
    var r2 := [Wait(1, e, false)] + r3;
    var r1 := [Wait(0, e, true)] + r2;
    OneStepMore(s4, GiveUp(0), s5, []);
    OneStepMore(s3, Set(e, {0}), s4, r4);
    OneStepMore(s2, Wait(1, e, false), s3, r3);
    OneStepMore(s1, Wait(0, e, true), s2, r2);
    OneStepMore(s, Reset(e), s1, r1);
    steps := [Reset(e)] + r1;
  }

  /** Over all interleavings, no wakeup of an event is ever lost, exactly if it is a notification
      event, or no wait on it may have a Timeout, or there is no second thread. */
  lemma EventsAreSafe(s: State, e: nat, timeouts: bool)
    requires Initial(s) && e < |s.events|
    ensures (forall steps :: AllEnabled(s, steps) && (timeouts || Untimed(steps, e)) ==>
               NoneLost(AfterAll(s, steps), e))
      <==> s.events[e].kind.NotificationEvent? || !timeouts || |s.threads| < 2
  {
    if s.events[e].kind.NotificationEvent? || !timeouts || |s.threads| < 2 {
      forall steps | AllEnabled(s, steps) && (timeouts || Untimed(steps, e))
        ensures NoneLost(AfterAll(s, steps), e)
      {
        assert forall t: nat :: !IsBlocked(s, t, e) && !IsWoken(s, t, e);
        GuardedRun(s, steps, e);
        RunKeeps(s, steps, e);
      }
    } else {
      var steps := SomeRunLoses(s, e);
    }
  }

  // ---------------------------------------------------------------- how long a signal stands

  ghost predicate Sets(step: Step, e: nat) {
    step.Set? && step.event == e
  }

  ghost predicate Resets(step: Step, e: nat) {
    step.Reset? && step.event == e
  }

  /** None of the steps from i on resets e. */
  ghost predicate NoReset(steps: seq<Step>, e: nat, i: nat) {
    forall j :: i <= j < |steps| ==> !Resets(steps[j], e)
  }

  /** A NtSetEvent that no NtResetEvent follows. */
  ghost predicate LastSets(steps: seq<Step>, e: nat) {
    exists i :: 0 <= i < |steps| && Sets(steps[i], e) && NoReset(steps, e, i)
  }

  lemma NoResetBehind(step: Step, steps: seq<Step>, e: nat, i: nat)
    ensures NoReset([step] + steps, e, i + 1) <==> NoReset(steps, e, i)
  {
    var all := [step] + steps;
    if NoReset(all, e, i + 1) {
      forall j | i <= j < |steps| ensures !Resets(steps[j], e) {
        assert all[j + 1] == steps[j];
      }
    }
  }

  lemma FirstOfRun(step: Step, steps: seq<Step>, e: nat)
    ensures NoReset([step] + steps, e, 0) <==> !Resets(step, e) && NoReset(steps, e, 0)
    ensures LastSets([step] + steps, e) <==> LastSets(steps, e) || (Sets(step, e) && NoReset(steps, e, 0))
  {
    var all := [step] + steps;
    assert all[0] == step;
    NoResetBehind(step, steps, e, 0);
    if LastSets(steps, e) {
      var i :| 0 <= i < |steps| && Sets(steps[i], e) && NoReset(steps, e, i);
      NoResetBehind(step, steps, e, i);
      assert Sets(all[i + 1], e) && NoReset(all, e, i + 1);
    }
    if LastSets(all, e) && !(Sets(step, e) && NoReset(steps, e, 0)) {
      var i :| 0 <= i < |all| && Sets(all[i], e) && NoReset(all, e, i);
      if i > 0 {
        NoResetBehind(step, steps, e, i - 1);
        assert Sets(steps[i - 1], e);
      }
    }
  }

  /** Over all interleavings, a notification event is signaled exactly if the last NtSetEvent or
      NtResetEvent on it was NtSetEvent, or there was neither and it was signaled at the start: no
      wait, however it ends, takes its signal away. */
  lemma {:induction false} NotificationStays(s: State, steps: seq<Step>, e: nat)
    requires AllEnabled(s, steps) && e < |s.events| && s.events[e].kind.NotificationEvent?
    ensures |AfterAll(s, steps).events| == |s.events|
    ensures AfterAll(s, steps).events[e].signaled <==>
      LastSets(steps, e) || (s.events[e].signaled && NoReset(steps, e, 0))
    decreases |steps|
  {
    if steps != [] {
      var s1 := After(s, steps[0]);
      SignalChanges(s, steps[0], e);
      NotificationStays(s1, steps[1..], e);
      FirstOfRun(steps[0], steps[1..], e);
      assert [steps[0]] + steps[1..] == steps;
    }
  }

  // ---------------------------------------------------------------- waiting for any of several

  /** The first of the objects, from next on, that is signaled. */
  ghost function FirstSignaled(s: State, objects: seq<nat>, next: nat): (i: nat)
    requires next <= |objects| && forall k :: 0 <= k < |objects| ==> objects[k] < |s.events|
    ensures next <= i <= |objects| && (i < |objects| ==> s.events[objects[i]].signaled)
    ensures forall k :: next <= k < i ==> !s.events[objects[k]].signaled
    decreases |objects| - next
  {
    if next == |objects| || s.events[objects[next]].signaled then next else FirstSignaled(s, objects, next + 1)
  }

  /** A pass over the objects that no other step comes between. */
  ghost function Pass(t: nat, n: nat): seq<Step> {
    seq(n, _ => LookAtNext(t))
  }

  /** Up to the first signaled object, the pass looks at the objects one by one. */
  lemma {:induction false} PassGoesOn(s: State, t: nat, objects: seq<nat>, next: nat, k: nat)
    requires t < |s.threads| && s.threads[t] == Polling(objects, next) && next <= k <= |objects|
    requires forall j :: 0 <= j < |objects| ==> objects[j] < |s.events|
    requires forall j :: next <= j < k ==> !s.events[objects[j]].signaled
    ensures AllEnabled(s, Pass(t, k - next))
    ensures AfterAll(s, Pass(t, k - next)) == WithThread(s, t, Polling(objects, k))
    decreases k - next
  {
    if next == k {
      assert s.threads[t := Polling(objects, k)] == s.threads;
    } else {
      var s1 := After(s, LookAtNext(t));
      PassGoesOn(s1, t, objects, next + 1, k);
      var n := k - next;
      assert Pass(t, n)[0] == LookAtNext(t) && Pass(t, n)[1..] == Pass(t, n - 1);
      assert s1.threads[t := Polling(objects, k)] == s.threads[t := Polling(objects, k)];
    }
  }

  lemma {:induction false} RunThen(s: State, steps: seq<Step>, step: Step)
    requires AllEnabled(s, steps) && Enabled(AfterAll(s, steps), step)
    ensures AllEnabled(s, steps + [step]) && AfterAll(s, steps + [step]) == After(AfterAll(s, steps), step)
    decreases |steps|
  {
    var all := steps + [step];
    if steps == [] {
      assert all[0] == step && all[1..] == [];
    } else {
      RunThen(After(s, steps[0]), steps[1..], step);
      assert all[0] == steps[0] && all[1..] == steps[1..] + [step];
    }
  }

  /** Such a pass takes the first signaled object, and only that; where there is none it changes
      nothing but the thread's place. */
  lemma AnyTakesTheFirst(s: State, t: nat, objects: seq<nat>, next: nat)
    requires t < |s.threads| && s.threads[t] == Polling(objects, next) && next <= |objects|
    requires forall k :: 0 <= k < |objects| ==> objects[k] < |s.events|
    ensures var i := FirstSignaled(s, objects, next);
      if i == |objects| then
        AllEnabled(s, Pass(t, i - next)) && AfterAll(s, Pass(t, i - next)) == WithThread(s, t, Polling(objects, i))
      else
        AllEnabled(s, Pass(t, i - next + 1))
        && AfterAll(s, Pass(t, i - next + 1))
           == WithThread(WithEvent(s, objects[i], Taken(s.events[objects[i]])), t, Running)
  {
    var i := FirstSignaled(s, objects, next);
    PassGoesOn(s, t, objects, next, i);
    if i < |objects| {
      RunThen(s, Pass(t, i - next), LookAtNext(t));
      assert Pass(t, i - next + 1) == Pass(t, i - next) + [LookAtNext(t)];
      assert s.threads[t := Polling(objects, i)][t := Running] == s.threads[t := Running];
    }
  }

  lemma {:induction false} SameFirst(s: State, s': State, objects: seq<nat>, next: nat)
    requires next <= |objects| && s.events == s'.events
    requires forall k :: 0 <= k < |objects| ==> objects[k] < |s.events|
    ensures FirstSignaled(s, objects, next) == FirstSignaled(s', objects, next)
    decreases |objects| - next
  {
    if next < |objects| {
      SameFirst(s, s', objects, next + 1);
    }
  }

  /** The step that begins a pass of thread t over the objects: the call of NtWaitForMultipleObjects, or
      the next pass of one that is under way. */
  ghost predicate Begins(s: State, step: Step, t: nat, objects: seq<nat>) {
    && Enabled(s, step) && t < |s.threads| && (forall k :: 0 <= k < |objects| ==> objects[k] < |s.events|)
    && (step == StartAny(t, objects) || (step == PassAgain(t) && s.threads[t].objects == objects))
  }

  /** After step and n looks, thread t is about to look at object n. */
  ghost predicate ThenLooksAt(s: State, step: Step, t: nat, n: nat, e: nat) {
    && AllEnabled(s, [step] + Pass(t, n))
    && Enabled(AfterAll(s, [step] + Pass(t, n)), LookAtNext(t))
    && LooksAt(AfterAll(s, [step] + Pass(t, n)), LookAtNext(t), t, e)
  }

  lemma BeginsAtFirst(s: State, step: Step, t: nat, objects: seq<nat>) returns (s1: State)
    requires Begins(s, step, t, objects)
    ensures Leads(s, step, s1) && s1 == WithThread(s, t, Polling(objects, 0))
  {
    s1 := After(s, step);
  }

  lemma LooksInTurn(s: State, step: Step, t: nat, objects: seq<nat>, k: nat)
    requires Begins(s, step, t, objects) && k < |objects| && k <= FirstSignaled(s, objects, 0)
    ensures ThenLooksAt(s, step, t, k, objects[k])
  {
    var s1 := After(s, step);
    PassGoesOn(s1, t, objects, 0, k);
    OneStepMore(s, step, s1, Pass(t, k));
  }

  /** From the call on, and from every later pass on, undisturbed: all objects up to the first one that is
      signaled are looked at, in their order from the first on. */
  lemma WaitLooksInTurn(s: State, step: Step, t: nat, objects: seq<nat>)
    requires Begins(s, step, t, objects)
    ensures forall k :: 0 <= k < |objects| && (forall j :: 0 <= j < k ==> !s.events[objects[j]].signaled) ==>
      ThenLooksAt(s, step, t, k, objects[k])
  {
    forall k | 0 <= k < |objects| && (forall j :: 0 <= j < k ==> !s.events[objects[j]].signaled)
      ensures ThenLooksAt(s, step, t, k, objects[k])
    {
      LooksInTurn(s, step, t, objects, k);
    }
  }

  /** The wait is given up, or begins its next pass, only once all the objects have been looked at. */
  lemma PassIsWhole(s: State, step: Step, t: nat, objects: seq<nat>, k: nat)
    requires Begins(s, step, t, objects) && k <= FirstSignaled(s, objects, 0)
    ensures AllEnabled(s, [step] + Pass(t, k))
    ensures var sk := AfterAll(s, [step] + Pass(t, k));
      (Enabled(sk, GiveUp(t)) <==> k == |objects|) && (Enabled(sk, PassAgain(t)) <==> k == |objects|)
  {
    var s1 := BeginsAtFirst(s, step, t, objects);
    PassGoesOn(s1, t, objects, 0, k);
    OneStepMore(s, step, s1, Pass(t, k));
  }

  /** The first of all the objects that is signaled is taken, which ends the wait. Where none is, all are
      looked at, and nothing changes but the thread's place. */
  lemma WaitTakesTheFirst(s: State, step: Step, t: nat, objects: seq<nat>)
    requires Begins(s, step, t, objects)
    ensures var i := FirstSignaled(s, objects, 0);
      if i == |objects| then
        var run := [step] + Pass(t, |objects|);
        AllEnabled(s, run) && AfterAll(s, run) == WithThread(s, t, Polling(objects, |objects|))
      else
        var e, run := objects[i], [step] + Pass(t, i + 1);
        && AllEnabled(s, run) && AfterAll(s, run).threads == s.threads[t := Running]
        && AfterAll(s, run).events == s.events[e := s.events[e].(
              signaled := s.events[e].kind.NotificationEvent?, successes := s.events[e].successes + 1)]
  {
    var s1 := BeginsAtFirst(s, step, t, objects);
    hide After, AllEnabled, AfterAll, Enabled, FirstSignaled, Begins, Leads, Look, LooksAt;
    var i := FirstSignaled(s, objects, 0);
    SameFirst(s, s1, objects, 0);
    AnyTakesTheFirst(s1, t, objects, 0);
    OneStepMore(s, step, s1, Pass(t, if i == |objects| then i else i + 1));
    assert s1.threads[t := Polling(objects, i)] == s.threads[t := Polling(objects, i)];
    assert s1.threads[t := Running] == s.threads[t := Running];
  }
}
