/** Event objects, step by step: each step is what one thread does while it holds the mutex of an
    event, or what the condition variable does to a thread that is blocked on it. */
module Events {

  datatype Kind = NotificationEvent | SynchronizationEvent

  /** The last five components count what has happened to the event: NtSetEvent calls, waits that
      ended in success, calls that found it signaled already, and signals that a reset took away. */
  datatype Event = Event(kind: Kind, signaled: bool, initial: bool,
                         sets: nat, successes: nat, absorbed: nat, discarded: nat)

  /** Blocked is in pthread_cond_wait, or in pthread_cond_timedwait if timed. Woken has been
      unblocked and not yet looked at the event again. Polling looks at its objects in turn, for
      NtWaitForMultipleObjects. */
  datatype Thread =
    | Running
    | Blocked(event: nat, timed: bool)
    | Woken(event: nat, timed: bool)
    | Polling(objects: seq<nat>, next: nat)

  datatype State = State(events: seq<Event>, threads: seq<Thread>)

  /** Unblock is a spurious wakeup, GiveUp a timeout or an error. POSIX lets pthread_cond_timedwait
      consume a signal and report a timeout all the same; the source then leaves without another
      look at the event. So a timed waiter may give up even when it has been woken. */
  datatype Step =
    | Wait(t: nat, event: nat, timed: bool)
    | LookAgain(t: nat)
    | Unblock(t: nat)
    | GiveUp(t: nat)
    | Set(event: nat, woken: set<nat>)
    | Reset(event: nat)
    | StartAny(t: nat, objects: seq<nat>)
    | LookAtNext(t: nat)
    | PassAgain(t: nat)

  ghost predicate IsBlocked(s: State, t: nat, e: nat) {
    t < |s.threads| && s.threads[t].Blocked? && s.threads[t].event == e
  }

  ghost predicate IsWoken(s: State, t: nat, e: nat) {
    t < |s.threads| && s.threads[t].Woken? && s.threads[t].event == e
  }

  /** The event after a wait on it has succeeded. */
  function Taken(e: Event): Event {
    e.(signaled := e.kind.NotificationEvent?, successes := e.successes + 1)
  }

  function WithEvent(s: State, e: nat, v: Event): State
    requires e < |s.events|
  {
    s.(events := s.events[e := v])
  }

  function WithThread(s: State, t: nat, v: Thread): State
    requires t < |s.threads|
  {
    s.(threads := s.threads[t := v])
  }

  /** Thread t looks at event e: it takes the signal and goes on, or does otherwise. */
  function Look(s: State, t: nat, e: nat, otherwise: Thread): State
    requires t < |s.threads| && e < |s.events|
  {
    if s.events[e].signaled then WithThread(WithEvent(s, e, Taken(s.events[e])), t, Running)
    else WithThread(s, t, otherwise)
  }

  /** Broadcast unblocks all threads blocked on the event; signal at least one, if there is one. */
  ghost predicate WakesRightly(s: State, e: nat, woken: set<nat>)
    requires e < |s.events|
  {
    && (forall t :: t in woken ==> IsBlocked(s, t, e))
    && if s.events[e].kind.NotificationEvent? then forall t :: IsBlocked(s, t, e) ==> t in woken
       else (exists t :: IsBlocked(s, t, e)) ==> woken != {}
  }

  function Roused(v: Thread, woken: bool): Thread {
    if woken && v.Blocked? then Woken(v.event, v.timed) else v
  }

  function AfterSet(s: State, e: nat, woken: set<nat>): State
    requires e < |s.events|
  {
    var v := s.events[e];
    State(s.events[e := v.(signaled := true, sets := v.sets + 1,
                            absorbed := v.absorbed + if v.signaled then 1 else 0)],
          seq(|s.threads|, t requires 0 <= t < |s.threads| => Roused(s.threads[t], t in woken)))
  }

  function AfterReset(s: State, e: nat): State
    requires e < |s.events|
  {
    var v := s.events[e];
    WithEvent(s, e, v.(signaled := false, discarded := v.discarded + if v.signaled then 1 else 0))
  }

  predicate MayGiveUp(v: Thread) {
    match v
    case Running => false
    case Blocked(_, _) => true
    case Woken(_, timed) => timed
    case Polling(objects, next) => next >= |objects|
  }

  ghost predicate Enabled(s: State, step: Step) {
    match step
    case Wait(t, e, timed) => t < |s.threads| && s.threads[t].Running? && e < |s.events|
    case LookAgain(t) => t < |s.threads| && s.threads[t].Woken? && s.threads[t].event < |s.events|
    case Unblock(t) => t < |s.threads| && s.threads[t].Blocked?
    case GiveUp(t) => t < |s.threads| && MayGiveUp(s.threads[t])
    case Set(e, woken) => e < |s.events| && WakesRightly(s, e, woken)
    case Reset(e) => e < |s.events|
    case StartAny(t, objects) =>
      && t < |s.threads| && s.threads[t].Running? && objects != []
      && forall i :: 0 <= i < |objects| ==> objects[i] < |s.events|
    case LookAtNext(t) =>
      && t < |s.threads| && s.threads[t].Polling? && s.threads[t].next < |s.threads[t].objects|
      && s.threads[t].objects[s.threads[t].next] < |s.events|
    case PassAgain(t) => t < |s.threads| && s.threads[t].Polling? && s.threads[t].next >= |s.threads[t].objects|
  }

  ghost function After(s: State, step: Step): (s': State)
    requires Enabled(s, step)
    ensures |s'.events| == |s.events| && |s'.threads| == |s.threads|
  {
    match step
    case Wait(t, e, timed) => Look(s, t, e, Blocked(e, timed))
    case LookAgain(t) => Look(s, t, s.threads[t].event, Blocked(s.threads[t].event, s.threads[t].timed))
    case Unblock(t) => WithThread(s, t, Woken(s.threads[t].event, s.threads[t].timed))
    case GiveUp(t) => WithThread(s, t, Running)
    case Set(e, woken) => AfterSet(s, e, woken)
    case Reset(e) => AfterReset(s, e)
    case StartAny(t, objects) => WithThread(s, t, Polling(objects, 0))
    case LookAtNext(t) =>
      var p := s.threads[t];
      Look(s, t, p.objects[p.next], Polling(p.objects, p.next + 1))
    case PassAgain(t) => WithThread(s, t, Polling(s.threads[t].objects, 0))
  }

  // ---------------------------------------------------------------- what every step keeps

  ghost function Count(b: bool): nat {
    if b then 1 else 0
  }

  /** No wakeup is lost: while an event is signaled and a thread is blocked on it, another has been
      woken and not yet looked. On a notification event none is blocked then. */
  ghost predicate NoneLost(s: State, e: nat) {
    && e < |s.events|
    && (s.events[e].signaled && (exists t :: IsBlocked(s, t, e)) ==>
          s.events[e].kind.SynchronizationEvent? && exists u :: IsWoken(s, u, e))
  }

  /** Every signal of a synchronization event is accounted for. */
  ghost predicate Conserved(v: Event) {
    v.kind.SynchronizationEvent? ==>
      Count(v.initial) + v.sets == v.successes + Count(v.signaled) + v.absorbed + v.discarded
  }

  /** The one step that loses a wakeup: while the event is signaled and a thread is blocked on it,
      the only thread that has been woken gives up. */
  ghost predicate Loses(s: State, step: Step, e: nat)
    requires e < |s.events|
  {
    && step.GiveUp? && IsWoken(s, step.t, e) && (forall u :: IsWoken(s, u, e) ==> u == step.t)
    && s.events[e].signaled && exists u :: IsBlocked(s, u, e)
  }

  lemma LookKeeps(s: State, t: nat, e: nat, otherwise: Thread, f: nat)
    requires t < |s.threads| && e < |s.events| && f < |s.events| && NoneLost(s, f)
    requires s.threads[t].Woken? ==> s.threads[t].event == e
    requires otherwise.Blocked? ==> otherwise.event == e
    ensures NoneLost(Look(s, t, e, otherwise), f)
  {
    var s' := Look(s, t, e, otherwise);
    if s'.events[f].signaled && exists u :: IsBlocked(s', u, f) {
      var u :| IsBlocked(s', u, f);
      assert IsBlocked(s, u, f);
      var w :| IsWoken(s, w, f);
      assert IsWoken(s', w, f);
    }
  }

  /** Thread t leaves for v, which is not blocked. Unless t is the last one woken, nothing is lost. */
  lemma MoveKeeps(s: State, t: nat, v: Thread, f: nat)
    requires t < |s.threads| && f < |s.events| && NoneLost(s, f) && !v.Blocked?
    requires IsWoken(s, t, f) ==> v.Running?
    ensures NoneLost(WithThread(s, t, v), f) <==>
      !(IsWoken(s, t, f) && (forall u :: IsWoken(s, u, f) ==> u == t)
        && s.events[f].signaled && exists u :: IsBlocked(s, u, f))
  {
    var s' := WithThread(s, t, v);
    assert forall u :: IsWoken(s, u, f) && u != t ==> IsWoken(s', u, f);
    assert forall u :: IsBlocked(s', u, f) ==> IsBlocked(s, u, f);
    if IsWoken(s, t, f) {
      assert forall u :: IsBlocked(s, u, f) ==> IsBlocked(s', u, f);
      assert forall u :: IsWoken(s', u, f) ==> IsWoken(s, u, f) && u != t;
    }
  }

  lemma SetKeeps(s: State, e: nat, woken: set<nat>, f: nat)
    requires e < |s.events| && WakesRightly(s, e, woken) && f < |s.events| && NoneLost(s, f)
    ensures NoneLost(AfterSet(s, e, woken), f)
  {
    var s' := AfterSet(s, e, woken);
    if s'.events[f].signaled && exists u :: IsBlocked(s', u, f) {
      var u :| IsBlocked(s', u, f);
      assert IsBlocked(s, u, f) && u !in woken;
      if f == e {
        var w :| w in woken;
        assert IsBlocked(s, w, e) && IsWoken(s', w, f);
      } else {
        var w :| IsWoken(s, w, f);
        assert IsWoken(s', w, f);
      }
    }
  }

  lemma ResetKeeps(s: State, e: nat, f: nat)
    requires e < |s.events| && f < |s.events| && NoneLost(s, f)
    ensures NoneLost(AfterReset(s, e), f)
  {
    var s' := AfterReset(s, e);
    assert forall u :: IsBlocked(s', u, f) == IsBlocked(s, u, f);
    assert forall u :: IsWoken(s', u, f) == IsWoken(s, u, f);
  }

  /** Of all the steps of all threads, exactly that one loses a wakeup. */
  lemma StepKeeps(s: State, step: Step, e: nat)
    requires Enabled(s, step) && e < |s.events| && NoneLost(s, e)
    ensures NoneLost(After(s, step), e) <==> !Loses(s, step, e)
  {
    match step
    case Wait(t, f, timed) => LookKeeps(s, t, f, Blocked(f, timed), e);
    case LookAgain(t) => LookKeeps(s, t, s.threads[t].event, Blocked(s.threads[t].event, s.threads[t].timed), e);
    case Unblock(t) => MoveKeeps(s, t, Woken(s.threads[t].event, s.threads[t].timed), e);
    case GiveUp(t) => MoveKeeps(s, t, Running, e);
    case Set(f, woken) => SetKeeps(s, f, woken, e);
    case Reset(f) => ResetKeeps(s, f, e);
    case StartAny(t, objects) => MoveKeeps(s, t, Polling(objects, 0), e);
    case LookAtNext(t) =>
      var p := s.threads[t];
      LookKeeps(s, t, p.objects[p.next], Polling(p.objects, p.next + 1), e);
    case PassAgain(t) => MoveKeeps(s, t, Polling(s.threads[t].objects, 0), e);
  }

  lemma StepConserves(s: State, step: Step, e: nat)
    requires Enabled(s, step) && e < |s.events| && Conserved(s.events[e])
    ensures Conserved(After(s, step).events[e])
    ensures After(s, step).events[e].kind == s.events[e].kind
  {
  }

  /** Where a signal stands, a thread is blocked and no wakeup is lost, a step is enabled that lets a
      wait succeed. */
  lemma SomeoneWillLook(s: State, e: nat, t: nat) returns (u: nat)
    requires e < |s.events| && NoneLost(s, e) && s.events[e].signaled && IsBlocked(s, t, e)
    ensures Enabled(s, LookAgain(u))
    ensures var s' := After(s, LookAgain(u));
      s'.threads[u].Running? && s'.events[e] == Taken(s.events[e]) && !s'.events[e].signaled
  {
    u :| IsWoken(s, u, e);
  }

  // ---------------------------------------------------------------- what a step does

  /** The event that a step of thread t looks at, if it is one that looks at an event. */
  ghost predicate LooksAt(s: State, step: Step, t: nat, e: nat)
    requires Enabled(s, step)
  {
    match step
    case Wait(u, f, _) => u == t && f == e
    case LookAgain(u) => u == t && s.threads[u].event == e
    case LookAtNext(u) => u == t && s.threads[u].objects[s.threads[u].next] == e
    case _ => false
  }

  /** A wait ends in success exactly where a thread looks at an event that is signaled. A thread that
      looks in vain blocks on the event, with its Timeout if it has one, or goes on to its next object. */
  lemma LookEnds(s: State, step: Step, t: nat, e: nat)
    requires Enabled(s, step) && t < |s.threads| && e < |s.events|
    ensures var v, v' := s.events[e], After(s, step).events[e];
      v'.successes == v.successes + Count(v.signaled && exists u :: LooksAt(s, step, u, e))
    ensures LooksAt(s, step, t, e) ==>
      var now, then0 := s.threads[t], After(s, step).threads[t];
      if s.events[e].signaled then then0.Running?
      else match step
        case Wait(_, _, timed) => then0 == Blocked(e, timed)
        case LookAgain(_) => then0 == Blocked(e, now.timed)
        case _ => then0.Polling? && then0.objects == now.objects && then0.next == now.next + 1
  {
    assert LooksAt(s, step, t, e) ==> exists u :: LooksAt(s, step, u, e);
    if step.Wait? {
      assert LooksAt(s, step, step.t, step.event);
    } else if step.LookAgain? {
      assert LooksAt(s, step, step.t, s.threads[step.t].event);
    } else if step.LookAtNext? {
      assert LooksAt(s, step, step.t, s.threads[step.t].objects[s.threads[step.t].next]);
    }
  }

  /** The state of an event changes by a signal, a reset, or a look that takes a signal of a
      synchronization event, and by nothing else. */
  lemma SignalChanges(s: State, step: Step, e: nat)
    requires Enabled(s, step) && e < |s.events|
    ensures After(s, step).events[e].signaled <==>
      if step.Set? && step.event == e then true
      else if step.Reset? && step.event == e then false
      else s.events[e].signaled
           && (s.events[e].kind.NotificationEvent? || !exists u :: LooksAt(s, step, u, e))
    ensures var v, v' := s.events[e], After(s, step).events[e];
      v'.kind == v.kind && v'.initial == v.initial && v'.sets == v.sets + Count(step.Set? && step.event == e)
  {
    if step.Wait? {
      assert LooksAt(s, step, step.t, step.event);
    } else if step.LookAgain? {
      assert LooksAt(s, step, step.t, s.threads[step.t].event);
    } else if step.LookAtNext? {
      assert LooksAt(s, step, step.t, s.threads[step.t].objects[s.threads[step.t].next]);
    }
  }

  /** A step moves its own thread only; a signal moves those it wakes, a spurious wakeup its thread,
      and both leave them waiting for the same event, with the same Timeout. */
  lemma ThreadMoves(s: State, step: Step, t: nat)
    requires Enabled(s, step) && t < |s.threads|
    ensures var now, then0 := s.threads[t], After(s, step).threads[t];
      match step
      case Reset(_) => then0 == now
      case Set(_, woken) =>
        if t in woken then now.Blocked? && then0 == Woken(now.event, now.timed) else then0 == now
      case Unblock(u) => then0 == if u == t then Woken(now.event, now.timed) else now
      case GiveUp(u) => then0 == if u == t then Running else now
      case _ => step.t != t ==> then0 == now
  {
    if step.Set? && t in step.woken {
      assert IsBlocked(s, t, step.event);
    }
  }
}
