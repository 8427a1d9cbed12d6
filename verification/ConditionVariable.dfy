/** The condition variable that is built from two mutexes, a counter and a semaphore where the system has none.
    Each step is one thread's next lock, unlock, counter or semaphore operation; all interleavings are possible. */
module ConditionVariable {
  import opened MachineTypes

  /** Where a thread is; `outer` is the lock of the condition variable, `inner` the one that guards the counter. */
  datatype Pc =
    | Outside
    | Locked                          // holds outer
    | WaitEntered                     // in wait: holds outer and inner
    | WaitUncounted                   // outer released, inner held
    | WaitCounted                     // counted, inner held
    | WaitDown                        // inner released, about to take a token
    | WaitUp                          // token taken, about to lock outer again
    | Testing(holds: bool, all: bool) // in signal or broadcast: holds inner, and outer if `holds`
    | Raised(holds: bool, all: bool)  // token given, counter not yet lowered
    | Leaving(holds: bool, all: bool) // about to release inner
  {
    predicate HoldsInner()
    {
      WaitEntered? || WaitUncounted? || WaitCounted? || Testing? || Raised? || Leaving?
    }

    predicate HoldsOuter()
    {
      Locked? || WaitEntered? || ((Testing? || Raised? || Leaving?) && holds)
    }

    /** Registered as a waiter and without a token. */
    predicate Pending() { WaitCounted? || WaitDown? }
  }

  datatype State = State(threads: seq<Pc>, sleepers: UInt32, tokens: nat)

  datatype Action =
    | Lock | Unlock
    | EnterWait | ReleaseOuter | Count | ReleaseInner | Down | Relock
    | EnterSignal(all: bool) | Test | Lower | Leave

  predicate InnerFree(s: State)
  {
    forall t :: 0 <= t < |s.threads| ==> !s.threads[t].HoldsInner()
  }

  predicate OuterFree(s: State)
  {
    forall t :: 0 <= t < |s.threads| ==> !s.threads[t].HoldsOuter()
  }

  predicate Enabled(s: State, t: nat, a: Action)
  {
    && t < |s.threads|
    && var pc := s.threads[t];
       match a
       case Lock => pc.Outside? && OuterFree(s)
       case Unlock => pc.Locked?
       case EnterWait => pc.Locked? && InnerFree(s)
       case ReleaseOuter => pc.WaitEntered?
       case Count => pc.WaitUncounted?
       case ReleaseInner => pc.WaitCounted?
       case Down => pc.WaitDown? && s.tokens > 0
       case Relock => pc.WaitUp? && OuterFree(s)
       case EnterSignal(_) => (pc.Outside? || pc.Locked?) && InnerFree(s)
       case Test => pc.Testing?
       case Lower => pc.Raised?
       case Leave => pc.Leaving?
  }

  function Move(s: State, t: nat, pc: Pc): State
    requires t < |s.threads|
  {
    s.(threads := s.threads[t := pc])
  }

  function Step(s: State, t: nat, a: Action): State
    requires Enabled(s, t, a)
  {
    var pc := s.threads[t];
    match a
    case Lock => Move(s, t, Locked)
    case Unlock => Move(s, t, Outside)
    case EnterWait => Move(s, t, WaitEntered)
    case ReleaseOuter => Move(s, t, WaitUncounted)
    case Count => Move(s.(sleepers := Add32(s.sleepers, 1)), t, WaitCounted)
    case ReleaseInner => Move(s, t, WaitDown)
    case Down => Move(s.(tokens := s.tokens - 1), t, WaitUp)
    case Relock => Move(s, t, Locked)
    case EnterSignal(all) => Move(s, t, Testing(pc.Locked?, all))
    case Test =>
      if s.sleepers > 0 then Move(s.(tokens := s.tokens + 1), t, Raised(pc.holds, pc.all))
      else Move(s, t, Leaving(pc.holds, pc.all))
    case Lower =>
      var next := if pc.all then Testing(pc.holds, true) else Leaving(pc.holds, false);
      Move(s.(sleepers := Sub32(s.sleepers, 1)), t, next)
    case Leave => Move(s, t, if pc.holds then Locked else Outside)
  }

  function Initial(n: nat): State
  {
    State(seq(n, _ => Outside), 0, 0)
  }

  // ---------- counting ----------

  function PendingSet(threads: seq<Pc>): set<nat>
  {
    set t: nat | t < |threads| && threads[t].Pending()
  }

  function Waiters(threads: seq<Pc>): nat
  {
    |PendingSet(threads)|
  }

  function Bit(b: bool): nat { if b then 1 else 0 }

  lemma {:induction false} AtMost(s: set<nat>, n: nat)
    requires forall t :: t in s ==> t < n
    ensures |s| <= n
  {
    if n == 0 {
      assert s == {};
    } else {
      AtMost(s - {n - 1}, n - 1);
    }
  }

  lemma WaitersBounds(threads: seq<Pc>)
    ensures Waiters(threads) <= |threads|
    ensures forall t :: 0 <= t < |threads| && threads[t].Pending() ==> Waiters(threads) > 0
  {
    AtMost(PendingSet(threads), |threads|);
    if t :| 0 <= t < |threads| && threads[t].Pending() {
      assert t in PendingSet(threads);
    }
  }

  /** Some thread that does not wait leaves room below the number of threads. */
  lemma WaitersBelow(threads: seq<Pc>, t: nat)
    requires t < |threads| && !threads[t].Pending()
    ensures Waiters(threads) < |threads|
  {
    var all := PendingSet(threads) + {t};
    assert forall u :: u in all ==> u < |threads|;
    AtMost(all, |threads|);
  }

  lemma PendingUpdate(threads: seq<Pc>, t: nat, pc: Pc)
    requires t < |threads|
    ensures PendingSet(threads[t := pc]) == PendingSet(threads) - {t} + (if pc.Pending() then {t} else {})
  {
  }

  lemma WaitersUpdate(threads: seq<Pc>, t: nat, pc: Pc)
    requires t < |threads|
    ensures Waiters(threads[t := pc]) == Waiters(threads) - Bit(threads[t].Pending()) + Bit(pc.Pending())
  {
    PendingUpdate(threads, t, pc);
  }

  lemma NoWaiters(n: nat)
    ensures Waiters(Initial(n).threads) == 0
  {
    assert PendingSet(Initial(n).threads) == {};
  }

  // ---------- the invariant ----------

  predicate Exclusive(s: State)
  {
    && (forall t, u :: 0 <= t < u < |s.threads| ==> !(s.threads[t].HoldsInner() && s.threads[u].HoldsInner()))
    && (forall t, u :: 0 <= t < u < |s.threads| ==> !(s.threads[t].HoldsOuter() && s.threads[u].HoldsOuter()))
  }

  predicate SomeRaised(s: State)
  {
    exists t :: 0 <= t < |s.threads| && s.threads[t].Raised?
  }

  /** Every waiter without a token is counted or has a token reserved; between giving a token and lowering the
      counter one waiter is both. */
  predicate Balanced(s: State)
  {
    && Waiters(s.threads) + Bit(SomeRaised(s)) == s.sleepers + s.tokens
    && (SomeRaised(s) ==> s.sleepers > 0)
  }

  predicate Inv(s: State)
  {
    |s.threads| < TWO_32 && Exclusive(s) && Balanced(s) && BroadcastDone(s)
  }

  lemma StepKeepsExclusive(s: State, t: nat, a: Action)
    requires Exclusive(s) && Enabled(s, t, a)
    ensures Exclusive(Step(s, t, a))
  {
    var r := Step(s, t, a);
    assert r.threads[t].HoldsInner() ==> s.threads[t].HoldsInner() || InnerFree(s);
    assert r.threads[t].HoldsOuter() ==> s.threads[t].HoldsOuter() || OuterFree(s);
  }

  lemma OneInside(s: State, t: nat)
    requires Exclusive(s) && t < |s.threads| && s.threads[t].HoldsInner()
    ensures forall v :: 0 <= v < |s.threads| && v != t ==> !s.threads[v].HoldsInner()
  {
  }

  /** Only the thread that moves can be, or stop being, between giving a token and lowering the counter. */
  lemma RaisedAfter(s: State, t: nat, a: Action)
    requires Exclusive(s) && Enabled(s, t, a)
    ensures var r := Step(s, t, a);
            && (a.Test? ==> !SomeRaised(s) && (SomeRaised(r) <==> r.threads[t].Raised?))
            && (a.Lower? ==> SomeRaised(s) && !SomeRaised(r))
            && (!a.Test? && !a.Lower? ==> (SomeRaised(r) <==> SomeRaised(s)))
  {
    var r := Step(s, t, a);
    assert forall u :: 0 <= u < |s.threads| && u != t ==> r.threads[u] == s.threads[u];
    if s.threads[t].HoldsInner() {
      OneInside(s, t);
    }
    if SomeRaised(s) && !a.Lower? {
      var u :| 0 <= u < |s.threads| && s.threads[u].Raised?;
      assert u != t ==> r.threads[u].Raised?;
    }
  }

  lemma WaitersAfter(s: State, t: nat, a: Action)
    requires Enabled(s, t, a)
    ensures Waiters(Step(s, t, a).threads) == Waiters(s.threads) + Bit(a.Count?) - Bit(a.Down?)
    ensures a.Count? ==> Waiters(s.threads) < |s.threads|
  {
    WaitersUpdate(s.threads, t, Step(s, t, a).threads[t]);
    if a.Count? {
      WaitersBelow(s.threads, t);
    }
  }

  /** A broadcast leaves only when nobody is counted, and nobody else counts while it holds the inner lock. */
  predicate BroadcastDone(s: State)
  {
    forall t :: 0 <= t < |s.threads| && s.threads[t].Leaving? && s.threads[t].all ==> s.sleepers == 0
  }

  lemma StepKeepsBroadcastDone(s: State, t: nat, a: Action)
    requires Exclusive(s) && BroadcastDone(s) && Enabled(s, t, a)
    ensures BroadcastDone(Step(s, t, a))
  {
    var r := Step(s, t, a);
    assert forall u :: 0 <= u < |s.threads| && u != t ==> r.threads[u] == s.threads[u];
    if s.threads[t].HoldsInner() {
      OneInside(s, t);
    }
  }

  lemma StepKeepsBalanced(s: State, t: nat, a: Action)
    requires Inv(s) && Enabled(s, t, a)
    ensures Balanced(Step(s, t, a)) && |Step(s, t, a).threads| == |s.threads|
  {
    WaitersAfter(s, t, a);
    RaisedAfter(s, t, a);
    WaitersBounds(s.threads);
    hide Waiters, SomeRaised, Exclusive, BroadcastDone;
  }

  lemma StepKeepsInv(s: State, t: nat, a: Action)
    requires Inv(s) && Enabled(s, t, a)
    ensures Inv(Step(s, t, a))
  {
    StepKeepsExclusive(s, t, a);
    StepKeepsBalanced(s, t, a);
    StepKeepsBroadcastDone(s, t, a);
    hide Step, Enabled, Exclusive, Balanced, BroadcastDone;
  }

  // ---------- runs ----------

  datatype Event = Event(thread: nat, action: Action)

  predicate Possible(s: State, events: seq<Event>)
    decreases |events|
  {
    events == []
    || (&& Enabled(s, events[0].thread, events[0].action)
        && Possible(Step(s, events[0].thread, events[0].action), events[1..]))
  }

  function Run(s: State, events: seq<Event>): State
    requires Possible(s, events)
    decreases |events|
  {
    if events == [] then s else Run(Step(s, events[0].thread, events[0].action), events[1..])
  }

  lemma {:induction false} RunKeepsInv(s: State, events: seq<Event>)
    requires Inv(s) && Possible(s, events)
    ensures Inv(Run(s, events))
    decreases |events|
  {
    hide Inv, Step, Enabled;
    if events != [] {
      var e := events[0];
      StepKeepsInv(s, e.thread, e.action);
      RunKeepsInv(Step(s, e.thread, e.action), events[1..]);
    }
  }

  ghost predicate Reachable(s: State)
  {
    exists n: nat, events :: n < TWO_32 && Possible(Initial(n), events) && s == Run(Initial(n), events)
  }

  lemma ReachableInv(s: State)
    requires Reachable(s)
    ensures Inv(s)
  {
    var n: nat, events :| n < TWO_32 && Possible(Initial(n), events) && s == Run(Initial(n), events);
    NoWaiters(n);
    assert Inv(Initial(n));
    RunKeepsInv(Initial(n), events);
  }

  /** Whenever nobody is inside an internally locked section, the waiters are exactly the counted ones and those
      with a token reserved; the counter never wraps round. */
  lemma WaitersAreAccounted(s: State)
    requires Reachable(s) && InnerFree(s)
    ensures Waiters(s.threads) == s.sleepers + s.tokens
  {
    hide Reachable;
    ReachableInv(s);
  }

  /** No lost wakeup: a signal or broadcast that looks at the counter finds every thread that released the outer
      lock in `wait` counted, and if any of them waits, there is a token after its look: a new one if some waiter
      had none. */
  lemma SignalReachesWaiters(s: State, t: nat, u: nat)
    requires Reachable(s) && Enabled(s, t, Test) && u < |s.threads| && s.threads[u].WaitDown?
    ensures var r := Step(s, t, Test);
            && (forall v :: 0 <= v < |s.threads| ==> !s.threads[v].WaitUncounted?)
            && r.tokens > 0
            && (s.tokens < Waiters(s.threads) ==> r.tokens == s.tokens + 1)
  {
    hide Reachable;
    ReachableInv(s);
    OneInside(s, t);
    WaitersBounds(s.threads);
    assert s.threads[u].Pending();
  }

  /** Right after a broadcast there is a token for every waiter. */
  lemma BroadcastReachesAll(s: State, t: nat)
    requires Reachable(s) && t < |s.threads| && s.threads[t].Leaving? && s.threads[t].all
    ensures s.sleepers == 0 && s.tokens == Waiters(s.threads)
  {
    hide Reachable;
    ReachableInv(s);
    OneInside(s, t);
  }

  // ---------- after a broadcast ----------

  predicate NoSignals(events: seq<Event>)
  {
    forall i :: 0 <= i < |events| ==> !events[i].action.EnterSignal?
  }

  predicate NobodySignals(s: State)
  {
    forall t :: 0 <= t < |s.threads| ==> !s.threads[t].Testing? && !s.threads[t].Raised?
  }

  /** Those of the waiters `asleep` that have not taken a token since. */
  function StillWaiting(asleep: set<nat>, events: seq<Event>): set<nat>
    decreases |events|
  {
    if events == [] then asleep
    else StillWaiting(if events[0].action.Down? then asleep - {events[0].thread} else asleep, events[1..])
  }

  /** How many tokens other threads took meanwhile. */
  function TakenByOthers(asleep: set<nat>, events: seq<Event>): nat
    decreases |events|
  {
    if events == [] then 0
    else if !events[0].action.Down? then TakenByOthers(asleep, events[1..])
    else Bit(events[0].thread !in asleep) + TakenByOthers(asleep - {events[0].thread}, events[1..])
  }

  lemma {:induction false} TokensAfter(s: State, asleep: set<nat>, events: seq<Event>)
    requires Possible(s, events) && NoSignals(events) && NobodySignals(s)
    requires forall t :: t in asleep ==> t < |s.threads| && s.threads[t].Pending()
    ensures var r, left := Run(s, events), StillWaiting(asleep, events);
            && s.tokens - |asleep| == r.tokens - |left| + TakenByOthers(asleep, events)
            && forall t :: t in left ==> t in asleep && t < |r.threads| && r.threads[t].Pending()
    decreases |events|
  {
    if events != [] {
      var e := events[0];
      var r := Step(s, e.thread, e.action);
      assert forall u :: 0 <= u < |s.threads| && u != e.thread ==> r.threads[u] == s.threads[u];
      assert NoSignals(events[1..]) by {
        assert forall i :: 0 <= i < |events| - 1 ==> events[1..][i] == events[i + 1];
      }
      TokensAfter(r, if e.action.Down? then asleep - {e.thread} else asleep, events[1..]);
    }
  }

  /** The promise of a broadcast, and its exact condition: while nobody signals again, there is a token for every
      thread that was waiting at the broadcast and still is, exactly if no thread that began to wait later has
      taken one. */
  lemma BroadcastHoldsIff(s: State, t: nat, events: seq<Event>)
    requires Reachable(s) && t < |s.threads| && s.threads[t].Leaving? && s.threads[t].all
    requires Possible(s, events) && NoSignals(events)
    ensures var r, asleep := Run(s, events), PendingSet(s.threads);
            var left := StillWaiting(asleep, events);
            && (forall u :: u in left ==> u in asleep && u < |r.threads| && r.threads[u].Pending())
            && (r.tokens >= |left| <==> TakenByOthers(asleep, events) == 0)
  {
    hide Reachable;
    ReachableInv(s);
    BroadcastReachesAll(s, t);
    OneInside(s, t);
    TokensAfter(s, PendingSet(s.threads), events);
  }

  // ---------- a later waiter takes the token ----------

  lemma {:induction false} RunConcat(s: State, first: seq<Event>, second: seq<Event>)
    requires Possible(s, first) && Possible(Run(s, first), second)
    ensures Possible(s, first + second) && Run(s, first + second) == Run(Run(s, first), second)
    decreases |first|
  {
    if first == [] {
      assert [] + second == second;
    } else {
      RunConcat(Step(s, first[0].thread, first[0].action), first[1..], second);
      assert (first + second)[0] == first[0] && (first + second)[1..] == first[1..] + second;
    }
  }

  lemma RunOne(s: State, t: nat, a: Action, rest: seq<Event>)
    requires Enabled(s, t, a) && Possible(Step(s, t, a), rest)
    ensures Possible(s, [Event(t, a)] + rest)
    ensures Run(s, [Event(t, a)] + rest) == Run(Step(s, t, a), rest)
  {
    assert ([Event(t, a)] + rest)[1..] == rest;
  }

  function Waiting(t: nat): seq<Event>
  {
    [Event(t, EnterWait)] + ([Event(t, ReleaseOuter)] + ([Event(t, Count)] + ([Event(t, ReleaseInner)] + [])))
  }

  /** A thread that holds the outer lock goes to wait. */
  lemma WaitingRuns(s: State, t: nat)
    requires InnerFree(s) && t < |s.threads| && s.threads[t].Locked?
    ensures Possible(s, Waiting(t))
    ensures Run(s, Waiting(t)) == Move(s.(sleepers := Add32(s.sleepers, 1)), t, WaitDown)
  {
    var s1 := Step(s, t, EnterWait);
    var s2 := Step(s1, t, ReleaseOuter);
    var s3 := Step(s2, t, Count);
    var s4 := Step(s3, t, ReleaseInner);
    RunOne(s3, t, ReleaseInner, []);
    RunOne(s2, t, Count, [Event(t, ReleaseInner)] + []);
    RunOne(s1, t, ReleaseOuter, [Event(t, Count)] + ([Event(t, ReleaseInner)] + []));
    RunOne(s, t, EnterWait, [Event(t, ReleaseOuter)] + ([Event(t, Count)] + ([Event(t, ReleaseInner)] + [])));
    assert s4.threads == s.threads[t := WaitDown];
  }

  function Broadcasting(t: nat): seq<Event>
  {
    [Event(t, EnterSignal(true))] + ([Event(t, Test)] + ([Event(t, Lower)] + ([Event(t, Test)] + [])))
  }

  /** A broadcast with one waiter, up to its last step. */
  lemma BroadcastingRuns(s: State, t: nat)
    requires InnerFree(s) && t < |s.threads| && s.threads[t].Locked? && s.sleepers == 1
    ensures Possible(s, Broadcasting(t))
    ensures Run(s, Broadcasting(t)) == Move(State(s.threads, 0, s.tokens + 1), t, Leaving(true, true))
  {
    var s1 := Step(s, t, EnterSignal(true));
    var s2 := Step(s1, t, Test);
    var s3 := Step(s2, t, Lower);
    var s4 := Step(s3, t, Test);
    RunOne(s3, t, Test, []);
    RunOne(s2, t, Lower, [Event(t, Test)] + []);
    RunOne(s1, t, Test, [Event(t, Lower)] + ([Event(t, Test)] + []));
    RunOne(s, t, EnterSignal(true), [Event(t, Test)] + ([Event(t, Lower)] + ([Event(t, Test)] + [])));
    assert s4.threads == s.threads[t := Leaving(true, true)];
  }

  function WaitAndBroadcast(): seq<Event>
  {
    [Event(0, Lock)] + (Waiting(0) + ([Event(1, Lock)] + Broadcasting(1)))
  }

  function WaitAndTake(): seq<Event>
  {
    [Event(1, Leave)] + (Waiting(1) + ([Event(1, Down)] + []))
  }

  lemma WaitAndBroadcastRuns()
    ensures Possible(Initial(2), WaitAndBroadcast())
    ensures Run(Initial(2), WaitAndBroadcast()) == State([WaitDown, Leaving(true, true)], 0, 1)
  {
    var i, s1, s2 := Initial(2), State([Locked, Outside], 0, 0), State([WaitDown, Outside], 1, 0);
    var s3, s4 := State([WaitDown, Locked], 1, 0), State([WaitDown, Leaving(true, true)], 0, 1);
    assert i.threads == [Outside, Outside] && Step(i, 0, Lock) == s1 && Step(s2, 1, Lock) == s3;
    assert Move(s1.(sleepers := Add32(s1.sleepers, 1)), 0, WaitDown) == s2;
    assert Move(State(s3.threads, 0, s3.tokens + 1), 1, Leaving(true, true)) == s4;
    hide Run, Possible, Waiting, Broadcasting, Step, Move;
    WaitingRuns(s1, 0);
    BroadcastingRuns(s3, 1);
    RunOne(s2, 1, Lock, Broadcasting(1));
    RunConcat(s1, Waiting(0), [Event(1, Lock)] + Broadcasting(1));
    RunOne(i, 0, Lock, Waiting(0) + ([Event(1, Lock)] + Broadcasting(1)));
  }

  lemma WaitAndTakeRuns()
    ensures var s := State([WaitDown, Leaving(true, true)], 0, 1);
            Possible(s, WaitAndTake()) && Run(s, WaitAndTake()) == State([WaitDown, WaitUp], 1, 0)
  {
    var s4, s5 := State([WaitDown, Leaving(true, true)], 0, 1), State([WaitDown, Locked], 0, 1);
    var s6, s7 := State([WaitDown, WaitDown], 1, 1), State([WaitDown, WaitUp], 1, 0);
    assert Step(s4, 1, Leave) == s5 && Step(s6, 1, Down) == s7;
    assert Move(s5.(sleepers := Add32(s5.sleepers, 1)), 1, WaitDown) == s6;
    assert Possible(s7, []) && Run(s7, []) == s7;
    hide Run, Possible, Waiting, Broadcasting, Step, Move;
    WaitingRuns(s5, 1);
    RunOne(s6, 1, Down, []);
    RunConcat(s5, Waiting(1), [Event(1, Down)] + []);
    RunOne(s4, 1, Leave, Waiting(1) + ([Event(1, Down)] + []));
  }

  /** From the start: one thread waits, another broadcasts, goes to wait itself and takes the token; the first one
      is still waiting, and there is no token left. */
  lemma LaterWaiterTakesToken()
    ensures var before, after := WaitAndBroadcast(), WaitAndTake();
            && Possible(Initial(2), before) && Possible(Run(Initial(2), before), after)
            && Run(Initial(2), before) == State([WaitDown, Leaving(true, true)], 0, 1)
            && Run(Run(Initial(2), before), after) == State([WaitDown, WaitUp], 1, 0)
  {
    WaitAndBroadcastRuns();
    WaitAndTakeRuns();
    hide Run, Possible, WaitAndBroadcast, WaitAndTake;
  }
}
