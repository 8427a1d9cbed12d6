/** How many threads a signal wakes up, and what the condition variable does to its lock, over runs of any threads. */
module SignalRuns {
  import opened ConditionVariable
  import opened MachineTypes

  // ---------- one signal gives one token ----------

  /** The step gives a token. */
  predicate Gives(s: State, e: Event)
  {
    e.action.Test? && s.sleepers > 0
  }

  /** The tokens that thread `t` gives in a run. */
  function GivenBy(t: nat, s: State, events: seq<Event>): nat
    requires Possible(s, events)
    decreases |events|
  {
    if events == [] then 0
    else
      var e := events[0];
      Bit(e.thread == t && Gives(s, e)) + GivenBy(t, Step(s, e.thread, e.action), events[1..])
  }

  predicate NoLeave(t: nat, events: seq<Event>)
  {
    events != [] ==> events[0] != Event(t, Leave) && NoLeave(t, events[1..])
  }

  /** Thread `t` is inside a plain signal that it called with the lock held or not. */
  predicate Signalling(s: State, t: nat, holds: bool)
  {
    && t < |s.threads|
    && s.threads[t] in {Testing(holds, false), Raised(holds, false), Leaving(holds, false)}
  }

  /** The tokens that the signal has still to give. */
  function Owed(s: State, t: nat): nat
    requires t < |s.threads|
  {
    if s.threads[t].Testing? then Bit(s.sleepers > 0) else 0
  }

  lemma SignalStep(s: State, t: nat, holds: bool, e: Event)
    requires Inv(s) && Signalling(s, t, holds) && Enabled(s, e.thread, e.action) && e != Event(t, Leave)
    ensures var r := Step(s, e.thread, e.action);
            Signalling(r, t, holds) && Bit(e.thread == t && Gives(s, e)) + Owed(r, t) == Owed(s, t)
  {
    OneInside(s, t);
    hide Balanced, BroadcastDone;
  }

  lemma {:induction false} SignalRun(s: State, t: nat, holds: bool, events: seq<Event>)
    requires Inv(s) && Signalling(s, t, holds) && Possible(s, events) && NoLeave(t, events)
    ensures var r := Run(s, events);
            Signalling(r, t, holds) && GivenBy(t, s, events) + Owed(r, t) == Owed(s, t)
    decreases |events|
  {
    hide Inv, Signalling, Owed, Step, Enabled, Gives;
    if events != [] {
      var e := events[0];
      StepKeepsInv(s, e.thread, e.action);
      SignalStep(s, t, holds, e);
      SignalRun(Step(s, e.thread, e.action), t, holds, events[1..]);
    }
  }

  /** From its entry to its end, whatever other threads do, a signal gives exactly one token if a waiter is counted when
      it enters, and none otherwise. */
  lemma SignalGivesOne(s: State, t: nat, events: seq<Event>)
    requires Reachable(s) && Enabled(s, t, EnterSignal(false))
    requires Possible(Step(s, t, EnterSignal(false)), events) && NoLeave(t, events)
    requires Enabled(Run(Step(s, t, EnterSignal(false)), events), t, Leave)
    ensures GivenBy(t, Step(s, t, EnterSignal(false)), events) == if s.sleepers > 0 then 1 else 0
  {
    var r := Step(s, t, EnterSignal(false));
    assert Inv(r) by {
      ReachableInv(s);
      StepKeepsInv(s, t, EnterSignal(false));
    }
    hide Reachable, Inv;
    SignalRun(r, t, s.threads[t].Locked?, events);
  }

  /** The tokens that plain signals give in a run, and the plain signals that begin in it. */
  function GivenBySignals(s: State, events: seq<Event>): nat
    requires Possible(s, events)
    decreases |events|
  {
    if events == [] then 0
    else
      var e := events[0];
      Bit(Gives(s, e) && !s.threads[e.thread].all) + GivenBySignals(Step(s, e.thread, e.action), events[1..])
  }

  function Signals(events: seq<Event>): nat
  {
    if events == [] then 0 else Bit(events[0].action == EnterSignal(false)) + Signals(events[1..])
  }

  /** A plain signal has begun and not yet looked at the counter. */
  predicate SignalBegun(s: State)
  {
    exists t :: 0 <= t < |s.threads| && s.threads[t].Testing? && !s.threads[t].all
  }

  lemma SignalBegunAfter(s: State, e: Event)
    requires Inv(s) && Enabled(s, e.thread, e.action)
    ensures var r := Step(s, e.thread, e.action);
            Bit(Gives(s, e) && !s.threads[e.thread].all) + Bit(SignalBegun(r))
            <= Bit(e.action == EnterSignal(false)) + Bit(SignalBegun(s))
  {
    var r, t := Step(s, e.thread, e.action), e.thread;
    if s.threads[t].HoldsInner() {
      OneInside(s, t);
    }
    assert forall u :: 0 <= u < |s.threads| && u != t ==> r.threads[u] == s.threads[u];
    if SignalBegun(r) && e.action != EnterSignal(false) {
      var u :| 0 <= u < |r.threads| && r.threads[u].Testing? && !r.threads[u].all;
      assert u != t && s.threads[u].Testing?;
    }
  }

  lemma {:induction false} SignalsBound(s: State, events: seq<Event>)
    requires Inv(s) && Possible(s, events)
    ensures GivenBySignals(s, events) + Bit(SignalBegun(Run(s, events))) <= Signals(events) + Bit(SignalBegun(s))
    decreases |events|
  {
    hide Inv, SignalBegun, Step, Enabled, Gives;
    if events != [] {
      var e := events[0];
      StepKeepsInv(s, e.thread, e.action);
      SignalBegunAfter(s, e);
      SignalsBound(Step(s, e.thread, e.action), events[1..]);
    }
  }

  /** Over every run from the start, plain signals give at most as many tokens as there are of them. */
  lemma SignalsGiveAtMostOneEach(n: nat, events: seq<Event>)
    requires n < TWO_32 && Possible(Initial(n), events)
    ensures GivenBySignals(Initial(n), events) <= Signals(events)
  {
    assert Inv(Initial(n)) by {
      NoWaiters(n);
    }
    SignalsBound(Initial(n), events);
  }

  // ---------- tokens come from signals and broadcasts only ----------

  function AllGiven(s: State, events: seq<Event>): nat
    requires Possible(s, events)
    decreases |events|
  {
    if events == [] then 0
    else Bit(Gives(s, events[0])) + AllGiven(Step(s, events[0].thread, events[0].action), events[1..])
  }

  function Downs(events: seq<Event>): nat
  {
    if events == [] then 0 else Bit(events[0].action.Down?) + Downs(events[1..])
  }

  /** Every token that is there was given and not yet taken. */
  lemma {:induction false} TokensAreGiven(s: State, events: seq<Event>)
    requires Possible(s, events)
    ensures Run(s, events).tokens == s.tokens + AllGiven(s, events) - Downs(events)
    decreases |events|
  {
    if events != [] {
      TokensAreGiven(Step(s, events[0].thread, events[0].action), events[1..]);
    }
  }

  // ---------- the lock ----------

  /** Whether a thread holds the lock after its own actions of a run: signals and broadcasts do not change it, `wait`
      gives it up and takes it again. */
  function HoldsAfter(t: nat, holds: bool, events: seq<Event>): bool
    decreases |events|
  {
    if events == [] then holds
    else
      var e := events[0];
      HoldsAfter(t, if e.thread != t then holds
                    else if e.action.Lock? || e.action.Relock? then true
                    else if e.action.Unlock? || e.action.ReleaseOuter? then false
                    else holds, events[1..])
  }

  lemma {:induction false} LockFollowsActions(s: State, t: nat, events: seq<Event>)
    requires t < |s.threads| && Possible(s, events)
    ensures t < |Run(s, events).threads|
    ensures Run(s, events).threads[t].HoldsOuter() == HoldsAfter(t, s.threads[t].HoldsOuter(), events)
    decreases |events|
  {
    if events != [] {
      LockFollowsActions(Step(s, events[0].thread, events[0].action), t, events[1..]);
    }
  }

  // ---------- a whole wait and signal ----------

  function SignalInside(t: nat): seq<Event>
  {
    [Event(t, EnterSignal(false))] + ([Event(t, Test)] + ([Event(t, Lower)] + ([Event(t, Leave)] + [])))
  }

  function SignalOnce(t: nat): seq<Event>
  {
    [Event(t, Lock)] + (SignalInside(t) + ([Event(t, Unlock)] + []))
  }

  function WakeUp(t: nat): seq<Event>
  {
    [Event(t, Down)] + ([Event(t, Relock)] + ([Event(t, Unlock)] + []))
  }

  lemma UpdateTwice<T>(s: seq<T>, t: nat, a: T, b: T)
    requires t < |s|
    ensures s[t := a][t := b] == s[t := b] && s[t := s[t]] == s
  {
  }

  /** The states of thread `t` inside a signal, one after the other. */
  function Inside(s: State, t: nat, pc: Pc, given: nat, lowered: nat): State
    requires t < |s.threads| && lowered <= s.sleepers
  {
    State(s.threads[t := pc], s.sleepers - lowered, s.tokens + given)
  }

  lemma InsideSteps(s: State, t: nat)
    requires t < |s.threads| && s.sleepers > 0
    ensures var s1, s2 := Inside(s, t, Testing(true, false), 0, 0), Inside(s, t, Raised(true, false), 1, 0);
            var s3, s4 := Inside(s, t, Leaving(true, false), 1, 1), Inside(s, t, Locked, 1, 1);
            && Enabled(s1, t, Test) && Step(s1, t, Test) == s2
            && Enabled(s2, t, Lower) && Step(s2, t, Lower) == s3
            && Enabled(s3, t, Leave) && Step(s3, t, Leave) == s4
  {
    UpdateTwice(s.threads, t, Testing(true, false), Raised(true, false));
    UpdateTwice(s.threads, t, Raised(true, false), Leaving(true, false));
    UpdateTwice(s.threads, t, Leaving(true, false), Locked);
    hide InnerFree, OuterFree;
  }

  lemma SignalInsideRuns(s: State, t: nat)
    requires InnerFree(s) && t < |s.threads| && s.threads[t].Locked? && s.sleepers > 0
    ensures Possible(s, SignalInside(t))
    ensures Run(s, SignalInside(t)) == State(s.threads, s.sleepers - 1, s.tokens + 1)
  {
    UpdateTwice(s.threads, t, Locked, Locked);
    InsideSteps(s, t);
    var s1, s2 := Inside(s, t, Testing(true, false), 0, 0), Inside(s, t, Raised(true, false), 1, 0);
    var s3, s4 := Inside(s, t, Leaving(true, false), 1, 1), Inside(s, t, Locked, 1, 1);
    assert Enabled(s, t, EnterSignal(false)) && Step(s, t, EnterSignal(false)) == s1;
    assert s4 == State(s.threads, s.sleepers - 1, s.tokens + 1);
    assert Possible(s4, []) && Run(s4, []) == s4;
    hide Run, Possible, Step, Inside, Enabled, InnerFree;
    RunOne(s3, t, Leave, []);
    RunOne(s2, t, Lower, [Event(t, Leave)] + []);
    RunOne(s1, t, Test, [Event(t, Lower)] + ([Event(t, Leave)] + []));
    RunOne(s, t, EnterSignal(false), [Event(t, Test)] + ([Event(t, Lower)] + ([Event(t, Leave)] + [])));
  }

  lemma SignalOnceRuns(s: State, t: nat)
    requires InnerFree(s) && OuterFree(s) && t < |s.threads| && s.threads[t].Outside? && s.sleepers > 0
    ensures Possible(s, SignalOnce(t))
    ensures Run(s, SignalOnce(t)) == State(s.threads, s.sleepers - 1, s.tokens + 1)
  {
    UpdateTwice(s.threads, t, Locked, Outside);
    var s1 := Inside(s, t, Locked, 0, 0);
    var s2, s3 := Inside(s, t, Locked, 1, 1), State(s.threads, s.sleepers - 1, s.tokens + 1);
    assert Enabled(s, t, Lock) && Step(s, t, Lock) == s1;
    assert InnerFree(s1);
    assert Enabled(s2, t, Unlock) && Step(s2, t, Unlock) == s3;
    assert Possible(s3, []) && Run(s3, []) == s3;
    SignalInsideRuns(s1, t);
    hide Run, Possible, Step, SignalInside, Enabled, InnerFree, OuterFree;
    RunOne(s2, t, Unlock, []);
    RunConcat(s1, SignalInside(t), [Event(t, Unlock)] + []);
    RunOne(s, t, Lock, SignalInside(t) + ([Event(t, Unlock)] + []));
  }

  lemma WakeUpRuns(s: State, t: nat)
    requires OuterFree(s) && t < |s.threads| && s.threads[t].WaitDown? && s.tokens > 0
    ensures Possible(s, WakeUp(t))
    ensures Run(s, WakeUp(t)) == State(s.threads[t := Outside], s.sleepers, s.tokens - 1)
  {
    var th := s.threads;
    UpdateTwice(th, t, WaitUp, Locked);
    UpdateTwice(th, t, Locked, Outside);
    var s1, s2 := State(th[t := WaitUp], s.sleepers, s.tokens - 1), State(th[t := Locked], s.sleepers, s.tokens - 1);
    var s3 := State(th[t := Outside], s.sleepers, s.tokens - 1);
    assert Step(s, t, Down) == s1 && OuterFree(s1) && Step(s1, t, Relock) == s2 && Step(s2, t, Unlock) == s3;
    assert Possible(s3, []) && Run(s3, []) == s3;
    hide Run, Possible, Step;
    RunOne(s2, t, Unlock, []);
    RunOne(s1, t, Relock, [Event(t, Unlock)] + []);
    RunOne(s, t, Down, [Event(t, Relock)] + ([Event(t, Unlock)] + []));
  }

  /** Whenever nobody holds a lock and somebody is counted, the signal of a thread that is outside lets any one waiter
      go on, and both are done: everything else is as before. */
  lemma SignalWakesWaiter(s: State, t: nat, u: nat)
    requires InnerFree(s) && OuterFree(s) && s.sleepers > 0 && t < |s.threads| && u < |s.threads|
    requires s.threads[t].WaitDown? && s.threads[u].Outside?
    ensures Possible(s, SignalOnce(u)) && Possible(Run(s, SignalOnce(u)), WakeUp(t))
    ensures Run(Run(s, SignalOnce(u)), WakeUp(t)) == State(s.threads[t := Outside], s.sleepers - 1, s.tokens)
  {
    SignalOnceRuns(s, u);
    WakeUpRuns(State(s.threads, s.sleepers - 1, s.tokens + 1), t);
    hide Run, Possible, SignalOnce, WakeUp;
  }
}
