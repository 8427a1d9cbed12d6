/** The wait numbers of the settlement transaction. Any number of threads run it; a step is what one thread does
    between two lock boundaries, and the threads' steps interleave freely. A thread inside `wait` may wake up at
    any time, so the properties hold for every signalling discipline. */
module SettlementTickets {
  import opened MachineTypes

  /** The account numbers of one transaction's list of settlement results. */
  type Batch = seq<int>

  datatype Pc =
    | Idle
      /** holds the settlement mutex and talks to the payment instance */
    | Settling
      /** sleeps in `wait`, mutex released */
    | Waiting(number: UInt64, batch: Batch)
      /** its turn, mutex held */
    | Granted(number: UInt64, batch: Batch)
      /** database written if there was a connection, mutex released, login table not yet written */
    | Released(number: UInt64, batch: Batch)
      /** login table written, `nextSettleNr` not yet increased */
    | Committed(number: UInt64, batch: Batch)
  {
    predicate Ticketed() { Waiting? || Granted? || Released? || Committed? }

    predicate Served() { Granted? || Released? || Committed? }

    predicate HoldsMutex() { Settling? || Granted? }
  }

  datatype State = State(
    threads: seq<Pc>,
    nextSettleNr: UInt64,
    settleWaitNr: UInt64,
    arrivals: seq<Batch>,                 // batches in the order in which they got their numbers
    databaseCommits: seq<Option<Batch>>,  // what each turn wrote; nothing without a connection
    loginCommits: seq<Batch>)

  datatype Action =
    | Lock
    | LeaveEarly
    | TakeNumber(batch: Batch)
    | WakeUp
    | CommitDatabase(connected: bool)
    | CommitLogin
    | Advance

  /** 64-bit addition. */
  function Plus(a: UInt64, k: nat): UInt64
    requires k <= TWO_64
  {
    if a + k < TWO_64 then a + k else a + k - TWO_64
  }

  function Initial(n: nat): State
  {
    State(seq(n, _ => Idle), 0, 0, [], [], [])
  }

  predicate MutexFree(s: State)
  {
    forall t :: 0 <= t < |s.threads| ==> !s.threads[t].HoldsMutex()
  }

  function Move(s: State, t: nat, pc: Pc): State
    requires t < |s.threads|
  {
    s.(threads := s.threads[t := pc])
  }

  predicate Enabled(s: State, t: nat, a: Action)
  {
    && t < |s.threads|
    && match a
       case Lock => s.threads[t].Idle? && MutexFree(s)
       case LeaveEarly => s.threads[t].Settling?
       case TakeNumber(_) => s.threads[t].Settling?
       case WakeUp => s.threads[t].Waiting? && MutexFree(s)
       case CommitDatabase(_) => s.threads[t].Granted?
       case CommitLogin => s.threads[t].Released?
       case Advance => s.threads[t].Committed? && MutexFree(s)
  }

  /** The loop condition of the wait, evaluated with the mutex held. */
  function TestTurn(s: State, number: UInt64, batch: Batch): Pc
  {
    if number != s.nextSettleNr then Waiting(number, batch) else Granted(number, batch)
  }

  function Step(s: State, t: nat, a: Action): State
    requires Enabled(s, t, a)
  {
    var pc := s.threads[t];
    match a
    case Lock => Move(s, t, Settling)
    case LeaveEarly => Move(s, t, Idle)
    case TakeNumber(batch) =>
      var r := s.(arrivals := s.arrivals + [batch]);
      if s.nextSettleNr == s.settleWaitNr then
        Move(r.(nextSettleNr := 0, settleWaitNr := 1), t, Granted(0, batch))
      else
        Move(r.(settleWaitNr := Plus(s.settleWaitNr, 1)), t, TestTurn(s, s.settleWaitNr, batch))
    case WakeUp => Move(s, t, TestTurn(s, pc.number, pc.batch))
    case CommitDatabase(connected) =>
      var written := if connected then Some(pc.batch) else None;
      Move(s.(databaseCommits := s.databaseCommits + [written]), t, Released(pc.number, pc.batch))
    case CommitLogin =>
      Move(s.(loginCommits := s.loginCommits + [pc.batch]), t, Committed(pc.number, pc.batch))
    case Advance => Move(s.(nextSettleNr := Plus(s.nextSettleNr, 1)), t, Idle)
  }

  // ---------- the invariant ----------

  /** `queue` lists the threads that hold a number, oldest first: the numbers run from `nextSettleNr` to just
      below `settleWaitNr`, round the 64-bit corner if need be, and all but the first thread still wait. */
  predicate Numbered(s: State, queue: seq<nat>)
  {
    && |queue| < TWO_64
    && (forall k :: 0 <= k < |queue| ==> queue[k] < |s.threads| && s.threads[queue[k]].Ticketed())
    && (forall t {:trigger t in queue} :: 0 <= t < |s.threads| && s.threads[t].Ticketed() ==> t in queue)
    && (forall j, k :: 0 <= j < k < |queue| ==> queue[j] != queue[k])
    && (forall k :: 0 <= k < |queue| ==> s.threads[queue[k]].number == Plus(s.nextSettleNr, k))
    && (forall k :: 1 <= k < |queue| ==> s.threads[queue[k]].Waiting?)
    && s.settleWaitNr == Plus(s.nextSettleNr, |queue|)
  }

  /** The first `n` batches had their turn at the database: each wrote itself or nothing. */
  predicate HadTurns(db: seq<Option<Batch>>, arrivals: seq<Batch>, n: nat)
  {
    |db| == n <= |arrivals| && forall k :: 0 <= k < n ==> db[k] == None || db[k] == Some(arrivals[k])
  }

  predicate Written(s: State, queue: seq<nat>)
    requires Numbered(s, queue)
  {
    |queue| > 0 && (s.threads[queue[0]].Released? || s.threads[queue[0]].Committed?)
  }

  /** `done` batches have left the queue; the batch of the first thread is written where its phase says so. */
  predicate Logged(s: State, queue: seq<nat>, done: nat)
    requires Numbered(s, queue)
  {
    && |s.arrivals| == done + |queue|
    && (forall k :: 0 <= k < |queue| ==> s.threads[queue[k]].batch == s.arrivals[done + k])
    && HadTurns(s.databaseCommits, s.arrivals, done + (if Written(s, queue) then 1 else 0))
    && s.loginCommits == s.arrivals[..done + (if |queue| > 0 && s.threads[queue[0]].Committed? then 1 else 0)]
  }

  predicate OneMutexHolder(s: State)
  {
    forall t, u :: 0 <= t < |s.threads| && 0 <= u < |s.threads| ==>
      s.threads[t].HoldsMutex() && s.threads[u].HoldsMutex() ==> t == u
  }

  predicate Queued(s: State, queue: seq<nat>, done: nat)
  {
    Numbered(s, queue) && Logged(s, queue, done)
  }

  ghost predicate Inv(s: State)
  {
    && |s.threads| < TWO_64
    && OneMutexHolder(s)
    && exists queue: seq<nat>, done: nat :: Queued(s, queue, done)
  }

  lemma {:induction false} NoDupLength(queue: seq<nat>, n: nat)
    requires forall k :: 0 <= k < |queue| ==> queue[k] < n
    requires forall j, k :: 0 <= j < k < |queue| ==> queue[j] != queue[k]
    ensures |queue| <= n
  {
    if queue == [] {
    } else if n - 1 in queue {
      var k :| 0 <= k < |queue| && queue[k] == n - 1;
      NoDupLength(queue[..k] + queue[k + 1..], n - 1);
    } else {
      assert queue[0] < n;
      NoDupLength(queue, n - 1);
    }
  }

  lemma {:induction false} InitialInv(n: nat)
    requires n < TWO_64
    ensures Inv(Initial(n))
  {
    assert Queued(Initial(n), [], 0);
  }

  lemma PlaceOf(s: State, queue: seq<nat>, t: nat) returns (k: nat)
    requires Numbered(s, queue) && t < |s.threads| && s.threads[t].Ticketed()
    ensures k < |queue| && queue[k] == t && s.threads[t].number == Plus(s.nextSettleNr, k)
    ensures s.threads[t].Served() ==> k == 0
    ensures |queue| <= |s.threads|
  {
    assert t in queue;
    k :| 0 <= k < |queue| && queue[k] == t;
    NoDupLength(queue, |s.threads|);
  }

  /** The queue after a step, as a function of the queue before it. */
  function NextQueue(queue: seq<nat>, t: nat, a: Action): seq<nat>
  {
    match a
    case TakeNumber(_) => queue + [t]
    case Advance => if queue == [] then [] else queue[1..]
    case _ => queue
  }

  /** The thread that takes a number is new to the queue, and it is served at once only if the queue is empty. */
  lemma TakeFacts(s: State, t: nat, batch: Batch, queue: seq<nat>)
    requires |s.threads| < TWO_64 && Numbered(s, queue) && Enabled(s, t, TakeNumber(batch))
    ensures t !in queue && |queue| + 1 <= |s.threads|
    ensures s.nextSettleNr == s.settleWaitNr <==> queue == []
    ensures queue == [] ==> Step(s, t, TakeNumber(batch)).threads[t] == Granted(0, batch)
    ensures queue != [] ==> Step(s, t, TakeNumber(batch)).threads[t] == Waiting(s.settleWaitNr, batch)
  {
    assert t !in queue;
    NoDupLength(queue + [t], |s.threads|);
  }

  lemma TakeKeepsNumbered(s: State, t: nat, batch: Batch, queue: seq<nat>)
    requires |s.threads| < TWO_64 && Numbered(s, queue) && Enabled(s, t, TakeNumber(batch))
    ensures Numbered(Step(s, t, TakeNumber(batch)), queue + [t])
  {
    TakeFacts(s, t, batch, queue);
    var r, q := Step(s, t, TakeNumber(batch)), queue + [t];
    assert forall k :: 0 <= k < |queue| ==> q[k] == queue[k] && r.threads[q[k]] == s.threads[queue[k]];
    assert q[|queue|] == t;
    forall u | 0 <= u < |r.threads| && r.threads[u].Ticketed() ensures u in q {
      if u != t {
        var k := PlaceOf(s, queue, u);
        assert q[k] == u;
      }
    }
  }

  lemma TakeKeepsQueue(s: State, t: nat, batch: Batch, queue: seq<nat>, done: nat)
    requires |s.threads| < TWO_64 && Queued(s, queue, done) && Enabled(s, t, TakeNumber(batch))
    ensures Queued(Step(s, t, TakeNumber(batch)), queue + [t], done)
  {
    var r, q := Step(s, t, TakeNumber(batch)), queue + [t];
    TakeFacts(s, t, batch, queue);
    TakeKeepsNumbered(s, t, batch, queue);
    assert forall k :: 0 <= k < |queue| ==> q[k] == queue[k] && r.threads[q[k]] == s.threads[queue[k]];
    assert q[|queue|] == t && r.threads[t].batch == batch && !r.threads[t].Released? && !r.threads[t].Committed?;
    assert r.arrivals == s.arrivals + [batch];
    assert r.databaseCommits == s.databaseCommits && r.loginCommits == s.loginCommits;
    hide Numbered, Step, Enabled;
    var n := |s.databaseCommits|;
    assert Written(r, q) <==> Written(s, queue);
    assert HadTurns(r.databaseCommits, r.arrivals, n) by {
      assert forall k :: 0 <= k < n ==> r.arrivals[k] == s.arrivals[k];
    }
    hide HadTurns, Written;
    assert r.arrivals[..|s.loginCommits|] == s.arrivals[..|s.loginCommits|];
    forall k | 0 <= k < |q| ensures r.threads[q[k]].batch == r.arrivals[done + k] {
      if k < |queue| {
        assert r.threads[q[k]].batch == s.arrivals[done + k];
      }
    }
  }

  lemma AdvanceFacts(s: State, t: nat, queue: seq<nat>)
    requires |s.threads| < TWO_64 && Numbered(s, queue) && Enabled(s, t, Advance)
    ensures queue != [] && queue[0] == t && |queue| <= |s.threads|
    ensures forall k :: 1 <= k < |queue| ==> Step(s, t, Advance).threads[queue[k]] == s.threads[queue[k]]
  {
    var place := PlaceOf(s, queue, t);
  }

  lemma AdvanceKeepsMembers(s: State, t: nat, queue: seq<nat>, u: nat)
    requires |s.threads| < TWO_64 && Numbered(s, queue) && Enabled(s, t, Advance) && queue != [] && queue[0] == t
    requires u < |s.threads| && Step(s, t, Advance).threads[u].Ticketed()
    ensures u in queue[1..]
  {
    var k := PlaceOf(s, queue, u);
    assert queue[1..][k - 1] == u;
  }

  lemma AdvanceKeepsNumbered(s: State, t: nat, queue: seq<nat>)
    requires |s.threads| < TWO_64 && Numbered(s, queue) && Enabled(s, t, Advance)
    ensures queue != [] && queue[0] == t && Numbered(Step(s, t, Advance), queue[1..])
  {
    AdvanceFacts(s, t, queue);
    var r, rest := Step(s, t, Advance), queue[1..];
    assert forall k :: 0 <= k < |rest| ==> rest[k] == queue[k + 1] && r.threads[rest[k]] == s.threads[queue[k + 1]];
    forall k | 0 <= k < |rest| ensures r.threads[rest[k]].number == Plus(r.nextSettleNr, k) {
      assert s.threads[queue[k + 1]].number == Plus(s.nextSettleNr, k + 1);
    }
    forall u | 0 <= u < |r.threads| && r.threads[u].Ticketed() ensures u in rest {
      AdvanceKeepsMembers(s, t, queue, u);
    }
  }

  lemma AdvanceKeepsQueue(s: State, t: nat, queue: seq<nat>, done: nat)
    requires |s.threads| < TWO_64 && Queued(s, queue, done) && Enabled(s, t, Advance)
    ensures queue != [] && Queued(Step(s, t, Advance), queue[1..], done + 1)
  {
    AdvanceKeepsNumbered(s, t, queue);
    var r, rest := Step(s, t, Advance), queue[1..];
    assert forall k :: 0 <= k < |rest| ==> rest[k] == queue[k + 1] && r.threads[rest[k]] == s.threads[queue[k + 1]];
    assert rest != [] ==> r.threads[rest[0]].Waiting?;
    hide Numbered;
  }

  lemma WakeUpKeepsQueue(s: State, t: nat, queue: seq<nat>, done: nat)
    requires |s.threads| < TWO_64 && Queued(s, queue, done) && Enabled(s, t, WakeUp)
    ensures Queued(Step(s, t, WakeUp), queue, done)
  {
    var k := PlaceOf(s, queue, t);
    assert s.threads[t].number == s.nextSettleNr <==> k == 0;
  }

  lemma CommitKeepsQueue(s: State, t: nat, a: Action, queue: seq<nat>, done: nat)
    requires |s.threads| < TWO_64 && Queued(s, queue, done) && Enabled(s, t, a)
    requires a.CommitDatabase? || a.CommitLogin?
    ensures Queued(Step(s, t, a), queue, done)
  {
    var k := PlaceOf(s, queue, t);
    assert s.arrivals[..done] + [s.threads[t].batch] == s.arrivals[..done + 1];
  }

  lemma LockKeepsQueue(s: State, t: nat, a: Action, queue: seq<nat>, done: nat)
    requires Queued(s, queue, done) && Enabled(s, t, a)
    requires a.Lock? || a.LeaveEarly?
    ensures Queued(Step(s, t, a), queue, done)
  {
    assert t !in queue;
  }

  lemma StepKeepsQueue(s: State, t: nat, a: Action, queue: seq<nat>, done: nat)
    requires |s.threads| < TWO_64 && Queued(s, queue, done) && Enabled(s, t, a)
    ensures Queued(Step(s, t, a), NextQueue(queue, t, a), if a.Advance? then done + 1 else done)
  {
    hide Queued, Step, Enabled;
    match a
    case TakeNumber(batch) => TakeKeepsQueue(s, t, batch, queue, done);
    case Advance => AdvanceKeepsQueue(s, t, queue, done);
    case WakeUp => WakeUpKeepsQueue(s, t, queue, done);
    case CommitDatabase(_) => CommitKeepsQueue(s, t, a, queue, done);
    case CommitLogin => CommitKeepsQueue(s, t, a, queue, done);
    case Lock => LockKeepsQueue(s, t, a, queue, done);
    case LeaveEarly => LockKeepsQueue(s, t, a, queue, done);
  }

  lemma StepKeepsMutex(s: State, t: nat, a: Action)
    requires OneMutexHolder(s) && Enabled(s, t, a)
    ensures OneMutexHolder(Step(s, t, a)) && |Step(s, t, a).threads| == |s.threads|
  {
    var r := Step(s, t, a);
    assert forall u :: 0 <= u < |s.threads| && u != t ==> r.threads[u] == s.threads[u];
  }

  lemma StepKeepsInv(s: State, t: nat, a: Action)
    requires Inv(s) && Enabled(s, t, a)
    ensures Inv(Step(s, t, a))
  {
    hide Queued, Step, Enabled, OneMutexHolder;
    var queue: seq<nat>, done: nat :| Queued(s, queue, done);
    StepKeepsQueue(s, t, a, queue, done);
    StepKeepsMutex(s, t, a);
  }

  // ---------- runs ----------

  datatype Event = Event(thread: nat, action: Action)

  predicate Possible(s: State, events: seq<Event>)
    decreases |events|
  {
    events == []
    || (&& Enabled(s, events[0].thread, events[0].action)
        && Possible(Step(s, events[0].thread, events[0].action), events[1..]))
  }

  function Run(s: State, events: seq<Event>): State
    requires Possible(s, events)
    decreases |events|
  {
    if events == [] then s else Run(Step(s, events[0].thread, events[0].action), events[1..])
  }

  lemma {:induction false} RunKeepsInv(s: State, events: seq<Event>)
    requires Inv(s) && Possible(s, events)
    ensures Inv(Run(s, events))
    decreases |events|
  {
    if events != [] {
      StepKeepsInv(s, events[0].thread, events[0].action);
      RunKeepsInv(Step(s, events[0].thread, events[0].action), events[1..]);
    }
  }

  ghost predicate Reachable(s: State)
  {
    exists n: nat, events :: n < TWO_64 && Possible(Initial(n), events) && s == Run(Initial(n), events)
  }

  lemma ReachableInv(s: State)
    requires Reachable(s)
    ensures Inv(s)
  {
    var n: nat, events :| n < TWO_64 && Possible(Initial(n), events) && s == Run(Initial(n), events);
    InitialInv(n);
    RunKeepsInv(Initial(n), events);
  }

  /** How many places `number` is behind the one being served. */
  function Behind(s: State, number: UInt64): nat
  {
    if number >= s.nextSettleNr then number - s.nextSettleNr else number + TWO_64 - s.nextSettleNr
  }

  /** Some thread holds the number `d` places behind. */
  predicate HeldAt(s: State, d: nat)
  {
    exists t :: 0 <= t < |s.threads| && s.threads[t].Ticketed() && Behind(s, s.threads[t].number) == d
  }

  lemma PlaceIsBehind(s: State, queue: seq<nat>, t: nat) returns (k: nat)
    requires |s.threads| < TWO_64 && Numbered(s, queue) && t < |s.threads| && s.threads[t].Ticketed()
    ensures k < |queue| && queue[k] == t && Behind(s, s.threads[t].number) == k
  {
    k := PlaceOf(s, queue, t);
  }

  /** The outstanding numbers are exactly nextSettleNr .. settleWaitNr - 1, each held by one thread. */
  lemma NumbersAreExact(s: State)
    requires Reachable(s)
    ensures && (forall t :: 0 <= t < |s.threads| && s.threads[t].Ticketed()
                            ==> Behind(s, s.threads[t].number) < Behind(s, s.settleWaitNr))
            && (forall t, u :: 0 <= t < u < |s.threads| && s.threads[t].Ticketed() && s.threads[u].Ticketed()
                               ==> s.threads[t].number != s.threads[u].number)
            && (forall d: nat :: d < Behind(s, s.settleWaitNr) ==> HeldAt(s, d))
  {
    hide Reachable;
    ReachableInv(s);
    var queue: seq<nat>, done: nat :| Queued(s, queue, done);
    NoDupLength(queue, |s.threads|);
    assert Behind(s, s.settleWaitNr) == |queue|;
    forall d: nat | d < |queue| ensures HeldAt(s, d) {
      assert s.threads[queue[d]].Ticketed();
    }
    hide Numbered, Logged, Behind;
    forall t | 0 <= t < |s.threads| && s.threads[t].Ticketed() ensures Behind(s, s.threads[t].number) < |queue| {
      var k := PlaceIsBehind(s, queue, t);
    }
    forall t, u | 0 <= t < u < |s.threads| && s.threads[t].Ticketed() && s.threads[u].Ticketed()
      ensures s.threads[t].number != s.threads[u].number
    {
      var j := PlaceIsBehind(s, queue, t);
      var k := PlaceIsBehind(s, queue, u);
    }
  }

  /** At most one thread is between the grant and the increment of `nextSettleNr`, and it holds that number. */
  lemma OneServed(s: State, t: nat, u: nat)
    requires Reachable(s)
    requires t < |s.threads| && u < |s.threads| && s.threads[t].Served() && s.threads[u].Served()
    ensures t == u && s.threads[t].number == s.nextSettleNr
  {
    hide Reachable;
    ReachableInv(s);
    var queue: seq<nat>, done: nat :| Queued(s, queue, done);
    var j := PlaceOf(s, queue, t);
    var k := PlaceOf(s, queue, u);
  }

  /** Both tables are written in the order in which the numbers were given out, across resets of the counters,
      and a batch reaches the login table only after its turn at the database. */
  lemma CommitsInOrder(s: State)
    requires Reachable(s)
    ensures s.loginCommits <= s.arrivals
            && HadTurns(s.databaseCommits, s.arrivals, |s.databaseCommits|)
            && |s.loginCommits| <= |s.databaseCommits| <= |s.loginCommits| + 1
  {
    hide Reachable;
    ReachableInv(s);
    var queue: seq<nat>, done: nat :| Queued(s, queue, done);
    assert s.arrivals[..done] <= s.arrivals;
  }

  /** The counters are reset only when no thread holds a number. */
  lemma ResetIsAlone(s: State)
    requires Reachable(s)
    ensures s.nextSettleNr == s.settleWaitNr <==> forall t :: 0 <= t < |s.threads| ==> !s.threads[t].Ticketed()
  {
    hide Reachable;
    ReachableInv(s);
    var queue: seq<nat>, done: nat :| Queued(s, queue, done);
    assert queue != [] ==> s.threads[queue[0]].Ticketed();
    forall t | 0 <= t < |s.threads| && s.threads[t].Ticketed() ensures queue != [] {
      var k := PlaceOf(s, queue, t);
    }
  }

  // ---------- whose turn it is ----------

  /** A thread that takes a number has its turn at once exactly if nobody else holds a number. */
  lemma ArrivalIsServedIff(s: State, t: nat, batch: Batch)
    requires Reachable(s) && Enabled(s, t, TakeNumber(batch))
    ensures Step(s, t, TakeNumber(batch)).threads[t].Granted?
            <==> forall u :: 0 <= u < |s.threads| ==> !s.threads[u].Ticketed()
  {
    hide Reachable;
    ReachableInv(s);
    ResetIsAlone(s);
    var queue: seq<nat>, done: nat :| Queued(s, queue, done);
    TakeFacts(s, t, batch, queue);
  }

  /** A thread that wakes up has its turn exactly if no number is older than its own, and otherwise nothing changes. */
  lemma WakeUpServesOldest(s: State, t: nat)
    requires Reachable(s) && Enabled(s, t, WakeUp)
    ensures var r, number := Step(s, t, WakeUp), s.threads[t].number;
            var oldest := forall u :: 0 <= u < |s.threads| && s.threads[u].Ticketed() ==>
                            Behind(s, number) <= Behind(s, s.threads[u].number);
            r == if oldest then Move(s, t, Granted(number, s.threads[t].batch)) else s
  {
    hide Reachable;
    ReachableInv(s);
    var queue: seq<nat>, done: nat :| Queued(s, queue, done);
    var k := PlaceIsBehind(s, queue, t);
    assert s.threads[queue[0]].Ticketed() && Behind(s, s.threads[queue[0]].number) == 0;
    assert s.threads[t].number == s.nextSettleNr <==> k == 0;
    assert s.threads[t := s.threads[t]] == s.threads;
  }

  // ---------- what the turns write ----------

  /** For each turn of a run at the database, in order, whether there was a connection. */
  function Connections(events: seq<Event>): seq<bool>
  {
    if events == [] then []
    else (if events[0].action.CommitDatabase? then [events[0].action.connected] else []) + Connections(events[1..])
  }

  lemma {:induction false} TurnsFollow(s: State, events: seq<Event>)
    requires Possible(s, events)
    ensures var before, after, c := s.databaseCommits, Run(s, events).databaseCommits, Connections(events);
            && |after| == |before| + |c|
            && (forall k :: 0 <= k < |before| ==> after[k] == before[k])
            && (forall k :: 0 <= k < |c| ==> (after[|before| + k].Some? <==> c[k]))
    decreases |events|
  {
    if events != [] {
      var e := events[0];
      var r := Step(s, e.thread, e.action);
      TurnsFollow(r, events[1..]);
      if e.action.CommitDatabase? {
        var n, after, rest := |s.databaseCommits|, Run(s, events).databaseCommits, Connections(events[1..]);
        var c := [e.action.connected] + rest;
        assert Connections(events) == c;
        forall k | 0 <= k < |c| ensures after[n + k].Some? <==> c[k] {
          if k == 0 {
            assert after[n] == r.databaseCommits[n];
          } else {
            assert c[k] == rest[k - 1] && n + k == |r.databaseCommits| + (k - 1);
          }
        }
      } else {
        assert Connections(events) == Connections(events[1..]);
      }
      hide Step, Enabled;
    }
  }

  /** Over every run from the start, each turn writes its own batch exactly if it has a connection. */
  lemma TurnsWriteIff(n: nat, events: seq<Event>)
    requires n < TWO_64 && Possible(Initial(n), events)
    ensures var s, c := Run(Initial(n), events), Connections(events);
            && |s.databaseCommits| == |c| <= |s.arrivals|
            && forall k :: 0 <= k < |c| ==> s.databaseCommits[k] == if c[k] then Some(s.arrivals[k]) else None
  {
    var s := Run(Initial(n), events);
    assert Reachable(s);
    CommitsInOrder(s);
    TurnsFollow(Initial(n), events);
    hide Reachable, Run, Possible, Connections;
  }

  // ---------- nobody waits for ever ----------

  predicate NoneSettling(s: State)
  {
    forall t :: 0 <= t < |s.threads| ==> !s.threads[t].Settling?
  }

  predicate NoneTicketed(s: State)
  {
    forall t :: 0 <= t < |s.threads| ==> !s.threads[t].Ticketed()
  }

  predicate Drains(s: State, events: seq<Event>)
  {
    Possible(s, events) && NoneTicketed(Run(s, events))
  }

  /** Some continuation serves everybody who holds a number. */
  ghost predicate Drainable(s: State)
  {
    exists events :: Drains(s, events)
  }

  lemma StepThenDrain(s: State, t: nat, a: Action)
    requires Enabled(s, t, a) && Drainable(Step(s, t, a))
    ensures Drainable(s)
  {
    var events :| Drains(Step(s, t, a), events);
    var all := [Event(t, a)] + events;
    assert all[0] == Event(t, a) && all[1..] == events;
    hide Step, Enabled, NoneTicketed;
    assert Drains(s, all);
  }

  /** What the oldest thread does next. */
  function NextAction(pc: Pc): Action
  {
    if pc.Waiting? then WakeUp
    else if pc.Granted? then CommitDatabase(true)
    else if pc.Released? then CommitLogin
    else Advance
  }

  function StepsLeft(pc: Pc): nat
  {
    if pc.Waiting? then 4 else if pc.Granted? then 3 else if pc.Released? then 2 else 1
  }

  lemma OldestMoves(s: State, queue: seq<nat>, done: nat)
    requires |s.threads| < TWO_64 && Queued(s, queue, done) && NoneSettling(s) && queue != []
    ensures var t := queue[0];
            var a := NextAction(s.threads[t]);
            && Enabled(s, t, a) && NoneSettling(Step(s, t, a)) && |Step(s, t, a).threads| == |s.threads|
            && (!a.Advance? ==> StepsLeft(Step(s, t, a).threads[t]) < StepsLeft(s.threads[t]))
  {
    var t := queue[0];
    forall u | 0 <= u < |s.threads| && u != t ensures !s.threads[u].HoldsMutex() {
      if s.threads[u].Granted? {
        var k := PlaceOf(s, queue, u);
      }
    }
    var r := Step(s, t, NextAction(s.threads[t]));
    assert forall u :: 0 <= u < |s.threads| && u != t ==> r.threads[u] == s.threads[u];
  }

  lemma {:induction false} QueueDrains(s: State, queue: seq<nat>, done: nat)
    requires |s.threads| < TWO_64 && Queued(s, queue, done) && NoneSettling(s)
    ensures Drainable(s)
    decreases |queue|, if queue == [] then 0 else StepsLeft(s.threads[queue[0]])
  {
    if queue == [] {
      forall t | 0 <= t < |s.threads| ensures !s.threads[t].Ticketed() {
        assert t !in queue;
      }
      assert Run(s, []) == s;
      assert Drains(s, []);
    } else {
      OldestMoves(s, queue, done);
      var t := queue[0];
      var a := NextAction(s.threads[t]);
      StepKeepsQueue(s, t, a, queue, done);
      QueueDrains(Step(s, t, a), NextQueue(queue, t, a), if a.Advance? then done + 1 else done);
      StepThenDrain(s, t, a);
    }
  }

  /** No deadlock: from every reachable state, with whatever threads in the middle of a settlement, some continuation
      serves everybody who holds a number. */
  lemma EverybodyCanBeServed(s: State)
    requires Reachable(s)
    ensures Drainable(s)
  {
    hide Reachable;
    ReachableInv(s);
    var queue: seq<nat>, done: nat :| Queued(s, queue, done);
    if NoneSettling(s) {
      QueueDrains(s, queue, done);
    } else {
      var t :| 0 <= t < |s.threads| && s.threads[t].Settling?;
      var r := Step(s, t, LeaveEarly);
      assert forall u :: 0 <= u < |s.threads| && u != t ==> r.threads[u] == s.threads[u];
      StepKeepsQueue(s, t, LeaveEarly, queue, done);
      QueueDrains(r, queue, done);
      StepThenDrain(s, t, LeaveEarly);
    }
  }
}
