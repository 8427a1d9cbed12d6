/** Several threads send over one dispatcher. Each seals its message under the lock of the encryption counter and
    queues the packets later, under the lock of the packet buffer; between the two another thread may run. */
module ControlSenders {
  import opened MachineTypes
  import opened Sealing
  import opened ControlFraming

  /** The encryption counter, the messages sealed but not yet queued, thread by thread, and those queued. */
  datatype Senders = Senders(counter: nat, waiting: map<nat, Message>, queued: seq<Message>)

  datatype Step = Seal(thread: nat, id: nat, text: seq<Byte>) | Queue(thread: nat)

  const INITIAL := Senders(0, map[], [])

  predicate Enabled(s: Setup, q: Senders, a: Step)
  {
    match a
    case Seal(t, id, text) => t !in q.waiting && Sendable(s, Message(id, q.counter, text))
    case Queue(t) => t in q.waiting
  }

  function Next(s: Setup, q: Senders, a: Step): Senders
    requires Enabled(s, q, a)
  {
    match a
    case Seal(t, id, text) =>
      Senders(q.counter + Consumes(s, id), q.waiting[t := Message(id, q.counter, text)], q.queued)
    case Queue(t) => Senders(q.counter, q.waiting - {t}, q.queued + [q.waiting[t]])
  }

  predicate Possible(s: Setup, q: Senders, steps: seq<Step>)
    decreases |steps|
  {
    steps == [] || (Enabled(s, q, steps[0]) && Possible(s, Next(s, q, steps[0]), steps[1..]))
  }

  function Run(s: Setup, q: Senders, steps: seq<Step>): Senders
    requires Possible(s, q, steps)
    decreases |steps|
  {
    if steps == [] then q else Run(s, Next(s, q, steps[0]), steps[1..])
  }

  // ---------- overtaking ----------

  predicate Numbered(s: Setup, q: Senders, t: nat)
  {
    t in q.waiting && Consumes(s, q.waiting[t].id) == 1
  }

  /** The step queues an encrypted message while one with a smaller number still waits. */
  ghost predicate Overtakes(s: Setup, q: Senders, a: Step)
  {
    && a.Queue? && Numbered(s, q, a.thread)
    && exists u :: Numbered(s, q, u) && q.waiting[u].number < q.waiting[a.thread].number
  }

  ghost predicate NoneOvertakes(s: Setup, q: Senders, steps: seq<Step>)
    requires Possible(s, q, steps)
    decreases |steps|
  {
    steps == [] || (!Overtakes(s, q, steps[0]) && NoneOvertakes(s, Next(s, q, steps[0]), steps[1..]))
  }

  // ---------- the order of queueing ----------

  lemma {:induction false} NumbersAppend(s: Setup, ms: seq<Message>, m: Message)
    ensures Numbers(s, ms + [m]) == Numbers(s, ms) + if Consumes(s, m.id) == 1 then [m.number] else []
  {
    if ms == [] {
      assert [] + [m] == [m];
    } else {
      NumbersAppend(s, ms[1..], m);
      assert (ms + [m])[0] == ms[0] && (ms + [m])[1..] == ms[1..] + [m];
    }
  }

  ghost predicate Held(s: Setup, q: Senders, n: nat)
  {
    exists t :: Numbered(s, q, t) && q.waiting[t].number == n
  }

  /** So far the numbers were queued in order, and exactly those up to the counter still wait, each once. */
  ghost predicate Ordered(s: Setup, q: Senders)
  {
    var n := Numbers(s, q.queued);
    && Consecutive(n, 0) && |n| <= q.counter
    && (forall t :: Numbered(s, q, t) ==> |n| <= q.waiting[t].number < q.counter)
    && (forall k :: |n| <= k < q.counter ==> Held(s, q, k))
    && (forall t, u :: Numbered(s, q, t) && Numbered(s, q, u) && q.waiting[t].number == q.waiting[u].number ==> t == u)
  }

  lemma SealKeepsOrdered(s: Setup, q: Senders, a: Step)
    requires a.Seal? && Enabled(s, q, a) && Ordered(s, q)
    ensures Ordered(s, Next(s, q, a))
  {
    var p := Next(s, q, a);
    assert forall t :: t != a.thread ==> (Numbered(s, q, t) <==> Numbered(s, p, t));
    forall k | |Numbers(s, q.queued)| <= k < p.counter ensures Held(s, p, k) {
      if k == q.counter {
        assert Numbered(s, p, a.thread);
      } else {
        assert Held(s, q, k);
        var t :| Numbered(s, q, t) && q.waiting[t].number == k;
        assert Numbered(s, p, t);
      }
    }
  }

  /** Queueing keeps the order exactly if it overtakes nobody. */
  lemma QueueKeepsOrderedIff(s: Setup, q: Senders, a: Step)
    requires a.Queue? && Enabled(s, q, a) && Ordered(s, q)
    ensures !Overtakes(s, q, a) ==> Ordered(s, Next(s, q, a))
    ensures Overtakes(s, q, a) ==> !Consecutive(Numbers(s, Next(s, q, a).queued), 0)
  {
    var p, n, m := Next(s, q, a), Numbers(s, q.queued), q.waiting[a.thread];
    NumbersAppend(s, q.queued, m);
    assert forall t :: t != a.thread ==> (Numbered(s, q, t) <==> Numbered(s, p, t));
    if Numbered(s, q, a.thread) {
      var after := Numbers(s, p.queued);
      assert after == n + [m.number] && after[|n|] == m.number;
      if !Overtakes(s, q, a) {
        assert Held(s, q, |n|);
        assert m.number == |n|;
      }
    } else {
      assert Numbers(s, p.queued) == n;
    }
    if !Overtakes(s, q, a) {
      forall k | |Numbers(s, p.queued)| <= k < p.counter ensures Held(s, p, k) {
        assert Held(s, q, k);
        var t :| Numbered(s, q, t) && q.waiting[t].number == k;
        assert Numbered(s, p, t);
      }
    }
  }

  /** What was queued out of order stays so. */
  lemma {:induction false} DisorderStays(s: Setup, q: Senders, steps: seq<Step>)
    requires Possible(s, q, steps) && !Consecutive(Numbers(s, q.queued), 0)
    ensures !Consecutive(Numbers(s, Run(s, q, steps).queued), 0)
    decreases |steps|
  {
    if steps != [] {
      var p := Next(s, q, steps[0]);
      if steps[0].Queue? {
        NumbersAppend(s, q.queued, q.waiting[steps[0].thread]);
        var n, after := Numbers(s, q.queued), Numbers(s, p.queued);
        assert forall i :: 0 <= i < |n| ==> after[i] == n[i];
      }
      DisorderStays(s, p, steps[1..]);
    }
  }

  lemma {:induction false} OrderedRunIff(s: Setup, q: Senders, steps: seq<Step>)
    requires Possible(s, q, steps) && Ordered(s, q)
    ensures Consecutive(Numbers(s, Run(s, q, steps).queued), 0) <==> NoneOvertakes(s, q, steps)
    decreases |steps|
  {
    if steps != [] {
      var a := steps[0];
      var p := Next(s, q, a);
      if a.Seal? {
        SealKeepsOrdered(s, q, a);
      } else {
        QueueKeepsOrderedIff(s, q, a);
      }
      hide Ordered, Overtakes, Next, Consecutive;
      if Overtakes(s, q, a) {
        DisorderStays(s, p, steps[1..]);
      } else {
        OrderedRunIff(s, p, steps[1..]);
      }
    }
  }

  /** Over every interleaving: the messages are queued in the order of sealing exactly if no thread queues an
      encrypted message while an older one still waits. */
  lemma InStepIffNoneOvertakes(s: Setup, steps: seq<Step>)
    requires Possible(s, INITIAL, steps)
    ensures InStep(s, Run(s, INITIAL, steps).queued, 0) <==> NoneOvertakes(s, INITIAL, steps)
  {
    assert Ordered(s, INITIAL);
    OrderedRunIff(s, INITIAL, steps);
    InStepIffConsecutive(s, Run(s, INITIAL, steps).queued, 0);
  }

  // ---------- numbers used once ----------

  ghost function Pending(s: Setup, q: Senders): set<nat>
  {
    set t | t in q.waiting && Numbered(s, q, t)
  }

  /** Every number below the counter was given to one message, which waits or is queued. */
  ghost predicate Counted(s: Setup, q: Senders)
  {
    && |Numbers(s, q.queued)| + |Pending(s, q)| == q.counter
    && (forall t :: t in q.waiting ==> q.waiting[t].number <= q.counter)
    && (forall i :: 0 <= i < |q.queued| ==> q.queued[i].number <= q.counter)
  }

  lemma PendingAfter(s: Setup, q: Senders, a: Step, u: nat)
    requires Enabled(s, q, a)
    ensures u in Pending(s, Next(s, q, a))
            <==> if u == a.thread then a.Seal? && Consumes(s, a.id) == 1 else u in Pending(s, q)
  {
    hide Sendable;
  }

  lemma SizeWithout(a: set<nat>, b: set<nat>, t: nat)
    requires forall u :: u != t ==> (u in a <==> u in b)
    requires t in a && t !in b
    ensures |a| == |b| + 1
  {
    assert a == b + {t};
  }

  lemma PendingSize(s: Setup, q: Senders, a: Step)
    requires Enabled(s, q, a)
    ensures var before, after := |Pending(s, q)|, |Pending(s, Next(s, q, a))|;
            if a.Seal? then after == before + Consumes(s, a.id)
            else before == after + Consumes(s, q.waiting[a.thread].id)
  {
    var before, after, t := Pending(s, q), Pending(s, Next(s, q, a)), a.thread;
    var n := if a.Seal? then Consumes(s, a.id) else Consumes(s, q.waiting[t].id);
    assert t in before <==> a.Queue? && n == 1;
    forall u ensures u in after <==> if u == t then a.Seal? && n == 1 else u in before {
      PendingAfter(s, q, a, u);
    }
    hide *;
    if n == 0 {
      assert before == after;
    } else if a.Seal? {
      SizeWithout(after, before, t);
    } else {
      SizeWithout(before, after, t);
    }
  }

  lemma StepKeepsCounted(s: Setup, q: Senders, a: Step)
    requires Enabled(s, q, a) && Counted(s, q)
    ensures Counted(s, Next(s, q, a))
  {
    hide Pending, Numbers, Sendable;
    PendingSize(s, q, a);
    if a.Queue? {
      NumbersAppend(s, q.queued, q.waiting[a.thread]);
    }
  }

  lemma {:induction false} RunKeepsCounted(s: Setup, q: Senders, steps: seq<Step>)
    requires Possible(s, q, steps) && Counted(s, q)
    ensures Counted(s, Run(s, q, steps))
    decreases |steps|
  {
    if steps != [] {
      StepKeepsCounted(s, q, steps[0]);
      hide Counted;
      RunKeepsCounted(s, Next(s, q, steps[0]), steps[1..]);
    }
  }

  /** As long as the counter has not wrapped round: each encrypted message is opened with the nonce it was sealed
      with exactly if no thread overtakes another. */
  lemma NoncesMatchIffNoneOvertakes(s: Setup, steps: seq<Step>)
    requires Possible(s, INITIAL, steps) && Run(s, INITIAL, steps).counter < TWO_32
    ensures var n := Numbers(s, Run(s, INITIAL, steps).queued);
            (forall i :: 0 <= i < |n| ==> CounterNonce(n[i]) == CounterNonce(i)) <==> NoneOvertakes(s, INITIAL, steps)
  {
    var q := Run(s, INITIAL, steps);
    assert Pending(s, INITIAL) == {};
    RunKeepsCounted(s, INITIAL, steps);
    InStepIffNoneOvertakes(s, steps);
    InStepIffNoncesMatch(s, q.queued, 0);
  }

  // ---------- what arrives ----------

  predicate AllSendable(s: Setup, q: Senders)
  {
    && (forall t :: t in q.waiting ==> Sendable(s, q.waiting[t]))
    && (forall i :: 0 <= i < |q.queued| ==> Sendable(s, q.queued[i]))
  }

  lemma {:induction false} RunKeepsSendable(s: Setup, q: Senders, steps: seq<Step>)
    requires Possible(s, q, steps) && AllSendable(s, q)
    ensures AllSendable(s, Run(s, q, steps))
    decreases |steps|
  {
    if steps != [] {
      var p := Next(s, q, steps[0]);
      assert AllSendable(s, p);
      RunKeepsSendable(s, p, steps[1..]);
    }
  }

  /** Whatever the threads send and however they alternate: without overtaking, the receiver delivers exactly the
      queued messages, in order. */
  lemma MessagesOfThreadsArrive(s: Setup, enc: Sealer, r: Receiver, steps: seq<Step>)
    requires s.key.Some? ==> Inverse(enc, s.key.value)
    requires AllIdle(s, r) && r.decrypted == 0
    requires Possible(s, INITIAL, steps) && NoneOvertakes(s, INITIAL, steps)
    ensures var queued := Run(s, INITIAL, steps).queued;
            && (forall i :: 0 <= i < |queued| ==> Sendable(s, queued[i]))
            && ReceiveAll(s, r, Wire(s, enc, queued)).1 == Texts(queued)
  {
    RunKeepsSendable(s, INITIAL, steps);
    InStepIffNoneOvertakes(s, steps);
    MessagesArrive(s, enc, r, Run(s, INITIAL, steps).queued);
  }

  /** All steps are taken by one thread. */
  predicate Alone(steps: seq<Step>, t: nat)
  {
    forall i :: 0 <= i < |steps| ==> steps[i].thread == t
  }

  /** One thread alone never overtakes. */
  lemma {:induction false} OneSenderIsInStep(s: Setup, q: Senders, steps: seq<Step>, t: nat)
    requires Possible(s, q, steps) && Alone(steps, t) && q.waiting.Keys <= {t}
    ensures NoneOvertakes(s, q, steps)
    decreases |steps|
  {
    if steps != [] {
      OneSenderIsInStep(s, Next(s, q, steps[0]), steps[1..], t);
    }
  }

  /** Two threads on an encrypted channel: the second seals after the first and queues before it. */
  lemma SecondSenderOvertakes(s: Setup, id: nat, a: seq<Byte>, b: seq<Byte>)
    requires id in s.registered && Consumes(s, id) == 1 && |a| <= MAX_MESSAGE && |b| <= MAX_MESSAGE
    ensures var steps := [Seal(0, id, a), Seal(1, id, b), Queue(1), Queue(0)];
            && Possible(s, INITIAL, steps)
            && Run(s, INITIAL, steps).queued == [Message(id, 1, b), Message(id, 0, a)]
            && !InStep(s, Run(s, INITIAL, steps).queued, 0)
  {
    var q1 := Next(s, INITIAL, Seal(0, id, a));
    var q2 := Next(s, q1, Seal(1, id, b));
    var q3 := Next(s, q2, Queue(1));
    var q4 := Next(s, q3, Queue(0));
    var rest := [Seal(1, id, b), Queue(1), Queue(0)];
    var steps := [Seal(0, id, a)] + rest;
    assert steps == [Seal(0, id, a), Seal(1, id, b), Queue(1), Queue(0)];
    assert steps[1..] == rest && rest[1..] == [Queue(1), Queue(0)] && [Queue(1), Queue(0)][1..] == [Queue(0)];
    assert Possible(s, q3, [Queue(0)]) && Run(s, q3, [Queue(0)]) == q4;
    assert Possible(s, q2, [Queue(1), Queue(0)]) && Run(s, q2, [Queue(1), Queue(0)]) == q4;
    assert Possible(s, q1, rest) && Run(s, q1, rest) == q4;
    assert q4.queued == [Message(id, 1, b), Message(id, 0, a)];
  }
}
