/** What the timeout queue gives out over runs of the channel table: every entry leaves it once, in the order of
    queueing, unless it is taken out or queued again before. */
module TimeoutQueueRuns {
  import opened ChannelTable
  import opened ChannelTableRuns

  /** A successful pop's entry followed by the new queue is the old queue; a pop changes nothing else, and one without
      success changes nothing at all. */
  lemma PopTakesTheHead(t: Table, force: bool, now: int)
    requires Inv(t)
    ensures var u := Step(t, OpPop(force, now));
            && u.order == t.order && u.pending == t.pending && u.stacks == t.stacks && u.expiry == t.expiry
            && (CanPop(t, force, now) <==> t.queue != [] && (force || ExpiryOf(t, t.queue[0]) <= now))
            && (if CanPop(t, force, now) then [t.queue[0]] + u.queue == t.queue else u.queue == t.queue)
  {
    assert t.queue != [] ==> t.queue[0] in t.queue;
  }

  /** What the pops of a run return. */
  ghost function Popped(t: Table, ops: seq<Op>): seq<int>
    requires EnabledRun(t, ops)
    decreases |ops|
  {
    if ops == [] then []
    else (if Pops(t, ops[0]) then [t.queue[0]] else []) + Popped(Step(t, ops[0]), ops[1..])
  }

  /** The call takes an entry from the queue. */
  predicate Pops(t: Table, op: Op)
  {
    op.OpPop? && CanPop(t, op.force, op.now)
  }

  /** The call takes slot `x` out of the queue without returning it: its connection is removed, or it is queued
      again. */
  predicate Displaces(t: Table, op: Op, x: int)
  {
    (op.OpRemove? && op.key == x && x in t.stacks) || (op.OpPush? && op.key == x)
  }

  /** Slot `x`, which is in the queue, is displaced before a pop returns it. */
  ghost predicate Displaced(x: int, t: Table, ops: seq<Op>)
    requires EnabledRun(t, ops)
    decreases |ops|
  {
    && ops != [] && !(Pops(t, ops[0]) && t.queue[0] == x)
    && (Displaces(t, ops[0], x) || Displaced(x, Step(t, ops[0]), ops[1..]))
  }

  /** The slots of `q` that are not displaced. */
  ghost function Lasting(q: seq<int>, t: Table, ops: seq<Op>): seq<int>
    requires EnabledRun(t, ops)
  {
    if q == [] then [] else (if Displaced(q[0], t, ops) then [] else [q[0]]) + Lasting(q[1..], t, ops)
  }

  /** The slots that the run pushes, in order, without those that it displaces later. */
  ghost function LastingPushes(t: Table, ops: seq<Op>): seq<int>
    requires EnabledRun(t, ops)
    decreases |ops|
  {
    if ops == [] then []
    else
      var u, rest := Step(t, ops[0]), ops[1..];
      (if ops[0].OpPush? && !Displaced(ops[0].key, u, rest) then [ops[0].key] else []) + LastingPushes(u, rest)
  }

  lemma {:induction false} LastingLater(q: seq<int>, t: Table, ops: seq<Op>)
    requires ops != [] && EnabledRun(t, ops)
    requires forall x :: x in q ==> !(Pops(t, ops[0]) && t.queue[0] == x) && !Displaces(t, ops[0], x)
    ensures Lasting(q, t, ops) == Lasting(q, Step(t, ops[0]), ops[1..])
  {
    if q != [] {
      assert q[0] in q;
      LastingLater(q[1..], t, ops);
    }
  }

  lemma {:induction false} LastingWithout(q: seq<int>, x: int, t: Table, ops: seq<Op>)
    requires EnabledRun(t, ops) && Displaced(x, t, ops)
    ensures Lasting(Without(q, x), t, ops) == Lasting(q, t, ops)
  {
    if q != [] {
      LastingWithout(q[1..], x, t, ops);
    }
  }

  lemma {:induction false} LastingSnoc(q: seq<int>, x: int, t: Table, ops: seq<Op>)
    requires EnabledRun(t, ops)
    ensures Lasting(q + [x], t, ops) == Lasting(q, t, ops) + if Displaced(x, t, ops) then [] else [x]
  {
    if q == [] {
      assert ([x] + [])[1..] == [] && q + [x] == [x];
    } else {
      assert (q + [x])[1..] == q[1..] + [x];
      LastingSnoc(q[1..], x, t, ops);
    }
  }

  lemma {:induction false} LastingAll(q: seq<int>, t: Table)
    ensures Lasting(q, t, []) == q
  {
    if q != [] {
      LastingAll(q[1..], t);
    }
  }

  /** One call: what lasts of the queue before it and after it. */
  lemma LastingStep(t: Table, ops: seq<Op>)
    requires Inv(t) && ops != [] && EnabledRun(t, ops)
    ensures var op, u, rest := ops[0], Step(t, ops[0]), ops[1..];
            Lasting(t.queue, t, ops) + (if op.OpPush? && !Displaced(op.key, u, rest) then [op.key] else [])
            == (if Pops(t, op) then [t.queue[0]] else []) + Lasting(u.queue, u, rest)
  {
    hide OrderOk, StacksOk, OutIdsUnique;
    var op, u, rest := ops[0], Step(t, ops[0]), ops[1..];
    if Pops(t, op) {
      LastingLater(t.queue[1..], t, ops);
    } else if op.OpPush? {
      var q := Without(t.queue, op.key);
      WithoutFacts(t.queue, op.key);
      LastingWithout(t.queue, op.key, t, ops);
      LastingLater(q, t, ops);
      LastingSnoc(q, op.key, u, rest);
    } else if op.OpRemove? && op.key in t.stacks {
      WithoutFacts(t.queue, op.key);
      LastingWithout(t.queue, op.key, t, ops);
      LastingLater(u.queue, t, ops);
    } else {
      LastingLater(t.queue, t, ops);
    }
  }

  /** Over every run: what the pops return, followed by what is left, is the queue at the start followed by what was
      pushed, in order and without the entries that were removed or pushed again before their turn. */
  lemma {:induction false} EntriesLeaveOnce(t: Table, ops: seq<Op>)
    requires Inv(t) && EnabledRun(t, ops)
    ensures Popped(t, ops) + Run(t, ops).queue == Lasting(t.queue, t, ops) + LastingPushes(t, ops)
    decreases |ops|
  {
    hide Inv, Lasting, Displaced;
    if ops == [] {
      LastingAll(t.queue, t);
    } else {
      var u := Step(t, ops[0]);
      StepKeepsInv(t, ops[0]);
      EntriesLeaveOnce(u, ops[1..]);
      LastingStep(t, ops);
      Regroup(if Pops(t, ops[0]) then [t.queue[0]] else [], Popped(u, ops[1..]), Run(u, ops[1..]).queue,
              Lasting(u.queue, u, ops[1..]), LastingPushes(u, ops[1..]), Lasting(t.queue, t, ops),
              if ops[0].OpPush? && !Displaced(ops[0].key, u, ops[1..]) then [ops[0].key] else []);
    }
  }

  lemma Regroup(first: seq<int>, popped: seq<int>, left: seq<int>, lasting: seq<int>, pushes: seq<int>,
                before: seq<int>, pushed: seq<int>)
    requires popped + left == lasting + pushes && before + pushed == first + lasting
    ensures (first + popped) + left == before + (pushed + pushes)
  {
    assert (first + popped) + left == first + (popped + left);
    assert first + (lasting + pushes) == (first + lasting) + pushes;
    assert (before + pushed) + pushes == before + (pushed + pushes);
  }

  // ---------- no entry twice ----------

  ghost predicate PushesOf(x: int, ops: seq<Op>)
  {
    exists op :: op in ops && op.OpPush? && op.key == x
  }

  lemma {:induction false} NeverQueued(t: Table, ops: seq<Op>, x: int)
    requires Inv(t) && EnabledRun(t, ops) && !PushesOf(x, ops) && x !in t.queue
    ensures x !in Popped(t, ops) && x !in Run(t, ops).queue
    decreases |ops|
  {
    if ops != [] {
      var u := Step(t, ops[0]);
      assert ops[0] in ops && forall op :: op in ops[1..] ==> op in ops;
      StepKeepsInv(t, ops[0]);
      if ops[0].OpRemove? || ops[0].OpPush? {
        WithoutFacts(t.queue, ops[0].key);
      }
      assert x !in u.queue;
      NeverQueued(u, ops[1..], x);
    }
  }

  predicate AtMostOnce(x: int, s: seq<int>)
  {
    s != [] ==> (s[0] == x ==> x !in s[1..]) && AtMostOnce(x, s[1..])
  }

  /** Without a push in between, a slot is returned at most once, and then it is not in the queue any more. */
  lemma {:induction false} NotPoppedTwice(t: Table, ops: seq<Op>, x: int)
    requires Inv(t) && EnabledRun(t, ops) && !PushesOf(x, ops)
    ensures AtMostOnce(x, Popped(t, ops)) && (x in Popped(t, ops) ==> x !in Run(t, ops).queue)
    decreases |ops|
  {
    if ops != [] {
      var u, rest := Step(t, ops[0]), Popped(Step(t, ops[0]), ops[1..]);
      assert forall op :: op in ops[1..] ==> op in ops;
      StepKeepsInv(t, ops[0]);
      NotPoppedTwice(u, ops[1..], x);
      if Pops(t, ops[0]) {
        if t.queue[0] == x {
          NeverQueued(u, ops[1..], x);
        }
        assert Popped(t, ops)[0] == t.queue[0] && Popped(t, ops)[1..] == rest;
      } else {
        assert Popped(t, ops) == rest;
      }
    }
  }

  /** Forced pops return the whole queue in its order, and then nothing. */
  lemma {:induction false} ForcedPopsDrain(t: Table, ops: seq<Op>)
    requires EnabledRun(t, ops) && |ops| == |t.queue| + 1
    requires forall op :: op in ops ==> op.OpPop? && op.force
    ensures Popped(t, ops) == t.queue && Run(t, ops).queue == []
    decreases |ops|
  {
    assert ops[0] in ops && forall op :: op in ops[1..] ==> op in ops;
    if t.queue != [] {
      ForcedPopsDrain(Step(t, ops[0]), ops[1..]);
      assert t.queue == [t.queue[0]] + t.queue[1..];
    } else {
      assert ops[1..] == [];
    }
  }

  // ---------- when a pushed entry expires ----------

  /** A pushed slot is the last of the queue, and it is expired exactly from 300 s after the push on. All other slots
      keep their stamps. */
  lemma PushedExpires(t: Table, k: int, now: int, later: int)
    requires Inv(t) && Enabled(t, OpPush(k, now)) && Representable(now)
    ensures var u := Step(t, OpPush(k, now));
            && u.queue != [] && u.queue[|u.queue| - 1] == k
            && (ExpiryOf(u, k) <= later <==> later >= now + 300)
            && (forall x :: x != k ==> ExpiryOf(u, x) == ExpiryOf(t, x))
            && (t.queue == [] ==> (CanPop(u, false, later) <==> later >= now + 300))
            && u.order == t.order && u.pending == t.pending && u.stacks == t.stacks
  {
    StampIsExact(now);
  }
}
