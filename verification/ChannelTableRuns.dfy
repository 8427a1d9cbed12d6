/** What every run of the channel table keeps, and what an enumeration and the timeout queue promise
    while connections and channels come and go. */
module ChannelTableRuns {
  import opened ChannelTable
  import opened MachineTypes

  datatype Op =
    | OpAdd(key: int)
    | OpAddChannel(key: int, chan: Chan)
    | OpRemoveChannel(key: int, channelIn: HChannel)
    | OpRemove(key: int)
    | OpGetFirst
    | OpGetNext
    | OpPush(key: int, now: int)
    | OpPop(force: bool, now: int)

  /** What the program guarantees of an operation when it runs: new out-ids are fresh, and only slots of the
      table are queued. */
  ghost predicate Enabled(t: Table, op: Op) {
    match op
    case OpAddChannel(k, c) => c.channelOut >= 256 && OutIdFree(t, c.channelOut)
    case OpPush(k, _) => 0 <= k < |t.expiry|
    case OpRemove(k) => k in t.stacks ==> 0 <= k < |t.expiry|
    case _ => true
  }

  ghost function Step(t: Table, op: Op): Table
    requires Enabled(t, op)
  {
    match op
    case OpAdd(k) => Add(t, k)
    case OpAddChannel(k, c) => AddChannel(t, k, c)
    case OpRemoveChannel(k, channelIn) => RemoveChannel(t, k, channelIn)
    case OpRemove(k) => Remove(t, k)
    case OpGetFirst => GetFirst(t)
    case OpGetNext => GetNext(t)
    case OpPush(k, now) => Push(t, k, now)
    case OpPop(force, now) => Pop(t, force, now)
  }

  ghost predicate EnabledRun(t: Table, ops: seq<Op>)
    decreases |ops|
  {
    ops != [] ==> Enabled(t, ops[0]) && EnabledRun(Step(t, ops[0]), ops[1..])
  }

  ghost function Run(t: Table, ops: seq<Op>): Table
    requires EnabledRun(t, ops)
    decreases |ops|
  {
    if ops == [] then t else Run(Step(t, ops[0]), ops[1..])
  }

  // ---------- the invariant ----------

  ghost predicate IsSuffix(p: seq<int>, s: seq<int>) {
    |p| <= |s| && s[|s| - |p|..] == p
  }

  /** The channel at place `i` of connection `k` has the given out-id. */
  ghost predicate HoldsOut(t: Table, k: int, i: int, id: HChannel) {
    k in t.stacks && 0 <= i < |t.stacks[k]| && t.stacks[k][i].channelOut == id
  }

  /** Two places that hold the same out-id are the same place. */
  ghost predicate OutIdsUnique(t: Table) {
    forall k, i, l, j, id :: HoldsOut(t, k, i, id) && HoldsOut(t, l, j, id) ==> k == l && i == j
  }

  ghost predicate StacksOk(t: Table) {
    forall k :: k in t.stacks ==>
      && 0 <= k < MAX_HASH_KEY
      && |t.stacks[k]| <= CHANNELS_PER_CLIENT
      && forall i :: 0 <= i < |t.stacks[k]| ==> t.stacks[k][i].channelOut >= 256
  }

  ghost predicate OrderOk(t: Table) {
    NoDup(t.order) && IsSuffix(t.pending, t.order) && forall k :: k in t.order <==> k in t.stacks
  }

  ghost predicate QueueOk(t: Table) {
    |t.expiry| == MAX_HASH_KEY && NoDup(t.queue) && forall k :: k in t.queue ==> 0 <= k < MAX_HASH_KEY
  }

  ghost predicate Inv(t: Table) {
    OrderOk(t) && StacksOk(t) && OutIdsUnique(t) && QueueOk(t)
  }

  // ---------- out-ids never run out ----------

  function IdsOf(stack: seq<Chan>): (ids: set<HChannel>)
    ensures |ids| <= |stack|
    ensures forall c :: c in stack ==> c.channelOut in ids
  {
    if stack == [] then {} else {stack[0].channelOut} + IdsOf(stack[1..])
  }

  /** The out-ids of the connections with keys below `n`. */
  function UsedIds(t: Table, n: nat): set<HChannel>
  {
    if n == 0 then {} else UsedIds(t, n - 1) + if n - 1 in t.stacks then IdsOf(t.stacks[n - 1]) else {}
  }

  lemma {:induction false} UsedIdsBound(t: Table, n: nat)
    requires StacksOk(t)
    ensures |UsedIds(t, n)| <= n * CHANNELS_PER_CLIENT
    ensures forall k, c :: Open(t, k, c) && k < n ==> c.channelOut in UsedIds(t, n)
  {
    if n > 0 {
      UsedIdsBound(t, n - 1);
    }
  }

  lemma {:induction false} UnusedAbove(used: set<HChannel>, first: nat, n: nat) returns (id: HChannel)
    requires |used| < n && first + n <= TWO_32
    ensures id >= first && id !in used
    decreases n
  {
    if first !in used {
      id := first;
    } else {
      id := UnusedAbove(used - {first}, first + 1, n - 1);
    }
  }

  /** Whatever channels are open, some out-id is free: the search for one can always end. */
  lemma FreeOutIdExists(t: Table)
    requires Inv(t)
    ensures exists id: HChannel :: id >= 256 && OutIdFree(t, id)
  {
    UsedIdsBound(t, MAX_HASH_KEY);
    var id := UnusedAbove(UsedIds(t, MAX_HASH_KEY), 256, TWO_32 - 256);
    assert OutIdFree(t, id);
  }

  lemma WithoutFacts(s: seq<int>, x: int)
    requires NoDup(s)
    ensures NoDup(Without(s, x))
    ensures forall y :: y in Without(s, x) <==> y in s && y != x
  {
    if x in s {
      var k :| 0 <= k < |s| && s[k] == x;
      WithoutAt(s, k);
      RemoveAtMembers(s, k);
    } else {
      WithoutAbsent(s, x);
    }
  }

  lemma {:induction false} WithoutSuffix(p: seq<int>, s: seq<int>, x: int)
    requires NoDup(s) && IsSuffix(p, s)
    ensures IsSuffix(Without(p, x), Without(s, x))
  {
    if p == s {
    } else {
      assert s[1..][|s| - 1 - |p|..] == p;
      if s[0] == x {
        WithoutAbsent(p, x) by {
          assert forall i :: 0 <= i < |p| ==> p[i] == s[|s| - |p| + i];
        }
      } else {
        WithoutSuffix(p, s[1..], x);
        assert Without(s, x)[1..] == Without(s[1..], x);
      }
    }
  }

  lemma RemoveKeepsOrder(t: Table, k: int)
    requires OrderOk(t) && k in t.stacks && 0 <= k < |t.expiry|
    ensures OrderOk(Remove(t, k))
  {
    WithoutFacts(t.order, k);
    WithoutSuffix(t.pending, t.order, k);
    hide NoDup, IsSuffix, Without;
  }

  lemma AddKeepsOrder(t: Table, k: int)
    requires OrderOk(t) && CanAdd(t, k)
    ensures OrderOk(Add(t, k))
  {
    assert ([k] + t.order)[1 + |t.order| - |t.pending|..] == t.pending;
  }

  lemma NextKeepsOrder(t: Table)
    requires OrderOk(t)
    ensures OrderOk(GetNext(t))
  {
    if t.pending != [] {
      assert t.order[|t.order| - |t.pending| + 1..] == t.pending[1..];
    }
  }

  lemma StepKeepsOrder(t: Table, op: Op)
    requires Inv(t) && Enabled(t, op)
    ensures OrderOk(Step(t, op))
  {
    hide StacksOk, OutIdsUnique, QueueOk, NoDup;
    match op
    case OpAdd(k) =>
      if CanAdd(t, k) {
        AddKeepsOrder(t, k);
      }
      hide OrderOk;
    case OpRemove(k) =>
      if k in t.stacks {
        RemoveKeepsOrder(t, k);
      }
      hide OrderOk;
    case OpGetNext =>
      NextKeepsOrder(t);
      hide OrderOk;
    case _ =>
  }

  lemma AddChannelKeepsStacks(t: Table, k: int, c: Chan)
    requires Inv(t) && CanAddChannel(t, k) && c.channelOut >= 256 && OutIdFree(t, c.channelOut)
    ensures StacksOk(AddChannel(t, k, c)) && OutIdsUnique(AddChannel(t, k, c))
  {
    var u := AddChannel(t, k, c);
    forall l, j, id | HoldsOut(u, l, j, id)
      ensures if l == k && j == 0 then id == c.channelOut
              else HoldsOut(t, l, if l == k then j - 1 else j, id) && id != c.channelOut
    {
      if !(l == k && j == 0) {
        assert Open(t, l, t.stacks[l][if l == k then j - 1 else j]);
      }
    }
  }

  lemma RemoveChannelKeepsStacks(t: Table, k: int, channelIn: HChannel)
    requires Inv(t) && HasIn(t, k, channelIn)
    ensures StacksOk(RemoveChannel(t, k, channelIn)) && OutIdsUnique(RemoveChannel(t, k, channelIn))
  {
    var i, u := FindIn(t.stacks[k], channelIn), RemoveChannel(t, k, channelIn);
    forall l, j, id | HoldsOut(u, l, j, id)
      ensures HoldsOut(t, l, if l == k && j >= i then j + 1 else j, id)
    {
    }
  }

  lemma RemoveKeepsStacks(t: Table, k: int)
    requires Inv(t) && k in t.stacks
    ensures StacksOk(Remove(t, k)) && OutIdsUnique(Remove(t, k))
  {
    forall l, j, id | HoldsOut(Remove(t, k), l, j, id)
      ensures HoldsOut(t, l, j, id)
    {
    }
  }

  lemma StepKeepsStacks(t: Table, op: Op)
    requires Inv(t) && Enabled(t, op)
    ensures StacksOk(Step(t, op)) && OutIdsUnique(Step(t, op))
  {
    match op
    case OpAddChannel(k, c) =>
      if CanAddChannel(t, k) {
        AddChannelKeepsStacks(t, k, c);
      }
    case OpRemoveChannel(k, channelIn) =>
      if HasIn(t, k, channelIn) {
        RemoveChannelKeepsStacks(t, k, channelIn);
      }
    case OpRemove(k) =>
      if k in t.stacks {
        RemoveKeepsStacks(t, k);
      }
    case _ =>
      forall l, j, id | HoldsOut(Step(t, op), l, j, id)
        ensures HoldsOut(t, l, j, id)
      {
      }
  }

  lemma StepKeepsQueue(t: Table, op: Op)
    requires Inv(t) && Enabled(t, op)
    ensures QueueOk(Step(t, op))
  {
    match op
    case OpRemove(k) => WithoutFacts(t.queue, k);
    case OpPush(k, now) =>
      WithoutFacts(t.queue, k);
      var q := Without(t.queue, k);
      assert NoDup(q) && k !in q;
      assert forall i :: 0 <= i < |q| ==> q[i] in q && (q + [k])[i] == q[i];
    case OpPop(force, now) =>
      if t.queue != [] {
        assert forall x :: x in t.queue[1..] ==> x in t.queue;
      }
    case _ =>
  }

  lemma StepKeepsInv(t: Table, op: Op)
    requires Inv(t) && Enabled(t, op)
    ensures Inv(Step(t, op))
  {
    StepKeepsOrder(t, op);
    StepKeepsStacks(t, op);
    StepKeepsQueue(t, op);
  }

  /** The list of connections has no repetition and names the connections of the table, the enumeration
      has a tail of that list before it, no connection has more channels than allowed, and every out-id
      from 256 up stands for one channel only: after every run that starts so. */
  lemma {:induction false} RunKeepsInv(t: Table, ops: seq<Op>)
    requires Inv(t) && EnabledRun(t, ops)
    ensures Inv(Run(t, ops))
    decreases |ops|
  {
    if ops != [] {
      StepKeepsInv(t, ops[0]);
      RunKeepsInv(Step(t, ops[0]), ops[1..]);
    }
  }

  lemma EmptyInv()
    ensures Inv(Empty())
  {
  }

  /** So in every table that the program can reach. */
  lemma ReachableInv(ops: seq<Op>)
    requires EnabledRun(Empty(), ops)
    ensures Inv(Run(Empty(), ops))
  {
    EmptyInv();
    RunKeepsInv(Empty(), ops);
  }

  /** Looking up an out-id inverts looking up a connection: it names one connection and one channel. */
  lemma OutIdNamesOneChannel(t: Table, k: int, c: Chan, l: int, d: Chan)
    requires Inv(t) && Open(t, k, c) && Open(t, l, d) && c.channelOut == d.channelOut
    ensures k == l && c == d
  {
    var i :| 0 <= i < |t.stacks[k]| && t.stacks[k][i] == c;
    var j :| 0 <= j < |t.stacks[l]| && t.stacks[l][j] == d;
    assert HoldsOut(t, k, i, c.channelOut) && HoldsOut(t, l, j, c.channelOut);
  }

  /** A channel that is opened hides older ones with its in-id, and closing that in-id undoes the opening. */
  lemma RemoveChannelUndoesAddChannel(t: Table, k: int, c: Chan)
    requires CanAddChannel(t, k)
    ensures var u := AddChannel(t, k, c);
            && HasIn(u, k, c.channelIn) && u.stacks[k][FindIn(u.stacks[k], c.channelIn)] == c
            && RemoveChannel(u, k, c.channelIn) == t
  {
    var u := AddChannel(t, k, c);
    assert FindIn(u.stacks[k], c.channelIn) == 0;
    assert RemoveAt(u.stacks[k], 0) == t.stacks[k];
    assert RemoveChannel(u, k, c.channelIn).stacks == t.stacks;
  }

  /** Closing an in-id drops the newest channel that has it: every other channel stays open, in its order. */
  lemma RemoveChannelDropsNewest(t: Table, k: int, channelIn: HChannel, l: int, d: Chan)
    requires Inv(t) && HasIn(t, k, channelIn)
    ensures var c := t.stacks[k][FindIn(t.stacks[k], channelIn)];
            Open(RemoveChannel(t, k, channelIn), l, d) <==> Open(t, l, d) && !(l == k && d == c)
  {
    var i := FindIn(t.stacks[k], channelIn);
    var s := t.stacks[k];
    forall a, b | 0 <= a < b < |s|
      ensures s[a] != s[b]
    {
      assert HoldsOut(t, k, a, s[a].channelOut) && HoldsOut(t, k, b, s[b].channelOut);
    }
    RemoveAtMembers(s, i);
  }

  /** The table after one channel after the other was opened on a connection, as far as there is room. */
  function Opened(t: Table, k: int, chans: seq<Chan>): Table
    decreases |chans|
  {
    if chans == [] then t else Opened(AddChannel(t, k, chans[0]), k, chans[1..])
  }

  /** The newest of these channels, newest first. */
  function NewestFirst(chans: seq<Chan>, n: nat): (s: seq<Chan>)
    requires n <= |chans|
    ensures |s| == n
  {
    if n == 0 then [] else [chans[n - 1]] + NewestFirst(chans, n - 1)
  }

  lemma {:induction false} NewestFirstCons(c: Chan, chans: seq<Chan>, n: nat)
    requires n <= |chans|
    ensures NewestFirst([c] + chans, n + 1) == NewestFirst(chans, n) + [c]
  {
    if n == 0 {
      assert NewestFirst([c] + chans, 0) == [];
    } else {
      NewestFirstCons(c, chans, n - 1);
    }
  }

  lemma {:induction false} FullStays(t: Table, k: int, chans: seq<Chan>)
    requires k in t.stacks && |t.stacks[k]| == 500
    ensures Opened(t, k, chans) == t
    decreases |chans|
  {
    if chans != [] {
      FullStays(t, k, chans[1..]);
    }
  }

  /** A connection takes channels until it has 500, each in front of the others, and then refuses every further one. */
  lemma {:induction false} ConnectionHolds500(t: Table, k: int, chans: seq<Chan>)
    requires k in t.stacks && |t.stacks[k]| <= 500
    ensures var room := 500 - |t.stacks[k]|;
            var n := if |chans| <= room then |chans| else room;
            Opened(t, k, chans) == t.(stacks := t.stacks[k := NewestFirst(chans, n) + t.stacks[k]])
    decreases |chans|
  {
    var stack := t.stacks[k];
    if |stack| == 500 {
      FullStays(t, k, chans);
      assert NewestFirst(chans, 0) + stack == stack && t.stacks[k := stack] == t.stacks;
    } else if chans == [] {
      assert [] + stack == stack && t.stacks[k := stack] == t.stacks;
    } else {
      var c, rest := chans[0], chans[1..];
      var u := AddChannel(t, k, c);
      ConnectionHolds500(u, k, rest);
      var m := if |rest| <= 499 - |stack| then |rest| else 499 - |stack|;
      NewestFirstCons(c, rest, m);
      assert chans == [c] + rest;
      assert NewestFirst(rest, m) + ([c] + stack) == (NewestFirst(rest, m) + [c]) + stack;
      assert u.stacks[k := NewestFirst(rest, m) + u.stacks[k]] == t.stacks[k := NewestFirst(rest, m) + u.stacks[k]];
    }
  }

  // ---------- connections come and go ----------

  lemma SuffixMembers(t: Table)
    requires Inv(t)
    ensures forall x :: x in t.pending ==> x in t.stacks
  {
    forall i | 0 <= i < |t.pending|
      ensures t.pending[i] in t.order
    {
      assert t.pending[i] == t.order[|t.order| - |t.pending| + i];
    }
  }

  lemma PendingNoDup(t: Table)
    requires Inv(t)
    ensures NoDup(t.pending)
  {
    var n := |t.order| - |t.pending|;
    forall i, j | 0 <= i < j < |t.pending|
      ensures t.pending[i] != t.pending[j]
    {
      assert t.pending[i] == t.order[n + i] && t.pending[j] == t.order[n + j];
    }
  }

  ghost function Stamp(expiry: seq<int>, k: int): int {
    if 0 <= k < |expiry| then expiry[k] else 0
  }

  ghost function ExpiryOf(t: Table, k: int): int {
    Stamp(t.expiry, k)
  }

  /** Taking out what a sequence without repetition holds between two parts leaves the parts. */
  lemma WithoutBetween(s: seq<int>, a: seq<int>, x: int, b: seq<int>)
    requires NoDup(s) && s == a + [x] + b
    ensures Without(s, x) == a + b
  {
    assert s[|a|] == x;
    WithoutAt(s, |a|);
    assert RemoveAt(s, |a|) == a + b;
  }

  /** Removing a connection forgets it: it is in no list any more, its out-ids are free and its key can be added again.
      All other connections keep their places, their channels and their stamps. */
  lemma RemoveForgets(t: Table, k: int)
    requires Inv(t) && k in t.stacks
    ensures var u := Step(t, OpRemove(k));
            && k !in u.order && k !in u.pending && k !in u.queue && ExpiryOf(u, k) == 0
            && CanAdd(u, k)
            && (forall l, d :: Open(u, l, d) <==> Open(t, l, d) && l != k)
            && (forall l :: l in u.stacks <==> l in t.stacks && l != k)
            && (forall d :: Open(t, k, d) ==> OutIdFree(u, d.channelOut))
            && (forall x :: x != k ==> ExpiryOf(u, x) == ExpiryOf(t, x))
  {
    var u := Step(t, OpRemove(k));
    PendingNoDup(t);
    WithoutFacts(t.order, k);
    WithoutFacts(t.pending, k);
    WithoutFacts(t.queue, k);
    forall d, l, e | Open(t, k, d) && Open(u, l, e) ensures e.channelOut != d.channelOut {
      if e.channelOut == d.channelOut {
        OutIdNamesOneChannel(t, k, d, l, e);
      }
    }
    hide Inv;
  }

  /** In each list only the removed connection is missing. */
  lemma RemoveKeepsPlaces(t: Table, k: int, a: seq<int>, b: seq<int>)
    requires Inv(t) && k in t.stacks
    ensures var u := Step(t, OpRemove(k));
            && (t.order == a + [k] + b ==> u.order == a + b)
            && (t.pending == a + [k] + b ==> u.pending == a + b)
            && (t.queue == a + [k] + b ==> u.queue == a + b)
            && (k !in t.pending ==> u.pending == t.pending)
            && (k !in t.queue ==> u.queue == t.queue)
  {
    PendingNoDup(t);
    if t.order == a + [k] + b {
      WithoutBetween(t.order, a, k, b);
    }
    if t.pending == a + [k] + b {
      WithoutBetween(t.pending, a, k, b);
    }
    if t.queue == a + [k] + b {
      WithoutBetween(t.queue, a, k, b);
    }
    if k !in t.pending {
      WithoutAbsent(t.pending, k);
    }
    if k !in t.queue {
      WithoutAbsent(t.queue, k);
    }
  }

  /** So adding a connection and removing it changes nothing, and in between it is the first of the list and has no
      channels. */
  lemma RemoveUndoesAdd(t: Table, k: int)
    requires Inv(t) && CanAdd(t, k) && k !in t.queue && ExpiryOf(t, k) == 0
    ensures var u := Step(t, OpAdd(k));
            && u.order != [] && u.order[0] == k && CanAddChannel(u, k) && (forall d :: !Open(u, k, d))
            && Step(u, OpRemove(k)) == t
  {
    SuffixMembers(t);
    assert k !in t.pending;
    assert t.expiry[k := 0] == t.expiry;
    WithoutAbsent(t.pending, k);
    WithoutAbsent(t.queue, k);
    hide Inv, OrderOk;
    var u := Step(t, OpAdd(k));
    assert u.order[1..] == t.order;
    assert u.stacks - {k} == t.stacks;
  }

  /** A connection that is in the table, or whose key is no key, cannot be added; nothing changes. */
  lemma AddAgainDoesNothing(t: Table, k: int)
    requires !(0 <= k < 8200 && k !in t.stacks)
    ensures Step(t, OpAdd(k)) == t
  {
  }

  // ---------- the enumeration ----------

  ghost predicate NoGetFirst(ops: seq<Op>) {
    forall i :: 0 <= i < |ops| ==> ops[i] != OpGetFirst
  }

  /** What the calls of `getNext` in a run return. */
  ghost function Yields(t: Table, ops: seq<Op>): seq<int>
    requires EnabledRun(t, ops)
    decreases |ops|
  {
    if ops == [] then []
    else (if ops[0].OpGetNext? && t.pending != [] then [t.pending[0]] else []) + Yields(Step(t, ops[0]), ops[1..])
  }

  lemma {:induction false} EnabledPrefix(t: Table, ops: seq<Op>, j: nat)
    requires EnabledRun(t, ops) && j <= |ops|
    ensures EnabledRun(t, ops[..j])
    decreases |ops|
  {
    if j > 0 {
      EnabledPrefix(Step(t, ops[0]), ops[1..], j - 1);
      assert ops[..j][1..] == ops[1..][..j - 1];
    }
  }

  /** Call `j` removes connection `x` before its turn has come. */
  ghost predicate CutAt(x: int, t: Table, ops: seq<Op>, j: nat)
    requires EnabledRun(t, ops) && j < |ops|
  {
    EnabledPrefix(t, ops, j);
    ops[j] == OpRemove(x) && x !in Yields(t, ops[..j])
  }

  ghost predicate Cut(x: int, t: Table, ops: seq<Op>)
    requires EnabledRun(t, ops)
  {
    exists j :: 0 <= j < |ops| && CutAt(x, t, ops, j)
  }

  /** The connections of `s` that are not removed before their turn. */
  ghost function Kept(s: seq<int>, t: Table, ops: seq<Op>): seq<int>
    requires EnabledRun(t, ops)
  {
    if s == [] then [] else (if Cut(s[0], t, ops) then [] else [s[0]]) + Kept(s[1..], t, ops)
  }

  /** A call that neither yields nor removes `x` leaves its fate to the rest of the run. */
  lemma CutLater(x: int, t: Table, ops: seq<Op>)
    requires ops != [] && EnabledRun(t, ops)
    requires !(ops[0].OpGetNext? && t.pending != [] && t.pending[0] == x) && ops[0] != OpRemove(x)
    ensures Cut(x, t, ops) <==> Cut(x, Step(t, ops[0]), ops[1..])
  {
    var u, rest := Step(t, ops[0]), ops[1..];
    forall j | 0 < j < |ops|
      ensures CutAt(x, t, ops, j) <==> CutAt(x, u, rest, j - 1)
    {
      EnabledPrefix(t, ops, j);
      EnabledPrefix(u, rest, j - 1);
      assert ops[..j][1..] == rest[..j - 1];
    }
    if Cut(x, u, rest) {
      var j :| 0 <= j < |rest| && CutAt(x, u, rest, j);
      assert CutAt(x, t, ops, j + 1);
    }
  }

  lemma CutNow(x: int, t: Table, ops: seq<Op>)
    requires ops != [] && EnabledRun(t, ops) && ops[0] == OpRemove(x)
    ensures Cut(x, t, ops)
  {
    assert CutAt(x, t, ops, 0);
  }

  lemma NotCutWhenYielded(x: int, t: Table, ops: seq<Op>)
    requires ops != [] && EnabledRun(t, ops) && ops[0].OpGetNext? && t.pending != [] && t.pending[0] == x
    ensures !Cut(x, t, ops)
  {
    forall j | 0 <= j < |ops|
      ensures !CutAt(x, t, ops, j)
    {
      EnabledPrefix(t, ops, j);
    }
  }

  lemma {:induction false} KeptLater(s: seq<int>, t: Table, ops: seq<Op>)
    requires ops != [] && EnabledRun(t, ops)
    requires forall x :: x in s ==>
               !(ops[0].OpGetNext? && t.pending != [] && t.pending[0] == x) && ops[0] != OpRemove(x)
    ensures Kept(s, t, ops) == Kept(s, Step(t, ops[0]), ops[1..])
  {
    if s != [] {
      assert s[0] in s;
      CutLater(s[0], t, ops);
      KeptLater(s[1..], t, ops);
    }
  }

  lemma {:induction false} KeptWithout(s: seq<int>, x: int, t: Table, ops: seq<Op>)
    requires EnabledRun(t, ops) && Cut(x, t, ops)
    ensures Kept(Without(s, x), t, ops) == Kept(s, t, ops)
  {
    if s != [] {
      KeptWithout(s[1..], x, t, ops);
    }
  }

  /** One call: what is kept of the rest of the enumeration before it and after it. */
  lemma KeptStep(t: Table, ops: seq<Op>)
    requires Inv(t) && ops != [] && EnabledRun(t, ops) && ops[0] != OpGetFirst
    ensures var op, u := ops[0], Step(t, ops[0]);
            Kept(t.pending, t, ops) == (if op.OpGetNext? && t.pending != [] then [t.pending[0]] else [])
                                       + Kept(u.pending, u, ops[1..])
  {
    hide StacksOk, OutIdsUnique, QueueOk;
    var op := ops[0];
    PendingNoDup(t);
    SuffixMembers(t);
    hide OrderOk;
    if op.OpGetNext? && t.pending != [] {
      NotCutWhenYielded(t.pending[0], t, ops);
      KeptLater(t.pending[1..], t, ops);
    } else if op.OpRemove? {
      CutNow(op.key, t, ops);
      WithoutFacts(t.pending, op.key);
      KeptWithout(t.pending, op.key, t, ops);
      KeptLater(Without(t.pending, op.key), t, ops);
      if op.key !in t.stacks {
        WithoutAbsent(t.pending, op.key);
      }
    } else {
      KeptLater(t.pending, t, ops);
    }
  }

  lemma {:induction false} KeptAll(s: seq<int>, t: Table)
    ensures Kept(s, t, []) == s
  {
    if s != [] {
      KeptAll(s[1..], t);
    }
  }

  /** What an enumeration returns in a run, followed by what it has still to return, is what it had to
      return at the start, in order and without those connections that are removed before their turn.
      Connections that are added on the way never appear. */
  lemma {:induction false} EnumerationSurvives(t: Table, ops: seq<Op>)
    requires Inv(t) && EnabledRun(t, ops) && NoGetFirst(ops)
    ensures Yields(t, ops) + Run(t, ops).pending == Kept(t.pending, t, ops)
    decreases |ops|
  {
    hide Inv, Kept;
    if ops == [] {
      KeptAll(t.pending, t);
    } else {
      StepKeepsInv(t, ops[0]);
      EnumerationSurvives(Step(t, ops[0]), ops[1..]);
      KeptStep(t, ops);
    }
  }

  /** A whole enumeration: the connection that `getFirst` returns, what the calls of `getNext` return, and what is still
      to be returned are the list of connections at the call of `getFirst`, without those behind the first that are
      removed before their turn. An empty list yields nothing. */
  lemma EnumerationIsComplete(t: Table, ops: seq<Op>)
    requires Inv(t) && NoGetFirst(ops) && EnabledRun(Step(t, OpGetFirst), ops)
    ensures var u := Step(t, OpGetFirst);
            && u.order == t.order && u.stacks == t.stacks && u.queue == t.queue && u.expiry == t.expiry
            && (t.order == [] ==> Yields(u, ops) == [] && Run(u, ops).pending == [])
            && (t.order != [] ==>
                  [t.order[0]] + Yields(u, ops) + Run(u, ops).pending == [t.order[0]] + Kept(t.order[1..], u, ops))
  {
    var u := Step(t, OpGetFirst);
    StepKeepsInv(t, OpGetFirst);
    EnumerationSurvives(u, ops);
    hide Inv, Run, Yields, EnabledRun;
    if t.order != [] {
      assert [t.order[0]] + Yields(u, ops) + Run(u, ops).pending
             == [t.order[0]] + (Yields(u, ops) + Run(u, ops).pending);
    }
  }

  /** With nothing removed on the way, as many calls of `getNext` as there are connections return each of them once, in
      the order of the list, and then nothing. */
  lemma {:induction false} NextsReturnAll(t: Table, ops: seq<Op>)
    requires EnabledRun(t, ops) && |ops| == |t.pending| + 1 && forall i :: 0 <= i < |ops| ==> ops[i] == OpGetNext
    ensures Yields(t, ops) == t.pending && Run(t, ops).pending == []
    decreases |ops|
  {
    if t.pending != [] {
      assert forall i :: 0 <= i < |ops| - 1 ==> ops[1..][i] == ops[i + 1];
      NextsReturnAll(Step(t, ops[0]), ops[1..]);
      assert t.pending == [t.pending[0]] + t.pending[1..];
    } else {
      assert ops[1..] == [];
    }
  }

  // ---------- the timeout queue ----------

  /** The clocks of a run do not go backwards, starting from `now`, and their stamps fit the field. */
  ghost predicate Clocked(ops: seq<Op>, now: int)
    decreases |ops|
  {
    ops != [] ==>
      match ops[0]
      case OpPush(_, n) => now <= n && Representable(n) && Clocked(ops[1..], n)
      case OpPop(_, n) => now <= n && Clocked(ops[1..], n)
      case _ => Clocked(ops[1..], now)
  }

  predicate Representable(now: int) {
    -0x8000_0000 <= now + EXPIRATION_TIME_SECS < 0x8000_0000
  }

  ghost predicate SortedBy(q: seq<int>, expiry: seq<int>) {
    forall i, j :: 0 <= i < j < |q| ==> Stamp(expiry, q[i]) <= Stamp(expiry, q[j])
  }

  ghost predicate Sorted(t: Table) {
    SortedBy(t.queue, t.expiry)
  }

  /** The queue is sorted by expiry, and nothing in it expires later than what is queued at `now`. */
  ghost predicate SortedBefore(t: Table, now: int) {
    Sorted(t) && forall k :: k in t.queue ==> ExpiryOf(t, k) <= now + EXPIRATION_TIME_SECS
  }

  ghost function ClockOf(op: Op, now: int): int {
    match op
    case OpPush(_, n) => n
    case OpPop(_, n) => n
    case _ => now
  }

  lemma {:induction false} WithoutSortedBy(q: seq<int>, e: seq<int>, k: int)
    requires SortedBy(q, e)
    ensures SortedBy(Without(q, k), e) && forall x :: x in Without(q, k) ==> x in q
  {
    if q != [] {
      assert forall i :: 0 <= i < |q| - 1 ==> q[1..][i] == q[i + 1];
      WithoutSortedBy(q[1..], e, k);
      var r := Without(q[1..], k);
      forall j | 0 <= j < |r|
        ensures Stamp(e, q[0]) <= Stamp(e, r[j])
      {
        assert r[j] in r && r[j] in q[1..];
      }
    }
  }

  /** Only stamps of slots that are not queued may change. */
  lemma SortedByOther(q: seq<int>, e: seq<int>, e': seq<int>)
    requires SortedBy(q, e) && forall x :: x in q ==> Stamp(e, x) == Stamp(e', x)
    ensures SortedBy(q, e')
  {
    forall i, j | 0 <= i < j < |q|
      ensures Stamp(e', q[i]) <= Stamp(e', q[j])
    {
      assert q[i] in q && q[j] in q;
    }
  }

  lemma AppendSortedBy(q: seq<int>, e: seq<int>, k: int)
    requires SortedBy(q, e) && forall x :: x in q ==> Stamp(e, x) <= Stamp(e, k)
    ensures SortedBy(q + [k], e)
  {
    forall i, j | 0 <= i < j < |q| + 1
      ensures Stamp(e, (q + [k])[i]) <= Stamp(e, (q + [k])[j])
    {
      assert q[i] in q;
    }
  }

  lemma StampIsExact(now: int)
    requires Representable(now)
    ensures Signed32(now + EXPIRATION_TIME_SECS) == now + EXPIRATION_TIME_SECS
  {
  }

  lemma PushKeepsSorted(t: Table, k: int, n: int, now: int)
    requires QueueOk(t) && SortedBefore(t, now) && now <= n && Representable(n) && 0 <= k < |t.expiry|
    ensures SortedBefore(Push(t, k, n), n)
  {
    var q, u := Without(t.queue, k), Push(t, k, n);
    WithoutFacts(t.queue, k);
    WithoutSortedBy(t.queue, t.expiry, k);
    StampIsExact(n);
    hide SortedBy, Without, NoDup, Signed32;
    SortedByOther(q, t.expiry, u.expiry);
    AppendSortedBy(q, u.expiry, k);
  }

  lemma StepKeepsSorted(t: Table, op: Op, now: int)
    requires Inv(t) && Enabled(t, op) && SortedBefore(t, now)
    requires now <= ClockOf(op, now) && (op.OpPush? ==> Representable(op.now))
    ensures SortedBefore(Step(t, op), ClockOf(op, now))
  {
    hide OrderOk, StacksOk, OutIdsUnique;
    match op
    case OpRemove(k) =>
      if k in t.stacks {
        WithoutFacts(t.queue, k);
        WithoutSortedBy(t.queue, t.expiry, k);
        SortedByOther(Without(t.queue, k), t.expiry, t.expiry[k := 0]);
      }
    case OpPush(k, n) => PushKeepsSorted(t, k, n, now);
    case OpPop(force, n) =>
      if t.queue != [] {
        assert forall i :: 0 <= i < |t.queue| - 1 ==> t.queue[1..][i] == t.queue[i + 1];
        assert forall x :: x in t.queue[1..] ==> x in t.queue;
      }
    case _ =>
  }

  /** With a clock that does not go backwards the timeout queue is sorted by expiry in every reachable
      table. */
  lemma {:induction false} RunKeepsSorted(t: Table, ops: seq<Op>, now: int)
    requires Inv(t) && EnabledRun(t, ops) && SortedBefore(t, now) && Clocked(ops, now)
    ensures Sorted(Run(t, ops))
    decreases |ops|
  {
    if ops != [] {
      StepKeepsInv(t, ops[0]);
      StepKeepsSorted(t, ops[0], now);
      RunKeepsSorted(Step(t, ops[0]), ops[1..], ClockOf(ops[0], now));
    }
  }

  /** So looking at the head is enough: an unforced pop takes an entry exactly when some queued entry is
      expired, and what it takes expires first. */
  lemma PopFindsExpired(t: Table, now: int)
    requires Inv(t) && Sorted(t)
    ensures CanPop(t, false, now) <==> exists k :: k in t.queue && ExpiryOf(t, k) <= now
    ensures CanPop(t, false, now) ==> forall k :: k in t.queue ==> ExpiryOf(t, t.queue[0]) <= ExpiryOf(t, k)
  {
    hide OrderOk, StacksOk, OutIdsUnique;
    forall k | k in t.queue
      ensures ExpiryOf(t, t.queue[0]) <= ExpiryOf(t, k)
    {
      var i :| 0 <= i < |t.queue| && t.queue[i] == k;
    }
    if t.queue != [] {
      assert t.queue[0] in t.queue;
    }
  }

  /** The stamp is a 32-bit field. Between the epoch and the end of the unsigned range, queueing an entry
      behind others that expire no later keeps the queue sorted exactly while the stamp does not wrap. */
  lemma PushKeepsSortedIff(t: Table, k: int, now: int)
    requires QueueOk(t) && SortedBefore(t, now) && 0 <= k < MAX_HASH_KEY
    requires 0 <= now && now + EXPIRATION_TIME_SECS < 0x1_0000_0000
    requires forall x :: x in t.queue ==> ExpiryOf(t, x) >= 0
    ensures Sorted(Push(t, k, now)) <==> Representable(now) || Without(t.queue, k) == []
  {
    if Representable(now) {
      PushKeepsSorted(t, k, now, now);
    } else {
      var q, u := Without(t.queue, k), Push(t, k, now);
      WithoutFacts(t.queue, k);
      if q != [] {
        assert q[0] in q && u.queue[0] == q[0] && u.queue[|q|] == k;
        assert ExpiryOf(u, k) < 0 <= ExpiryOf(u, q[0]);
      }
    }
  }
}
