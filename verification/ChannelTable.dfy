/** The channel table of the first mix as a value: what the intrusive lists of CAFirstMixChannelList
    are meant to represent. Connections are named by the hash key of their socket. */
module ChannelTable {
  import opened MachineTypes

  const MAX_HASH_KEY := 8200
  const OUT_BUCKETS := 0x10000
  const CHANNELS_PER_CLIENT := 500
  const EXPIRATION_TIME_SECS := 300

  type HChannel = UInt32
  type Cipher = nat

  /** One channel of a connection. */
  datatype Chan = Chan(channelIn: HChannel, channelOut: HChannel, cipher: Cipher)

  /** `order` lists the live connections, newest first; `pending` is what the enumeration has still to
      return; `stacks` gives each live connection its channels, newest first; `queue` is the timeout
      queue, oldest first; `expiry` is the timeout stamp of every slot, queued or not. */
  datatype Table = Table(order: seq<int>, pending: seq<int>, stacks: map<int, seq<Chan>>,
                         queue: seq<int>, expiry: seq<int>)

  /** `s` without the first occurrence of `x`. */
  function Without<T(==)>(s: seq<T>, x: T): seq<T> {
    if s == [] then [] else if s[0] == x then s[1..] else [s[0]] + Without(s[1..], x)
  }

  function RemoveAt<T>(s: seq<T>, k: nat): seq<T>
    requires k < |s|
  {
    s[..k] + s[k + 1..]
  }

  /** The position of the newest channel with the given in-id, or the length if there is none. */
  function FindIn(stack: seq<Chan>, channelIn: HChannel): (k: nat)
    ensures k <= |stack|
    ensures forall j :: 0 <= j < k ==> stack[j].channelIn != channelIn
    ensures k < |stack| ==> stack[k].channelIn == channelIn
  {
    if stack == [] || stack[0].channelIn == channelIn then 0 else 1 + FindIn(stack[1..], channelIn)
  }

  /** Channel `c` is open on the connection with key `k`. */
  predicate Open(t: Table, k: int, c: Chan) {
    k in t.stacks && c in t.stacks[k]
  }

  ghost predicate OutIdFree(t: Table, id: HChannel) {
    forall k, c :: Open(t, k, c) ==> c.channelOut != id
  }

  function Empty(): Table {
    Table([], [], map[], [], seq(MAX_HASH_KEY, _ => 0))
  }

  predicate CanAdd(t: Table, k: int) {
    0 <= k < MAX_HASH_KEY && k !in t.stacks
  }

  function Add(t: Table, k: int): Table {
    if CanAdd(t, k) then t.(order := [k] + t.order, stacks := t.stacks[k := []]) else t
  }

  predicate CanAddChannel(t: Table, k: int) {
    k in t.stacks && |t.stacks[k]| < CHANNELS_PER_CLIENT
  }

  function AddChannel(t: Table, k: int, c: Chan): Table {
    if CanAddChannel(t, k) then t.(stacks := t.stacks[k := [c] + t.stacks[k]]) else t
  }

  predicate HasIn(t: Table, k: int, channelIn: HChannel) {
    k in t.stacks && FindIn(t.stacks[k], channelIn) < |t.stacks[k]|
  }

  function RemoveChannel(t: Table, k: int, channelIn: HChannel): Table {
    if HasIn(t, k, channelIn)
    then t.(stacks := t.stacks[k := RemoveAt(t.stacks[k], FindIn(t.stacks[k], channelIn))])
    else t
  }

  function Remove(t: Table, k: int): Table
    requires k in t.stacks ==> 0 <= k < |t.expiry|
  {
    if k in t.stacks
    then Table(Without(t.order, k), Without(t.pending, k), t.stacks - {k}, Without(t.queue, k), t.expiry[k := 0])
    else t
  }

  function GetFirst(t: Table): Table {
    t.(pending := if t.order == [] then [] else t.order[1..])
  }

  function GetNext(t: Table): Table {
    t.(pending := if t.pending == [] then [] else t.pending[1..])
  }

  /** Queues the slot `k` at the foot with a fresh stamp, taking it out of its old place first. */
  function Push(t: Table, k: int, now: int): Table
    requires 0 <= k < |t.expiry|
  {
    t.(queue := Without(t.queue, k) + [k], expiry := t.expiry[k := Signed32(now + EXPIRATION_TIME_SECS)])
  }

  predicate CanPop(t: Table, force: bool, now: int) {
    t.queue != [] && (force || (0 <= t.queue[0] < |t.expiry| && t.expiry[t.queue[0]] <= now))
  }

  function Pop(t: Table, force: bool, now: int): Table {
    if CanPop(t, force, now) then t.(queue := t.queue[1..]) else t
  }

  // ---------- sequences without repetition ----------

  ghost predicate NoDup<T>(s: seq<T>) {
    forall i, j :: 0 <= i < j < |s| ==> s[i] != s[j]
  }

  lemma {:induction false} WithoutAbsent<T>(s: seq<T>, x: T)
    requires x !in s
    ensures Without(s, x) == s
  {
    if s != [] {
      WithoutAbsent(s[1..], x);
    }
  }

  lemma {:induction false} WithoutAt<T>(s: seq<T>, k: nat)
    requires k < |s| && forall j :: 0 <= j < k ==> s[j] != s[k]
    ensures Without(s, s[k]) == RemoveAt(s, k)
  {
    if k == 0 {
      assert RemoveAt(s, k) == s[1..];
    } else {
      var tail := s[1..];
      assert forall j :: 0 <= j < k - 1 ==> tail[j] == s[j + 1];
      WithoutAt(tail, k - 1);
      assert s[..k] == [s[0]] + tail[..k - 1] && s[k + 1..] == tail[k..];
    }
  }

  lemma RemoveAtMembers<T>(s: seq<T>, k: nat)
    requires k < |s| && NoDup(s)
    ensures NoDup(RemoveAt(s, k)) && |RemoveAt(s, k)| == |s| - 1
    ensures forall i :: 0 <= i < |s| - 1 ==> RemoveAt(s, k)[i] == s[if i < k then i else i + 1]
    ensures forall x :: x in RemoveAt(s, k) <==> x in s && x != s[k]
  {
    forall x | x in s && x != s[k]
      ensures x in RemoveAt(s, k)
    {
      var j :| 0 <= j < |s| && s[j] == x;
      assert RemoveAt(s, k)[if j < k then j else j - 1] == x;
    }
  }
}
