/** The channel list of the first mix in the form of the program: records of two kinds that carry the
    links of four lists. Every list is a chain of prev/next fields; the ghost sequences say which chain. */
module FirstMixChannelList {
  import opened ChannelTable
  import opened MachineTypes
  import Runs = ChannelTableRuns

  /** The socket of a user; only its hash key matters here. */
  class MuxSocket {
    const hashKey: int

    constructor (hashKey: int)
      ensures this.hashKey == hashKey
    {
      this.hashKey := hashKey;
    }
  }

  /** A slot of the table of connections (`fmHashTableEntry`). */
  class Connection {
    ghost const slot: int
    var muxSocket: MuxSocket?
    var numberOfChannels: nat
    var channelList: Channel?
    var listPrev: Connection?
    var listNext: Connection?
    var timeoutPrev: Connection?
    var timeoutNext: Connection?
    var timeoutSecs: int
    var recoverTimeout: bool
    ghost var channels: seq<Channel>  // the chain that starts at channelList

    constructor (ghost slot: int)
      ensures this.slot == slot && muxSocket == null && numberOfChannels == 0
      ensures channelList == null && listPrev == null && listNext == null
      ensures timeoutPrev == null && timeoutNext == null && timeoutSecs == 0 && channels == []
    {
      this.slot := slot;
      muxSocket, numberOfChannels, channelList := null, 0, null;
      listPrev, listNext, timeoutPrev, timeoutNext := null, null, null, null;
      timeoutSecs, recoverTimeout, channels := 0, false, [];
    }
  }

  /** A channel record (`fmChannelListEntry`). Its identifying fields are set once, before it is linked. */
  class Channel {
    const head: Connection
    const channelIn: HChannel
    const channelOut: HChannel
    const cipher: Cipher
    var outPrev: Channel?
    var outNext: Channel?
    var inPrev: Channel?
    var inNext: Channel?

    constructor (head: Connection, channelIn: HChannel, channelOut: HChannel, cipher: Cipher)
      ensures this.head == head && this.channelIn == channelIn
      ensures this.channelOut == channelOut && this.cipher == cipher
      ensures outPrev == null && outNext == null && inPrev == null && inNext == null
    {
      this.head, this.channelIn, this.channelOut, this.cipher := head, channelIn, channelOut, cipher;
      outPrev, outNext, inPrev, inNext := null, null, null, null;
    }
  }

  /** The bucket of an out-id: its low 16 bits. */
  function Bucket(id: HChannel): (b: int)
    ensures 0 <= b < OUT_BUCKETS
  {
    id % OUT_BUCKETS
  }

  /** The element of a chain at place `i`, null outside of it. */
  function ChanAt(s: seq<Channel>, i: int): Channel? {
    if 0 <= i < |s| then s[i] else null
  }

  function ConnAt(s: seq<Connection>, i: int): Connection? {
    if 0 <= i < |s| then s[i] else null
  }

  /** A slot as the program leaves it when no connection uses it. */
  ghost predicate Idle(c: Connection)
    reads c
  {
    && c.muxSocket == null && c.numberOfChannels == 0 && c.channelList == null && c.channels == []
    && c.timeoutPrev == null && c.timeoutNext == null && c.timeoutSecs == 0
  }

  ghost function Slots(s: seq<Connection>): (r: seq<int>)
    ensures |r| == |s| && forall k {:trigger r[k]} :: 0 <= k < |s| ==> r[k] == s[k].slot
  {
    seq(|s|, k requires 0 <= k < |s| => s[k].slot)
  }

  lemma {:induction false} SlotsWithout(s: seq<Connection>, c: Connection)
    requires forall x :: x in s && x.slot == c.slot ==> x == c
    ensures Slots(Without(s, c)) == Without(Slots(s), c.slot)
  {
    if s != [] {
      assert Slots(s)[1..] == Slots(s[1..]);
      SlotsWithout(s[1..], c);
    }
  }

  function ValueOf(ch: Channel): Chan {
    Chan(ch.channelIn, ch.channelOut, ch.cipher)
  }

  ghost function Values(s: seq<Channel>): (r: seq<Chan>)
    ensures |r| == |s| && forall k {:trigger r[k]} :: 0 <= k < |s| ==> r[k] == ValueOf(s[k])
  {
    seq(|s|, k requires 0 <= k < |s| => ValueOf(s[k]))
  }

  lemma ValuesCons(n: Channel, s: seq<Channel>)
    ensures Values([n] + s) == [ValueOf(n)] + Values(s)
  {
  }

  lemma ValuesRemoveAt(s: seq<Channel>, k: nat)
    requires k < |s|
    ensures Values(RemoveAt(s, k)) == RemoveAt(Values(s), k)
  {
  }

  method NewTable() returns (table: seq<Connection>)
    ensures |table| == MAX_HASH_KEY
    ensures forall i :: 0 <= i < |table| ==> fresh(table[i]) && table[i].slot == i && Idle(table[i])
  {
    table := [];
    for i := 0 to MAX_HASH_KEY
      invariant |table| == i
      invariant forall j :: 0 <= j < i ==> fresh(table[j]) && table[j].slot == j && Idle(table[j])
    {
      var c := new Connection(i);
      table := table + [c];
    }
  }

  class ChannelList {
    const hashTable: seq<Connection>
    const outTable: array<Channel?>
    ghost const slots: set<Connection>  // the elements of hashTable
    var listHead: Connection?
    var listNext: Connection?      // the cursor of the enumeration
    var timeoutHead: Connection?
    var timeoutFoot: Connection?

    ghost var conns: seq<Connection>           // the chain from listHead
    ghost var rest: seq<Connection>            // the chain from listNext
    ghost var timeouts: seq<Connection>        // the chain from timeoutHead
    ghost var outLists: seq<seq<Channel>>      // the chains from the buckets of outTable
    ghost var records: set<Channel>            // the channel records that are allocated
    ghost var stacks: map<int, seq<Chan>>      // the channels of the slots that are in use
    ghost var expiry: seq<int>                 // the stamps of all slots

    /** `c` is a slot of the table. */
    ghost predicate InTable(c: Connection) {
      c in slots && 0 <= c.slot < |hashTable| && hashTable[c.slot] == c
    }

    ghost predicate TableOk() {
      && |hashTable| == MAX_HASH_KEY
      && (forall i :: 0 <= i < |hashTable| ==> hashTable[i].slot == i && hashTable[i] in slots)
      && (forall c :: c in slots ==> InTable(c))
    }

    /** The slots `s` form a chain of the list of connections. */
    static ghost predicate ConnChainOk(s: seq<Connection>)
      reads s`listPrev, s`listNext
    {
      && NoDup(s)
      && (forall i {:trigger s[i].listNext} :: 0 <= i < |s| ==> s[i].listNext == ConnAt(s, i + 1))
      && (forall i {:trigger s[i].listPrev} :: 0 <= i < |s| ==> s[i].listPrev == ConnAt(s, i - 1))
    }

    /** The slots `s` are what the enumeration finds from the cursor on. */
    ghost predicate RestOk(s: seq<Connection>)
      requires TableOk()
      reads this`conns, this`listNext, slots`listNext
    {
      && listNext == ConnAt(s, 0)
      && NoDup(s)
      && (forall i :: 0 <= i < |s| ==> InTable(s[i]) && s[i] in conns)
      && (forall i {:trigger s[i].listNext} :: 0 <= i < |s| ==> s[i].listNext == ConnAt(s, i + 1))
    }

    /** The list of connections and the cursor in it. */
    ghost predicate ConnsLinked()
      requires TableOk()
      reads this`conns, this`rest, this`listHead, this`listNext, slots`listPrev, slots`listNext
    {
      && (forall i :: 0 <= i < |conns| ==> InTable(conns[i]))
      && ConnChainOk(conns)
      && listHead == ConnAt(conns, 0)
      && RestOk(rest)
    }

    /** The list holds the slots that are in use. */
    ghost predicate ConnsOk()
      requires TableOk()
      reads this`conns, this`rest, this`listHead, this`listNext
      reads slots`muxSocket, slots`listPrev, slots`listNext
    {
      && ConnsLinked()
      && (forall i :: 0 <= i < |conns| ==> conns[i].muxSocket != null)
      && (forall c {:trigger c.muxSocket} :: c in slots && c.muxSocket != null ==> c in conns)
    }

    /** The slots `s` form a chain of the timeout queue. Removing the head leaves the `timeoutPrev` of the
        new head stale, so that field is fixed for all entries but the head. */
    static ghost predicate TimeoutChainOk(s: seq<Connection>)
      reads s`timeoutPrev, s`timeoutNext
    {
      && NoDup(s)
      && (forall i {:trigger s[i].timeoutNext} :: 0 <= i < |s| ==> s[i].timeoutNext == ConnAt(s, i + 1))
      && (forall i {:trigger s[i].timeoutPrev} :: 0 < i < |s| ==> s[i].timeoutPrev == ConnAt(s, i - 1))
    }

    /** The timeout queue; a slot outside of it has both links null. */
    ghost predicate TimeoutsOk()
      requires TableOk()
      reads this`timeouts, this`timeoutHead, this`timeoutFoot, this`expiry
      reads slots`timeoutPrev, slots`timeoutNext, slots`timeoutSecs
    {
      && |expiry| == |hashTable|
      && (forall c {:trigger c.timeoutSecs} :: c in slots ==> expiry[c.slot] == c.timeoutSecs)
      && (forall i :: 0 <= i < |timeouts| ==> InTable(timeouts[i]))
      && TimeoutChainOk(timeouts)
      && timeoutHead == ConnAt(timeouts, 0) && timeoutFoot == ConnAt(timeouts, |timeouts| - 1)
      && (forall c {:trigger c.timeoutPrev} {:trigger c.timeoutNext} :: c in slots && c !in timeouts ==>
            c.timeoutPrev == null && c.timeoutNext == null)
    }

    /** The records `s` form a chain of one connection. */
    static ghost predicate InChainOk(s: seq<Channel>)
      reads s`inPrev, s`inNext
    {
      && NoDup(s)
      && (forall i {:trigger s[i].inNext} :: 0 <= i < |s| ==> s[i].inNext == ChanAt(s, i + 1))
      && (forall i {:trigger s[i].inPrev} :: 0 <= i < |s| ==> s[i].inPrev == ChanAt(s, i - 1))
    }

    /** The list of one connection; its counter says how long it is. */
    static ghost predicate InListOk(c: Connection)
      reads c`muxSocket, c`numberOfChannels, c`channelList, c`channels, c.channels`inPrev, c.channels`inNext
    {
      && c.channelList == ChanAt(c.channels, 0)
      && c.numberOfChannels == |c.channels| <= CHANNELS_PER_CLIENT
      && (c.muxSocket == null ==> c.channels == [])
      && InChainOk(c.channels)
    }

    /** A connection lists its own records only. */
    ghost predicate OwnsOk(c: Connection)
      reads this`records, c`channels
    {
      forall k :: 0 <= k < |c.channels| ==> c.channels[k] in records && c.channels[k].head == c
    }

    /** What `stacks` says of one connection. */
    ghost predicate StackOk(c: Connection)
      reads this`stacks, c`muxSocket, c`channels
    {
      && (c.muxSocket != null <==> c.slot in stacks)
      && (c.slot in stacks ==> stacks[c.slot] == Values(c.channels))
    }

    /** The lists of all connections but `c` are in order. */
    ghost predicate InListsOkBut(c: Connection)
      reads this`records, this`stacks, records`inPrev, records`inNext
      reads slots`muxSocket, slots`numberOfChannels, slots`channelList, slots`channels
    {
      forall d {:trigger InListOk(d)} {:trigger d.channels} :: d in slots && d != c ==>
        OwnsOk(d) && InListOk(d) && StackOk(d)
    }

    /** No record belongs to `c`, and the lists of all other connections are in order. */
    ghost predicate InIndexOkBut(c: Connection)
      requires TableOk()
      reads this`records, this`stacks, records`inPrev, records`inNext
      reads slots`muxSocket, slots`numberOfChannels, slots`channelList, slots`channels
    {
      && InListsOkBut(c)
      && (forall ch :: ch in records ==> InTable(ch.head) && ch.head != c && ch in ch.head.channels)
      && (forall k :: k in stacks ==> 0 <= k < |hashTable|)
    }

    /** Every channel record is in the list of its own connection. */
    ghost predicate InIndexOk()
      requires TableOk()
      reads this`records, this`stacks, records`inPrev, records`inNext
      reads slots`muxSocket, slots`numberOfChannels, slots`channelList, slots`channels
    {
      && (forall c {:trigger InListOk(c)} {:trigger c.channels} :: c in slots ==>
            OwnsOk(c) && InListOk(c) && StackOk(c))
      && (forall ch :: ch in records ==> InTable(ch.head) && ch in ch.head.channels)
      && (forall k :: k in stacks ==> 0 <= k < |hashTable|)
    }

    /** The records `s` belong in bucket `b` and have different out-ids. */
    static ghost predicate OutKeysOk(b: int, s: seq<Channel>)
    {
      && (forall k :: 0 <= k < |s| ==> Bucket(s[k].channelOut) == b)
      && (forall j, k :: 0 <= j < k < |s| ==> s[j].channelOut != s[k].channelOut)
    }

    /** The records `s` form a chain of bucket `b`. */
    static ghost predicate OutChainOk(b: int, s: seq<Channel>)
      reads s`outPrev, s`outNext
    {
      && OutKeysOk(b, s)
      && (forall i {:trigger s[i].outNext} :: 0 <= i < |s| ==> s[i].outNext == ChanAt(s, i + 1))
      && (forall i {:trigger s[i].outPrev} :: 0 <= i < |s| ==> s[i].outPrev == ChanAt(s, i - 1))
    }

    ghost predicate InRecords(s: seq<Channel>)
      reads this`records
    {
      forall k :: 0 <= k < |s| ==> s[k] in records
    }

    /** The records that belong in bucket `b`. */
    ghost function InBucket(b: int): set<Channel>
      reads this`records
    {
      set ch | ch in records && Bucket(ch.channelOut) == b
    }

    /** The records that belong to the connection `c`. */
    ghost function RecordsOf(c: Connection): set<Channel>
      reads this`records
    {
      set ch | ch in records && ch.head == c
    }

    /** Bucket `i` holds a chain of records. */
    ghost predicate OutListOk(i: int)
      requires 0 <= i < outTable.Length == |outLists|
      reads this`records, this`outLists, outTable, records`outPrev, records`outNext
    {
      outTable[i] == ChanAt(outLists[i], 0) && InRecords(outLists[i]) && OutChainOk(i, outLists[i])
    }

    /** Every bucket but `b` holds a chain of records. */
    ghost predicate OutListsOkBut(b: int)
      reads this`records, this`outLists, outTable, records`outPrev, records`outNext
    {
      && outTable.Length == |outLists| == OUT_BUCKETS
      && (forall i :: 0 <= i < OUT_BUCKETS && i != b ==> OutListOk(i))
    }

    /** Every channel record is in the bucket of its own out-id. */
    ghost predicate OutIndexOk()
      reads this`records, this`outLists, outTable, records`outPrev, records`outNext
    {
      && OutListsOkBut(OUT_BUCKETS)
      && (forall ch :: ch in records ==> ch.channelOut >= 256 && ch in outLists[Bucket(ch.channelOut)])
    }

    ghost predicate Valid()
      reads this, slots, outTable, records
    {
      TableOk() && ConnsOk() && TimeoutsOk() && InIndexOk() && OutIndexOk()
    }

    /** The channel is in the list of some connection. */
    ghost predicate ListedIn(ch: Channel)
      reads slots`channels
    {
      exists c :: c in slots && ch in c.channels
    }

    /** The channel is in the chain of some bucket of out-ids. */
    ghost predicate ListedOut(ch: Channel)
      requires |outLists| == OUT_BUCKETS
      reads this`outLists
    {
      exists b :: 0 <= b < OUT_BUCKETS && ch in outLists[b]
    }

    /** The lists of all connections and the buckets hold the same channels, each in the bucket of its own out-id
        and in the list of its own connection. */
    lemma IndexesAgree(ch: Channel)
      requires Valid()
      ensures ListedIn(ch) <==> ListedOut(ch)
      ensures ListedOut(ch) ==>
                && ch.channelOut >= 256 && ch in outLists[Bucket(ch.channelOut)]
                && InTable(ch.head) && ch in ch.head.channels
    {
      if c :| c in slots && ch in c.channels {
        assert InListOk(c) && OwnsOk(c);
        assert ch in records;
        assert ch in outLists[Bucket(ch.channelOut)];
      }
      if b :| 0 <= b < OUT_BUCKETS && ch in outLists[b] {
        assert OutListOk(b) && InRecords(outLists[b]);
        assert ch in records;
        assert ch.head in slots;
      }
    }

    /** Two channels that can be reached have different out-ids. */
    lemma OutIdsDiffer(ch: Channel, other: Channel)
      requires Valid() && ListedOut(ch) && ListedOut(other) && ch.channelOut == other.channelOut
      ensures ch == other
    {
      IndexesAgree(ch);
      IndexesAgree(other);
      var b := Bucket(ch.channelOut);
      assert OutListOk(b) && OutChainOk(b, outLists[b]);
    }

    // ---------- the table that the lists represent ----------

    ghost function Abs(): Table
      reads this
    {
      Table(Slots(conns), Slots(rest), stacks, Slots(timeouts), expiry)
    }

    constructor ()
      ensures Valid() && Abs() == Empty()
      ensures fresh(outTable) && forall c :: c in slots ==> fresh(c)
    {
      var table := NewTable();
      hashTable, slots := table, set c | c in table;
      outTable := new Channel?[OUT_BUCKETS](_ => null);
      listHead, listNext, timeoutHead, timeoutFoot := null, null, null, null;
      conns, rest, timeouts, outLists, records := [], [], [], seq(OUT_BUCKETS, _ => []), {};
      stacks, expiry := map[], seq(MAX_HASH_KEY, _ => 0);
      new;
      hide TableOk, Valid;
      EmptyValid();
    }

    /** Nothing is linked at the start. */
    ghost predicate Unused()
      reads this, slots, outTable
    {
      && conns == [] && rest == [] && timeouts == [] && records == {}
      && stacks == map[] && expiry == seq(MAX_HASH_KEY, _ => 0)
      && listHead == null && listNext == null && timeoutHead == null && timeoutFoot == null
      && outTable.Length == |outLists| == OUT_BUCKETS
      && (forall b :: 0 <= b < OUT_BUCKETS ==> outTable[b] == null && outLists[b] == [])
      && (forall c :: c in slots ==> Idle(c))
    }

    lemma EmptyValid()
      requires TableOk() && Unused()
      ensures Valid() && Abs() == Empty()
    {
      assert Slots(conns) == [] && Slots(rest) == [] && Slots(timeouts) == [];
    }

    /** The socket of a call names one of the slots. */
    static predicate HasSlot(mux: MuxSocket?) {
      mux != null && !(mux.hashKey > MAX_HASH_KEY - 1 || mux.hashKey < 0)
    }

    /** Enters a new connection; null if the key is bad or its slot is in use. */
    method Add(mux: MuxSocket?) returns (entry: Connection?)
      requires Valid()
      modifies this, slots
      ensures Valid() && records == old(records)
      ensures entry != null <==> HasSlot(mux) && CanAdd(old(Abs()), mux.hashKey)
      ensures entry != null ==> entry == hashTable[mux.hashKey] && entry.muxSocket == mux && entry.recoverTimeout
      ensures Abs() == if entry != null then ChannelTable.Add(old(Abs()), mux.hashKey) else old(Abs())
    {
      hide ConnsOk, TimeoutsOk, OutIndexOk, InIndexOk;
      if !HasSlot(mux) {
        return null;
      }
      var c := hashTable[mux.hashKey];
      CountOf(c);
      if c.muxSocket != null {
        return null;
      }
      EnterConn(c, mux);
      c.recoverTimeout := true;
      entry := c;
      assert TimeoutsOk() == old(TimeoutsOk());
      assert OutIndexOk() == old(OutIndexOk());
    }

    /** Gives the idle slot `c` to a socket. */
    method OccupySlot(c: Connection, mux: MuxSocket)
      requires TableOk() && InIndexOk() && InTable(c) && c.muxSocket == null
      modifies c`muxSocket, c`numberOfChannels, this`stacks
      ensures InIndexOk() && c.muxSocket == mux && stacks == old(stacks)[c.slot := []]
    {
      hide InChainOk;
      CountOf(c);
      c.muxSocket := mux;
      c.numberOfChannels := 0;
      stacks := stacks[c.slot := []];
      assert Values([]) == [];
      forall d | d in slots
        ensures OwnsOk(d) && InListOk(d) && StackOk(d)
      {
        assert old(OwnsOk(d) && InListOk(d) && StackOk(d));
      }
    }

    /** Gives the idle slot `c` to a socket and enters it in the list of connections. */
    method EnterConn(c: Connection, mux: MuxSocket)
      requires TableOk() && ConnsOk() && InIndexOk() && InTable(c) && c.muxSocket == null
      modifies this`listHead, this`conns, slots`listPrev, slots`listNext
      modifies c`muxSocket, c`numberOfChannels, this`stacks
      ensures ConnsOk() && InIndexOk() && c.muxSocket == mux
      ensures Slots(conns) == [c.slot] + old(Slots(conns)) && stacks == old(stacks)[c.slot := []]
    {
      hide InIndexOk, ConnChainOk, RestOk;
      OccupySlot(c, mux);
      label occupied:
      LinkConn(c);
      assert InIndexOk() == old@occupied(InIndexOk());
    }

    // ---------- the hash table of out-ids ----------

    /** The record with the given out-id, searched in its bucket. */
    method GetWithoutLock(id: HChannel) returns (r: Channel?)
      requires OutIndexOk()
      ensures r != null ==> r in records && r.channelOut == id
      ensures r == null ==> forall ch :: ch in records ==> ch.channelOut != id
    {
      ghost var s, k := outLists[Bucket(id)], 0;
      assert OutListOk(Bucket(id));
      r := outTable[Bucket(id)];
      while r != null
        invariant k <= |s| && r == (if k < |s| then s[k] else null)
        invariant forall j :: 0 <= j < k ==> s[j].channelOut != id
        decreases |s| - k
      {
        if r.channelOut == id {
          return;
        }
        r, k := r.outNext, k + 1;
      }
    }

    /** Puts the new record `n` in front of the chain `s` of bucket `b`. */
    method LinkOutAt(b: int, n: Channel, ghost s: seq<Channel>)
      requires 0 <= b < outTable.Length && b == Bucket(n.channelOut)
      requires outTable[b] == ChanAt(s, 0) && OutChainOk(b, s)
      requires n.outPrev == null && n.outNext == null && n !in s && InRecords(s)
      requires forall ch :: ch in s ==> ch.channelOut != n.channelOut
      modifies outTable, n`outNext, InBucket(b)`outPrev
      ensures outTable[b] == n && OutChainOk(b, [n] + s)
      ensures forall i :: 0 <= i < outTable.Length && i != b ==> outTable[i] == old(outTable[i])
    {
      var first := outTable[b];
      if first != null {
        n.outNext := first;
        first.outPrev := n;
      }
      outTable[b] := n;
    }

    /** Puts a new record at the front of the bucket of its out-id. */
    method LinkOut(n: Channel)
      requires OutIndexOk() && n !in records && n.outPrev == null && n.outNext == null
      requires n.channelOut >= 256 && forall ch :: ch in records ==> ch.channelOut != n.channelOut
      modifies this`outLists, this`records, outTable, n`outNext, records`outPrev
      ensures OutIndexOk() && records == old(records) + {n}
    {
      var b := Bucket(n.channelOut);
      ghost var s := outLists[b];
      assert OutListOk(b);
      LinkOutAt(b, n, s);
      outLists, records := outLists[b := [n] + s], records + {n};
      forall i | 0 <= i < OUT_BUCKETS && i != b
        ensures OutListOk(i)
      {
        assert old(OutListOk(i));
        assert OutChainOk(i, outLists[i]) == old(OutChainOk(i, outLists[i]));
      }
      assert OutListOk(b);
    }

    /** The neighbours of place `k` are linked with each other. */
    static ghost predicate OutJoinedAround(s: seq<Channel>, k: nat)
      reads s`outPrev, s`outNext
    {
      && (forall i {:trigger s[i].outNext} :: 0 <= i < |s| && i != k ==>
            s[i].outNext == ChanAt(s, if i + 1 == k then k + 1 else i + 1))
      && (forall i {:trigger s[i].outPrev} :: 0 <= i < |s| && i != k ==>
            s[i].outPrev == ChanAt(s, if i == k + 1 then k - 1 else i - 1))
    }

    static lemma OutNoDup(b: int, s: seq<Channel>)
      requires OutChainOk(b, s)
      ensures NoDup(s)
    {
    }

    /** The chain without the record at place `k`. */
    static lemma ShorterOutChain(b: int, s: seq<Channel>, k: nat)
      requires k < |s| && NoDup(s) && OutKeysOk(b, s) && OutJoinedAround(s, k)
      ensures OutChainOk(b, RemoveAt(s, k))
    {
      hide RemoveAt, NoDup, Bucket;
      RemoveAtMembers(s, k);
      var t := RemoveAt(s, k);
      forall i | 0 <= i < |t|
        ensures Bucket(t[i].channelOut) == b
        ensures t[i].outNext == ChanAt(t, i + 1) && t[i].outPrev == ChanAt(t, i - 1)
      {
        assert t[i] == s[if i < k then i else i + 1];
      }
    }

    /** Joins the neighbours of `e`, the record at place `k` of bucket `b`. */
    method SpliceOut(b: int, e: Channel, ghost s: seq<Channel>, ghost k: nat)
      requires 0 <= b < outTable.Length && k < |s| && e == s[k]
      requires outTable[b] == ChanAt(s, 0) && OutChainOk(b, s) && InRecords(s)
      modifies outTable, InBucket(b)`outPrev, InBucket(b)`outNext
      ensures outTable[b] == if k == 0 then ChanAt(s, 1) else s[0]
      ensures forall i :: 0 <= i < outTable.Length && i != b ==> outTable[i] == old(outTable[i])
      ensures OutJoinedAround(s, k)
    {
      assert e.outPrev == ChanAt(s, k - 1) && e.outNext == ChanAt(s, k + 1);
      if e.outPrev == null {
        if e.outNext == null {
          outTable[b] := null;
        } else {
          e.outNext.outPrev := null;
          outTable[b] := e.outNext;
        }
      } else {
        if e.outNext == null {
          e.outPrev.outNext := null;
        } else {
          e.outPrev.outNext := e.outNext;
          e.outNext.outPrev := e.outPrev;
        }
      }
    }

    /** Takes `e`, the record at place `k` of bucket `b`, out of the chain. */
    method UnlinkOutAt(b: int, e: Channel, ghost s: seq<Channel>, ghost k: nat)
      requires 0 <= b < outTable.Length && k < |s| && e == s[k]
      requires outTable[b] == ChanAt(s, 0) && OutChainOk(b, s) && InRecords(s)
      modifies outTable, InBucket(b)`outPrev, InBucket(b)`outNext
      ensures outTable[b] == ChanAt(RemoveAt(s, k), 0) && OutChainOk(b, RemoveAt(s, k))
      ensures forall i :: 0 <= i < outTable.Length && i != b ==> outTable[i] == old(outTable[i])
    {
      OutNoDup(b, s);
      assert OutKeysOk(b, s);
      hide OutChainOk, OutKeysOk, OutJoinedAround, NoDup;
      SpliceOut(b, e, s, k);
      ShorterOutChain(b, s, k);
    }

    /** Forgets the record at place `k` of bucket `b`, which is out of the chain already. */
    ghost method Forget(b: int, k: nat)
      requires 0 <= b < OUT_BUCKETS && OutListsOkBut(b) && k < |outLists[b]|
      requires InRecords(outLists[b]) && NoDup(outLists[b])
      requires outTable[b] == ChanAt(RemoveAt(outLists[b], k), 0) && OutChainOk(b, RemoveAt(outLists[b], k))
      requires Bucket(outLists[b][k].channelOut) == b
      requires forall ch :: ch in records ==> ch.channelOut >= 256 && ch in outLists[Bucket(ch.channelOut)]
      modifies this`outLists, this`records
      ensures OutIndexOk() && records == old(records) - {old(outLists)[b][k]}
    {
      var s, e := outLists[b], outLists[b][k];
      RemoveAtMembers(s, k);
      outLists, records := outLists[b := RemoveAt(s, k)], records - {e};
      forall i | 0 <= i < OUT_BUCKETS && i != b
        ensures OutListOk(i)
      {
        assert old(OutListOk(i));
        assert OutChainOk(i, outLists[i]) == old(OutChainOk(i, outLists[i]));
      }
    }

    /** Searches the bucket of `e` for its out-id and unlinks the record that has it. */
    method UnlinkOut(e: Channel)
      requires OutIndexOk() && e in records
      modifies this`outLists, this`records, outTable, records`outPrev, records`outNext
      ensures OutIndexOk() && records == old(records) - {e}
    {
      var b := Bucket(e.channelOut);
      var found := GetWithoutLock(e.channelOut);
      ghost var s := outLists[b];
      ghost var k :| 0 <= k < |s| && s[k] == e;
      assert OutListOk(b);
      UnlinkOutAt(b, found, s, k);
      forall i | 0 <= i < OUT_BUCKETS && i != b
        ensures OutListOk(i)
      {
        assert old(OutListOk(i));
        assert OutChainOk(i, outLists[i]) == old(OutChainOk(i, outLists[i]));
      }
      Forget(b, k);
    }

    // ---------- the channels of one connection ----------

    /** Puts the new record `n` at the front of the list of `c`. */
    method LinkIn(c: Connection, n: Channel)
      requires c.channelList == ChanAt(c.channels, 0) && InChainOk(c.channels)
      requires forall ch :: ch in c.channels ==> ch in RecordsOf(c)
      requires n !in c.channels && n.inPrev == null && n.inNext == null
      modifies c`channelList, c`channels, n`inNext, RecordsOf(c)`inPrev
      ensures c.channels == [n] + old(c.channels)
      ensures c.channelList == n && InChainOk(c.channels)
    {
      var first := c.channelList;
      if first != null {
        n.inNext := first;
        first.inPrev := n;
      }
      c.channelList := n;
      c.channels := [n] + c.channels;
    }

    /** Takes `e`, the channel at place `k`, out of the list of `c`. */
    method UnlinkIn(c: Connection, e: Channel, ghost k: nat)
      requires c.channelList == ChanAt(c.channels, 0) && InChainOk(c.channels)
      requires forall ch :: ch in c.channels && ch != e ==> ch in RecordsOf(c)
      requires k < |c.channels| && c.channels[k] == e
      modifies c`channelList, c`channels, RecordsOf(c)`inPrev, RecordsOf(c)`inNext
      ensures c.channels == RemoveAt(old(c.channels), k)
      ensures c.channelList == ChanAt(c.channels, 0) && InChainOk(c.channels)
    {
      ghost var s := c.channels;
      if e.inPrev == null {
        if e.inNext == null {
          c.channelList := null;
        } else {
          e.inNext.inPrev := null;
          c.channelList := e.inNext;
        }
      } else {
        if e.inNext == null {
          e.inPrev.inNext := null;
        } else {
          e.inPrev.inNext := e.inNext;
          e.inNext.inPrev := e.inPrev;
        }
      }
      c.channels := RemoveAt(s, k);
    }

    /** Records in `stacks` what the list of `c` has become, all other lists being in order. */
    ghost method Restack(c: Connection)
      requires TableOk() && InTable(c) && c.slot in stacks
      requires InListsOkBut(c) && OwnsOk(c) && c.channelList == ChanAt(c.channels, 0) && InChainOk(c.channels)
      requires c.numberOfChannels == |c.channels| <= CHANNELS_PER_CLIENT && c.muxSocket != null
      requires forall ch :: ch in records ==> InTable(ch.head) && ch in ch.head.channels
      requires forall k :: k in stacks ==> 0 <= k < |hashTable|
      modifies this`stacks
      ensures InIndexOk() && stacks == old(stacks)[c.slot := Values(c.channels)]
    {
      hide InChainOk;
      stacks := stacks[c.slot := Values(c.channels)];
      forall d | d in slots
        ensures OwnsOk(d) && InListOk(d) && StackOk(d)
      {
        assert d != c ==> old(InListOk(d) && OwnsOk(d) && StackOk(d));
      }
    }

    /** What the counter of a slot counts. */
    lemma CountOf(c: Connection)
      requires TableOk() && InIndexOk() && InTable(c)
      ensures c.numberOfChannels == |c.channels| <= CHANNELS_PER_CLIENT && NoDup(c.channels)
      ensures c.channelList == ChanAt(c.channels, 0) && InChainOk(c.channels)
      ensures c.muxSocket == null ==> c.channels == []
      ensures c.muxSocket != null <==> c.slot in stacks
      ensures c.muxSocket != null ==> stacks[c.slot] == Values(c.channels)
    {
      assert InListOk(c);
    }

    /** The out-ids of the records are the out-ids of the table. */
    lemma RecordsAreOpen()
      requires TableOk() && ConnsOk() && InIndexOk()
      ensures forall ch :: ch in records ==> Open(Abs(), ch.head.slot, ValueOf(ch))
      ensures forall id :: OutIdFree(Abs(), id) <==> forall ch :: ch in records ==> ch.channelOut != id
    {
      var t := Abs();
      forall ch | ch in records
        ensures Open(t, ch.head.slot, ValueOf(ch))
      {
        CountOf(ch.head);
        var j :| 0 <= j < |ch.head.channels| && ch.head.channels[j] == ch;
        assert t.stacks[ch.head.slot][j] == ValueOf(ch);
      }
      forall k, x | Open(t, k, x)
        ensures exists ch :: ch in records && ch.channelOut == x.channelOut
      {
        CountOf(hashTable[k]);
        var j :| 0 <= j < |t.stacks[k]| && t.stacks[k][j] == x;
        assert hashTable[k].channels[j] in records;
      }
    }

    /** Walks the channels of `c` for the first with the given in-id. */
    method FindRecord(c: Connection, channelIn: HChannel) returns (r: Channel?)
      requires TableOk() && InIndexOk() && InTable(c)
      ensures r == ChanAt(c.channels, FindIn(Values(c.channels), channelIn))
      ensures r != null ==> r in records && r.head == c
    {
      assert InListOk(c);
      ghost var s, k := c.channels, 0;
      r := c.channelList;
      while r != null
        invariant k <= |s| && r == ChanAt(s, k)
        invariant forall j :: 0 <= j < k ==> s[j].channelIn != channelIn
        decreases |s| - k
      {
        if r.channelIn == channelIn {
          assert Values(s)[k].channelIn == channelIn;
          return;
        }
        r, k := r.inNext, k + 1;
      }
    }

    // ---------- the table has the invariant of all runs ----------

    /** A chain that starts inside another one is its tail. */
    static lemma {:induction false} ChainIsTail(c: seq<Connection>, j: nat, r: seq<Connection>)
      requires j < |c| && r != [] && c[j] == r[0]
      requires forall i {:trigger c[i].listNext} :: 0 <= i < |c| ==> c[i].listNext == ConnAt(c, i + 1)
      requires forall i {:trigger r[i].listNext} :: 0 <= i < |r| ==> r[i].listNext == ConnAt(r, i + 1)
      ensures c[j..] == r
      decreases |r|
    {
      assert c[j].listNext == ConnAt(c, j + 1) && r[0].listNext == ConnAt(r, 1);
      if |r| > 1 {
        var s := r[1..];
        forall i | 0 <= i < |s| ensures s[i].listNext == ConnAt(s, i + 1) {
          assert r[i + 1].listNext == ConnAt(r, i + 2);
        }
        ChainIsTail(c, j + 1, s);
        assert c[j..] == [c[j]] + c[j + 1..];
      }
    }

    lemma OrderHasInv()
      requires TableOk() && ConnsOk() && InIndexOk()
      ensures Runs.OrderOk(Abs())
    {
      var t := Abs();
      forall i, j | 0 <= i < j < |conns| ensures t.order[i] != t.order[j] {
        assert hashTable[conns[i].slot] == conns[i] && hashTable[conns[j].slot] == conns[j];
      }
      if rest == [] {
        assert Runs.IsSuffix(t.pending, t.order);
      } else {
        assert rest[0] in conns;
        var j :| 0 <= j < |conns| && conns[j] == rest[0];
        ChainIsTail(conns, j, rest);
        assert t.order[j..] == t.pending;
      }
      forall k ensures k in t.order <==> k in t.stacks {
        if k in t.stacks {
          CountOf(hashTable[k]);
          assert hashTable[k].muxSocket != null;
          var i :| 0 <= i < |conns| && conns[i] == hashTable[k];
          assert t.order[i] == k;
        }
        if k in t.order {
          var i :| 0 <= i < |t.order| && t.order[i] == k;
          assert conns[i].muxSocket != null;
          CountOf(conns[i]);
        }
      }
    }

    lemma StacksHaveInv()
      requires Valid()
      ensures Runs.StacksOk(Abs())
    {
      var t := Abs();
      forall k | k in t.stacks
        ensures 0 <= k < MAX_HASH_KEY && |t.stacks[k]| <= CHANNELS_PER_CLIENT
        ensures forall i :: 0 <= i < |t.stacks[k]| ==> t.stacks[k][i].channelOut >= 256
      {
        var c := hashTable[k];
        CountOf(c);
        assert OwnsOk(c);
        forall i | 0 <= i < |t.stacks[k]| ensures t.stacks[k][i].channelOut >= 256 {
          assert t.stacks[k][i] == ValueOf(c.channels[i]) && c.channels[i] in records;
        }
      }
    }

    /** The record behind a place of the table that holds an out-id. */
    lemma RecordAt(k: int, i: int, id: HChannel) returns (ch: Channel)
      requires Valid() && Runs.HoldsOut(Abs(), k, i, id)
      ensures 0 <= k < |hashTable| && 0 <= i < |hashTable[k].channels| && ch == hashTable[k].channels[i]
      ensures ch.head == hashTable[k] && ListedOut(ch) && ch.channelOut == id
    {
      var c := hashTable[k];
      CountOf(c);
      assert OwnsOk(c);
      ch := c.channels[i];
      assert Abs().stacks[k][i] == ValueOf(ch);
      assert ListedIn(ch);
      IndexesAgree(ch);
    }

    lemma IdsHaveInv()
      requires Valid()
      ensures Runs.OutIdsUnique(Abs())
    {
      var t := Abs();
      forall k, i, l, j, id | Runs.HoldsOut(t, k, i, id) && Runs.HoldsOut(t, l, j, id) ensures k == l && i == j {
        var ch := RecordAt(k, i, id);
        var other := RecordAt(l, j, id);
        OutIdsDiffer(ch, other);
        CountOf(hashTable[k]);
        hide Valid, InIndexOk, OutIndexOk;
      }
    }

    /** The table that a valid object represents has the invariant that all runs keep. */
    lemma AbsHasInv()
      requires Valid()
      ensures Runs.Inv(Abs())
    {
      OrderHasInv();
      StacksHaveInv();
      IdsHaveInv();
      assert Runs.QueueOk(Abs()) by {
        var t := Abs();
        forall i, j | 0 <= i < j < |timeouts| ensures t.queue[i] != t.queue[j] {
          assert hashTable[timeouts[i].slot] == timeouts[i] && hashTable[timeouts[j].slot] == timeouts[j];
        }
      }
      hide Valid;
    }

    /** So the source of random numbers has an out-id to find. */
    lemma SomeOutIdIsFree()
      requires Valid()
      ensures exists id: HChannel :: id >= 256 && OutIdFree(Abs(), id)
    {
      AbsHasInv();
      Runs.FreeOutIdExists(Abs());
    }

    /** The newest channel of a connection with the given in-id. */
    method GetIn(mux: MuxSocket?, channelIn: HChannel) returns (r: Channel?)
      requires Valid()
      ensures r != null <==> HasSlot(mux) && HasIn(Abs(), mux.hashKey, channelIn)
      ensures r != null ==> r in records && r.head == hashTable[mux.hashKey]
      ensures r != null ==> var stack := Abs().stacks[mux.hashKey]; ValueOf(r) == stack[FindIn(stack, channelIn)]
    {
      hide ConnsOk, TimeoutsOk, OutIndexOk;
      if !HasSlot(mux) {
        return null;
      }
      r := FindRecord(hashTable[mux.hashKey], channelIn);
    }

    /** Enters the new record `n` in the list of `c`. */
    method EnterIn(c: Connection, n: Channel)
      requires TableOk() && InIndexOk() && InTable(c) && n !in records && n.inPrev == null && n.inNext == null
      modifies c`channelList, c`channels, c`numberOfChannels, n`inNext, RecordsOf(c)`inPrev
      ensures InListsOkBut(c) && c.channels == [n] + old(c.channels)
      ensures c.channelList == n && InChainOk(c.channels) && c.numberOfChannels == |c.channels|
    {
      hide InChainOk, InListOk, NoDup;
      CountOf(c);
      LinkIn(c, n);
      c.numberOfChannels := c.numberOfChannels + 1;
      forall d | d in slots && d != c
        ensures OwnsOk(d) && InListOk(d) && StackOk(d)
      {
        assert old(OwnsOk(d) && InListOk(d) && StackOk(d));
      }
    }

    /** Enters the new record `n` in both indexes. */
    method InsertChannel(c: Connection, n: Channel)
      requires TableOk() && InIndexOk() && OutIndexOk() && InTable(c)
      requires c.muxSocket != null && |c.channels| < CHANNELS_PER_CLIENT
      requires n !in records && n.head == c && n.channelOut >= 256
      requires n.outPrev == null && n.outNext == null && n.inPrev == null && n.inNext == null
      requires forall ch :: ch in records ==> ch.channelOut != n.channelOut
      modifies this`outLists, this`records, this`stacks, outTable, n, records
      modifies c`channelList, c`channels, c`numberOfChannels
      ensures InIndexOk() && OutIndexOk() && records == old(records) + {n}
      ensures old(c.slot in stacks) && stacks == old(stacks)[c.slot := [ValueOf(n)] + old(stacks)[c.slot]]
    {
      hide OutIndexOk, InChainOk, InListOk, NoDup;
      CountOf(c);
      ValuesCons(n, c.channels);
      hide Values;
      EnterIn(c, n);
      label entered:
      assert OutIndexOk() == old(OutIndexOk());
      LinkOut(n);
      assert InListsOkBut(c) by {
        forall d | d in slots && d != c
          ensures OwnsOk(d) && InListOk(d) && StackOk(d)
        {
          assert old@entered(OwnsOk(d) && InListOk(d) && StackOk(d));
        }
      }
      hide InListsOkBut;
      Restack(c);
    }

    /** Takes the channel `e`, at place `k`, out of the list of `c`; it is no record any more. */
    method LeaveIn(c: Connection, e: Channel, ghost k: nat)
      requires InTable(c) && InListsOkBut(c) && k < |c.channels| && c.channels[k] == e
      requires c.channelList == ChanAt(c.channels, 0) && InChainOk(c.channels) && c.numberOfChannels == |c.channels|
      requires forall ch :: ch in c.channels && ch != e ==> ch in RecordsOf(c)
      modifies c`channelList, c`channels, c`numberOfChannels, RecordsOf(c)`inPrev, RecordsOf(c)`inNext
      ensures InListsOkBut(c) && c.channels == RemoveAt(old(c.channels), k)
      ensures c.channelList == ChanAt(c.channels, 0) && InChainOk(c.channels) && c.numberOfChannels == |c.channels|
    {
      hide InChainOk, InListOk, NoDup;
      UnlinkIn(c, e, k);
      c.numberOfChannels := c.numberOfChannels - 1;
      forall d | d in slots && d != c
        ensures OwnsOk(d) && InListOk(d) && StackOk(d)
      {
        assert old(OwnsOk(d) && InListOk(d) && StackOk(d));
      }
    }

    /** Takes the channel `e`, at place `k` of its connection, out of both indexes. */
    method DropChannel(c: Connection, e: Channel, ghost k: nat)
      requires TableOk() && InIndexOk() && OutIndexOk() && InTable(c)
      requires k < |c.channels| && c.channels[k] == e
      requires c.slot in stacks
      modifies this`outLists, this`records, this`stacks, outTable, records
      modifies c`channelList, c`channels, c`numberOfChannels
      ensures InIndexOk() && OutIndexOk() && records == old(records) - {e}
      ensures k < |old(stacks)[c.slot]| && stacks == old(stacks)[c.slot := RemoveAt(old(stacks)[c.slot], k)]
    {
      hide OutIndexOk, InChainOk, InListOk;
      ghost var s := c.channels;
      CountOf(c);
      RemoveAtMembers(s, k);
      ValuesRemoveAt(s, k);
      hide Values, NoDup;
      UnlinkOut(e);
      label unlinked:
      assert InListsOkBut(c) by {
        forall d | d in slots && d != c
          ensures OwnsOk(d) && InListOk(d) && StackOk(d)
        {
          assert old(OwnsOk(d) && InListOk(d) && StackOk(d));
        }
      }
      hide InListsOkBut;
      LeaveIn(c, e, k);
      assert OutIndexOk() == old@unlinked(OutIndexOk());
      Restack(c);
    }

    /** Closes the newest channel with the given in-id. */
    method RemoveChannel(mux: MuxSocket?, channelIn: HChannel) returns (ok: bool)
      requires Valid()
      modifies this, slots, outTable, records
      ensures Valid()
      ensures ok <==> HasSlot(mux) && HasIn(old(Abs()), mux.hashKey, channelIn)
      ensures Abs() == if ok then ChannelTable.RemoveChannel(old(Abs()), mux.hashKey, channelIn) else old(Abs())
    {
      hide ConnsOk, TimeoutsOk, OutIndexOk, InIndexOk;
      if !HasSlot(mux) {
        return false;
      }
      var c := hashTable[mux.hashKey];
      CountOf(c);
      if c.muxSocket == null {
        return false;
      }
      var e := FindRecord(c, channelIn);
      if e == null {
        return false;
      }
      ghost var k := FindIn(Values(c.channels), channelIn);
      DropChannel(c, e, k);
      ok := true;
      assert ConnsOk() == old(ConnsOk());
      assert TimeoutsOk() == old(TimeoutsOk());
    }

    /** Takes all channels of `c` out of the hash table of out-ids and frees them. */
    method FreeChannels(c: Connection)
      requires TableOk() && InIndexOk() && OutIndexOk() && InTable(c)
      modifies this`outLists, this`records, outTable, records`outPrev, records`outNext
      ensures OutIndexOk() && InIndexOkBut(c)
    {
      hide OutIndexOk, InListOk;
      ghost var s, k := c.channels, 0;
      CountOf(c);
      var e := c.channelList;
      while e != null
        invariant k <= |s| && e == ChanAt(s, k)
        invariant OutIndexOk() && records == old(records) - set ch | ch in s[..k]
        decreases |s| - k
      {
        UnlinkOut(e);
        e, k := e.inNext, k + 1;
      }
      forall d | d in slots && d != c
        ensures OwnsOk(d) && InListOk(d) && StackOk(d)
      {
        assert old(OwnsOk(d) && InListOk(d) && StackOk(d));
      }
    }

    /** The record with the given out-id. */
    method GetOut(id: HChannel) returns (r: Channel?)
      requires Valid()
      ensures r == null <==> OutIdFree(Abs(), id)
      ensures r != null ==> r.channelOut == id && InTable(r.head) && Open(Abs(), r.head.slot, ValueOf(r))
    {
      hide TimeoutsOk, OutIndexOk;
      r := GetWithoutLock(id);
      RecordsAreOpen();
    }

    /** Draws out-ids until one is neither reserved nor in use. */
    method FreeOutId(random: seq<HChannel>) returns (id: HChannel)
      requires Valid()
      requires exists i :: 0 <= i < |random| && random[i] >= 256 && OutIdFree(Abs(), random[i])
      ensures id in random && id >= 256 && OutIdFree(Abs(), id)
      ensures forall ch :: ch in records ==> ch.channelOut != id
    {
      RecordsAreOpen();
      hide ConnsOk, TimeoutsOk, OutIndexOk, InIndexOk, OutIdFree;
      var i := 0;
      while true
        invariant exists j :: i <= j < |random| && random[j] >= 256 && OutIdFree(Abs(), random[j])
        decreases |random| - i
      {
        id := random[i];
        i := i + 1;
        var used := GetWithoutLock(id);
        if !(id < 256 || used != null) {
          return;
        }
      }
    }

    /** Opens a channel under an unused random out-id; `random` is what the random source delivers. */
    method AddChannel(mux: MuxSocket?, channelIn: HChannel, cipher: Cipher, random: seq<HChannel>)
      returns (ok: bool, channelOut: HChannel)
      requires Valid()
      requires exists i :: 0 <= i < |random| && random[i] >= 256 && OutIdFree(Abs(), random[i])
      modifies this, slots, outTable, records
      ensures Valid()
      ensures ok <==> HasSlot(mux) && CanAddChannel(old(Abs()), mux.hashKey)
      ensures ok ==> channelOut in random && channelOut >= 256 && OutIdFree(old(Abs()), channelOut)
      ensures Abs() == if ok
                       then ChannelTable.AddChannel(old(Abs()), mux.hashKey, Chan(channelIn, channelOut, cipher))
                       else old(Abs())
    {
      hide ConnsOk, TimeoutsOk, OutIndexOk, InIndexOk, OutIdFree, NoDup, Slots;
      if !HasSlot(mux) {
        return false, 0;
      }
      var c := hashTable[mux.hashKey];
      CountOf(c);
      if c.muxSocket == null || c.numberOfChannels >= CHANNELS_PER_CLIENT {
        return false, 0;
      }
      channelOut := FreeOutId(random);
      var n := new Channel(c, channelIn, channelOut, cipher);
      InsertChannel(c, n);
      ok := true;
      assert ConnsOk() == old(ConnsOk());
      assert TimeoutsOk() == old(TimeoutsOk());
    }

    // ---------- the list of connections ----------

    /** Puts a slot that is in use now at the front of the list of connections. */
    method LinkConn(c: Connection)
      requires TableOk() && ConnsLinked() && InTable(c) && c !in conns
      modifies this`listHead, this`conns, slots`listPrev, slots`listNext
      ensures ConnsLinked() && conns == [c] + old(conns)
    {
      if listHead == null {
        c.listNext := null;
      } else {
        c.listNext := listHead;
        listHead.listPrev := c;
      }
      c.listPrev := null;
      listHead := c;
      conns := [c] + conns;
    }

    /** The neighbours of place `k` are linked with each other. */
    static ghost predicate ConnJoinedAround(s: seq<Connection>, k: nat)
      reads s`listPrev, s`listNext
    {
      && (forall i {:trigger s[i].listNext} :: 0 <= i < |s| && i != k ==>
            s[i].listNext == ConnAt(s, if i + 1 == k then k + 1 else i + 1))
      && (forall i {:trigger s[i].listPrev} :: 0 <= i < |s| && i != k ==>
            s[i].listPrev == ConnAt(s, if i == k + 1 then k - 1 else i - 1))
    }

    /** The chain without the slot at place `k`. */
    static lemma ShorterConnChain(s: seq<Connection>, k: nat)
      requires k < |s| && NoDup(s) && ConnJoinedAround(s, k)
      ensures ConnChainOk(RemoveAt(s, k))
    {
      hide RemoveAt, NoDup;
      RemoveAtMembers(s, k);
      var t := RemoveAt(s, k);
      forall i | 0 <= i < |t|
        ensures t[i].listNext == ConnAt(t, i + 1) && t[i].listPrev == ConnAt(t, i - 1)
      {
        assert t[i] == s[if i < k then i else i + 1];
      }
    }

    /** Joins the neighbours of `c`, the slot at place `k` of the chain of connections. */
    method SpliceConn(c: Connection, ghost s: seq<Connection>, ghost k: nat)
      requires k < |s| && s[k] == c && listHead == ConnAt(s, 0) && ConnChainOk(s)
      requires forall i :: 0 <= i < |s| ==> s[i] in slots
      modifies this`listHead, slots`listPrev, slots`listNext
      ensures listHead == if k == 0 then ConnAt(s, 1) else s[0]
      ensures forall i {:trigger s[i].listNext} :: 0 <= i < |s| ==>
                s[i].listNext == if i == k - 1 then ConnAt(s, k + 1) else old(s[i].listNext)
      ensures ConnJoinedAround(s, k)
    {
      assert c.listPrev == ConnAt(s, k - 1) && c.listNext == ConnAt(s, k + 1);
      if c.listPrev == null {
        if c.listNext == null {
          listHead := null;
        } else {
          listHead := c.listNext;
          listHead.listPrev := null;
        }
      } else {
        if c.listNext == null {
          c.listPrev.listNext := null;
        } else {
          c.listPrev.listNext := c.listNext;
          c.listNext.listPrev := c.listPrev;
        }
      }
    }

    static lemma ChainNoDup(s: seq<Connection>)
      requires ConnChainOk(s)
      ensures NoDup(s)
    {
    }

    static lemma OnlyPredecessor(s: seq<Connection>, k: nat)
      requires k < |s| && ConnChainOk(s)
      ensures forall j {:trigger s[j].listNext} :: 0 <= j < |s| ==> (s[j].listNext == s[k] <==> j + 1 == k)
      ensures s[k].listNext == ConnAt(s, k + 1)
    {
    }

    /** The successor of `d` once `c` is out of the list. */
    static ghost function NextWithout(d: Connection, c: Connection): Connection?
      reads d`listNext, c`listNext
    {
      if d.listNext == c then c.listNext else d.listNext
    }

    /** Takes `c`, the slot at place `k`, out of the chain of connections. */
    method UnlinkConnAt(c: Connection, ghost s: seq<Connection>, ghost k: nat)
      requires k < |s| && s[k] == c && listHead == ConnAt(s, 0) && ConnChainOk(s)
      requires forall i :: 0 <= i < |s| ==> s[i] in slots
      modifies this`listHead, slots`listPrev, slots`listNext
      ensures listHead == ConnAt(RemoveAt(s, k), 0) && ConnChainOk(RemoveAt(s, k))
      ensures forall d :: d in RemoveAt(s, k) <==> d in s && d != c
      ensures forall d {:trigger d.listNext} :: d in s ==> d.listNext == old(NextWithout(d, c))
    {
      OnlyPredecessor(s, k);
      ChainNoDup(s);
      RemoveAtMembers(s, k);
      hide ConnChainOk, ConnJoinedAround, NoDup;
      SpliceConn(c, s, k);
      ShorterConnChain(s, k);
    }

    /** Moves the cursor past `c` if it stands there. */
    method SkipCursor(c: Connection)
      requires TableOk() && RestOk(rest)
      modifies this`listNext, this`rest
      ensures rest == Without(old(rest), c) && NoDup(rest) && listNext == ConnAt(rest, 0)
      ensures forall i :: 0 <= i < |rest| ==> rest[i] in old(rest) && rest[i] != c
      ensures forall i {:trigger NextWithout(rest[i], c)} :: 0 <= i < |rest| ==>
                NextWithout(rest[i], c) == ConnAt(rest, i + 1)
    {
      hide Without;
      ghost var r := rest;
      if listNext == c {
        listNext := c.listNext;
      }
      rest := Without(r, c);
      if c in r {
        ghost var m :| 0 <= m < |r| && r[m] == c;
        WithoutAt(r, m);
        RemoveAtMembers(r, m);
        forall i | 0 <= i < |rest|
          ensures NextWithout(rest[i], c) == ConnAt(rest, i + 1)
        {
          assert rest[i] == r[if i < m then i else i + 1];
        }
      } else {
        WithoutAbsent(r, c);
      }
    }

    lemma RestMembers()
      requires TableOk() && RestOk(rest)
      ensures forall d {:trigger d in rest} :: d in rest ==> d in conns && InTable(d)
    {
    }

    lemma RestFromParts()
      requires TableOk() && listNext == ConnAt(rest, 0) && NoDup(rest)
      requires forall i {:trigger rest[i].listNext} :: 0 <= i < |rest| ==>
                 InTable(rest[i]) && rest[i] in conns && rest[i].listNext == ConnAt(rest, i + 1)
      ensures RestOk(rest)
    {
      forall i | 0 <= i < |rest|
        ensures InTable(rest[i]) && rest[i] in conns
      {
        assert rest[i].listNext == ConnAt(rest, i + 1);
      }
    }

    /** Moves the cursor past `c` and takes `c` out of the list of connections. */
    method UnlinkConn(c: Connection, ghost k: nat)
      requires TableOk() && ConnsLinked() && k < |conns| && conns[k] == c
      modifies this`listHead, this`listNext, this`conns, this`rest, slots`listPrev, slots`listNext
      ensures ConnsLinked() && conns == RemoveAt(old(conns), k) && rest == Without(old(rest), c)
      ensures forall d :: d in conns <==> d in old(conns) && d != c
    {
      hide ConnChainOk, NoDup, RemoveAt, Without, RestOk;
      ghost var s := conns;
      RestMembers();
      SkipCursor(c);
      label skipped:
      UnlinkConnAt(c, s, k);
      conns := RemoveAt(s, k);
      forall i | 0 <= i < |conns|
        ensures InTable(conns[i])
      {
        assert conns[i] in conns;
      }
      forall i | 0 <= i < |rest|
        ensures InTable(rest[i]) && rest[i] in conns && rest[i].listNext == ConnAt(rest, i + 1)
      {
        assert rest[i] in s && old@skipped(NextWithout(rest[i], c)) == ConnAt(rest, i + 1);
      }
      RestFromParts();
    }

    // ---------- the timeout queue ----------

    static lemma QueueNoDup(s: seq<Connection>)
      requires TimeoutChainOk(s)
      ensures NoDup(s)
    {
    }

    /** The neighbours of place `k` are linked with each other; the link of a second slot to the head may be stale. */
    static ghost predicate JoinedAround(s: seq<Connection>, k: nat)
      reads s`timeoutPrev, s`timeoutNext
    {
      && (forall i {:trigger s[i].timeoutNext} :: 0 <= i < |s| && i != k ==>
            s[i].timeoutNext == ConnAt(s, if i + 1 == k then k + 1 else i + 1))
      && (forall i {:trigger s[i].timeoutPrev} :: 0 < i < |s| && i != k ==>
            s[i].timeoutPrev == ConnAt(s, if i == k + 1 && k > 0 then k - 1 else i - 1))
    }

    /** Joins the neighbours of `c`, the slot at place `k` of the queue. */
    method SpliceTimeout(c: Connection, ghost k: nat)
      requires k < |timeouts| && timeouts[k] == c && TimeoutChainOk(timeouts)
      requires timeoutHead == ConnAt(timeouts, 0) && timeoutFoot == ConnAt(timeouts, |timeouts| - 1)
      requires forall i :: 0 <= i < |timeouts| ==> timeouts[i] in slots
      modifies this`timeoutHead, this`timeoutFoot, slots`timeoutPrev, slots`timeoutNext
      ensures timeoutHead == if k == 0 then ConnAt(timeouts, 1) else timeouts[0]
      ensures timeoutFoot == if k == |timeouts| - 1 then ConnAt(timeouts, k - 1) else timeouts[|timeouts| - 1]
      ensures JoinedAround(timeouts, k)
      ensures forall d {:trigger d.timeoutPrev} {:trigger d.timeoutNext} :: d in slots && d !in timeouts ==>
                d.timeoutPrev == old(d.timeoutPrev) && d.timeoutNext == old(d.timeoutNext)
    {
      assert c.timeoutNext == ConnAt(timeouts, k + 1) && (k > 0 ==> c.timeoutPrev == ConnAt(timeouts, k - 1));
      if timeoutHead == c {
        if timeoutFoot == c {
          timeoutHead := null;
          timeoutFoot := null;
        } else {
          timeoutHead := c.timeoutNext;
        }
      } else {
        if c.timeoutNext == null {
          timeoutFoot := c.timeoutPrev;
          timeoutFoot.timeoutNext := null;
        } else {
          if c.timeoutPrev != null {
            c.timeoutPrev.timeoutNext := c.timeoutNext;
          }
          if c.timeoutNext != null {
            c.timeoutNext.timeoutPrev := c.timeoutPrev;
          }
        }
      }
    }

    /** The chain without the slot at place `k`. */
    static lemma ShorterChain(s: seq<Connection>, k: nat)
      requires k < |s| && NoDup(s) && JoinedAround(s, k)
      ensures TimeoutChainOk(RemoveAt(s, k))
    {
      hide RemoveAt, NoDup;
      RemoveAtMembers(s, k);
      var t := RemoveAt(s, k);
      forall i | 0 <= i < |t|
        ensures t[i].timeoutNext == ConnAt(t, i + 1) && (i > 0 ==> t[i].timeoutPrev == ConnAt(t, i - 1))
      {
        assert t[i] == s[if i < k then i else i + 1];
      }
    }

    /** Takes `c`, the slot at place `k`, out of the chain of the queue. */
    method UnlinkTimeoutAt(c: Connection, ghost k: nat)
      requires k < |timeouts| && timeouts[k] == c && TimeoutChainOk(timeouts)
      requires timeoutHead == ConnAt(timeouts, 0) && timeoutFoot == ConnAt(timeouts, |timeouts| - 1)
      requires forall i :: 0 <= i < |timeouts| ==> timeouts[i] in slots
      modifies this`timeoutHead, this`timeoutFoot, slots`timeoutPrev, slots`timeoutNext
      ensures forall d {:trigger d.timeoutPrev} {:trigger d.timeoutNext} :: d in slots && d !in timeouts ==>
                d.timeoutPrev == old(d.timeoutPrev) && d.timeoutNext == old(d.timeoutNext)
      ensures var t := RemoveAt(timeouts, k);
              timeoutHead == ConnAt(t, 0) && timeoutFoot == ConnAt(t, |t| - 1) && TimeoutChainOk(t)
    {
      QueueNoDup(timeouts);
      hide TimeoutChainOk, NoDup, JoinedAround;
      SpliceTimeout(c, k);
      ShorterChain(timeouts, k);
    }

    /** The test by which the program decides that `c` is not in the queue. */
    lemma NotQueuedTest(c: Connection)
      requires TableOk() && TimeoutsOk() && InTable(c)
      ensures NoDup(timeouts)
      ensures c !in timeouts <==>
                timeouts == [] || (c.timeoutPrev == null && c.timeoutNext == null && timeoutHead != c)
    {
      if c in timeouts {
        var k :| 0 <= k < |timeouts| && timeouts[k] == c;
        assert k > 0 ==> timeouts[k].timeoutPrev == ConnAt(timeouts, k - 1);
      } else {
        assert c.timeoutPrev == null;
      }
    }

    /** Takes `c`, the slot at place `k`, out of the queue and clears its links. */
    method UnlinkTimeout(c: Connection, ghost k: nat)
      requires TableOk() && TimeoutsOk() && InTable(c) && NoDup(timeouts) && k < |timeouts| && timeouts[k] == c
      modifies this`timeoutHead, this`timeoutFoot, this`timeouts, slots`timeoutPrev, slots`timeoutNext
      ensures TimeoutsOk() && timeouts == RemoveAt(old(timeouts), k)
    {
      hide TimeoutChainOk, NoDup, RemoveAt;
      RemoveAtMembers(timeouts, k);
      UnlinkTimeoutAt(c, k);
      timeouts := RemoveAt(timeouts, k);
      c.timeoutPrev := null;
      c.timeoutNext := null;
      assert forall i :: 0 <= i < |timeouts| ==> timeouts[i] in old(timeouts);
      forall d | d in slots && d !in timeouts
        ensures d.timeoutPrev == null && d.timeoutNext == null
      {
        assert d != c ==> d !in old(timeouts);
      }
    }

    /** Takes `c` out of the timeout queue if it is there. */
    method RemoveFromTimeoutList(c: Connection)
      requires TableOk() && TimeoutsOk() && InTable(c)
      modifies this`timeoutHead, this`timeoutFoot, this`timeouts, slots`timeoutPrev, slots`timeoutNext
      ensures TimeoutsOk() && c !in timeouts
      ensures Slots(timeouts) == Without(old(Slots(timeouts)), c.slot)
    {
      hide TimeoutChainOk;
      NotQueuedTest(c);
      SlotsWithout(timeouts, c);
      if c !in timeouts {
        WithoutAbsent(timeouts, c);
      }
      if timeoutHead == null || timeoutFoot == null {
        return;
      }
      if c.timeoutPrev == null && c.timeoutNext == null && timeoutHead != c {
        return;
      }
      ghost var k :| 0 <= k < |timeouts| && timeouts[k] == c;
      RemoveAtMembers(timeouts, k);
      WithoutAt(timeouts, k);
      UnlinkTimeout(c, k);
    }

    /** Takes `c` out of the list of connections. */
    method LeaveConns(c: Connection)
      requires TableOk() && ConnsOk() && InTable(c) && c.muxSocket != null
      modifies this`listHead, this`listNext, this`conns, this`rest, slots`listPrev, slots`listNext
      ensures ConnsLinked() && c !in conns
      ensures forall i :: 0 <= i < |conns| ==> conns[i].muxSocket != null
      ensures forall d :: d in slots && d != c && d.muxSocket != null ==> d in conns
      ensures Slots(conns) == Without(old(Slots(conns)), c.slot)
      ensures Slots(rest) == Without(old(Slots(rest)), c.slot)
    {
      hide ConnChainOk, NoDup, Without, RemoveAt;
      ghost var k :| 0 <= k < |conns| && conns[k] == c;
      ChainNoDup(conns);
      WithoutAt(conns, k);
      SlotsWithout(conns, c);
      SlotsWithout(rest, c);
      UnlinkConn(c, k);
      assert forall i :: 0 <= i < |conns| ==> conns[i] in old(conns);
    }

    static lemma NoChannels()
      ensures InChainOk([])
    {
    }

    method ClearChannelFields(c: Connection)
      requires TableOk() && InTable(c) && InIndexOkBut(c)
      modifies c`muxSocket, c`numberOfChannels, c`channelList, c`channels, this`stacks
      ensures InIndexOk() && stacks == old(stacks) - {c.slot} && c.muxSocket == null
    {
      hide InChainOk;
      c.muxSocket := null;
      c.numberOfChannels := 0;
      c.channelList := null;
      c.channels := [];
      stacks := stacks - {c.slot};
      forall d | d in slots
        ensures OwnsOk(d) && InListOk(d) && StackOk(d)
      {
        assert d != c ==> old(OwnsOk(d) && InListOk(d) && StackOk(d));
        NoChannels();
      }
    }

    method ClearListFields(c: Connection)
      requires TableOk() && InTable(c) && c !in conns && ConnsLinked() && c.muxSocket == null
      requires forall i :: 0 <= i < |conns| ==> conns[i].muxSocket != null
      requires forall d :: d in slots && d.muxSocket != null ==> d in conns
      modifies c`listPrev, c`listNext
      ensures ConnsOk()
    {
      hide ConnChainOk;
      c.listPrev, c.listNext := null, null;
    }

    method ClearTimeoutFields(c: Connection)
      requires TableOk() && InTable(c) && c !in timeouts && TimeoutsOk()
      modifies c`timeoutPrev, c`timeoutNext, c`timeoutSecs, c`recoverTimeout, this`expiry
      ensures TimeoutsOk() && c.slot < |old(expiry)| && expiry == old(expiry)[c.slot := 0]
    {
      hide TimeoutChainOk;
      c.timeoutPrev, c.timeoutNext, c.timeoutSecs := null, null, 0;
      c.recoverTimeout := false;
      expiry := expiry[c.slot := 0];
    }

    /** Resets all fields of the slot `c`, which is in no list any more. */
    method ClearSlot(c: Connection)
      requires TableOk() && InTable(c) && c !in conns && c !in timeouts
      requires ConnsLinked() && TimeoutsOk() && InIndexOkBut(c)
      requires forall i :: 0 <= i < |conns| ==> conns[i].muxSocket != null
      requires forall d :: d in slots && d != c && d.muxSocket != null ==> d in conns
      modifies c, this`stacks, this`expiry
      ensures ConnsOk() && TimeoutsOk() && InIndexOk()
      ensures stacks == old(stacks) - {c.slot}
      ensures c.slot < |old(expiry)| && expiry == old(expiry)[c.slot := 0]
    {
      hide ConnsOk, ConnsLinked, TimeoutsOk, InIndexOk, InIndexOkBut;
      ClearChannelFields(c);
      ClearListFields(c);
      ClearTimeoutFields(c);
    }

    method RemoveSlot(c: Connection)
      requires Valid() && InTable(c) && c.muxSocket != null && c.slot in stacks
      modifies this, slots, outTable, records
      ensures Valid() && c.slot < |old(expiry)| && Abs() == ChannelTable.Remove(old(Abs()), c.slot)
    {
      hide ConnsOk, ConnsLinked, TimeoutsOk, InIndexOk, InIndexOkBut, OutIndexOk, TableOk, Without, Slots;
      LeaveConns(c);
      RemoveFromTimeoutList(c);
      assert InIndexOk() == old(InIndexOk());
      FreeChannels(c);
      ClearSlot(c);
    }

    /** Removes a connection with all its channels and frees its slot. */
    method Remove(mux: MuxSocket?) returns (ok: bool)
      requires Valid()
      modifies this, slots, outTable, records
      ensures Valid()
      ensures ok <==> HasSlot(mux) && mux.hashKey in old(Abs()).stacks
      ensures Abs() == if ok then ChannelTable.Remove(old(Abs()), mux.hashKey) else old(Abs())
    {
      hide ConnsOk, ConnsLinked, TimeoutsOk, InIndexOk, InIndexOkBut, OutIndexOk;
      if !HasSlot(mux) {
        return false;
      }
      var c := hashTable[mux.hashKey];
      CountOf(c);
      if c.muxSocket == null {
        return false;
      }
      RemoveSlot(c);
      ok := true;
    }

    // ---------- the enumeration ----------

    /** What the enumeration finds behind the first connection. */
    lemma RestOfConns()
      requires TableOk() && ConnsLinked() && conns != []
      ensures var s := conns[1..];
              && NoDup(s) && conns[0].listNext == ConnAt(s, 0)
              && (forall i {:trigger s[i].listNext} :: 0 <= i < |s| ==>
                    InTable(s[i]) && s[i] in conns && s[i].listNext == ConnAt(s, i + 1))
              && Slots(s) == Slots(conns)[1..]
    {
      var s := conns[1..];
      assert forall i :: 0 <= i < |s| ==> s[i] == conns[i + 1];
    }

    /** What it finds behind the cursor. */
    lemma RestOfRest()
      requires TableOk() && RestOk(rest) && rest != []
      ensures var s := rest[1..];
              && NoDup(s) && rest[0].listNext == ConnAt(s, 0)
              && (forall i {:trigger s[i].listNext} :: 0 <= i < |s| ==>
                    InTable(s[i]) && s[i] in conns && s[i].listNext == ConnAt(s, i + 1))
              && Slots(s) == Slots(rest)[1..] && InTable(rest[0])
    {
      var s := rest[1..];
      assert forall i :: 0 <= i < |s| ==> s[i] == rest[i + 1];
    }

    method SetCursor(c: Connection?, ghost s: seq<Connection>)
      requires TableOk() && ConnsOk() && c == ConnAt(s, 0) && NoDup(s)
      requires forall i {:trigger s[i].listNext} :: 0 <= i < |s| ==>
                 InTable(s[i]) && s[i] in conns && s[i].listNext == ConnAt(s, i + 1)
      modifies this`listNext, this`rest
      ensures ConnsOk() && listNext == c && rest == s
    {
      hide ConnChainOk, RestOk, NoDup;
      listNext := c;
      rest := s;
      forall i | 0 <= i < |rest|
        ensures InTable(rest[i]) && rest[i] in conns && rest[i].listNext == ConnAt(rest, i + 1)
      {
        assert s[i].listNext == ConnAt(s, i + 1);
      }
      RestFromParts();
    }

    method GetFirst() returns (r: Connection?)
      requires Valid()
      modifies this`listNext, this`rest
      ensures Valid() && Abs() == ChannelTable.GetFirst(old(Abs()))
      ensures r == null <==> Abs().order == []
      ensures r != null ==> InTable(r) && r.slot == Abs().order[0]
    {
      ghost var none: seq<Connection> := [];
      assert NoDup(none);
      hide TimeoutsOk, OutIndexOk, InIndexOk, ConnChainOk, NoDup, RestOk, Slots, TableOk;
      if listHead != null {
        RestOfConns();
        SetCursor(listHead.listNext, conns[1..]);
      } else {
        SetCursor(null, none);
      }
      r := listHead;
      assert TimeoutsOk() == old(TimeoutsOk());
      assert OutIndexOk() == old(OutIndexOk());
      assert InIndexOk() == old(InIndexOk());
    }

    lemma RestHead()
      requires TableOk() && RestOk(rest)
      ensures listNext == ConnAt(rest, 0)
    {
    }

    method GetNext() returns (r: Connection?)
      requires Valid()
      modifies this`listNext, this`rest
      ensures Valid() && Abs() == ChannelTable.GetNext(old(Abs()))
      ensures r == null <==> old(Abs()).pending == []
      ensures r != null ==> InTable(r) && r.slot == old(Abs()).pending[0]
    {
      RestHead();
      hide TimeoutsOk, OutIndexOk, InIndexOk, ConnChainOk, NoDup, RestOk;
      r := listNext;
      if listNext != null {
        RestOfRest();
        SetCursor(listNext.listNext, rest[1..]);
      }
      assert TimeoutsOk() == old(TimeoutsOk());
      assert OutIndexOk() == old(OutIndexOk());
      assert InIndexOk() == old(InIndexOk());
    }

    // ---------- the public face of the timeout queue ----------

    static predicate IsTimedOut(timeoutSecs: int, now: int) {
      timeoutSecs <= now
    }

    /** Marks the slot for a forced kickout; a forced kickout cannot be undone. */
    method SetKickoutForced(c: Connection, kickoutForced: bool)
      modifies c`recoverTimeout
      ensures c.recoverTimeout == (old(c.recoverTimeout) && !kickoutForced)
    {
      if !c.recoverTimeout && !kickoutForced {
      } else {
        c.recoverTimeout := !kickoutForced;
      }
    }

    /** Renews the stamp of `c` and moves it to the foot of the queue. */
    method PushTimeoutEntry(c: Connection?, kickoutForced: bool, now: int) returns (ok: bool)
      requires Valid() && (c != null ==> InTable(c))
      modifies this, slots
      ensures Valid() && (ok <==> c != null)
      ensures Abs() == if ok then Push(old(Abs()), c.slot, now) else old(Abs())
      ensures ok ==> c.recoverTimeout == (old(c.recoverTimeout) && !kickoutForced)
    {
      hide ConnsOk, OutIndexOk, InIndexOk, TimeoutsOk;
      if c == null {
        return false;
      }
      PushInternal(c, kickoutForced, now);
      ok := true;
      assert ConnsOk() == old(ConnsOk());
      assert OutIndexOk() == old(OutIndexOk());
      assert InIndexOk() == old(InIndexOk());
    }

    method PushInternal(c: Connection, kickoutForced: bool, now: int)
      requires TableOk() && TimeoutsOk() && InTable(c)
      modifies this`timeoutHead, this`timeoutFoot, this`timeouts, this`expiry, c`recoverTimeout
      modifies slots`timeoutPrev, slots`timeoutNext, slots`timeoutSecs
      ensures TimeoutsOk() && c.slot < |old(expiry)|
      ensures expiry == old(expiry)[c.slot := Signed32(now + EXPIRATION_TIME_SECS)]
      ensures Slots(timeouts) == Without(old(Slots(timeouts)), c.slot) + [c.slot]
      ensures c.recoverTimeout == (old(c.recoverTimeout) && !kickoutForced)
    {
      hide TimeoutsOk;
      Restamp(c, now);
      RemoveFromTimeoutList(c);
      SetKickoutForced(c, kickoutForced);
      AppendTimeout(c);
    }

    /** Gives `c` a fresh stamp. */
    method Restamp(c: Connection, now: int)
      requires TableOk() && TimeoutsOk() && InTable(c)
      modifies c`timeoutSecs, this`expiry
      ensures TimeoutsOk() && c.slot < |old(expiry)|
      ensures expiry == old(expiry)[c.slot := Signed32(now + EXPIRATION_TIME_SECS)]
    {
      hide TimeoutChainOk;
      c.timeoutSecs := Signed32(now + EXPIRATION_TIME_SECS);
      expiry := expiry[c.slot := c.timeoutSecs];
    }

    /** Puts `c` at the foot of the chain of the queue. */
    method AppendTimeoutAt(c: Connection)
      requires c in slots && c !in timeouts && TimeoutChainOk(timeouts)
      requires timeoutHead == ConnAt(timeouts, 0) && timeoutFoot == ConnAt(timeouts, |timeouts| - 1)
      requires forall i :: 0 <= i < |timeouts| ==> timeouts[i] in slots
      modifies this`timeoutHead, this`timeoutFoot, this`timeouts, slots`timeoutPrev, slots`timeoutNext
      ensures timeouts == old(timeouts) + [c] && TimeoutChainOk(timeouts)
      ensures timeoutHead == ConnAt(timeouts, 0) && timeoutFoot == c
      ensures forall d {:trigger d.timeoutPrev} {:trigger d.timeoutNext} :: d in slots && d !in timeouts ==>
                d.timeoutPrev == old(d.timeoutPrev) && d.timeoutNext == old(d.timeoutNext)
    {
      if timeoutFoot == null {
        c.timeoutPrev := null;
        timeoutHead := c;
      } else {
        timeoutFoot.timeoutNext := c;
        c.timeoutPrev := timeoutFoot;
      }
      c.timeoutNext := null;
      timeoutFoot := c;
      timeouts := timeouts + [c];
    }

    /** Puts `c`, which is not queued, at the foot of the queue. */
    method AppendTimeout(c: Connection)
      requires TableOk() && TimeoutsOk() && InTable(c) && c !in timeouts
      modifies this`timeoutHead, this`timeoutFoot, this`timeouts, slots`timeoutPrev, slots`timeoutNext
      ensures TimeoutsOk() && timeouts == old(timeouts) + [c]
    {
      hide TimeoutChainOk;
      AppendTimeoutAt(c);
    }

    /** Takes the head of the queue if it is timed out or if `force` is set. */
    method PopTimeoutEntry(force: bool, now: int) returns (r: Connection?)
      requires Valid()
      modifies this, slots
      ensures Valid()
      ensures r != null <==> CanPop(old(Abs()), force, now)
      ensures r != null ==> InTable(r) && [r.slot] + Abs().queue == old(Abs()).queue
      ensures r == null ==> Abs() == old(Abs())
      ensures Abs() == Pop(old(Abs()), force, now)
    {
      hide ConnsOk, OutIndexOk, InIndexOk, TimeoutChainOk;
      if timeoutHead == null {
        return null;
      }
      var c := timeoutHead;
      if force || IsTimedOut(c.timeoutSecs, now) {
        RemoveFromTimeoutList(c);
        assert ConnsOk() == old(ConnsOk());
        assert OutIndexOk() == old(OutIndexOk());
        assert InIndexOk() == old(InIndexOk());
        return c;
      }
      return null;
    }
  }
}
