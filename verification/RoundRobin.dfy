/** The ring of cache proxies: addresses are added behind the cursor and handed out in turn. */
module RoundRobin {
  import opened MachineTypes

  type Address = string

  // ---------- the ring as a sequence that starts at the cursor ----------

  function Added(ring: seq<Address>, a: Address): seq<Address>
  {
    if ring == [] then [a] else [ring[0], a] + ring[1..]
  }

  function Turned(ring: seq<Address>): seq<Address>
  {
    if ring == [] then [] else ring[1..] + [ring[0]]
  }

  /** The ring after `k` calls of `get`, and what they return. */
  function Gets(ring: seq<Address>, k: nat): (g: (seq<Address>, seq<Address>))
    requires ring != []
    ensures |g.0| == |ring| && |g.1| == k
  {
    if k == 0 then (ring, [])
    else
      var (r, out) := Gets(ring, k - 1);
      (Turned(r), out + [Turned(r)[0]])
  }

  /** Within one turn the calls return the addresses behind the cursor one after the other, the cursor's own last. */
  lemma {:induction false} GetsGoRound(ring: seq<Address>, k: nat)
    requires ring != [] && k <= |ring|
    ensures Gets(ring, k) == (ring[k..] + ring[..k], (ring[1..] + [ring[0]])[..k])
  {
    if k == 0 {
      assert ring[0..] + ring[..0] == ring;
    } else {
      GetsGoRound(ring, k - 1);
      var r := ring[k - 1..] + ring[..k - 1];
      var turn := ring[1..] + [ring[0]];
      assert r[0] == ring[k - 1] && r[1..] == ring[k..] + ring[..k - 1];
      assert ring[..k] == ring[..k - 1] + [ring[k - 1]];
      assert Turned(r) == ring[k..] + ring[..k];
      assert Turned(r)[0] == turn[k - 1];
      assert turn[..k] == turn[..k - 1] + [turn[k - 1]];
    }
  }

  lemma WholeTurn(ring: seq<Address>, n: nat)
    requires n == |ring| > 0
    ensures ring[n..] + ring[..n] == ring
    ensures (ring[1..] + [ring[0]])[..n] == ring[1..] + [ring[0]]
  {
  }

  lemma TurnIsPermutation(ring: seq<Address>)
    requires ring != []
    ensures multiset(ring[1..] + [ring[0]]) == multiset(ring)
  {
    assert ring == [ring[0]] + ring[1..];
  }

  /** As many calls as there are addresses bring the cursor back and return each stored address once. */
  lemma FullTurn(ring: seq<Address>, n: nat)
    requires n == |ring| > 0
    ensures Gets(ring, n) == (ring, ring[1..] + [ring[0]])
    ensures multiset(Gets(ring, n).1) == multiset(ring)
  {
    GetsGoRound(ring, n);
    WholeTurn(ring, n);
    TurnIsPermutation(ring);
  }

  /** The turns can start anywhere: later calls continue from where the earlier ones left the cursor. */
  lemma {:induction false} GetsContinue(ring: seq<Address>, j: nat, k: nat)
    requires ring != []
    ensures var (r, out) := Gets(ring, j);
            Gets(ring, j + k) == (Gets(r, k).0, out + Gets(r, k).1)
  {
    var (r, out) := Gets(ring, j);
    if k == 0 {
      assert out + [] == out;
    } else {
      GetsContinue(ring, j, k - 1);
      var (s, more) := Gets(r, k - 1);
      assert (out + more) + [Turned(s)[0]] == out + (more + [Turned(s)[0]]);
    }
  }

  /** The ring after these addresses were added one after the other, with no call of `get` in between. */
  function AllAdded(ring: seq<Address>, added: seq<Address>): seq<Address>
    decreases |added|
  {
    if added == [] then ring else AllAdded(Added(ring, added[0]), added[1..])
  }

  function Reversed(s: seq<Address>): (r: seq<Address>)
    ensures |r| == |s|
  {
    if s == [] then [] else Reversed(s[1..]) + [s[0]]
  }

  lemma Regroup(a: seq<Address>, b: seq<Address>, c: seq<Address>, d: seq<Address>)
    ensures (a + b) + (c + d) == (a + (b + c)) + d
  {
  }

  lemma {:induction false} AllAddedIs(ring: seq<Address>, added: seq<Address>)
    requires ring != []
    ensures AllAdded(ring, added) == [ring[0]] + Reversed(added) + ring[1..]
    decreases |added|
  {
    if added == [] {
      assert [ring[0]] + ring[1..] == ring;
    } else {
      var first, rest, next := [ring[0]], added[1..], Added(ring, added[0]);
      assert next[0] == ring[0] && next[1..] == [added[0]] + ring[1..];
      AllAddedIs(next, rest);
      Regroup(first, Reversed(rest), [added[0]], ring[1..]);
      assert Reversed(added) == Reversed(rest) + [added[0]] && AllAdded(ring, added) == AllAdded(next, rest);
      hide Reversed, AllAdded, Added;
    }
  }

  /** A new address comes next, before all others: the first turn after filling an empty ring returns the addresses in
      the reverse of the order in which they were added. */
  lemma FirstTurnIsReversed(added: seq<Address>, n: nat)
    requires n == |added| > 0
    ensures var ring := AllAdded([], added);
            |ring| == n && Gets(ring, n) == (ring, Reversed(added))
  {
    var ring := AllAdded([added[0]], added[1..]);
    AllAddedIs([added[0]], added[1..]);
    assert ring == [added[0]] + Reversed(added[1..]);
    FullTurn(ring, n);
  }

  // ---------- the ring of nodes ----------

  class Entry {
    const addr: Address
    var next: Entry?

    constructor (addr: Address)
      ensures this.addr == addr
    {
      this.addr := addr;
    }
  }

  ghost function Addresses(ring: seq<Entry>): (s: seq<Address>)
    ensures |s| == |ring|
    ensures forall i :: 0 <= i < |ring| ==> s[i] == ring[i].addr
  {
    seq(|ring|, i requires 0 <= i < |ring| => ring[i].addr)
  }

  lemma AddressesAdded(ring: seq<Entry>, e: Entry)
    ensures Addresses(if ring == [] then [e] else [ring[0], e] + ring[1..]) == Added(Addresses(ring), e.addr)
  {
  }

  class LoadBalancer {
    var selected: Entry?
    var elementCount: UInt32
    ghost var ring: seq<Entry>

    /** One circle through all nodes, starting at the cursor. */
    ghost predicate Valid()
      reads this, ring
    {
      && (selected == null <==> ring == [])
      && (ring != [] ==> selected == ring[0])
      && (forall i, j :: 0 <= i < j < |ring| ==> ring[i] != ring[j])
      && (forall i {:trigger ring[i].next} :: 0 <= i < |ring| ==>
            ring[i].next == if i + 1 < |ring| then ring[i + 1] else ring[0])
      && elementCount == |ring| % TWO_32
    }

    ghost function Abs(): seq<Address>
      reads this
    {
      Addresses(ring)
    }

    constructor ()
      ensures Valid() && ring == []
    {
      selected, elementCount, ring := null, 0, [];
    }

    /** Put a new node behind the cursor. */
    method Splice(entry: Entry)
      requires Valid() && ring != [] && entry !in ring && entry.next == ring[0].next
      modifies this`ring, this`elementCount, selected`next
      ensures Valid() && ring == [old(ring)[0], entry] + old(ring)[1..]
    {
      ghost var before := ring;
      selected.next := entry;
      ring := [before[0], entry] + before[1..];
      assert ring[0] == before[0] && ring[1] == entry;
      assert forall i :: 2 <= i < |ring| ==> ring[i] == before[i - 1];
      elementCount := Add32(elementCount, 1);
    }

    /** Only internet addresses are taken. */
    method Add(addr: Address, isInet: bool) returns (ok: bool)
      requires Valid()
      modifies this, selected
      ensures Valid() && ok == isInet
      ensures !ok ==> ring == old(ring)
      ensures ok ==> Abs() == Added(old(Abs()), addr)
      ensures ok && old(ring) == [] ==> |ring| == 1 && fresh(ring[0])
      ensures ok && old(ring) != [] ==> ring == [old(ring)[0], ring[1]] + old(ring)[1..] && fresh(ring[1])
    {
      hide Addresses, Added;
      if !isInet {
        return false;
      }
      var entry := new Entry(addr);
      AddressesAdded(ring, entry);
      if selected == null {
        selected := entry;
        selected.next := selected;
        ring := [entry];
        elementCount := Add32(elementCount, 1);
      } else {
        entry.next := selected.next;
        Splice(entry);
      }
      return true;
    }

    /** Move the cursor on and return the address there. */
    method Get() returns (addr: Option<Address>)
      requires Valid()
      modifies this
      ensures Valid() && elementCount == old(elementCount)
      ensures ring == if old(ring) == [] then [] else old(ring[1..]) + [old(ring[0])]
      ensures Abs() == Turned(old(Abs()))
      ensures addr == if ring == [] then None else Some(Abs()[0])
    {
      if selected == null {
        return None;
      }
      assert ring[0].next == if |ring| > 1 then ring[1] else ring[0];
      selected := selected.next;
      ring := ring[1..] + [ring[0]];
      return Some(selected.addr);
    }

    /** Free the nodes one after the other; `freed` records each `delete`. */
    method Clean() returns (ghost freed: seq<Entry>)
      requires Valid()
      modifies this
      ensures Valid() && ring == []
      ensures freed == old(ring)
    {
      freed := [];
      var first := selected;
      ghost var k := 0;
      while selected != null
        invariant ring == old(ring)
        invariant 0 <= k <= |ring| && freed == ring[..k]
        invariant selected == if k < |ring| then ring[k] else null
        decreases |ring| - k
      {
        var entry: Entry?;
        assert ring[k].next == if k + 1 < |ring| then ring[k + 1] else ring[0];
        if selected.next == first {
          entry := null;
        } else {
          entry := selected.next;
        }
        freed := freed + [selected];
        k := k + 1;
        selected := entry;
      }
      elementCount := 0;
      ring := [];
    }
  }
}
