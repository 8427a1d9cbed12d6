/** The replay database as a value: three sets of message ids, one for each 30 s interval around the last
    switch of the clock, and the promise that no message is accepted twice. */
module ReplayWindow {
  import opened MachineTypes

  const SECONDS_PER_INTERVALL := 30
  const FUTURE_TOLERANCE := 5

  /** What the tables keep of a key: the bucket and the 64-bit number stored in its chain. */
  datatype Id = Id(row: Byte, column: Byte, hash: UInt64)

  datatype Window = Window(lastSwitch: UInt64, prev: set<Id>, curr: set<Id>, next: set<Id>)

  datatype Slot = Prev | Curr | Next

  type Key = k: seq<Byte> | |k| == 16 witness seq(16, _ => 0)

  // ---------- ids ----------

  /** The eight shifted bytes added up, as the 64-bit sum of the source; no carry is lost. */
  function HashKey(key: Key): (h: UInt64)
  {
    var a: int, b: int, c: int, d: int := key[2], key[3], key[4], key[5];
    var e: int, f: int, g: int, h: int := key[6], key[7], key[8], key[9];
    a * 0x100_0000_0000_0000 + b * 0x1_0000_0000_0000 + c * 0x100_0000_0000 + d * 0x1_0000_0000
    + e * 0x100_0000 + f * 0x1_0000 + g * 0x100 + h
  }

  function IdOf(key: Key): Id
  {
    Id(key[0], key[1], HashKey(key))
  }

  lemma HashKeyIsNumber(key: Key)
    ensures HashKey(key) == Number(key[2..10])
  {
    var s := key[2..10];
    NumberSnoc(s, 0);
    NumberSnoc(s, 1);
    NumberSnoc(s, 2);
    NumberSnoc(s, 3);
    NumberSnoc(s, 4);
    NumberSnoc(s, 5);
    NumberSnoc(s, 6);
    NumberSnoc(s, 7);
    assert s[..8] == s && Number(s[..0]) == 0;
  }

  /** Two keys get the same id exactly when their first ten bytes agree. */
  lemma IdIsPrefix(a: Key, b: Key)
    ensures IdOf(a) == IdOf(b) <==> a[..10] == b[..10]
  {
    if IdOf(a) == IdOf(b) {
      HashKeyIsNumber(a);
      HashKeyIsNumber(b);
      NumberInjective(a[2..10], b[2..10]);
      assert a[..10] == [a[0], a[1]] + a[2..10];
      assert b[..10] == [b[0], b[1]] + b[2..10];
    }
    if a[..10] == b[..10] {
      assert forall i :: 0 <= i < 10 ==> a[..10][i] == a[i] && b[..10][i] == b[i];
    }
  }

  // ---------- the operations ----------

  predicate InWindow(w: Window, timestamp: UInt64, now: UInt32)
  {
    !(timestamp < Sub64(w.lastSwitch, SECONDS_PER_INTERVALL) || timestamp > Add32(now, FUTURE_TOLERANCE))
  }

  /** The sets a timestamp is checked against, in the order in which they are searched and extended. */
  function Consulted(w: Window, timestamp: UInt64): seq<Slot>
  {
    if timestamp < w.lastSwitch then [Prev, Curr]
    else if timestamp < Add64(w.lastSwitch, SECONDS_PER_INTERVALL) then [Prev, Curr, Next]
    else [Curr, Next]
  }

  function Ids(w: Window, slot: Slot): set<Id>
  {
    match slot
    case Prev => w.prev
    case Curr => w.curr
    case Next => w.next
  }

  function Put(w: Window, slot: Slot, id: Id): Window
  {
    match slot
    case Prev => w.(prev := w.prev + {id})
    case Curr => w.(curr := w.curr + {id})
    case Next => w.(next := w.next + {id})
  }

  /** Search one set, extend it, go on to the next one; stop at the first set that holds the id. */
  function InsertInto(w: Window, slots: seq<Slot>, id: Id): (Window, bool)
    decreases |slots|
  {
    if slots == [] then (w, true)
    else if id in Ids(w, slots[0]) then (w, false)
    else InsertInto(Put(w, slots[0], id), slots[1..], id)
  }

  function Insert(w: Window, key: Key, timestamp: UInt64, now: UInt32): (Window, bool)
  {
    if !InWindow(w, timestamp, now) then (w, false)
    else InsertInto(w, Consulted(w, timestamp), IdOf(key))
  }

  function NextClock(w: Window): Window
  {
    Window(Add64(w.lastSwitch, SECONDS_PER_INTERVALL), w.curr, w.next, {})
  }

  /** The test the maintenance thread makes before it switches the clock. */
  predicate SwitchDue(w: Window, now: UInt32)
  {
    Add64(w.lastSwitch, SECONDS_PER_INTERVALL) <= now
  }

  // ---------- one insert ----------

  lemma {:induction false} InsertIntoResult(w: Window, slots: seq<Slot>, id: Id)
    requires forall i, j :: 0 <= i < j < |slots| ==> slots[i] != slots[j]
    ensures var (v, ok) := InsertInto(w, slots, id);
            && v.lastSwitch == w.lastSwitch
            && (ok <==> forall s :: s in slots ==> id !in Ids(w, s))
            && (forall s :: Ids(w, s) <= Ids(v, s) <= Ids(w, s) + {id})
            && (forall s :: s !in slots ==> Ids(v, s) == Ids(w, s))
            && (ok ==> forall s :: s in slots ==> Ids(v, s) == Ids(w, s) + {id})
    decreases |slots|
  {
    if slots != [] && id !in Ids(w, slots[0]) {
      var u := Put(w, slots[0], id);
      assert slots == [slots[0]] + slots[1..];
      assert forall s :: s != slots[0] ==> Ids(u, s) == Ids(w, s);
      InsertIntoResult(u, slots[1..], id);
    }
  }

  /** An insert succeeds exactly when the timestamp is in the window and none of the consulted sets holds the
      key's prefix; then all of them hold it. A rejected insert may add the id to some sets but removes nothing. */
  lemma InsertAcceptsIff(w: Window, key: Key, timestamp: UInt64, now: UInt32)
    ensures var (v, ok) := Insert(w, key, timestamp, now);
            && v.lastSwitch == w.lastSwitch
            && (ok <==> InWindow(w, timestamp, now)
                        && forall s :: s in Consulted(w, timestamp) ==> IdOf(key) !in Ids(w, s))
            && (ok ==> forall s :: s in Consulted(w, timestamp) ==> Ids(v, s) == Ids(w, s) + {IdOf(key)})
            && (forall s :: s !in Consulted(w, timestamp) ==> Ids(v, s) == Ids(w, s))
            && (forall s :: Ids(w, s) <= Ids(v, s) <= Ids(w, s) + {IdOf(key)})
  {
    InsertIntoResult(w, Consulted(w, timestamp), IdOf(key));
  }

  /** A rejected insert can leave the id in a set that was searched before the duplicate was found. */
  lemma RejectedInsertCanAdd(key: Key)
    ensures var w := Window(100, {}, {IdOf(key)}, {});
            && !Insert(w, key, 100, 100).1
            && Insert(w, key, 100, 100).0 == w.(prev := {IdOf(key)})
  {
    var w := Window(100, {}, {IdOf(key)}, {});
    assert Consulted(w, 100) == [Prev, Curr, Next];
    var v := Put(w, Prev, IdOf(key));
    assert InsertInto(v, [Prev, Curr, Next][1..], IdOf(key)) == (v, false);
    assert v == w.(prev := {IdOf(key)});
  }

  // ---------- runs ----------

  datatype Event =
    | Message(now: UInt32, key: Key, timestamp: UInt64)
    | Switch(now: UInt32)

  function Step(w: Window, e: Event): Window
  {
    match e
    case Message(now, key, timestamp) => Insert(w, key, timestamp, now).0
    case Switch(now) => NextClock(w)
  }

  predicate Accepts(w: Window, e: Event)
  {
    e.Message? && Insert(w, e.key, e.timestamp, e.now).1
  }

  function Run(w: Window, events: seq<Event>): Window
    decreases |events|
  {
    if events == [] then w else Run(Step(w, events[0]), events[1..])
  }

  /** The clock never goes back, and the clock is switched only when the maintenance thread's test allows it. */
  predicate Legal(w: Window, now: UInt32, events: seq<Event>)
    decreases |events|
  {
    events == [] || (&& now <= events[0].now
                     && (events[0].Switch? ==> SwitchDue(w, events[0].now))
                     && Legal(Step(w, events[0]), events[0].now, events[1..]))
  }

  function OwnSlot(w: Window, timestamp: UInt64): Slot
  {
    if timestamp < w.lastSwitch then Prev
    else if timestamp < w.lastSwitch + SECONDS_PER_INTERVALL then Curr
    else Next
  }

  /** `timestamp` lies in the window's three intervals (or before them) and, when in them, the set of its own
      interval holds the id. */
  predicate Guarded(w: Window, id: Id, timestamp: UInt64)
  {
    && timestamp < w.lastSwitch + 2 * SECONDS_PER_INTERVALL
    && (w.lastSwitch <= timestamp + SECONDS_PER_INTERVALL ==> id in Ids(w, OwnSlot(w, timestamp)))
  }

  /** Same or neighbouring 30 s interval, counted from `start`. */
  predicate Near(start: UInt64, t: UInt64, u: UInt64)
  {
    -1 <= (t - start) / SECONDS_PER_INTERVALL - (u - start) / SECONDS_PER_INTERVALL <= 1
  }

  lemma GuardedStep(w: Window, id: Id, timestamp: UInt64, e: Event)
    requires Guarded(w, id, timestamp) && w.lastSwitch <= e.now
    requires e.Switch? ==> SwitchDue(w, e.now)
    ensures Guarded(Step(w, e), id, timestamp)
    ensures Step(w, e).lastSwitch <= e.now
  {
    if e.Message? {
      InsertAcceptsIff(w, e.key, e.timestamp, e.now);
    }
  }

  lemma {:induction false} GuardedRun(w: Window, now: UInt32, events: seq<Event>, id: Id, timestamp: UInt64)
    requires Legal(w, now, events) && w.lastSwitch <= now && Guarded(w, id, timestamp)
    ensures Guarded(Run(w, events), id, timestamp)
    decreases |events|
  {
    if events != [] {
      GuardedStep(w, id, timestamp, events[0]);
      GuardedRun(Step(w, events[0]), events[0].now, events[1..], id, timestamp);
    }
  }

  /** The clock moves in whole intervals. */
  lemma {:induction false} RunKeepsPhase(w: Window, now: UInt32, events: seq<Event>)
    requires Legal(w, now, events) && w.lastSwitch <= now
    ensures var v := Run(w, events);
            v.lastSwitch >= w.lastSwitch && (v.lastSwitch - w.lastSwitch) % SECONDS_PER_INTERVALL == 0
            && v.lastSwitch < TWO_32
    decreases |events|
  {
    if events != [] {
      if events[0].Message? {
        InsertAcceptsIff(w, events[0].key, events[0].timestamp, events[0].now);
      }
      RunKeepsPhase(Step(w, events[0]), events[0].now, events[1..]);
    }
  }

  lemma GuardedRejects(w: Window, start: UInt64, id: Id, timestamp: UInt64, key: Key, other: UInt64, now: UInt32)
    requires Guarded(w, id, timestamp) && IdOf(key) == id && w.lastSwitch < TWO_32
    requires w.lastSwitch >= start && (w.lastSwitch - start) % SECONDS_PER_INTERVALL == 0
    requires other == timestamp
             || (Near(start, timestamp, other) && w.lastSwitch <= timestamp + SECONDS_PER_INTERVALL)
    ensures !Insert(w, key, other, now).1
  {
    InsertAcceptsIff(w, key, other, now);
    if InWindow(w, other, now) {
      assert w.lastSwitch >= SECONDS_PER_INTERVALL;
      var k := (w.lastSwitch - start) / SECONDS_PER_INTERVALL;
      assert OwnSlot(w, timestamp) in Consulted(w, other);
    }
  }

  lemma {:induction false} LegalPrefix(w: Window, now: UInt32, events: seq<Event>, i: nat)
    requires Legal(w, now, events) && i <= |events|
    ensures Legal(w, now, events[..i])
    decreases |events|
  {
    if i > 0 {
      LegalPrefix(Step(w, events[0]), events[0].now, events[1..], i - 1);
      assert events[..i][1..] == events[1..][..i - 1];
    }
  }

  lemma AcceptedIsGuarded(w: Window, key: Key, timestamp: UInt64, now: UInt32)
    requires w.lastSwitch <= now && Insert(w, key, timestamp, now).1
    requires timestamp < w.lastSwitch + 2 * SECONDS_PER_INTERVALL
    ensures Guarded(Insert(w, key, timestamp, now).0, IdOf(key), timestamp)
  {
    InsertAcceptsIff(w, key, timestamp, now);
    assert OwnSlot(w, timestamp) in Consulted(w, timestamp);
  }

  /** At most once: after (key, timestamp) was accepted below the end of the next interval, no later message of
      any run with the same ten-byte prefix is accepted if it has the same timestamp, or one in the same or a
      neighbouring interval while the interval of `timestamp` is still in the window. */
  lemma NeverTwice(w: Window, key: Key, timestamp: UInt64, now: UInt32, events: seq<Event>, i: nat)
    requires w.lastSwitch <= now && Insert(w, key, timestamp, now).1
    requires timestamp < w.lastSwitch + 2 * SECONDS_PER_INTERVALL
    requires Legal(Insert(w, key, timestamp, now).0, now, events) && i < |events| && events[i].Message?
    ensures var v := Run(Insert(w, key, timestamp, now).0, events[..i]);
            var e := events[i];
            (&& e.key[..10] == key[..10]
             && (|| e.timestamp == timestamp
                 || (&& Near(w.lastSwitch, timestamp, e.timestamp)
                     && v.lastSwitch <= timestamp + SECONDS_PER_INTERVALL)))
            ==> !Accepts(v, e)
  {
    var u := Insert(w, key, timestamp, now).0;
    InsertAcceptsIff(w, key, timestamp, now);
    AcceptedIsGuarded(w, key, timestamp, now);
    LegalPrefix(u, now, events, i);
    GuardedRun(u, now, events[..i], IdOf(key), timestamp);
    RunKeepsPhase(u, now, events[..i]);
    var v, e := Run(u, events[..i]), events[i];
    IdIsPrefix(e.key, key);
    hide Insert, Run, Legal, Guarded, IdOf;
    if && e.key[..10] == key[..10]
       && (e.timestamp == timestamp || (Near(w.lastSwitch, timestamp, e.timestamp)
                                        && v.lastSwitch <= timestamp + SECONDS_PER_INTERVALL)) {
      GuardedRejects(v, w.lastSwitch, IdOf(key), timestamp, e.key, e.timestamp, e.now);
    }
  }

  /** The maintenance loop's job: while the clock is below the end of the next interval by more than the
      tolerance, every accepted timestamp is in the range that `NeverTwice` needs. */
  lemma MaintainedClockSuffices(w: Window, key: Key, timestamp: UInt64, now: UInt32)
    requires Insert(w, key, timestamp, now).1
    requires now + FUTURE_TOLERANCE < w.lastSwitch + 2 * SECONDS_PER_INTERVALL
    ensures timestamp < w.lastSwitch + 2 * SECONDS_PER_INTERVALL
  {
    InsertAcceptsIff(w, key, timestamp, now);
  }

  predicate AcceptedAfter(w: Window, now: UInt32, key: Key, timestamp: UInt64, events: seq<Event>, later: UInt32)
  {
    var last := Message(later, key, timestamp);
    Legal(w, now, events + [last]) && Accepts(Run(w, events), last)
  }

  /** Some legal run from `w` ends in accepting (key, timestamp). */
  ghost predicate CanAccept(w: Window, now: UInt32, key: Key, timestamp: UInt64)
  {
    exists events, later :: AcceptedAfter(w, now, key, timestamp, events, later)
  }

  lemma SwitchesThenMessage(w: Window, now: UInt32, t: UInt32, n: nat, last: Event)
    requires last.Message? && last.now == t && now <= t && 2 <= n <= 3
    requires w.lastSwitch + n * SECONDS_PER_INTERVALL <= t
    ensures var s := Switch(t);
            var events := if n == 2 then [s, s] else [s, s, s];
            && Run(w, events) == Window(w.lastSwitch + n * SECONDS_PER_INTERVALL,
                                        if n == 2 then w.next else {}, {}, {})
            && Legal(w, now, events + [last])
  {
    var s := Switch(t);
    var u := NextClock(w);
    var v := NextClock(u);
    assert [s, s, s][1..] == [s, s] && [s, s][1..] == [s] && [s][1..] == [];
    assert Run(u, [s]) == Run(v, []) && Run(v, [s]) == Run(NextClock(v), []);
    assert Run(u, [s, s]) == Run(v, [s]);
    assert [s, s] + [last] == [s, s, last] && [s, s, s] + [last] == [s, s, s, last];
    assert [s, s, s, last][1..] == [s, s, last] && [s, s, last][1..] == [s, last] && [s, last][1..] == [last];
    assert [last][1..] == [];
    assert Legal(v, t, [last]) && Legal(u, t, [s, last]);
    if n == 3 {
      assert Legal(NextClock(v), t, [last]) && Legal(v, t, [s, last]);
    }
  }

  /** The clock can be three intervals further and add its tolerance without wrapping round. */
  predicate HasRoom(w: Window)
  {
    w.lastSwitch + 3 * SECONDS_PER_INTERVALL + FUTURE_TOLERANCE < TWO_32
  }

  /** After two switches a timestamp beyond the window is looked up in two empty sets, after three any one is. */
  lemma LateClockReplays(w: Window, key: Key, timestamp: UInt64, now: UInt32)
    requires w.lastSwitch <= now && Insert(w, key, timestamp, now).1
    requires timestamp >= w.lastSwitch + 2 * SECONDS_PER_INTERVALL
    requires timestamp >= w.lastSwitch + 3 * SECONDS_PER_INTERVALL || HasRoom(w)
    ensures CanAccept(Insert(w, key, timestamp, now).0, now, key, timestamp)
  {
    var u := Insert(w, key, timestamp, now).0;
    InsertAcceptsIff(w, key, timestamp, now);
    var n := if timestamp >= w.lastSwitch + 3 * SECONDS_PER_INTERVALL then 2 else 3;
    var end := w.lastSwitch + n * SECONDS_PER_INTERVALL;
    var t: UInt32 := if now < end then end else now;
    var s := Switch(t);
    var events := if n == 2 then [s, s] else [s, s, s];
    SwitchesThenMessage(u, now, t, n, Message(t, key, timestamp));
    InsertAcceptsIff(Run(u, events), key, timestamp, t);
    assert AcceptedAfter(u, now, key, timestamp, events, t);
  }

  /** Such a run from a database just set up: the maintenance thread is late by more than three intervals, a message
      whose time is past the last set is accepted, and after three switches it is accepted again. */
  lemma ReplayFromFresh(key: Key)
    ensures var empty := Window(100, {}, {}, {});
            var (accepted, ok) := Insert(empty, key, 165, 200);
            var s := Switch(200);
            && ok
            && Legal(accepted, 200, [s, s, s] + [Message(200, key, 165)])
            && Accepts(Run(accepted, [s, s, s]), Message(200, key, 165))
  {
    var empty := Window(100, {}, {}, {});
    var s := Switch(200);
    InsertAcceptsIff(empty, key, 165, 200);
    var accepted := Insert(empty, key, 165, 200).0;
    SwitchesThenMessage(accepted, 200, 200, 3, Message(200, key, 165));
    InsertAcceptsIff(Run(accepted, [s, s, s]), key, 165, 200);
  }

  // ---------- the end of the 32-bit clock ----------

  /** The id is still in a set that a timestamp of the third interval after `start` is checked against, or that
      interval is over. */
  predicate Kept(w: Window, start: UInt64, id: Id, now: UInt32)
  {
    || (w.lastSwitch == start && id in Ids(w, Next))
    || (w.lastSwitch == start + SECONDS_PER_INTERVALL && id in Ids(w, Curr))
    || (w.lastSwitch == start + 2 * SECONDS_PER_INTERVALL && id in Ids(w, Prev))
    || now >= start + 3 * SECONDS_PER_INTERVALL
  }

  lemma {:induction false} KeptRun(w: Window, now: UInt32, events: seq<Event>, start: UInt32, id: Id, last: Event)
    requires last.Message? && Legal(w, now, events + [last]) && Kept(w, start, id, now)
    ensures Kept(Run(w, events), start, id, last.now)
    decreases |events|
  {
    if events == [] {
      assert ([] + [last])[0] == last;
    } else {
      var e := events[0];
      if e.Message? {
        InsertAcceptsIff(w, e.key, e.timestamp, e.now);
      }
      assert (events + [last])[0] == e && (events + [last])[1..] == events[1..] + [last];
      KeptRun(Step(w, e), e.now, events[1..], start, id, last);
    }
  }

  lemma EndOfClockRejects(w: Window, key: Key, timestamp: UInt64, now: UInt32, events: seq<Event>, later: UInt32)
    requires w.lastSwitch <= now && Insert(w, key, timestamp, now).1 && !HasRoom(w)
    requires 2 * SECONDS_PER_INTERVALL <= timestamp - w.lastSwitch < 3 * SECONDS_PER_INTERVALL
    requires Legal(Insert(w, key, timestamp, now).0, now, events + [Message(later, key, timestamp)])
    ensures !Accepts(Run(Insert(w, key, timestamp, now).0, events), Message(later, key, timestamp))
  {
    var u, last := Insert(w, key, timestamp, now).0, Message(later, key, timestamp);
    InsertAcceptsIff(w, key, timestamp, now);
    assert Next in Consulted(w, timestamp);
    assert Kept(u, w.lastSwitch, IdOf(key), now);
    KeptRun(u, now, events, w.lastSwitch, IdOf(key), last);
    var v := Run(u, events);
    InsertAcceptsIff(v, key, timestamp, later);
    assert later < w.lastSwitch + 3 * SECONDS_PER_INTERVALL ==> Curr in Consulted(v, timestamp);
  }

  /** An accepted message can be accepted again exactly when its timestamp was past the end of the next interval
      and, if less than one interval past it, the clock does not end before. The source leaves that to its
      maintenance thread and does not test it. */
  lemma OnceIff(w: Window, key: Key, timestamp: UInt64, now: UInt32)
    requires w.lastSwitch <= now && Insert(w, key, timestamp, now).1
    ensures CanAccept(Insert(w, key, timestamp, now).0, now, key, timestamp)
            <==> && timestamp >= w.lastSwitch + 2 * SECONDS_PER_INTERVALL
                 && (timestamp >= w.lastSwitch + 3 * SECONDS_PER_INTERVALL || HasRoom(w))
  {
    var u := Insert(w, key, timestamp, now).0;
    if timestamp < w.lastSwitch + 2 * SECONDS_PER_INTERVALL {
      forall events, later | AcceptedAfter(u, now, key, timestamp, events, later) ensures false {
        var all := events + [Message(later, key, timestamp)];
        assert all[..|events|] == events;
        NeverTwice(w, key, timestamp, now, all, |events|);
      }
    } else if timestamp < w.lastSwitch + 3 * SECONDS_PER_INTERVALL && !HasRoom(w) {
      forall events, later | AcceptedAfter(u, now, key, timestamp, events, later) ensures false {
        EndOfClockRejects(w, key, timestamp, now, events, later);
      }
    } else {
      LateClockReplays(w, key, timestamp, now);
    }
  }

  /** Before 30 s past the epoch the lower bound wraps round and every message is rejected. */
  lemma NothingAcceptedNearZero(w: Window, key: Key, timestamp: UInt64, now: UInt32)
    requires w.lastSwitch < SECONDS_PER_INTERVALL
    ensures Insert(w, key, timestamp, now) == (w, false)
  {
    assert Sub64(w.lastSwitch, SECONDS_PER_INTERVALL) > TWO_32;
  }

  // ---------- what is not rejected ----------

  predicate Holds(w: Window, slot: Slot, id: Id)
  {
    id in Ids(w, slot)
  }

  /** Every message of the run has another id. */
  predicate OthersOnly(events: seq<Event>, id: Id)
  {
    forall e :: e in events && e.Message? ==> IdOf(e.key) != id
  }

  function Switches(events: seq<Event>): nat
  {
    if events == [] then 0 else (if events[0].Switch? then 1 else 0) + Switches(events[1..])
  }

  /** Messages with other ids leave an id where it is; each switch moves it one set back, out of the last one. */
  lemma {:induction false} OthersShift(w: Window, events: seq<Event>, id: Id)
    requires OthersOnly(events, id)
    ensures var v, n := Run(w, events), Switches(events);
            && (Holds(v, Prev, id) <==> n <= 2 && Holds(w, if n == 0 then Prev else if n == 1 then Curr else Next, id))
            && (Holds(v, Curr, id) <==> n <= 1 && Holds(w, if n == 0 then Curr else Next, id))
            && (Holds(v, Next, id) <==> n == 0 && Holds(w, Next, id))
    decreases |events|
  {
    if events != [] {
      var e := events[0];
      assert e in events && forall f :: f in events[1..] ==> f in events;
      if e.Message? {
        InsertAcceptsIff(w, e.key, e.timestamp, e.now);
        assert forall s :: Ids(w, s) <= Ids(Step(w, e), s) <= Ids(w, s) + {IdOf(e.key)};
        assert forall s :: Holds(Step(w, e), s, id) <==> Holds(w, s, id);
      }
      OthersShift(Step(w, e), events[1..], id);
    }
  }

  /** A message whose prefix never came before is accepted exactly if its timestamp is at most 30 s older than the
      last switch and at most 5 s ahead of the clock, as far as neither of these two wraps round. */
  lemma UnseenIsAcceptedIff(start: UInt64, events: seq<Event>, key: Key, timestamp: UInt64, now: UInt32)
    requires OthersOnly(events, IdOf(key))
    ensures var w := Run(Window(start, {}, {}, {}), events);
            Insert(w, key, timestamp, now).1
            <==> && 30 <= w.lastSwitch <= timestamp + 30
                 && timestamp <= if now + 5 < TWO_32 then now + 5 else now + 5 - TWO_32
  {
    var empty := Window(start, {}, {}, {});
    OthersShift(empty, events, IdOf(key));
    var w := Run(empty, events);
    InsertAcceptsIff(w, key, timestamp, now);
    assert forall s :: !Holds(w, s, IdOf(key));
  }

  lemma AcceptedIsHeld(w: Window, key: Key, timestamp: UInt64, now: UInt32, slot: Slot)
    requires Insert(w, key, timestamp, now).1 && !Holds(w, slot, IdOf(key))
    ensures Holds(Insert(w, key, timestamp, now).0, slot, IdOf(key)) <==> slot in Consulted(w, timestamp)
  {
    InsertAcceptsIff(w, key, timestamp, now);
    hide Insert, IdOf, Consulted;
    assert slot in Consulted(w, timestamp) ==>
        Ids(Insert(w, key, timestamp, now).0, slot) == Ids(w, slot) + {IdOf(key)};
  }

  lemma ConsultedAre(w: Window, timestamp: UInt64)
    requires w.lastSwitch + SECONDS_PER_INTERVALL < TWO_64
    ensures var slots := Consulted(w, timestamp);
            && Curr in slots && (Prev in slots <==> timestamp < w.lastSwitch + SECONDS_PER_INTERVALL)
            && (Next in slots <==> timestamp >= w.lastSwitch)
  {
  }

  lemma OverlapIff(w: Window, slots: seq<Slot>, id: Id, held: seq<Slot>, n: nat)
    requires Curr in held && Curr in slots
    requires Holds(w, Prev, id) <==> n <= 2 && (if n == 0 then Prev else if n == 1 then Curr else Next) in held
    requires Holds(w, Curr, id) <==> n <= 1 && (if n == 0 then Curr else Next) in held
    requires Holds(w, Next, id) <==> n == 0 && Next in held
    ensures (forall s :: s in slots ==> id !in Ids(w, s))
            <==> n > (if Next in held then 1 else 0) + (if Prev in slots then 1 else 0)
  {
    assert forall s :: id in Ids(w, s) <==> Holds(w, s, id);
    hide Holds, Ids;
    if n <= (if Next in held then 1 else 0) + (if Prev in slots then 1 else 0) {
      assert Holds(w, Curr, id) || (Prev in slots && Holds(w, Prev, id));
    }
  }

  /** How long an accepted prefix is remembered, exactly: it is accepted again once the clock was switched often enough,
      three times at most, and less often if the first timestamp lay before the last switch or if the second one lies
      beyond the current interval. */
  lemma SecondIsAcceptedIff(w: Window, key: Key, timestamp: UInt64, now: UInt32, events: seq<Event>, second: Key,
                            other: UInt64, later: UInt32)
    requires Insert(w, key, timestamp, now).1 && (forall s :: !Holds(w, s, IdOf(key)))
    requires w.lastSwitch <= now && Legal(Insert(w, key, timestamp, now).0, now, events)
    requires OthersOnly(events, IdOf(key)) && second[..10] == key[..10]
    ensures var v := Run(Insert(w, key, timestamp, now).0, events);
            Insert(v, second, other, later).1
            <==> && InWindow(v, other, later)
                 && Switches(events) > (if timestamp >= w.lastSwitch then 1 else 0)
                                       + (if other < v.lastSwitch + SECONDS_PER_INTERVALL then 1 else 0)
  {
    var u := Insert(w, key, timestamp, now).0;
    InsertAcceptsIff(w, key, timestamp, now);
    forall slot ensures Holds(u, slot, IdOf(key)) <==> slot in Consulted(w, timestamp) {
      AcceptedIsHeld(w, key, timestamp, now, slot);
    }
    IdIsPrefix(second, key);
    OthersShift(u, events, IdOf(key));
    RunKeepsPhase(u, now, events);
    var v := Run(u, events);
    InsertAcceptsIff(v, second, other, later);
    ConsultedAre(w, timestamp);
    ConsultedAre(v, other);
    hide Insert, Run, IdOf, InWindow, OthersOnly, Switches, Holds, Legal, Consulted;
    OverlapIff(v, Consulted(v, other), IdOf(key), Consulted(w, timestamp), Switches(events));
  }
}
