/** How control messages travel in mix packets: a length in front, fragments of one packet each, encryption with a
    counter that sender and receiver keep in step, and reassembly channel by channel. */
module ControlFraming {
  import opened MachineTypes
  import opened Sealing

  const DATA_SIZE := 992
  const MAX_MESSAGE := 0xFFFF
  const BUFFER_SIZE := 0xFFFF + 32

  /** Decryption as the receiver uses it; it does not look at the result of the check of the tag. */
  type Decryptor = (Nonce, seq<Byte>) -> seq<Byte>

  /** Sealing and opening under the same key. */
  ghost predicate Inverse(enc: Sealer, dec: Decryptor)
  {
    Seals(enc) && forall n, p :: dec(n, enc(n, p)) == p
  }

  /** The channels a receiver knows, those of them that are encrypted, and the key if there is one. */
  datatype Setup = Setup(registered: set<nat>, encrypted: set<nat>, key: Option<Decryptor>)

  /** The used part of a packet's data area. */
  type Payload = s: seq<Byte> | |s| <= DATA_SIZE witness []

  datatype Fragment = Fragment(id: nat, payload: Payload)

  // ---------- framing and fragments ----------

  function Frame(length: nat, body: seq<Byte>): (f: seq<Byte>)
    requires length <= MAX_MESSAGE
    ensures |f| == 2 + |body|
  {
    [length / 256, length % 256] + body
  }

  /** The length field is the body's announced length in network byte order. */
  lemma FrameIsNumber(length: nat, body: seq<Byte>)
    requires length <= MAX_MESSAGE
    ensures Number(Frame(length, body)[..2]) == length && Frame(length, body)[2..] == body
  {
    var f := Frame(length, body);
    NumberSnoc(f, 0);
    NumberSnoc(f, 1);
    assert Number(f[..0]) == 0;
  }

  function Chunks(bytes: seq<Byte>): (c: seq<Payload>)
    ensures forall i :: 0 <= i < |c| ==> 0 < |c[i]|
  {
    if bytes == [] then []
    else if |bytes| <= DATA_SIZE then [bytes]
    else [bytes[..DATA_SIZE]] + Chunks(bytes[DATA_SIZE..])
  }

  function Concat(chunks: seq<Payload>): seq<Byte>
  {
    if chunks == [] then [] else chunks[0] + Concat(chunks[1..])
  }

  /** Nothing is lost or added, and every fragment but the last is full. */
  lemma {:induction false} ChunksAreExact(bytes: seq<Byte>)
    ensures var c := Chunks(bytes);
            && Concat(c) == bytes
            && (forall i :: 0 <= i < |c| - 1 ==> |c[i]| == DATA_SIZE)
            && |c| == (|bytes| + DATA_SIZE - 1) / DATA_SIZE
  {
    if |bytes| > DATA_SIZE {
      var rest := bytes[DATA_SIZE..];
      ChunksAreExact(rest);
      assert Chunks(bytes)[1..] == Chunks(rest);
      assert forall i :: 1 <= i < |Chunks(bytes)| ==> Chunks(bytes)[i] == Chunks(rest)[i - 1];
      assert bytes == bytes[..DATA_SIZE] + rest;
    } else if bytes != [] {
      assert Chunks(bytes)[1..] == [];
    }
  }

  // ---------- the receiver ----------

  /** What a channel has of a message so far, and how many bytes are missing; the counter is unsigned. */
  datatype Partial = Partial(buffer: seq<Byte>, left: UInt32)

  const IDLE := Partial([], 0)

  /** The receiver's channels and the number of messages it decrypted. */
  datatype Receiver = Receiver(channels: map<nat, Partial>, decrypted: nat)

  function Overhead(s: Setup, id: nat): nat
  {
    if id in s.encrypted && s.key.Some? then TAG_SIZE else 0
  }

  function Announced(s: Setup, id: nat, payload: Payload): UInt32
    requires |payload| >= 2
  {
    var high: int, low: int := payload[0], payload[1];
    high * 256 + low + Overhead(s, id)
  }

  /** Too short for the length field that a message begins with. */
  predicate Unreadable(p: Partial, payload: Payload)
  {
    p.left == 0 && |payload| < 2
  }

  function Extend(s: Setup, p: Partial, id: nat, payload: Payload): Partial
    requires !Unreadable(p, payload)
  {
    if p.left == 0 then Partial(payload[2..], Sub32(Announced(s, id, payload), |payload| - 2))
    else
      var n := if p.left < |payload| then p.left else |payload|;
      Partial(p.buffer + payload[..n], p.left - n)
  }

  function Open(s: Setup, id: nat, number: nat, body: seq<Byte>): seq<Byte>
  {
    if id in s.encrypted && s.key.Some? then s.key.value(CounterNonce(number), body) else body
  }

  function Consumes(s: Setup, id: nat): nat
  {
    if id in s.encrypted && s.key.Some? then 1 else 0
  }

  /** One packet; a message comes out when it is complete. */
  function Receive(s: Setup, r: Receiver, f: Fragment): (Receiver, Option<seq<Byte>>)
  {
    if f.id !in r.channels || Unreadable(r.channels[f.id], f.payload) then (r, None)
    else
      var p := Extend(s, r.channels[f.id], f.id, f.payload);
      if p.left > 0 then (r.(channels := r.channels[f.id := p]), None)
      else
        (Receiver(r.channels[f.id := IDLE], r.decrypted + Consumes(s, f.id)),
         Some(Open(s, f.id, r.decrypted, p.buffer)))
  }

  datatype Delivery = Delivery(id: nat, text: seq<Byte>)

  function ReceiveAll(s: Setup, r: Receiver, fs: seq<Fragment>): (Receiver, seq<Delivery>)
    decreases |fs|
  {
    if fs == [] then (r, [])
    else
      var (r1, out) := Receive(s, r, fs[0]);
      var (r2, more) := ReceiveAll(s, r1, fs[1..]);
      (r2, (if out.Some? then [Delivery(fs[0].id, out.value)] else []) + more)
  }

  /** Fragments leave the channels alone that they do not belong to: over any fragments, a channel for which there is
      none among them has what it had, no channel comes or goes, and fragments for unknown channels do nothing. */
  lemma {:induction false} ChannelsAreApart(s: Setup, r: Receiver, fs: seq<Fragment>, id: nat)
    requires forall i :: 0 <= i < |fs| ==> fs[i].id != id
    ensures var q := ReceiveAll(s, r, fs).0;
            && q.channels.Keys == r.channels.Keys
            && (id in r.channels ==> q.channels[id] == r.channels[id])
            && ((forall i :: 0 <= i < |fs| ==> fs[i].id !in r.channels) ==> ReceiveAll(s, r, fs) == (r, []))
    decreases |fs|
  {
    if fs != [] {
      var rest := fs[1..];
      assert forall i :: 0 <= i < |rest| ==> rest[i] == fs[i + 1];
      var q := Receive(s, r, fs[0]).0;
      assert q.channels.Keys == r.channels.Keys && (id in r.channels ==> q.channels[id] == r.channels[id]);
      ChannelsAreApart(s, q, rest, id);
      var more := ReceiveAll(s, q, rest).1;
      assert [] + more == more;
    }
  }

  // ---------- the receiver's buffer ----------

  /** What is there and what is missing fit the longest message with its tag. */
  predicate Fits(p: Partial)
  {
    |p.buffer| + p.left <= MAX_MESSAGE + TAG_SIZE
  }

  /** A fragment that begins a message holds no more bytes than it announces. */
  predicate Keeps(s: Setup, p: Partial, f: Fragment)
  {
    p.left == 0 && |f.payload| >= 2 ==> |f.payload| - 2 <= Announced(s, f.id, f.payload)
  }

  predicate AllKeep(s: Setup, r: Receiver, fs: seq<Fragment>)
    decreases |fs|
  {
    fs == [] || (&& (fs[0].id in r.channels ==> Keeps(s, r.channels[fs[0].id], fs[0]))
                 && AllKeep(s, Receive(s, r, fs[0]).0, fs[1..]))
  }

  predicate AllFit(r: Receiver)
  {
    forall id :: id in r.channels ==> Fits(r.channels[id])
  }

  /** Every copy into a channel's buffer stays inside it. */
  predicate CopiesFit(s: Setup, r: Receiver, fs: seq<Fragment>)
    decreases |fs|
  {
    fs == []
    || var f := fs[0];
       && (f.id in r.channels && !Unreadable(r.channels[f.id], f.payload) ==>
             |Extend(s, r.channels[f.id], f.id, f.payload).buffer| <= BUFFER_SIZE)
       && CopiesFit(s, Receive(s, r, f).0, fs[1..])
  }

  /** So no copy leaves the buffer, over all fragments of all channels. */
  lemma {:induction false} BuffersSuffice(s: Setup, r: Receiver, fs: seq<Fragment>)
    requires AllFit(r) && AllKeep(s, r, fs)
    ensures AllFit(ReceiveAll(s, r, fs).0) && CopiesFit(s, r, fs)
    decreases |fs|
  {
    if fs != [] {
      var r1 := Receive(s, r, fs[0]).0;
      assert AllFit(r1);
      BuffersSuffice(s, r1, fs[1..]);
    }
  }

  /** The message after `n` more full fragments, as long as bytes are missing. */
  function Fed(s: Setup, p: Partial, id: nat, full: Payload, n: nat): Partial
    requires |full| == DATA_SIZE
    decreases n
  {
    if n == 0 || p.left == 0 then p else Fed(s, Extend(s, p, id, full), id, full, n - 1)
  }

  lemma {:induction false} FedFits(s: Setup, p: Partial, id: nat, full: Payload, n: nat)
    requires |full| == DATA_SIZE && Fits(p)
    ensures Fits(Fed(s, p, id, full, n))
    decreases n
  {
    if n > 0 && p.left > 0 {
      FedFits(s, Extend(s, p, id, full), id, full, n - 1);
    }
  }

  lemma {:induction false} FedGrows(s: Setup, p: Partial, id: nat, full: Payload, n: nat)
    requires |full| == DATA_SIZE && p.left > n * DATA_SIZE
    ensures |Fed(s, p, id, full, n).buffer| == |p.buffer| + n * DATA_SIZE
    decreases n
  {
    if n > 0 {
      FedGrows(s, Extend(s, p, id, full), id, full, n - 1);
    }
  }

  /** The condition is exact: with more bytes than announced the counter wraps round, and the buffer does not suffice
      for every number of fragments that may follow. */
  lemma BufferSufficesIff(s: Setup, id: nat, first: Payload, full: Payload)
    requires |first| >= 2 && |full| == DATA_SIZE
    ensures (forall n: nat {:trigger Fed(s, Extend(s, IDLE, id, first), id, full, n)} ::
               |Fed(s, Extend(s, IDLE, id, first), id, full, n).buffer| <= BUFFER_SIZE)
            <==> |first| - 2 <= Announced(s, id, first)
  {
    var p := Extend(s, IDLE, id, first);
    if |first| - 2 <= Announced(s, id, first) {
      forall n: nat ensures |Fed(s, p, id, full, n).buffer| <= BUFFER_SIZE {
        FedFits(s, p, id, full, n);
      }
    } else {
      FedGrows(s, p, id, full, 67);
      assert |Fed(s, p, id, full, 67).buffer| > BUFFER_SIZE;
    }
  }

  // ---------- the sender ----------

  /** A message on its way: `number` is the value of the encryption counter it was sealed with. */
  datatype Message = Message(id: nat, number: nat, text: seq<Byte>)

  function BodyOf(s: Setup, enc: Sealer, m: Message): seq<Byte>
  {
    if m.id in s.encrypted && s.key.Some? then enc(CounterNonce(m.number), m.text) else m.text
  }

  predicate Sendable(s: Setup, m: Message)
  {
    m.id in s.registered && |m.text| <= MAX_MESSAGE
  }

  function Tagged(id: nat, chunks: seq<Payload>): (fs: seq<Fragment>)
    ensures |fs| == |chunks|
  {
    seq(|chunks|, i requires 0 <= i < |chunks| => Fragment(id, chunks[i]))
  }

  /** The packets of one message, in the order in which `sendMessages` queues them. */
  function Fragments(s: Setup, enc: Sealer, m: Message): seq<Fragment>
    requires |m.text| <= MAX_MESSAGE
  {
    Tagged(m.id, Chunks(Frame(|m.text|, BodyOf(s, enc, m))))
  }

  function Wire(s: Setup, enc: Sealer, ms: seq<Message>): seq<Fragment>
    requires forall i :: 0 <= i < |ms| ==> Sendable(s, ms[i])
  {
    if ms == [] then []
    else
      assert Sendable(s, ms[0]);
      Fragments(s, enc, ms[0]) + Wire(s, enc, ms[1..])
  }

  /** The messages were sealed in the order in which they were queued. */
  predicate InStep(s: Setup, ms: seq<Message>, number: nat)
  {
    ms == [] || (&& (Consumes(s, ms[0].id) == 1 ==> ms[0].number == number)
                 && InStep(s, ms[1..], number + Consumes(s, ms[0].id)))
  }

  function Texts(ms: seq<Message>): seq<Delivery>
  {
    if ms == [] then [] else [Delivery(ms[0].id, ms[0].text)] + Texts(ms[1..])
  }

  // ---------- the round trip ----------

  lemma {:induction false} ReceiveAllConcat(s: Setup, r: Receiver, fs: seq<Fragment>, gs: seq<Fragment>)
    ensures var (r1, out1) := ReceiveAll(s, r, fs);
            var (r2, out2) := ReceiveAll(s, r1, gs);
            ReceiveAll(s, r, fs + gs) == (r2, out1 + out2)
    decreases |fs|
  {
    if fs == [] {
      assert [] + gs == gs;
      var out := ReceiveAll(s, r, gs).1;
      assert [] + out == out;
    } else {
      var (r0, out) := Receive(s, r, fs[0]);
      ReceiveAllConcat(s, r0, fs[1..], gs);
      assert (fs + gs)[0] == fs[0] && (fs + gs)[1..] == fs[1..] + gs;
      var (r1, more) := ReceiveAll(s, r0, fs[1..]);
      var first := if out.Some? then [Delivery(fs[0].id, out.value)] else [];
      assert first + (more + ReceiveAll(s, r1, gs).1) == (first + more) + ReceiveAll(s, r1, gs).1;
    }
  }

  lemma ReceiveOne(s: Setup, r: Receiver, fs: seq<Fragment>)
    requires fs != []
    ensures var (r1, out) := Receive(s, r, fs[0]);
            var (r2, more) := ReceiveAll(s, r1, fs[1..]);
            && (out.None? ==> ReceiveAll(s, r, fs) == (r2, more))
            && (out.Some? && more == [] ==> ReceiveAll(s, r, fs) == (r2, [Delivery(fs[0].id, out.value)]))
  {
    var (r1, out) := Receive(s, r, fs[0]);
    var more := ReceiveAll(s, r1, fs[1..]).1;
    assert [] + more == more;
    if out.Some? && more == [] {
      var d := Delivery(fs[0].id, out.value);
      assert [d] + more == [d];
    }
  }

  lemma TaggedStep(id: nat, chunks: seq<Payload>)
    requires chunks != []
    ensures Tagged(id, chunks)[0] == Fragment(id, chunks[0]) && Tagged(id, chunks)[1..] == Tagged(id, chunks[1..])
  {
  }

  /** The rest of a message arrives. */
  lemma {:induction false} ReceiveRest(s: Setup, r: Receiver, id: nat, rest: seq<Byte>)
    requires id in r.channels && r.channels[id].left == |rest| > 0
    ensures var fs, p := Tagged(id, Chunks(rest)), r.channels[id];
            ReceiveAll(s, r, fs)
               == (Receiver(r.channels[id := IDLE], r.decrypted + Consumes(s, id)),
                   [Delivery(id, Open(s, id, r.decrypted, p.buffer + rest))])
    decreases |rest|
  {
    var chunks, fs := Chunks(rest), Tagged(id, Chunks(rest));
    TaggedStep(id, chunks);
    var p, first := r.channels[id], chunks[0];
    assert first[..|first|] == first;
    var (r1, out) := Receive(s, r, fs[0]);
    if |rest| <= DATA_SIZE {
      assert chunks[1..] == [] && fs[1..] == [];
    } else {
      var more := rest[DATA_SIZE..];
      assert chunks[1..] == Chunks(more);
      assert r1.channels[id] == Partial(p.buffer + first, |more|);
      ReceiveRest(s, r1, id, more);
      assert (p.buffer + first) + more == p.buffer + rest;
      assert r1.channels[id := IDLE] == r.channels[id := IDLE];
    }
    ReceiveOne(s, r, fs);
  }

  /** One whole message arrives at an idle channel. */
  lemma ReceiveFrame(s: Setup, r: Receiver, id: nat, length: nat, body: seq<Byte>)
    requires id in r.channels && r.channels[id] == IDLE
    requires length <= MAX_MESSAGE && |body| == length + Overhead(s, id)
    ensures var fs := Tagged(id, Chunks(Frame(length, body)));
            ReceiveAll(s, r, fs)
               == (Receiver(r.channels, r.decrypted + Consumes(s, id)), [Delivery(id, Open(s, id, r.decrypted, body))])
  {
    var frame := Frame(length, body);
    var chunks, fs := Chunks(frame), Tagged(id, Chunks(frame));
    TaggedStep(id, chunks);
    var first := chunks[0];
    assert first[0] == length / 256 && first[1] == length % 256;
    assert Announced(s, id, first) == |body|;
    var (r1, out) := Receive(s, r, fs[0]);
    assert r.channels[id := IDLE] == r.channels;
    if |frame| <= DATA_SIZE {
      assert first[2..] == body;
      assert chunks[1..] == [] && fs[1..] == [];
    } else {
      var rest := frame[DATA_SIZE..];
      assert chunks[1..] == Chunks(rest);
      assert first[2..] + rest == body;
      ReceiveRest(s, r1, id, rest);
      assert r1.channels[id := IDLE] == r.channels;
    }
    ReceiveOne(s, r, fs);
  }

  predicate AllIdle(s: Setup, r: Receiver)
  {
    forall id :: id in s.registered ==> id in r.channels && r.channels[id] == IDLE
  }

  lemma OpenUndoes(s: Setup, enc: Sealer, m: Message, number: nat)
    requires s.key.Some? ==> Inverse(enc, s.key.value)
    requires Consumes(s, m.id) == 1 ==> m.number == number
    ensures |BodyOf(s, enc, m)| == |m.text| + Overhead(s, m.id)
    ensures Open(s, m.id, number, BodyOf(s, enc, m)) == m.text
  {
  }

  /** Whatever messages are sent over whatever channels, plain or encrypted: if they are queued in the order in
      which they were sealed, the receiver delivers exactly them, in order, and is idle again. */
  lemma {:induction false} MessagesArrive(s: Setup, enc: Sealer, r: Receiver, ms: seq<Message>)
    requires s.key.Some? ==> Inverse(enc, s.key.value)
    requires forall i :: 0 <= i < |ms| ==> Sendable(s, ms[i])
    requires AllIdle(s, r) && InStep(s, ms, r.decrypted)
    ensures var (r2, out) := ReceiveAll(s, r, Wire(s, enc, ms));
            out == Texts(ms) && r2.channels == r.channels
    decreases |ms|
  {
    hide Receive, Extend, Open, BodyOf, Tagged, Chunks, Frame;
    if ms != [] {
      var m := ms[0];
      assert Sendable(s, m);
      OpenUndoes(s, enc, m, r.decrypted);
      ReceiveFrame(s, r, m.id, |m.text|, BodyOf(s, enc, m));
      var r1 := Receiver(r.channels, r.decrypted + Consumes(s, m.id));
      MessagesArrive(s, enc, r1, ms[1..]);
      ReceiveAllConcat(s, r, Fragments(s, enc, m), Wire(s, enc, ms[1..]));
    }
  }

  // ---------- counters in step ----------

  /** The numbers of the messages that the receiver decrypts, in the order of arrival. */
  function Numbers(s: Setup, ms: seq<Message>): seq<nat>
  {
    if ms == [] then []
    else (if Consumes(s, ms[0].id) == 1 then [ms[0].number] else []) + Numbers(s, ms[1..])
  }

  predicate Consecutive(numbers: seq<nat>, first: nat)
  {
    forall i :: 0 <= i < |numbers| ==> numbers[i] == first + i
  }

  lemma ConsecutiveCons(n: nat, more: seq<nat>, first: nat)
    ensures Consecutive([n] + more, first) <==> n == first && Consecutive(more, first + 1)
  {
    var all := [n] + more;
    assert all[0] == n && forall i :: 0 <= i < |more| ==> more[i] == all[i + 1];
    if Consecutive(all, first) {
      forall i | 0 <= i < |more| ensures more[i] == first + 1 + i {
        assert all[i + 1] == first + (i + 1);
      }
    }
  }

  lemma {:induction false} InStepIffConsecutive(s: Setup, ms: seq<Message>, number: nat)
    ensures InStep(s, ms, number) <==> Consecutive(Numbers(s, ms), number)
    decreases |ms|
  {
    if ms != [] {
      InStepIffConsecutive(s, ms[1..], number + Consumes(s, ms[0].id));
      hide Consecutive;
      if Consumes(s, ms[0].id) == 1 {
        ConsecutiveCons(ms[0].number, Numbers(s, ms[1..]), number);
      } else {
        assert Numbers(s, ms) == Numbers(s, ms[1..]);
      }
    }
  }

  lemma {:induction false} NumbersAreFromMessages(s: Setup, ms: seq<Message>)
    requires forall i :: 0 <= i < |ms| ==> ms[i].number < TWO_32
    ensures forall i :: 0 <= i < |Numbers(s, ms)| ==> Numbers(s, ms)[i] < TWO_32
  {
    if ms != [] {
      NumbersAreFromMessages(s, ms[1..]);
    }
  }

  /** For fewer than 2^32 messages every message is opened with the nonce it was sealed with exactly when the
      messages were queued in the order in which they were sealed. */
  lemma InStepIffNoncesMatch(s: Setup, ms: seq<Message>, number: nat)
    requires number + |Numbers(s, ms)| <= TWO_32
    requires forall i :: 0 <= i < |ms| ==> ms[i].number < TWO_32
    ensures InStep(s, ms, number)
            <==> forall i :: 0 <= i < |Numbers(s, ms)| ==> CounterNonce(Numbers(s, ms)[i]) == CounterNonce(number + i)
  {
    hide CounterNonce, Numbers;
    InStepIffConsecutive(s, ms, number);
    NumbersAreFromMessages(s, ms);
    var n := Numbers(s, ms);
    forall i | 0 <= i < |n| ensures CounterNonce(n[i]) == CounterNonce(number + i) <==> n[i] == number + i {
      CounterNonceEqualIff(n[i], number + i);
    }
  }
}
