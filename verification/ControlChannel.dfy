/** The control channels' code over buffers: the dispatcher that cuts messages into packets and keeps the two
    encryption counters, and a channel that puts received fragments together. */
module ControlChannel {
  import opened ControlFraming
  import opened MachineTypes
  import opened Sealing

  type Packet = p: RawPacket | |p.data| == DATA_SIZE && p.flags <= DATA_SIZE
    witness RawPacket(0, 0, seq(DATA_SIZE, _ => 0))

  datatype RawPacket = RawPacket(channel: nat, flags: nat, data: seq<Byte>)

  function FragmentOf(p: Packet): Fragment
  {
    Fragment(p.channel, p.data[..p.flags])
  }

  /** The queued packets of a message; `buffer` is the packet's data area before, of which a short last fragment
      leaves the end. */
  function Packets(id: nat, bytes: seq<Byte>, buffer: seq<Byte>): seq<Packet>
    requires |buffer| == DATA_SIZE
    decreases |bytes|
  {
    if bytes == [] then []
    else
      var n := if |bytes| > DATA_SIZE then DATA_SIZE else |bytes|;
      var data := bytes[..n] + buffer[n..];
      [RawPacket(id, n, data)] + Packets(id, bytes[n..], data)
  }

  /** The payloads are the fragments of the message, and nothing but zeros and bytes of this very message is in the
      data areas. */
  lemma {:induction false} PacketsCarryFragments(id: nat, bytes: seq<Byte>, buffer: seq<Byte>)
    requires |buffer| == DATA_SIZE
    ensures var ps := Packets(id, bytes, buffer);
            && |ps| == |Chunks(bytes)|
            && (forall i :: 0 <= i < |ps| ==> FragmentOf(ps[i]) == Tagged(id, Chunks(bytes))[i])
            && (forall i, j :: 0 <= i < |ps| && 0 <= j < DATA_SIZE ==>
                  ps[i].data[j] in bytes || ps[i].data[j] in buffer)
    decreases |bytes|
  {
    if bytes != [] {
      var n := if |bytes| > DATA_SIZE then DATA_SIZE else |bytes|;
      var data, ps, rest := bytes[..n] + buffer[n..], Packets(id, bytes, buffer), bytes[n..];
      PacketsCarryFragments(id, rest, data);
      assert |bytes| <= DATA_SIZE ==> bytes[..n] == bytes && rest == [];
      assert Chunks(bytes) == [bytes[..n]] + Chunks(rest);
      assert data[..n] == bytes[..n];
      assert forall j :: 0 <= j < DATA_SIZE ==> data[j] in bytes || data[j] in buffer;
      assert forall b :: b in rest ==> b in bytes;
    }
  }

  /** What `SendXmlMessage` queues is the message's part of the wire. */
  lemma QueuedIsWire(s: Setup, enc: Sealer, m: Message)
    requires |m.text| <= MAX_MESSAGE
    ensures var ps := Packets(m.id, Frame(|m.text|, BodyOf(s, enc, m)), seq(DATA_SIZE, _ => 0));
            && |ps| == |Fragments(s, enc, m)|
            && forall i :: 0 <= i < |ps| ==> FragmentOf(ps[i]) == Fragments(s, enc, m)[i]
  {
    PacketsCarryFragments(m.id, Frame(|m.text|, BodyOf(s, enc, m)), seq(DATA_SIZE, _ => 0));
  }

  class Dispatcher {
    const enc: Option<Sealer>
    const dec: Option<Decryptor>
    var sendQueue: seq<Packet>
    const packetData: array<Byte>
    var encMsgCounter: UInt32
    var decMsgCounter: UInt32

    ghost predicate Valid()
    {
      packetData.Length == DATA_SIZE && (enc.Some? <==> dec.Some?) && (enc.Some? ==> Seals(enc.value))
    }

    constructor (enc: Option<Sealer>, dec: Option<Decryptor>)
      requires enc.Some? <==> dec.Some?
      requires enc.Some? ==> Seals(enc.value)
      ensures Valid() && fresh(packetData) && this.enc == enc && this.dec == dec
      ensures sendQueue == [] && encMsgCounter == 0 && decMsgCounter == 0
    {
      this.enc, this.dec := enc, dec;
      sendQueue, encMsgCounter, decMsgCounter := [], 0, 0;
      packetData := new Byte[DATA_SIZE](_ => 0);
    }

    /** Seal with the next nonce; without a key the message is copied. */
    method EncryptMessage(plain: seq<Byte>) returns (out: seq<Byte>)
      requires Valid()
      modifies this`encMsgCounter
      ensures out == if enc.Some? then enc.value(CounterNonce(old(encMsgCounter)), plain) else plain
      ensures encMsgCounter == if enc.Some? then Add32(old(encMsgCounter), 1) else old(encMsgCounter)
    {
      if enc.Some? {
        var nonce := CounterNonce(encMsgCounter);
        encMsgCounter := Add32(encMsgCounter, 1);
        return enc.value(nonce, plain);
      }
      return plain;
    }

    method DecryptMessage(sealed: seq<Byte>) returns (out: seq<Byte>)
      requires Valid()
      modifies this`decMsgCounter
      ensures out == if dec.Some? then dec.value(CounterNonce(old(decMsgCounter)), sealed) else sealed
      ensures decMsgCounter == if dec.Some? then Add32(old(decMsgCounter), 1) else old(decMsgCounter)
    {
      if dec.Some? {
        var nonce := CounterNonce(decMsgCounter);
        decMsgCounter := Add32(decMsgCounter, 1);
        return dec.value(nonce, sealed);
      }
      return sealed;
    }

    /** Cut a message into packets and queue them. */
    method SendMessages(id: nat, msg: seq<Byte>)
      requires Valid()
      modifies this`sendQueue, packetData
      ensures sendQueue == old(sendQueue) + Packets(id, msg, seq(DATA_SIZE, _ => 0))
    {
      forall i | 0 <= i < DATA_SIZE {
        packetData[i] := 0;
      }
      assert packetData[..] == seq(DATA_SIZE, _ => 0);
      var aktIndex, msglen := 0, |msg|;
      while msglen > 0
        invariant aktIndex + msglen == |msg| && 0 <= aktIndex <= |msg|
        invariant sendQueue + Packets(id, msg[aktIndex..], packetData[..])
                  == old(sendQueue) + Packets(id, msg, seq(DATA_SIZE, _ => 0))
      {
        var flags := if msglen > DATA_SIZE then DATA_SIZE else msglen;
        ghost var before, rest := packetData[..], msg[aktIndex..];
        forall i | 0 <= i < flags {
          packetData[i] := msg[aktIndex + i];
        }
        assert packetData[..] == rest[..flags] + before[flags..];
        var entry: Packet := RawPacket(id, flags, packetData[..]);
        assert rest[flags..] == msg[aktIndex + flags..];
        assert Packets(id, rest, before) == [entry] + Packets(id, msg[aktIndex + flags..], packetData[..]);
        sendQueue := sendQueue + [entry];
        aktIndex := aktIndex + flags;
        msglen := msglen - flags;
      }
    }

    /** Send a message over a channel of this dispatcher; a message too long for its length field is refused. */
    method SendXmlMessage(id: nat, encrypted: bool, msg: seq<Byte>) returns (ok: bool)
      requires Valid()
      modifies this`sendQueue, this`encMsgCounter, packetData
      ensures ok <==> |msg| <= MAX_MESSAGE
      ensures !ok ==> sendQueue == old(sendQueue) && encMsgCounter == old(encMsgCounter)
      ensures ok ==>
                var sealed := if encrypted && enc.Some? then enc.value(CounterNonce(old(encMsgCounter)), msg) else msg;
                sendQueue == old(sendQueue) + Packets(id, Frame(|msg|, sealed), seq(DATA_SIZE, _ => 0))
      ensures ok ==>
                encMsgCounter == if encrypted && enc.Some? then Add32(old(encMsgCounter), 1) else old(encMsgCounter)
    {
      if |msg| > MAX_MESSAGE {
        return false;
      }
      var body := msg;
      if encrypted {
        body := EncryptMessage(msg);
      }
      var frame := [|msg| / 256, |msg| % 256] + body;
      SendMessages(id, frame);
      return true;
    }
  }

  class SyncControlChannel {
    const id: nat
    const encrypted: bool
    const dispatcher: Dispatcher
    const msgBuff: array<Byte>
    var aktIndex: nat
    var msgBytesLeft: UInt32

    ghost predicate Valid()
      reads this
    {
      && dispatcher.Valid()
      && msgBuff.Length == BUFFER_SIZE && aktIndex <= BUFFER_SIZE
      && msgBuff != dispatcher.packetData
    }

    ghost function Abs(): Partial
      reads this, msgBuff
      requires Valid()
    {
      Partial(if msgBytesLeft == 0 then [] else msgBuff[..aktIndex], msgBytesLeft)
    }

    /** The channel's part of a receiver's setup. */
    ghost function Config(): Setup
    {
      Setup({id}, if encrypted then {id} else {}, dispatcher.dec)
    }

    constructor (id: nat, encrypted: bool, dispatcher: Dispatcher)
      requires dispatcher.Valid()
      ensures Valid() && fresh(msgBuff) && Abs() == IDLE
      ensures this.id == id && this.encrypted == encrypted && this.dispatcher == dispatcher
    {
      this.id, this.encrypted, this.dispatcher := id, encrypted, dispatcher;
      msgBuff := new Byte[BUFFER_SIZE](_ => 0);
      aktIndex, msgBytesLeft := 0, 0;
    }

    method CopyInto(at: nat, bytes: seq<Byte>)
      requires at + |bytes| <= msgBuff.Length
      modifies msgBuff
      ensures msgBuff[..at + |bytes|] == old(msgBuff[..at]) + bytes
    {
      forall i | 0 <= i < |bytes| {
        msgBuff[at + i] := bytes[i];
      }
    }

    /** Put a fragment behind the others; deliver the message when it is complete. `BuffersSuffice` says when the
        buffer suffices. */
    method ProccessMessage(msg: Payload) returns (ok: bool, text: Option<seq<Byte>>)
      requires Valid()
      requires msgBytesLeft > 0 ==> |Extend(Config(), Abs(), id, msg).buffer| <= BUFFER_SIZE
      modifies this, msgBuff, dispatcher`decMsgCounter
      ensures Valid()
      ensures ok <==> !Unreadable(old(Abs()), msg)
      ensures !ok ==> Abs() == old(Abs()) && text == None && dispatcher.decMsgCounter == old(dispatcher.decMsgCounter)
      ensures ok ==>
                var p := Extend(Config(), old(Abs()), id, msg);
                && Abs() == (if p.left == 0 then IDLE else p)
                && text == (if p.left == 0 then Some(Open(Config(), id, old(dispatcher.decMsgCounter), p.buffer))
                            else None)
                && dispatcher.decMsgCounter
                   == (if p.left == 0 && Consumes(Config(), id) == 1 then Add32(old(dispatcher.decMsgCounter), 1)
                       else old(dispatcher.decMsgCounter))
    {
      ghost var before := Abs();
      if msgBytesLeft == 0 {
        if |msg| < 2 {
          return false, None;
        }
        var high: int, low: int := msg[0], msg[1];
        msgBytesLeft := high * 256 + low;
        if encrypted && dispatcher.enc.Some? {
          msgBytesLeft := msgBytesLeft + 16;
        }
        var msglen := |msg| - 2;
        aktIndex := msglen;
        msgBytesLeft := Sub32(msgBytesLeft, msglen);
        CopyInto(0, msg[2..]);
      } else {
        var msglen := if msgBytesLeft < |msg| then msgBytesLeft else |msg|;
        CopyInto(aktIndex, msg[..msglen]);
        aktIndex := aktIndex + msglen;
        msgBytesLeft := msgBytesLeft - msglen;
      }
      assert Extend(Config(), before, id, msg) == Partial(msgBuff[..aktIndex], msgBytesLeft);
      if msgBytesLeft == 0 {
        var whole := msgBuff[..aktIndex];
        if encrypted {
          whole := dispatcher.DecryptMessage(whole);
        }
        aktIndex := 0;
        return true, Some(whole);
      }
      return true, None;
    }
  }
}
