/** What the log and the control channels share: network byte order, numbers used once, and authenticated
    encryption as an ideal function. */
module Sealing {
  import opened MachineTypes

  const TAG_SIZE := 16

  type Nonce = n: seq<Byte> | |n| == 12 witness seq(12, _ => 0)

  /** Encryption under one key: the cipher text followed by the tag. */
  type Sealer = (Nonce, seq<Byte>) -> seq<Byte>

  ghost predicate Seals(enc: Sealer)
  {
    forall n, p :: |enc(n, p)| == |p| + TAG_SIZE
  }

  // ---------- numbers in network byte order ----------

  function BigEndian(x: UInt32): (b: seq<Byte>)
    ensures |b| == 4
  {
    [x / 0x100_0000, x / 0x1_0000 % 0x100, x / 0x100 % 0x100, x % 0x100]
  }

  function FromBigEndian(b: seq<Byte>): UInt32
    requires |b| == 4
  {
    var b0: int, b1: int, b2: int, b3: int := b[0], b[1], b[2], b[3];
    b0 * 0x100_0000 + b1 * 0x1_0000 + b2 * 0x100 + b3
  }

  lemma BigEndianRoundTrip(x: UInt32)
    ensures FromBigEndian(BigEndian(x)) == x
  {
    assert x / 0x100 == x / 0x1_0000 * 0x100 + x / 0x100 % 0x100;
    assert x / 0x1_0000 == x / 0x100_0000 * 0x100 + x / 0x1_0000 % 0x100;
  }

  /** The most significant byte comes first. */
  lemma BigEndianIsNumber(x: UInt32)
    ensures Number(BigEndian(x)) == x
  {
    var b := BigEndian(x);
    NumberSnoc(b, 0);
    NumberSnoc(b, 1);
    NumberSnoc(b, 2);
    NumberSnoc(b, 3);
    assert b[..4] == b && Number(b[..0]) == 0;
    BigEndianRoundTrip(x);
  }

  /** The nonce made of a counter of 32 bits. */
  function CounterNonce(count: nat): Nonce
  {
    [0, 0, 0, 0, 0, 0, 0, 0] + BigEndian(count % TWO_32)
  }

  lemma CounterNonceEqualIff(i: nat, j: nat)
    ensures CounterNonce(i) == CounterNonce(j) <==> i % TWO_32 == j % TWO_32
  {
    if CounterNonce(i) == CounterNonce(j) {
      assert BigEndian(i % TWO_32) == CounterNonce(i)[8..] == CounterNonce(j)[8..] == BigEndian(j % TWO_32);
      BigEndianRoundTrip(i % TWO_32);
      BigEndianRoundTrip(j % TWO_32);
    }
  }

  /** The nonce is the counter's low 32 bits as a number of twelve bytes. */
  lemma CounterNonceIsNumber(i: nat)
    ensures Number(CounterNonce(i)[8..]) == i % TWO_32 && forall k :: 0 <= k < 8 ==> CounterNonce(i)[k] == 0
  {
    assert CounterNonce(i)[8..] == BigEndian(i % TWO_32);
    BigEndianIsNumber(i % TWO_32);
  }

  lemma CounterNoncesDistinct(i: nat, j: nat)
    requires i < j < TWO_32
    ensures CounterNonce(i) != CounterNonce(j)
  {
    CounterNonceEqualIff(i, j);
  }
}
