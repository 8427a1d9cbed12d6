/** The format of the data retention log behind its header: sealed blocks of entries, a footer with their number,
    and the numbers used once that seal them. */
module RetentionFormat {
  import opened MachineTypes
  import opened Sealing

  const BYTES_PER_ENTRY := 18
  const ENTRIES_PER_BLOCK := 128
  const BYTES_PER_BLOCK := 2304

  type Entry = e: seq<Byte> | |e| == BYTES_PER_ENTRY witness seq(BYTES_PER_ENTRY, _ => 0)

  /** Decryption with its check of the tag. */
  type Opener = (Nonce, seq<Byte>) -> Option<seq<Byte>>

  ghost predicate Inverse(enc: Sealer, dec: Opener)
  {
    Seals(enc) && forall n, p :: dec(n, enc(n, p)) == Some(p)
  }

  // ---------- nonces ----------

  const HEADER_NONCE: Nonce := [0xFF, 0xFF, 0xFF, 0xFF, 0xFF, 0xFF, 0xFF, 0xFF, 0xFF, 0xFF, 0xFF, 0xFD]
  const FOOTER_NONCE: Nonce := [0xFF, 0xFF, 0xFF, 0xFF, 0xFF, 0xFF, 0xFF, 0xFF, 0xFF, 0xFF, 0xFF, 0xFF]

  lemma CounterNonceIsOther(i: nat)
    ensures CounterNonce(i) != HEADER_NONCE && CounterNonce(i) != FOOTER_NONCE && HEADER_NONCE != FOOTER_NONCE
  {
    assert CounterNonce(i)[0] == 0 && HEADER_NONCE[0] == 0xFF && FOOTER_NONCE[0] == 0xFF;
    assert HEADER_NONCE[11] == 0xFD && FOOTER_NONCE[11] == 0xFF;
  }

  /** All nonces of a file with `blocks` sealed blocks, in the order of their use. */
  function Nonces(blocks: nat): seq<Nonce>
  {
    [HEADER_NONCE] + seq(blocks, i requires i >= 0 => CounterNonce(i)) + [FOOTER_NONCE]
  }

  predicate Distinct(nonces: seq<Nonce>)
  {
    forall i, j :: 0 <= i < j < |nonces| ==> nonces[i] != nonces[j]
  }

  lemma NonceAt(blocks: nat, i: nat)
    requires i < blocks + 2
    ensures |Nonces(blocks)| == blocks + 2
    ensures Nonces(blocks)[i]
            == if i == 0 then HEADER_NONCE else if i <= blocks then CounterNonce(i - 1) else FOOTER_NONCE
  {
    hide BigEndian, CounterNonce;
  }

  lemma NoncesDiffer(blocks: nat, i: nat, j: nat)
    requires blocks <= TWO_32 && i < j < blocks + 2
    ensures |Nonces(blocks)| == blocks + 2 && Nonces(blocks)[i] != Nonces(blocks)[j]
  {
    NonceAt(blocks, i);
    NonceAt(blocks, j);
    hide Nonces, CounterNonce, BigEndian;
    if i > 0 && j <= blocks {
      CounterNoncesDistinct(i - 1, j - 1);
    } else if i > 0 {
      CounterNonceIsOther(i - 1);
    } else {
      CounterNonceIsOther(j - 1);
    }
  }

  /** No nonce is used twice under the file's key exactly when the file has at most 2^32 blocks. */
  lemma NoncesDistinctIff(blocks: nat)
    ensures Distinct(Nonces(blocks)) <==> blocks <= TWO_32
  {
    NonceAt(blocks, 0);
    if blocks > TWO_32 {
      CounterNonceEqualIff(0, TWO_32);
      NonceAt(blocks, 1);
      NonceAt(blocks, TWO_32 + 1);
    } else {
      forall i, j | 0 <= i < j < blocks + 2 ensures Nonces(blocks)[i] != Nonces(blocks)[j] {
        NoncesDiffer(blocks, i, j);
      }
    }
  }

  // ---------- the file behind its header ----------

  /** Complete blocks, sealed and numbered from `first` on. */
  function SealedBlocks(enc: Sealer, data: seq<Byte>, first: nat): seq<Byte>
  {
    if |data| < BYTES_PER_BLOCK then []
    else enc(CounterNonce(first), data[..BYTES_PER_BLOCK])
         + SealedBlocks(enc, data[BYTES_PER_BLOCK..], first + 1)
  }

  function Complete(data: seq<Byte>): nat { |data| / BYTES_PER_BLOCK }

  function CompletePart(data: seq<Byte>): seq<Byte>
  {
    assert Complete(data) * BYTES_PER_BLOCK <= |data|;
    data[..Complete(data) * BYTES_PER_BLOCK]
  }

  function Remainder(data: seq<Byte>): seq<Byte>
  {
    assert Complete(data) * BYTES_PER_BLOCK <= |data|;
    data[Complete(data) * BYTES_PER_BLOCK..]
  }

  function SealedRemainder(enc: Sealer, data: seq<Byte>): seq<Byte>
  {
    if Remainder(data) == [] then [] else enc(CounterNonce(Complete(data)), Remainder(data))
  }

  /** The number of entries, as the footer's 32 bits hold it. */
  function EntryCount(data: seq<Byte>): UInt32
  {
    |data| / BYTES_PER_ENTRY % TWO_32
  }

  function Footer(enc: Sealer, data: seq<Byte>): seq<Byte>
  {
    enc(FOOTER_NONCE, BigEndian(EntryCount(data)))
  }

  function Body(enc: Sealer, data: seq<Byte>): seq<Byte>
  {
    SealedBlocks(enc, data, 0) + SealedRemainder(enc, data) + Footer(enc, data)
  }

  function Flat(entries: seq<Entry>): seq<Byte>
  {
    if entries == [] then [] else entries[0] + Flat(entries[1..])
  }

  // ---------- the reader ----------

  /** Open the blocks in order until `want` bytes are read; nothing may follow them. */
  function ReadBlocks(dec: Opener, body: seq<Byte>, want: nat, block: nat): Option<seq<Byte>>
    decreases want
  {
    if want == 0 then if body == [] then Some([]) else None
    else
      var size := if want < BYTES_PER_BLOCK then want else BYTES_PER_BLOCK;
      if |body| < size + TAG_SIZE then None
      else
        match dec(CounterNonce(block), body[..size + TAG_SIZE])
        case None => None
        case Some(plain) =>
          match ReadBlocks(dec, body[size + TAG_SIZE..], want - size, block + 1)
          case None => None
          case Some(rest) => Some(plain + rest)
  }

  /** Read the footer, then the blocks, then cut the entries apart. */
  function Read(dec: Opener, body: seq<Byte>): Option<seq<Entry>>
  {
    if |body| < 4 + TAG_SIZE then None
    else
      var cut := |body| - 4 - TAG_SIZE;
      match dec(FOOTER_NONCE, body[cut..])
      case None => None
      case Some(count) =>
        if |count| != 4 then None
        else
          match ReadBlocks(dec, body[..cut], FromBigEndian(count) * BYTES_PER_ENTRY, 0)
          case None => None
          case Some(data) => Some(Cut(data))
  }

  function Cut(data: seq<Byte>): seq<Entry>
  {
    if |data| < BYTES_PER_ENTRY then [] else [data[..BYTES_PER_ENTRY]] + Cut(data[BYTES_PER_ENTRY..])
  }

  // ---------- reading back what was written ----------

  lemma {:induction false} CutFlat(entries: seq<Entry>)
    ensures Cut(Flat(entries)) == entries && |Flat(entries)| == BYTES_PER_ENTRY * |entries|
  {
    if entries != [] {
      CutFlat(entries[1..]);
      assert Flat(entries)[..BYTES_PER_ENTRY] == entries[0];
      assert Flat(entries)[BYTES_PER_ENTRY..] == Flat(entries[1..]);
    }
  }

  lemma {:induction false} FlatSnoc(entries: seq<Entry>, e: Entry)
    ensures Flat(entries + [e]) == Flat(entries) + e
  {
    if entries == [] {
      assert Flat([e]) == e + Flat([]);
    } else {
      FlatSnoc(entries[1..], e);
      assert (entries + [e])[1..] == entries[1..] + [e];
    }
  }

  /** The blocks of some data after a complete first one. */
  function RestOf(enc: Sealer, data: seq<Byte>, block: nat): seq<Byte>
  {
    if data == [] then []
    else if |data| < BYTES_PER_BLOCK then enc(CounterNonce(block), data)
    else enc(CounterNonce(block), data[..BYTES_PER_BLOCK]) + RestOf(enc, data[BYTES_PER_BLOCK..], block + 1)
  }

  lemma {:induction false} RestOfSplits(enc: Sealer, data: seq<Byte>, block: nat)
    ensures RestOf(enc, data, block)
            == SealedBlocks(enc, data, block)
               + (if Remainder(data) == [] then [] else enc(CounterNonce(block + Complete(data)), Remainder(data)))
    decreases |data|
  {
    hide BigEndian, CounterNonce;
    if |data| >= BYTES_PER_BLOCK {
      var rest := data[BYTES_PER_BLOCK..];
      RestOfSplits(enc, rest, block + 1);
      assert Complete(data) == 1 + Complete(rest);
      assert Remainder(data) == Remainder(rest);
    } else {
      assert Complete(data) == 0;
      assert Remainder(data) == data;
    }
  }

  lemma {:induction false} ReadBlocksBack(enc: Sealer, dec: Opener, data: seq<Byte>, block: nat)
    requires Inverse(enc, dec)
    ensures ReadBlocks(dec, RestOf(enc, data, block), |data|, block) == Some(data)
    decreases |data|
  {
    hide BigEndian, CounterNonce;
    if data != [] {
      var size := if |data| < BYTES_PER_BLOCK then |data| else BYTES_PER_BLOCK;
      var first, rest := data[..size], data[size..];
      var sealed := enc(CounterNonce(block), first);
      assert |data| < BYTES_PER_BLOCK ==> first == data && rest == [];
      assert RestOf(enc, data, block) == sealed + RestOf(enc, rest, block + 1);
      assert (sealed + RestOf(enc, rest, block + 1))[..size + TAG_SIZE] == sealed;
      assert (sealed + RestOf(enc, rest, block + 1))[size + TAG_SIZE..] == RestOf(enc, rest, block + 1);
      ReadBlocksBack(enc, dec, rest, block + 1);
      assert data == first + rest;
    }
  }

  lemma ReadParts(dec: Opener, blocks: seq<Byte>, footer: seq<Byte>, count: seq<Byte>, data: seq<Byte>)
    requires |footer| == 4 + TAG_SIZE && dec(FOOTER_NONCE, footer) == Some(count) && |count| == 4
    requires ReadBlocks(dec, blocks, FromBigEndian(count) * BYTES_PER_ENTRY, 0) == Some(data)
    ensures Read(dec, blocks + footer) == Some(Cut(data))
  {
    hide ReadBlocks, Cut, FromBigEndian;
    var body := blocks + footer;
    assert body[..|blocks|] == blocks && body[|blocks|..] == footer;
  }

  lemma BodyParts(enc: Sealer, data: seq<Byte>)
    ensures Body(enc, data) == RestOf(enc, data, 0) + Footer(enc, data)
  {
    hide BigEndian, CounterNonce;
    RestOfSplits(enc, data, 0);
  }

  lemma QuotientOf(n: nat)
    ensures BYTES_PER_ENTRY * n / BYTES_PER_ENTRY == n
  {
  }

  lemma CountIs(entries: seq<Entry>)
    requires |entries| < TWO_32
    ensures EntryCount(Flat(entries)) == |entries|
  {
    CutFlat(entries);
    hide Flat, Cut;
    QuotientOf(|entries|);
  }

  lemma FooterOpens(enc: Sealer, dec: Opener, entries: seq<Entry>)
    requires Inverse(enc, dec) && |entries| < TWO_32
    ensures var data, count := Flat(entries), BigEndian(|entries|);
            && |Footer(enc, data)| == 4 + TAG_SIZE
            && dec(FOOTER_NONCE, Footer(enc, data)) == Some(count)
            && FromBigEndian(count) * BYTES_PER_ENTRY == |data|
  {
    hide BigEndian, FromBigEndian, Flat, EntryCount;
    CutFlat(entries);
    BigEndianRoundTrip(|entries|);
    CountIs(entries);
  }

  /** Whatever was logged and closed is read back entry by entry, as long as the footer can count it. */
  lemma ReadBack(enc: Sealer, dec: Opener, entries: seq<Entry>)
    requires Inverse(enc, dec) && |entries| < TWO_32
    ensures Read(dec, Body(enc, Flat(entries))) == Some(entries)
  {
    hide *;
    var data, count := Flat(entries), BigEndian(|entries|);
    BodyParts(enc, data);
    FooterOpens(enc, dec, entries);
    ReadBlocksBack(enc, dec, data, 0);
    ReadParts(dec, RestOf(enc, data, 0), Footer(enc, data), count, data);
    CutFlat(entries);
  }

  // ---------- appending ----------

  lemma {:induction false} SealedBlocksSnoc(enc: Sealer, data: seq<Byte>, block: seq<Byte>, first: nat)
    requires |data| % BYTES_PER_BLOCK == 0 && |block| == BYTES_PER_BLOCK
    ensures SealedBlocks(enc, data + block, first)
            == SealedBlocks(enc, data, first) + enc(CounterNonce(first + Complete(data)), block)
    decreases |data|
  {
    hide BigEndian, CounterNonce;
    if data == [] {
      assert [] + block == block && block[..BYTES_PER_BLOCK] == block && block[BYTES_PER_BLOCK..] == [];
      assert SealedBlocks(enc, [], first + 1) == [];
    } else {
      var head, rest := data[..BYTES_PER_BLOCK], data[BYTES_PER_BLOCK..];
      SealedBlocksSnoc(enc, rest, block, first + 1);
      assert (data + block)[..BYTES_PER_BLOCK] == head && (data + block)[BYTES_PER_BLOCK..] == rest + block;
      assert Complete(data) == 1 + Complete(rest);
    }
  }

  lemma {:induction false} SealedBlocksIgnoreRemainder(enc: Sealer, data: seq<Byte>, first: nat)
    ensures SealedBlocks(enc, data, first) == SealedBlocks(enc, CompletePart(data), first)
    decreases |data|
  {
    hide BigEndian, CounterNonce;
    if |data| >= BYTES_PER_BLOCK {
      var rest := data[BYTES_PER_BLOCK..];
      SealedBlocksIgnoreRemainder(enc, rest, first + 1);
      assert Complete(data) == 1 + Complete(rest);
      assert CompletePart(data)[..BYTES_PER_BLOCK] == data[..BYTES_PER_BLOCK];
      assert CompletePart(data)[BYTES_PER_BLOCK..] == CompletePart(rest);
    } else {
      assert CompletePart(data) == [];
    }
  }
}
