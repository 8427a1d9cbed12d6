/** The writer of the data retention log: it fills one block in memory, seals it when it is full, and seals the
    remainder and the footer when it is closed. */
module RetentionLogFile {
  import opened MachineTypes
  import opened RetentionFormat
  import opened Sealing

  lemma {:induction false} AddMultiple(a: nat, k: nat)
    ensures (a + k * TWO_32) % TWO_32 == a % TWO_32
  {
    if k > 0 {
      AddMultiple(a, k - 1);
      assert a + k * TWO_32 == (a + (k - 1) * TWO_32) + TWO_32;
    }
  }

  lemma WrappedCount(blocks: nat, current: nat)
    ensures (current + blocks % TWO_32 * ENTRIES_PER_BLOCK) % TWO_32 == (blocks * ENTRIES_PER_BLOCK + current) % TWO_32
  {
    var q := blocks / TWO_32;
    assert blocks * ENTRIES_PER_BLOCK + current
           == current + blocks % TWO_32 * ENTRIES_PER_BLOCK + (q * ENTRIES_PER_BLOCK) * TWO_32;
    AddMultiple(current + blocks % TWO_32 * ENTRIES_PER_BLOCK, q * ENTRIES_PER_BLOCK);
  }

  /** Where the next entry goes: the shape of the logged bytes after a number of entries. */
  lemma Layout(entries: seq<Entry>)
    ensures var data := Flat(entries);
            && Complete(data) == |entries| / ENTRIES_PER_BLOCK
            && |Remainder(data)| == BYTES_PER_ENTRY * (|entries| % ENTRIES_PER_BLOCK)
  {
    CutFlat(entries);
    hide Flat;
  }

  /** One more entry grows the remainder. */
  lemma Grow(enc: Sealer, data: seq<Byte>, e: Entry)
    requires |Remainder(data)| + BYTES_PER_ENTRY < BYTES_PER_BLOCK
    ensures Complete(data + e) == Complete(data) && Remainder(data + e) == Remainder(data) + e
    ensures SealedBlocks(enc, data + e, 0) == SealedBlocks(enc, data, 0)
  {
    var more := data + e;
    hide SealedBlocks;
    assert Complete(more) == Complete(data);
    assert CompletePart(more) == CompletePart(data);
    SealedBlocksIgnoreRemainder(enc, more, 0);
    SealedBlocksIgnoreRemainder(enc, data, 0);
  }

  /** Or it completes a block. */
  lemma Fill(enc: Sealer, data: seq<Byte>, e: Entry)
    requires |Remainder(data)| + BYTES_PER_ENTRY == BYTES_PER_BLOCK
    ensures Complete(data + e) == Complete(data) + 1 && Remainder(data + e) == []
    ensures SealedBlocks(enc, data + e, 0)
            == SealedBlocks(enc, data, 0) + enc(CounterNonce(Complete(data)), Remainder(data) + e)
  {
    hide SealedBlocks, CounterNonce;
    assert Complete(data + e) == Complete(data) + 1;
    assert data + e == CompletePart(data) + (Remainder(data) + e);
    SealedBlocksIgnoreRemainder(enc, data, 0);
    SealedBlocksSnoc(enc, CompletePart(data), Remainder(data) + e, 0);
  }

  /** What the block in memory holds after these entries, and what the file holds of them. */
  function InMemory(entries: seq<Entry>): seq<Byte> { Remainder(Flat(entries)) }

  function InFile(enc: Sealer, entries: seq<Entry>): seq<Byte> { SealedBlocks(enc, Flat(entries), 0) }

  function Blocks(entries: seq<Entry>): nat { |entries| / ENTRIES_PER_BLOCK }

  lemma BlocksAfter(entries: seq<Entry>, e: Entry)
    ensures var n, m := |entries| % ENTRIES_PER_BLOCK, |entries + [e]| % ENTRIES_PER_BLOCK;
            if n + 1 < ENTRIES_PER_BLOCK then m == n + 1 && Blocks(entries + [e]) == Blocks(entries)
            else m == 0 && Blocks(entries + [e]) == Blocks(entries) + 1
  {
  }

  /** With the remainder, if there is one. */
  function AllBlocks(entries: seq<Entry>): nat { (|entries| + ENTRIES_PER_BLOCK - 1) / ENTRIES_PER_BLOCK }

  lemma RemainderIsOneBlock(entries: seq<Entry>)
    ensures AllBlocks(entries) == Blocks(entries) + if |entries| % ENTRIES_PER_BLOCK > 0 then 1 else 0
  {
  }

  /** The nonces used for the header and this many blocks. */
  function Used(blocks: nat): seq<Nonce>
  {
    assert |Nonces(blocks)| == blocks + 2;
    Nonces(blocks)[..blocks + 1]
  }

  lemma UsedGrows(blocks: nat)
    ensures Used(0) == [HEADER_NONCE]
    ensures Used(blocks + 1) == Used(blocks) + [CounterNonce(blocks)]
    ensures Nonces(blocks) == Used(blocks) + [FOOTER_NONCE]
  {
    hide BigEndian, CounterNonce;
  }

  lemma SealedLength(enc: Sealer, n: Nonce, p: seq<Byte>)
    requires Seals(enc)
    ensures |enc(n, p)| == |p| + TAG_SIZE
  {
  }

  lemma Empty(enc: Sealer)
    ensures InMemory([]) == [] && InFile(enc, []) == [] && Used(0) == [HEADER_NONCE]
  {
    hide BigEndian, CounterNonce;
    UsedGrows(0);
  }

  lemma Append(enc: Sealer, entries: seq<Entry>, e: Entry)
    ensures |InMemory(entries)| == BYTES_PER_ENTRY * (|entries| % ENTRIES_PER_BLOCK)
    ensures |entries| % ENTRIES_PER_BLOCK + 1 < ENTRIES_PER_BLOCK ==>
              && InMemory(entries + [e]) == InMemory(entries) + e
              && InFile(enc, entries + [e]) == InFile(enc, entries)
    ensures |entries| % ENTRIES_PER_BLOCK + 1 == ENTRIES_PER_BLOCK ==>
              && InMemory(entries + [e]) == []
              && InFile(enc, entries + [e])
                 == InFile(enc, entries) + enc(CounterNonce(Blocks(entries)), InMemory(entries) + e)
  {
    hide Flat, SealedBlocks, CounterNonce, Remainder;
    Layout(entries);
    FlatSnoc(entries, e);
    if |entries| % ENTRIES_PER_BLOCK + 1 < ENTRIES_PER_BLOCK {
      Grow(enc, Flat(entries), e);
    } else {
      Fill(enc, Flat(entries), e);
    }
  }

  lemma Close(enc: Sealer, entries: seq<Entry>)
    ensures |InMemory(entries)| == BYTES_PER_ENTRY * (|entries| % ENTRIES_PER_BLOCK)
    ensures Body(enc, Flat(entries))
            == InFile(enc, entries)
               + (if InMemory(entries) == [] then [] else enc(CounterNonce(Blocks(entries)), InMemory(entries)))
               + enc(FOOTER_NONCE, BigEndian(|entries| % TWO_32))
  {
    hide Flat, SealedBlocks, CounterNonce, Remainder, BigEndian;
    Layout(entries);
    CutFlat(entries);
  }

  class LogFile {
    const enc: Sealer
    var isOpen: bool
    var file: seq<Byte>
    const oneBlock: array<Byte>
    var entriesInBlock: UInt32
    var blockNumber: UInt32

    ghost const head: seq<Byte>
    ghost var logged: seq<Entry>
    ghost var nonces: seq<Nonce>
    /** No write failed so far. */
    ghost var intact: bool

    ghost predicate Valid()
      reads this, oneBlock
    {
      && Seals(enc)
      && oneBlock.Length == BYTES_PER_BLOCK
      && entriesInBlock == |logged| % ENTRIES_PER_BLOCK
      && blockNumber == Blocks(logged) % TWO_32
      && oneBlock[..BYTES_PER_ENTRY * entriesInBlock] == InMemory(logged)
      && (isOpen ==> nonces == Used(Blocks(logged)))
      && (isOpen && intact ==> file == head + InFile(enc, logged))
    }

    /** The file's own header and the encrypted key come from the caller; the tag over both follows them. */
    constructor (enc: Sealer, header: seq<Byte>)
      requires Seals(enc)
      ensures Valid() && intact && isOpen && logged == []
      ensures fresh(oneBlock) && this.enc == enc
      ensures head == header + enc(HEADER_NONCE, header)[|header|..]
    {
      hide InMemory, InFile, Used, Seals;
      this.enc := enc;
      SealedLength(enc, HEADER_NONCE, header);
      var tag := enc(HEADER_NONCE, header)[|header|..];
      file := header + tag;
      head := header + tag;
      oneBlock := new Byte[BYTES_PER_BLOCK](_ => 0);
      entriesInBlock, blockNumber, isOpen := 0, 0, true;
      logged, nonces, intact := [], [HEADER_NONCE], true;
      new;
      Empty(enc);
      assert oneBlock[..0] == [];
    }

    /** Append to the file as many of these bytes as the system takes; none after the file was closed. */
    method Write(bytes: seq<Byte>, taken: nat) returns (ok: bool)
      modifies this`file
      ensures ok <==> isOpen && taken >= |bytes|
      ensures file == old(file) + if !isOpen then [] else if ok then bytes else bytes[..taken]
    {
      if !isOpen {
        return false;
      }
      var count := if taken < |bytes| then taken else |bytes|;
      file := file + bytes[..count];
      return count == |bytes|;
    }

    /** Copy the entry behind the others. */
    method CopyEntry(e: Entry)
      requires oneBlock.Length == BYTES_PER_BLOCK && entriesInBlock < ENTRIES_PER_BLOCK
      modifies oneBlock
      ensures oneBlock[..BYTES_PER_ENTRY * (entriesInBlock + 1)]
              == old(oneBlock[..BYTES_PER_ENTRY * entriesInBlock]) + e
    {
      var offset := BYTES_PER_ENTRY * entriesInBlock;
      forall i | 0 <= i < BYTES_PER_ENTRY {
        oneBlock[offset + i] := e[i];
      }
    }

    /** Seal bytes with the next block's nonce and write them. */
    method SealAndWrite(bytes: seq<Byte>, taken: nat) returns (ok: bool)
      requires Seals(enc) && blockNumber == Blocks(logged) % TWO_32
      modifies this`file, this`nonces
      ensures ok <==> isOpen && taken >= |bytes| + TAG_SIZE
      ensures file <= old(file) + enc(CounterNonce(Blocks(logged)), bytes)
      ensures if ok then file == old(file) + enc(CounterNonce(Blocks(logged)), bytes) else old(file) <= file
      ensures old(nonces) == Used(Blocks(logged)) ==> nonces == Used(Blocks(logged) + 1)
    {
      hide Used, BigEndian, Blocks;
      CounterNonceEqualIff(blockNumber, Blocks(logged));
      UsedGrows(Blocks(logged));
      hide CounterNonce;
      var nonce := CounterNonce(blockNumber);
      nonces := nonces + [nonce];
      SealedLength(enc, nonce, bytes);
      ok := Write(enc(nonce, bytes), taken);
    }

    /** The block is full: it goes to the file. */
    method WriteBlock(taken: nat) returns (ok: bool)
      requires Seals(enc) && oneBlock.Length == BYTES_PER_BLOCK && blockNumber == Blocks(logged) % TWO_32
      modifies this`file, this`nonces, this`entriesInBlock, this`blockNumber
      ensures ok <==> isOpen && taken >= BYTES_PER_BLOCK + TAG_SIZE
      ensures file <= old(file) + enc(CounterNonce(Blocks(logged)), oneBlock[..])
      ensures if ok then file == old(file) + enc(CounterNonce(Blocks(logged)), oneBlock[..]) else old(file) <= file
      ensures old(nonces) == Used(Blocks(logged)) ==> nonces == Used(Blocks(logged) + 1)
      ensures entriesInBlock == 0 && blockNumber == (Blocks(logged) + 1) % TWO_32
    {
      hide Used, CounterNonce, BigEndian, Blocks, Seals;
      ok := SealAndWrite(oneBlock[..], taken);
      entriesInBlock := 0;
      blockNumber := if blockNumber == TWO_32 - 1 then 0 else blockNumber + 1;
    }

    /** Append an entry; when the block is full, it goes to the file, all of it or what the system takes. */
    method Log(e: Entry, taken: nat) returns (ok: bool)
      requires Valid()
      modifies this`file, this`nonces, this`entriesInBlock, this`blockNumber, this`logged, this`intact, oneBlock
      ensures Valid()
      ensures logged == old(logged) + [e]
      ensures ok <==> |logged| % ENTRIES_PER_BLOCK != 0 || (isOpen && taken >= BYTES_PER_BLOCK + TAG_SIZE)
      ensures intact <==> old(intact) && ok
      ensures old(file) <= file
    {
      Append(enc, logged, e);
      BlocksAfter(logged, e);
      hide InMemory, InFile, Used, CounterNonce, BigEndian, Blocks, Seals;
      ok := true;
      CopyEntry(e);
      entriesInBlock := entriesInBlock + 1;
      if entriesInBlock >= ENTRIES_PER_BLOCK {
        assert oneBlock[..] == InMemory(logged) + e;
        ok := WriteBlock(taken);
        intact := intact && ok;
      }
      logged := logged + [e];
    }

    /** Seal and write what is in the block. */
    method FlushLogEntries(taken: nat) returns (ok: bool)
      requires Valid() && isOpen
      modifies this`file, this`nonces
      ensures ok <==> InMemory(logged) == [] || taken >= |InMemory(logged)| + TAG_SIZE
      ensures old(file) <= file
      ensures ok ==> file == old(file) + (if InMemory(logged) == [] then []
                                          else enc(CounterNonce(Blocks(logged)), InMemory(logged)))
      ensures nonces == Used(AllBlocks(logged))
    {
      RemainderIsOneBlock(logged);
      Close(enc, logged);
      hide InMemory, InFile, Used, CounterNonce, BigEndian, Blocks, AllBlocks, Seals;
      if entriesInBlock > 0 {
        ok := SealAndWrite(oneBlock[..BYTES_PER_ENTRY * entriesInBlock], taken);
        return;
      }
      return true;
    }

    /** Write the remainder and the footer; `first` and `second` tell how much of the two writes the system takes. */
    method CloseLog(first: nat, second: nat) returns (ok: bool)
      requires Valid()
      modifies this
      ensures logged == old(logged) && old(file) <= file
      ensures old(isOpen) ==>
                (ok <==> && (InMemory(logged) == [] || first >= |InMemory(logged)| + TAG_SIZE)
                         && second >= 4 + TAG_SIZE)
      ensures !old(isOpen) ==> ok && file == old(file) && nonces == old(nonces)
      ensures old(isOpen) && ok ==>
                && !isOpen && Valid()
                && nonces == Nonces(AllBlocks(logged))
                && (old(intact) ==> file == head + Body(enc, Flat(logged)))
    {
      hide InMemory, InFile, Used, CounterNonce, Body, Nonces, BigEndian;
      if !isOpen {
        return true;
      }
      Close(enc, logged);
      ok := FlushLogEntries(first);
      if !ok {
        return;
      }
      WrappedCount(Blocks(logged), entriesInBlock);
      var count := BigEndian((entriesInBlock + blockNumber * ENTRIES_PER_BLOCK) % TWO_32);
      UsedGrows(AllBlocks(logged));
      nonces := nonces + [FOOTER_NONCE];
      SealedLength(enc, FOOTER_NONCE, count);
      ok := Write(enc(FOOTER_NONCE, count), second);
      if !ok {
        return;
      }
      isOpen := false;
    }
  }
}
