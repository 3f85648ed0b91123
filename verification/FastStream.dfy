/**
  LZ4_stream_t (lz4.c): one compression state used by many calls, in the
  fast-reset and in the streaming interface, and the matching streaming decoder.
*/
module FastStream {
  import opened BlockFormat
  import opened BlockDecoder
  import opened Encoding
  import opened FastCompressor
  import opened Matching
  import opened Sizes

  const U32_SLOTS := 4096

  class Stream {
    const hash: seq<byte> -> nat
    const hashTable: array<nat>
    var currentOffset: nat
    var tableType: TableType
    var dictSize: nat
    var dictEnd: int     // dictionary + dictSize, as a position; -1 for a null dictionary
    var dirty: bool      // an uninitialised structure

    /** LZ4_initStream. */
    constructor (hash: seq<byte> -> nat)
      ensures Ready() && !dirty && currentOffset == 0 && tableType.ClearedTable? && dictSize == 0
      ensures fresh(hashTable) && this.hash == hash
    {
      this.hash := hash;
      hashTable := new nat[TABLE_SIZE](_ => 0);
      currentOffset, tableType, dictSize, dictEnd, dirty := 0, ClearedTable, 0, -1, false;
    }

    /** Every entry is an index handed out before `currentOffset`; a cleared table has never been used. */
    ghost predicate Sound()
      reads this, hashTable
    {
      && hashTable.Length == TABLE_SIZE
      && (forall h :: 0 <= h < TABLE_SIZE ==> hashTable[h] == 0 || hashTable[h] < currentOffset)
      && (tableType.ClearedTable? ==> currentOffset == 0)
      && (!tableType.ByU16? ==> forall h :: U32_SLOTS <= h < TABLE_SIZE ==> hashTable[h] == 0)
      && currentOffset < 0x1_0000_0000
    }

    ghost predicate Ready()
      reads this, hashTable
    {
      hashTable.Length == TABLE_SIZE && (dirty || Sound())
    }

    /**
      LZ4_prepareTable: keeps the table when it can be told apart from the new
      input, and clears it otherwise. For byU32 a gap of 64 KB puts all earlier
      positions out of reach.
    */
    method PrepareTable(inputSize: nat, tt: TableType)
      requires Ready() && !tt.ClearedTable?
      modifies this, hashTable
      ensures Sound() && !dirty && dictSize == 0 && (tableType.ClearedTable? || tableType == tt)
      ensures tt.ByU32? ==> forall h :: 0 <= h < TABLE_SIZE ==> hashTable[h] == 0 || hashTable[h] + MAX_DISTANCE < currentOffset
      ensures tt.ByU16? ==> currentOffset == 0 || currentOffset + inputSize < 0xFFFF
      ensures inputSize >= 4 * KB ==> currentOffset == 0
      ensures currentOffset <= GB + KB64
      ensures dictEnd == -1
    {
      if dirty {
        Clear();
        dictSize, dictEnd, dirty := 0, -1, false;
        return;
      }
      if !tableType.ClearedTable? {
        if tableType != tt
          || (tt.ByU16? && currentOffset + inputSize >= 0xFFFF)
          || (tt.ByU32? && currentOffset > GB)
          || inputSize >= 4 * KB
        {
          Clear();
        }
      }
      if currentOffset != 0 && tt.ByU32? {
        currentOffset := currentOffset + KB64;
      }
      dictSize, dictEnd := 0, -1;
    }

    method Clear()
      requires hashTable.Length == TABLE_SIZE
      modifies this, hashTable
      ensures forall h :: 0 <= h < TABLE_SIZE ==> hashTable[h] == 0
      ensures currentOffset == 0 && tableType.ClearedTable?
      ensures dictSize == old(dictSize) && dictEnd == old(dictEnd) && dirty == old(dirty)
    {
      forall h | 0 <= h < TABLE_SIZE {
        hashTable[h] := 0;
      }
      currentOffset, tableType := 0, ClearedTable;
    }

    /** Every entry left in the table can be told apart from the input that starts at `r.start`. */
    ghost predicate EntriesAcceptable(r: Run, tt: TableType, prefix: bool, dictIssue: DictIssue, acceleration: nat)
      requires hashTable.Length == TABLE_SIZE
      reads this, hashTable
    {
      forall h :: 0 <= h < TABLE_SIZE ==>
        CallFor(r, tt, prefix, dictIssue, acceleration).Acceptable(hashTable[h])
    }

    function CallFor(r: Run, tt: TableType, prefix: bool, dictIssue: DictIssue, acceleration: nat): Call
      reads this
    {
      Call(r, hashTable, hash, tt, currentOffset, dictSize, prefix, dictIssue, acceleration)
    }

    /** LZ4_compress_generic: the checks and the update of the stream, around the compressor proper. */
    method CompressGeneric(r: Run, tt: TableType, prefix: bool, dictIssue: DictIssue, acceleration: nat)
      returns (result: nat, consumed: nat)
      requires Sound() && !dirty && (tableType.ClearedTable? || tableType == tt) && !tt.ClearedTable? && acceleration >= 1
      requires r.start <= |r.data|
      requires |r.data| - r.start <= MAX_INPUT_SIZE ==> r.Valid() && currentOffset <= 0x8000_0000
      requires if prefix then dictSize <= r.start else dictIssue.DictSmall? ==> dictSize == 0
      requires dictIssue.DictSmall? ==> dictSize <= currentOffset
      requires tt.ByU16? && |r.data| - r.start < LIMIT_64K ==> currentOffset + (|r.data| - r.start) <= 0xFFFF + 11
      requires r.limit.FillOutput? ==> currentOffset == 0
      requires EntriesAcceptable(r, tt, prefix, dictIssue, acceleration)
      modifies this, hashTable, r.dst
      ensures Sound() && !dirty && dictEnd == old(dictEnd) && (tableType == tt || tableType == old(tableType))
      ensures |r.data| - r.start <= MAX_INPUT_SIZE && tt.ByU32? && !r.limit.FillOutput? ==>
                tableType == tt && dictSize == old(dictSize) + (|r.data| - r.start)
                && currentOffset == old(currentOffset) + (|r.data| - r.start)
      ensures |r.data| - r.start > MAX_INPUT_SIZE ==>
                dictSize == old(dictSize) && currentOffset == old(currentOffset) && tableType == old(tableType)
      ensures result > 0 ==> result <= r.dst.Length && Block(r.data, r.start, r.dst[..result], r.start + consumed)
      ensures result > 0 ==> |r.data| - r.start <= MAX_INPUT_SIZE
      ensures result > 0 && !r.limit.NotLimited? ==> result <= r.oend
      ensures result > 0 && r.limit.NotLimited? ==> result <= CompressBound(|r.data| - r.start)
      ensures result > 0 && !r.limit.FillOutput? ==> consumed == |r.data| - r.start
      ensures result > 0 ==> consumed == |r.data| - r.start || result + Unused(r.oend) >= r.oend
      ensures result == 0 ==>
                || |r.data| - r.start > MAX_INPUT_SIZE
                || (tt.ByU16? && |r.data| - r.start >= LIMIT_64K)
                || (r.limit.LimitedOutput? && r.oend < CompressBound(|r.data| - r.start))
                || (r.limit.FillOutput? && r.oend < 1)
      ensures EasyRun(r) && !r.limit.FillOutput? && !prefix && |r.data| - r.start <= MAX_INPUT_SIZE ==>
                0 < result <= |r.data| / 255 + 16 || (tt.ByU16? && |r.data| - r.start >= LIMIT_64K)
    {
      hide EasyRun, RunCall;
      hide Block, CompressBound, Call.Acceptable, Call.TableOk, Call.Slot, Call.Consistent, Call.OthersKept,
        Encoding.Run.Valid, Stream.Sound, Call.Slots;
      SoundSays();
      var inputSize := |r.data| - r.start;
      result, consumed := 0, 0;
      if (r.limit.FillOutput? && r.oend < 1) || inputSize > MAX_INPUT_SIZE || (tt.ByU16? && inputSize >= LIMIT_64K) {
        return;
      }
      var c := CallFor(r, tt, prefix, dictIssue, acceleration);
      TableFits(c);
      RunIsCall(c);
      ghost var was := hashTable[..];
      dictSize := dictSize + inputSize;
      currentOffset := currentOffset + inputSize;
      tableType := tt;
      var ok, op, end := Compress(c);
      TableStaysSound(c, was);
      if ok {
        BlockIsNotEmpty(r.data, r.start, r.dst[..op], end);
        result, consumed := op, end - r.start;
      }
    }

    lemma SoundSays()
      requires Sound()
      ensures hashTable.Length == TABLE_SIZE && (!tableType.ByU16? ==> forall h :: U32_SLOTS <= h < TABLE_SIZE ==> hashTable[h] == 0)
    {
    }

    lemma RunIsCall(c: Call)
      requires c.Valid()
      ensures EasyRun(c.r) && !c.prefix ==> RunCall(c)
    {
    }

    /** What the compressor demands of the table. */
    lemma TableFits(c: Call)
      requires Sound() && c.table == hashTable && c.startIndex == currentOffset && c.Valid()
      requires forall h :: 0 <= h < TABLE_SIZE ==> c.Acceptable(hashTable[h])
      ensures c.TableOk(c.r.start)
    {
    }

    /** After the call, all entries lie before the new `currentOffset`. */
    lemma TableStaysSound(c: Call, was: seq<nat>)
      requires hashTable.Length == TABLE_SIZE == |was| && c.table == hashTable && c.r.start <= |c.r.data|
      requires currentOffset == c.Index(|c.r.data|) < 0x1_0000_0000 && tableType == c.tableType && !tableType.ClearedTable?
      requires c.TableOk(|c.r.data|) && c.OthersKept(was)
      requires tableType.ByU32? ==> forall h :: U32_SLOTS <= h < TABLE_SIZE ==> was[h] == 0
      ensures Sound()
    {
      hide Call.Acceptable, Call.Consistent;
    }

    // ----- One call, one block -----

    /**
      LZ4_compress_fast_extState_fastReset: any number of earlier calls,
      successful or not, may have used the state; the block still decodes alone.
    */
    method CompressFastReset(src: seq<byte>, dst: array<byte>, dstCapacity: nat, acceleration0: int) returns (result: nat)
      requires Ready() && dstCapacity <= dst.Length
      modifies this, hashTable, dst
      ensures Ready()
      ensures result > 0 ==> result <= dstCapacity && Encodes(dst[..result], src, |src|)
      ensures |src| <= MAX_INPUT_SIZE && dstCapacity >= CompressBound(|src|) ==> result > 0
      ensures OneByte(src) && |src| <= MAX_INPUT_SIZE && dstCapacity >= |src| / 255 + 16 ==> 0 < result <= |src| / 255 + 16
    {
      hide OneByte;
      hide Block, Encodes;
      var acceleration := if acceleration0 < 1 then 1 else acceleration0;
      var limit := if |src| <= MAX_INPUT_SIZE && dstCapacity < CompressBound(|src|) then LimitedOutput else NotLimited;
      var r := Run(src, 0, dst, limit, dstCapacity);
      var tt := if |src| < LIMIT_64K then ByU16 else ByU32;
      PrepareTable(|src|, tt);
      var dictIssue := if tt.ByU16? && currentOffset != 0 then DictSmall else NoDictIssue;
      var consumed;
      result, consumed := CompressGeneric(r, tt, false, dictIssue, acceleration);
      if result > 0 {
        BlockEncodes(src, dst[..result], consumed);
      }
    }

    /** LZ4_resetStream_fast. */
    method ResetStreamFast()
      requires Ready()
      modifies this, hashTable
      ensures Sound() && !dirty && !tableType.ByU16? && dictSize == 0 && dictEnd == -1 && currentOffset <= GB + KB64
    {
      PrepareTable(0, ByU32);
    }

    // ----- Streaming -----

    /** LZ4_renormDictT: indices move down by one common distance, so that they stay below 2 GB. */
    method RenormDictT(nextSize: nat)
      requires Sound() && !tableType.ByU16? && nextSize < 0x8000_0000
      modifies this, hashTable
      ensures Sound() && tableType == old(tableType) && dirty == old(dirty) && dictEnd == old(dictEnd)
      ensures if old(currentOffset) + nextSize <= 0x8000_0000 then
                currentOffset == old(currentOffset) && dictSize == old(dictSize) && hashTable[..] == old(hashTable[..])
              else
                currentOffset == KB64 && dictSize == (if old(dictSize) > KB64 then KB64 else old(dictSize))
                && (old(currentOffset) >= KB64 ==> Renormed(old(hashTable[..]), hashTable[..], old(currentOffset)))
    {
      if currentOffset + nextSize > 0x8000_0000 {
        ghost var was := hashTable[..];
        var delta := (currentOffset - KB64) % U32;
        for i := 0 to U32_SLOTS
          invariant forall h :: 0 <= h < i ==> hashTable[h] == if was[h] < delta then 0 else was[h] - delta
          invariant forall h :: i <= h < TABLE_SIZE ==> hashTable[h] == was[h]
          modifies hashTable
        {
          hashTable[i] := if hashTable[i] < delta then 0 else hashTable[i] - delta;
        }
        RenormedEntries(was, hashTable[..], currentOffset, delta);
        currentOffset := KB64;
        if dictSize > KB64 {
          dictSize := KB64;
        }
      }
    }

    /** A stream that a continued block may follow: a non-trivial dictionary ends where the new block starts. */
    ghost predicate Continuable(start: nat)
      reads this, hashTable
    {
      Ready() && (dirty || (!tableType.ByU16? && (dictSize < 4 || dictEnd == start) && (dictEnd == start ==> dictSize <= start)))
    }

    /** Whether older entries must be told apart by their index. */
    function IssueFor(): DictIssue
      reads this
    {
      if dictSize < KB64 && dictSize < currentOffset then DictSmall else NoDictIssue
    }

    /**
      LZ4_compress_fast_continue, for blocks that follow each other in memory.
      The first block comes with an empty dictionary: that call runs in
      external-dictionary mode, where no index below the block is ever accepted.
    */
    method CompressFastContinue(data: seq<byte>, start: nat, dst: array<byte>, maxOutputSize: nat, acceleration0: int)
      returns (result: nat)
      requires start <= |data| && |data| - start < 0x8000_0000 && maxOutputSize <= dst.Length && Continuable(start)
      modifies this, hashTable, dst
      ensures result > 0 ==> result <= maxOutputSize && Block(data, start, dst[..result], |data|)
      ensures |data| - start <= MAX_INPUT_SIZE ==> Continuable(|data|)
      ensures dirty == old(dirty) && (result > 0 ==> !dirty && |data| - start <= MAX_INPUT_SIZE)
      ensures !old(dirty) && old(dictEnd) == start && |data| - start <= MAX_INPUT_SIZE ==>
        dictEnd == |data| && (dictSize == old(dictSize) + (|data| - start) || dictSize == Min(old(dictSize), KB64) + (|data| - start))
      ensures !old(dirty) && |data| - start <= MAX_INPUT_SIZE && maxOutputSize >= CompressBound(|data| - start) ==> result > 0
    {
      hide Block;
      if dirty {
        return 0;
      }
      RenormDictT(|data| - start);
      var acceleration := if acceleration0 < 1 then 1 else acceleration0;
      if 1 <= dictSize < 4 && dictEnd != start {
        dictSize, dictEnd := 0, start;
      }
      var r := Run(data, start, dst, LimitedOutput, maxOutputSize);
      if dictEnd == start {
        result := BlockBehindPrefix(r, acceleration);
      } else {
        var consumed;
        result, consumed := CompressGeneric(r, ByU32, false, IssueFor(), acceleration);
        dictEnd, dictSize := |data|, |data| - start;
      }
    }

    /** The prefix64k mode: the dictionary ends where the block starts, and grows by it. */
    method BlockBehindPrefix(r: Run, acceleration: nat) returns (result: nat)
      requires Sound() && !dirty && !tableType.ByU16? && acceleration >= 1 && currentOffset <= 0x8000_0000
      requires dictEnd == r.start <= |r.data| && dictSize <= r.start && r.limit == LimitedOutput && r.oend <= r.dst.Length
      modifies this, hashTable, r.dst
      ensures Sound() && !dirty && !tableType.ByU16?
      ensures |r.data| - r.start <= MAX_INPUT_SIZE ==>
        dictEnd == |r.data| && dictSize == old(dictSize) + (|r.data| - r.start)
      ensures result > 0 ==> result <= r.oend && Block(r.data, r.start, r.dst[..result], |r.data|) && |r.data| - r.start <= MAX_INPUT_SIZE
      ensures |r.data| - r.start <= MAX_INPUT_SIZE && r.oend >= CompressBound(|r.data| - r.start) ==> result > 0
    {
      hide Block, CompressBound;
      var before, consumed := dictSize, 0;
      PrefixEntries(r, acceleration);
      result, consumed := CompressGeneric(r, ByU32, true, IssueFor(), acceleration);
      dictEnd := dictEnd + (dictSize - before);
    }

    /** In prefix mode every entry refers to the prefix, is rejected by its index, or is out of reach. */
    lemma PrefixEntries(r: Run, acceleration: nat)
      requires Sound()
      ensures EntriesAcceptable(r, ByU32, true, IssueFor(), acceleration)
    {
    }
  }

  /** LZ4_compress_fast, on a state of its own. */
  method CompressFast(hash: seq<byte> -> nat, src: seq<byte>, dst: array<byte>, dstCapacity: nat, acceleration0: int)
    returns (result: nat)
    requires dstCapacity <= dst.Length
    modifies dst
    ensures result > 0 ==> result <= dstCapacity && Encodes(dst[..result], src, |src|)
    ensures |src| <= MAX_INPUT_SIZE && dstCapacity >= CompressBound(|src|) ==> result > 0
    ensures OneByte(src) && |src| <= MAX_INPUT_SIZE && dstCapacity >= |src| / 255 + 16 ==> 0 < result <= |src| / 255 + 16
  {
    hide OneByte;
    hide Block, Encodes;
    var stream := new Stream(hash);
    var acceleration := if acceleration0 < 1 then 1 else acceleration0;
    var limit := if |src| <= MAX_INPUT_SIZE && dstCapacity < CompressBound(|src|) then LimitedOutput else NotLimited;
    var tt := if |src| < LIMIT_64K then ByU16 else ByU32;
    var consumed;
    result, consumed := stream.CompressGeneric(Run(src, 0, dst, limit, dstCapacity), tt, false, NoDictIssue, acceleration);
    if result > 0 {
      BlockEncodes(src, dst[..result], consumed);
    }
  }

  /**
    LZ4_compress_destSize: for every target of at least one byte, a block that
    fits it and stands for the first `consumed` bytes of the input; unless these
    are all, hardly anything of the target is left.
  */
  method CompressDestSize(hash: seq<byte> -> nat, src: seq<byte>, dst: array<byte>, targetSize: nat)
    returns (result: nat, consumed: nat)
    requires targetSize <= dst.Length
    modifies dst
    ensures result > 0 ==> result <= targetSize && Encodes(dst[..result], src, consumed)
    ensures targetSize >= 1 && |src| <= MAX_INPUT_SIZE ==> result > 0
    ensures targetSize >= CompressBound(|src|) && result > 0 ==> consumed == |src|
    ensures result > 0 ==> consumed == |src| || result + Unused(targetSize) >= targetSize
  {
    hide Block, Encodes;
    if |src| > MAX_INPUT_SIZE || targetSize >= CompressBound(|src|) {
      result := CompressFast(hash, src, dst, targetSize, 1);
      consumed := |src|;
      return;
    }
    var stream := new Stream(hash);
    var tt := if |src| < LIMIT_64K then ByU16 else ByU32;
    result, consumed := stream.CompressGeneric(Run(src, 0, dst, FillOutput, targetSize), tt, false, NoDictIssue, 1);
    if result > 0 {
      BlockEncodes(src, dst[..result], consumed);
    }
  }

  /** LZ4_compress_fast followed by LZ4_decompress_safe is the identity, for every input, acceleration and hash function. */
  method RoundTrip(hash: seq<byte> -> nat, src: seq<byte>, dst: array<byte>, acceleration: int, out: array<byte>)
    returns (result: int)
    requires |src| <= MAX_INPUT_SIZE && CompressBound(|src|) <= dst.Length < 0x8000_0000
    requires |src| <= out.Length < 0x8000_0000 && out != dst
    modifies dst, out
    ensures result == |src| && out[..result] == src
  {
    hide Encodes, CompressBound;
    var size := CompressFast(hash, src, dst, dst.Length, acceleration);
    result := DecodeBack(dst[..size], src, |src|, out, out.Length);
    assert src[..|src|] == src;
  }

  /** LZ4_streamDecode_t, for blocks decoded one after the other into one buffer. */
  class StreamDecode {
    var prefixSize: nat
    var prefixEnd: nat

    constructor ()
      ensures prefixSize == 0
    {
      prefixSize, prefixEnd := 0, 0;
    }

    /** All that was decoded before lies at the start of the buffer, up to `pos`. */
    ghost predicate Rolling(pos: nat)
      reads this
    {
      prefixSize == pos && (pos > 0 ==> prefixEnd == pos)
    }

    /** LZ4_decompress_safe_continue, rolling: the prefix is searched without a lower limit once it has 64 KB - 1 bytes. */
    method DecompressSafeContinue(src: seq<byte>, buf: array<byte>, pos: nat, maxOutputSize: nat) returns (result: int)
      requires Rolling(pos) && pos + maxOutputSize <= buf.Length && maxOutputSize < 0x8000_0000 && |src| < 0x8000_0000
      modifies this, buf
      ensures Untouched(old(buf[..]), buf[..], pos, pos + maxOutputSize) && result <= maxOutputSize
      ensures result >= 0 ==> Rolling(pos + result)
      ensures LegalBlock(src, old(buf[..pos]), maxOutputSize) ==>
                result >= 0 && Meaning(src, 0, old(buf[..pos])) == Decoded(buf[..pos + result])
      ensures result >= 0 ==>
        (Meaning(src, 0, old(buf[..pos])) == Decoded(buf[..pos + result])
         <==> SumsFit(src, 0) && !Meaning(src, 0, old(buf[..pos])).ZeroOffset?)
    {
      hide Meaning, MeetsEndRules, SumsFit;
      SumsMatter(src, buf[..pos]);
      if LegalBlock(src, buf[..pos], maxOutputSize) { LegalFits(src, buf[..pos], maxOutputSize); }
      if prefixSize == 0 {
        result := DecompressGeneric(Job(src, buf, pos, pos + maxOutputSize, NoDict, pos));
        if result > 0 {
          prefixSize, prefixEnd := result, pos + result;
        }
      } else {
        if prefixSize >= KB64 - 1 {
          result := DecompressGeneric(Job(src, buf, pos, pos + maxOutputSize, WithPrefix64k, pos - KB64));
        } else {
          result := DecompressGeneric(Job(src, buf, pos, pos + maxOutputSize, NoDict, pos - prefixSize));
        }
        if result > 0 {
          prefixSize, prefixEnd := prefixSize + result, prefixEnd + result;
        }
      }
    }
  }

  /** A block encoded after some prefix is legal for a decoder that holds the same prefix. */
  lemma BlockIsLegal(data: seq<byte>, start: nat, block: seq<byte>, end: nat, history: seq<byte>, capacity: nat)
    requires Block(data, start, block, end) && history == data[..start] && end - start <= capacity
    ensures LegalBlock(block, history, capacity) && Meaning(block, 0, history) == Decoded(data[..end])
  {
    hide Meaning, MeetsEndRules;
  }

  /**
    Any number of blocks, cut anywhere, compressed one after the other by one
    stream and decoded one after the other into one buffer: as long as every
    block compresses, the buffer holds the input.
  */
  method StreamRoundTrip(stream: Stream, decoder: StreamDecode, data: seq<byte>, cuts: seq<nat>, dst: array<byte>,
                         buf: array<byte>, acceleration: int) returns (ok: bool, done: nat)
    requires stream.Continuable(0) && decoder.Rolling(0) && dst != buf && |data| <= buf.Length && dst.Length < 0x8000_0000
    requires forall i :: 0 <= i < |cuts| ==> (if i == 0 then 0 else cuts[i - 1]) <= cuts[i] <= |data|
    requires forall i :: 0 <= i < |cuts| ==> cuts[i] - (if i == 0 then 0 else cuts[i - 1]) <= MAX_INPUT_SIZE
    modifies stream, stream.hashTable, decoder, dst, buf
    ensures ok ==> done == (if |cuts| == 0 then 0 else cuts[|cuts| - 1])
    ensures done <= |data| && buf[..done] == data[..done]
    ensures !old(stream.dirty) && dst.Length >= CompressBound(MAX_INPUT_SIZE) ==> ok
  {
    hide Block, Meaning, LegalBlock, CompressBound;
    done := 0;
    for i := 0 to |cuts|
      invariant done == (if i == 0 then 0 else cuts[i - 1]) <= |data|
      invariant stream.Continuable(done) && stream.dirty == old(stream.dirty) && decoder.Rolling(done)
      invariant buf[..done] == data[..done]
    {
      var n := cuts[i] - done;
      assert data[..cuts[i]][..done] == data[..done];
      var size := stream.CompressFastContinue(data[..cuts[i]], done, dst, dst.Length, acceleration);
      if size == 0 {
        BoundGrows(n, MAX_INPUT_SIZE);
        return false, done;
      }
      BlockIsLegal(data[..cuts[i]], done, dst[..size], cuts[i], buf[..done], n);
      ghost var block := dst[..size];
      var r := decoder.DecompressSafeContinue(dst[..size], buf, done, n);
      assert Decoded(buf[..done + r]) == Decoded(data[..cuts[i]]);
      done := cuts[i];
    }
    ok := true;
  }

  lemma BoundGrows(n: nat, m: nat)
    requires n <= m
    ensures CompressBound(n) <= CompressBound(m)
  {
  }

  lemma RenormedEntries(was: seq<nat>, now: seq<nat>, offset: nat, delta: nat)
    requires |was| == |now| == TABLE_SIZE && offset < U32 && delta == (offset - KB64) % U32
    requires forall h :: 0 <= h < TABLE_SIZE ==> was[h] == 0 || was[h] < offset
    requires forall h :: U32_SLOTS <= h < TABLE_SIZE ==> was[h] == 0 && now[h] == 0
    requires forall h :: 0 <= h < U32_SLOTS ==> now[h] == if was[h] < delta then 0 else was[h] - delta
    ensures offset >= KB64 ==> Renormed(was, now, offset)
    ensures forall h :: 0 <= h < TABLE_SIZE ==> now[h] == 0 || now[h] < KB64
  {
  }

  /**
    What renormalisation promises: entries within 64 KB of the end keep their
    distance from it; all others become 0, which is 64 KB away and out of reach.
  */
  ghost predicate Renormed(was: seq<nat>, now: seq<nat>, offset: nat) {
    && |was| == |now| == TABLE_SIZE
    && forall h :: 0 <= h < TABLE_SIZE ==>
         now[h] == if was[h] + KB64 >= offset then was[h] + KB64 - offset else 0
  }

  lemma BlockIsNotEmpty(data: seq<byte>, start: nat, block: seq<byte>, end: nat)
    requires Block(data, start, block, end)
    ensures |block| > 0 && start <= end <= |data|
  {
  }
}
