/**
  LZ4F_decompress (lz4frame.c): a frame is decoded from whatever pieces it comes
  in, into whatever room there is. What the rest of the input is going to mean,
  given all that has been taken so far, is a function of the state, Outlook; no
  step of the machine ever changes it.
*/
module FrameDecoder {
  import opened BlockFormat
  import opened FrameFormat
  import opened FrameHistory
  import opened Sizes

  datatype Stage =
    | GetFrameHeader | StoreFrameHeader
    | Init
    | GetBlockHeader | StoreBlockHeader
    | CopyDirect | GetBlockChecksum
    | GetCBlock | StoreCBlock
    | FlushOut
    | GetSuffix | StoreSuffix
    | GetSFrameSize | StoreSFrameSize
    | SkipSkippable

  /** What a step decides: go on, ask for more (with a hint how much), the frame is complete, or an error. */
  datatype Verdict = Go | Stop(hint: nat) | Done | Fail

  /** What is known of the algorithms: sizes are respected, and only the last 64 KB of a history matter. */
  ghost predicate Sound(c: Codec) {
    && (forall b, h, n :: c.decode(b, h, n).Some? ==> |c.decode(b, h, n).value| <= n)
    && (forall b, h, n :: c.decode(b, h, n) == c.decode(b, Recent(h), n))
  }

  /** memcpy of as much input as is wanted and there. */
  method Fill(a: array<byte>, have: nat, want: nat, src: seq<byte>, p: nat) returns (now: nat, q: nat)
    requires have <= want <= a.Length && p <= |src|
    modifies a
    ensures p <= q <= |src| && have <= now <= want && now - have == q - p
    ensures now < want ==> q == |src|
    ensures a[..now] == old(a[..have]) + src[p..q]
  {
    var n := if want - have < |src| - p then want - have else |src| - p;
    forall i | 0 <= i < n {
      a[have + i] := src[p + i];
    }
    now, q := have + n, p + n;
    assert a[have..now] == src[p..q];
  }

  lemma Moved(held: seq<byte>, src: seq<byte>, p: nat, q: nat, more: seq<byte>)
    requires p <= q <= |src|
    ensures held + (src[p..] + more) == (held + src[p..q]) + (src[q..] + more)
  {
    assert src[p..] == src[p..q] + src[q..];
  }

  lemma BlockSizes()
    ensures forall id :: BlockSize(id) >= WINDOW
  {
  }

  lemma FirstFour(s: seq<byte>, t: seq<byte>)
    requires |s| >= 4 && |t| >= 4 && forall k :: 0 <= k < 4 ==> s[k] == t[k]
    ensures LE32(s) == LE32(t)
  {
  }

  /** Four bytes in front of the rest. */
  lemma AfterFour(four: seq<byte>, rest: seq<byte>)
    requires |four| == 4
    ensures LE32(four + rest) == LE32(four) && (four + rest)[4..] == rest
  {
  }

  /** An uncompressed block, cut in two or finished. */
  lemma DirectStep(c: Codec, info: Info, content: seq<byte>, block: seq<byte>, t: nat, src: seq<byte>, p: nat, q: nat, more: seq<byte>, owed: nat := 0)
    requires 0 < t && p <= q <= |src| && q - p <= t
    ensures ReadDirect(c, info, content, block, t, src[p..] + more, owed) ==
      if q - p < t then
        ReadDirect(c, info, content + src[p..q], if info.blockChecksum then block + src[p..q] else block, t - (q - p), src[q..] + more, owed)
      else if info.blockChecksum then
        ReadBlockChecksum(c, info, content + src[p..q], block + src[p..q], src[q..] + more, owed)
      else ReadBlocks(c, info, content + src[p..q], src[q..] + more, owed)
  {
    hide ReadBlocks, ReadBlockChecksum;
    var s, n := src[p..] + more, q - p;
    assert s[..n] == src[p..q] && s[n..] == src[q..] + more;
    if |s| >= t {
      assert s[..t] == s[..n] + s[n..][..t - n] && s[n..][t - n..] == s[t..];
      assert content + s[..n] + s[n..][..t - n] == content + s[..t];
      assert block + s[..n] + s[n..][..t - n] == block + s[..t];
    }
  }

  lemma SameDecode(c: Codec, block: seq<byte>, g: seq<byte>, h: seq<byte>, n: nat)
    requires Sound(c)
    ensures Recent(Recent(g)) == Recent(g)
    ensures Recent(g) == Recent(h) ==> c.decode(block, g, n) == c.decode(block, h, n)
  {
    assert c.decode(block, g, n) == c.decode(block, Recent(g), n);
    assert c.decode(block, h, n) == c.decode(block, Recent(h), n);
  }

  /** A compressed block of `n` bytes that has been gathered with its checksum. */
  lemma CompressedBlock(c: Codec, info: Info, content: seq<byte>, n: nat, sel: seq<byte>, rest: seq<byte>, owed: nat := 0)
    requires n > 0 && |sel| == n + ChecksumSize(info)
    ensures ReadCompressed(c, info, content, n, sel + rest, owed) ==
      if info.blockChecksum && LE32(sel[n..]) != c.checksum(sel[..n]) then Bad
      else
        match c.decode(sel[..n], History(info, content), BlockSize(info.blockSizeID))
        case None => Bad
        case Some(o) => ReadBlocks(c, info, content + o, rest, owed)
  {
    hide ReadBlocks, LE32;
    assert (sel + rest)[..n] == sel[..n] && (sel + rest)[|sel|..] == rest;
    if info.blockChecksum {
      assert (sel + rest)[n..] == sel[n..] + rest;
      AfterFour(sel[n..], rest);
    }
  }

  lemma SubtractTwice(a: nat, b: nat, n: nat)
    ensures ((a - b) % U64 - n) % U64 == (a - (b + n)) % U64
  {
  }

  lemma ShownGrows(e: seq<byte>, s: seq<byte>, a: nat, b: nat, c: nat)
    requires a <= b <= c <= |s|
    ensures e + s[a..b] + s[b..c] == e + s[a..c]
  {
    assert s[a..b] + s[b..c] == s[a..c];
  }

  lemma JoinEnds(a: seq<byte>, b: seq<byte>)
    ensures EndsWith(a + b, b)
  {
  }

  lemma DescriptorBits(bd: byte)
    ensures BlockSizeOk(bd) <==> !Flag(bd, 128) && bd / 16 % 8 >= 4 && bd % 16 == 0
    ensures 0 <= bd / 16 % 8 < 8
  {
  }

  /** A staging buffer of `len` bytes is large enough for every kind of block that `max` bytes of output are. */
  predicate RoomFor(max: nat, len: nat) {
    forall id :: 4 <= id <= 7 && BlockSize(id) <= max ==> BlockSize(id) + CHECKSUM <= len
  }

  /** Block sizes are so far apart that the room for history never makes up for one. */
  lemma NewRoom(id: nat, linked: bool)
    ensures RoomFor(BlockSize(id) + (if linked then 2 * WINDOW else 0), BlockSize(id) + CHECKSUM)
  {
  }

  lemma HeaderBytes(h: seq<byte>, size: nat)
    requires MIN_HEADER <= size <= |h|
    ensures h[..size][4..size - 1] == h[4..size - 1]
  {
  }

  /** What is decided by the first bytes of the input alone. */
  lemma ReadHeader(c: Codec, h: seq<byte>, more: seq<byte>, owed: nat := 0)
    requires |h| >= MIN_HEADER
    ensures LE32(h + more) == LE32(h) && (h + more)[4..] == h[4..] + more
    ensures (h + more)[4] == h[4]
    ensures LE32(h) / 16 != SKIPPABLE_START / 16 && LE32(h) == MAGIC && FlagsOk(h[4]) && |h| >= HeaderSize(h[4]) ==>
      var n := HeaderSize(h[4]);
      ReadFrame(c, h + more, owed) ==
        if !BlockSizeOk(h[5]) || !HeaderChecksumOk(c, h[..n]) then Bad
        else ReadBlocks(c, HeaderInfo(h[..n]), [], h[n..] + more, if Flag(h[4], 8) then 0 else owed)
  {
    if |h| >= HeaderSize(h[4]) {
      var n := HeaderSize(h[4]);
      assert (h + more)[..n] == h[..n] && (h + more)[n..] == h[n..] + more;
    }
  }

  class Dctx {
    const codec: Codec
    var info: Info
    var stage: Stage
    var frameRemainingSize: nat
    var maxBlockSize: nat
    var maxBufferSize: nat
    const header: array<byte>
    var tmpIn: array<byte>
    var tmpInSize: nat
    var tmpInTarget: nat
    /** What has been hashed for the content checksum, and for the checksum of the current block. */
    var xxh: seq<byte>
    var blockXxh: seq<byte>
    const out: Window
    /** Everything decoded in this frame. */
    ghost var content: seq<byte>
    /** What a frame that was given up had still to bring, as long as it counts. */
    ghost var owed: nat

    /** LZ4F_createDecompressionContext. */
    constructor (codec: Codec)
      ensures Valid() && stage == GetFrameHeader && this.codec == codec && owed == 0
      ensures fresh(header) && fresh(tmpIn) && fresh(out) && fresh(out.tmpOutBuffer)
    {
      this.codec := codec;
      stage, frameRemainingSize, maxBlockSize, maxBufferSize := GetFrameHeader, 0, 0, 0;
      info := Info(false, false, 0, false, 0, 0);
      header := new byte[MAX_HEADER];
      tmpIn := new byte[0];
      tmpInSize, tmpInTarget, xxh, blockXxh, content, owed := 0, 0, [], [], [], 0;
      out := new Window();
      new;
      BlockSizes();
    }

    ghost predicate Buffers()
      reads this`tmpIn, this`maxBufferSize, out`tmpOutBuffer
    {
      && header.Length == MAX_HEADER && tmpIn != header && out.tmpOutBuffer != header && out.tmpOutBuffer != tmpIn
      && maxBufferSize == out.tmpOutBuffer.Length
      && RoomFor(maxBufferSize, tmpIn.Length)
    }

    ghost predicate BetweenFrames()
      reads this`frameRemainingSize, this`owed, out`dict, out`dictSize
    {
      frameRemainingSize == owed && out.dict == Nowhere && out.dictSize == 0
    }

    ghost predicate InFrame()
      reads this`info, this`maxBlockSize, this`frameRemainingSize, this`owed, this`content
    {
      && 4 <= info.blockSizeID <= 7 && maxBlockSize == BlockSize(info.blockSizeID) && info.contentSize < U64
      && if info.contentSize == 0 then frameRemainingSize == owed
         else owed == 0 && frameRemainingSize == (info.contentSize - |content|) % U64
    }

    ghost predicate InBlocks()
      reads this`info, this`maxBlockSize, this`frameRemainingSize, this`owed, this`content, this`maxBufferSize, this`xxh
    {
      && InFrame() && maxBlockSize + (if info.linked then 2 * WINDOW else 0) <= maxBufferSize
      && (info.contentChecksum ==> xxh == content)
    }

    function Crc(): nat
      reads this`info
    {
      ChecksumSize(info)
    }

    ghost predicate HeaderStored()
      reads this, header
      requires header.Length == MAX_HEADER
    {
      && tmpInSize < tmpInTarget
      && if tmpInSize < MIN_HEADER then tmpInTarget == MIN_HEADER
         else LE32(header[..]) == MAGIC && FlagsOk(header[4]) && tmpInTarget == HeaderSize(header[4])
    }

    ghost predicate StageOk()
      requires header.Length == MAX_HEADER
      reads this, header, out, out.tmpOutBuffer
    {
      match stage
      case GetFrameHeader => BetweenFrames()
      case StoreFrameHeader => BetweenFrames() && HeaderStored()
      case Init => InFrame() && content == [] && out.dict == Nowhere && out.dictSize == 0
      case GetBlockHeader => InBlocks()
      case StoreBlockHeader => InBlocks() && tmpInSize < BLOCK_HEADER
      case CopyDirect => InBlocks() && 0 < tmpInTarget <= maxBlockSize
      case GetBlockChecksum => InBlocks() && info.blockChecksum && tmpInSize < CHECKSUM
      case GetCBlock => InBlocks() && Crc() < tmpInTarget <= maxBlockSize + Crc()
      case StoreCBlock => InBlocks() && Crc() < tmpInTarget <= maxBlockSize + Crc() && tmpInSize < tmpInTarget
      case FlushOut => InBlocks() && out.Due(content, out.tmpOutStart)
      case GetSuffix => InBlocks()
      case StoreSuffix => InBlocks() && owed == 0 && SizeOk(info, content) && info.contentChecksum && tmpInSize < CHECKSUM
      case GetSFrameSize => BetweenFrames()
      case StoreSFrameSize => BetweenFrames() && 4 <= tmpInSize < tmpInTarget == 8
      case SkipSkippable => BetweenFrames()
    }

    ghost predicate Valid()
      reads this, header, tmpIn, out, out.tmpOutBuffer
    {
      Buffers() && StageOk()
    }

    /** What the input from here on amounts to, all in all. */
    ghost function Outlook(s: seq<byte>): Reading
      requires Valid()
      reads this, header, tmpIn, out, out.tmpOutBuffer
    {
      match stage
      case GetFrameHeader => ReadFrame(codec, s, owed)
      case StoreFrameHeader => ReadFrame(codec, header[..tmpInSize] + s, owed)
      case Init => ReadBlocks(codec, info, [], s, owed)
      case GetBlockHeader => ReadBlocks(codec, info, content, s, owed)
      case StoreBlockHeader => ReadBlocks(codec, info, content, tmpIn[..tmpInSize] + s, owed)
      case CopyDirect => ReadDirect(codec, info, content, blockXxh, tmpInTarget, s, owed)
      case GetBlockChecksum => ReadBlockChecksum(codec, info, content, blockXxh, header[..tmpInSize] + s, owed)
      case GetCBlock => ReadCompressed(codec, info, content, tmpInTarget - Crc(), s, owed)
      case StoreCBlock => ReadCompressed(codec, info, content, tmpInTarget - Crc(), tmpIn[..tmpInSize] + s, owed)
      case FlushOut => ReadBlocks(codec, info, content, s, owed)
      case GetSuffix => ReadSuffix(codec, info, content, s, owed)
      case StoreSuffix => ReadSuffix(codec, info, content, tmpIn[..tmpInSize] + s, owed)
      case GetSFrameSize => ReadSkipSize(s)
      case StoreSFrameSize => ReadSkipSize(header[4..tmpInSize] + s)
      case SkipSkippable => ReadSkip(tmpInTarget, s)
    }

    /** Where the machine may stand between two calls. */
    ghost predicate Waiting()
      reads this`stage, this`tmpInTarget
    {
      stage !in {Init, GetSuffix} && (stage == SkipSkippable ==> tmpInTarget > 0)
    }

    /** A step has come to `q`: the outlook is what it was, or the frame is over, or it was no frame. */
    ghost predicate Keeps(was: Reading, src: seq<byte>, q: nat, more: seq<byte>, v: Verdict)
      requires q <= |src|
      reads this, header, tmpIn, out, out.tmpOutBuffer
    {
      match v
      case Fail => Buffers() && was == Bad
      case Done => Valid() && stage == GetFrameHeader && was == Frame(content, src[q..] + more)
      case Stop(hint) => Valid() && hint > 0 && Waiting() && was == Outlook(src[q..] + more)
      case Go => Valid() && was == Outlook(src[q..] + more)
    }

    /** LZ4F_decodeHeader, on input that begins with `h`; `fromHeader` when `h` has been gathered in `header`. */
    method DecodeHeader(h: seq<byte>, fromHeader: bool, ghost more: seq<byte>) returns (v: Option<nat>)
      requires Buffers() && BetweenFrames() && |h| >= MIN_HEADER
      requires if fromHeader then |h| <= MAX_HEADER && h == header[..|h|] else |h| >= MAX_HEADER
      requires fromHeader && |h| > MIN_HEADER ==> LE32(h) == MAGIC && FlagsOk(h[4]) && |h| == HeaderSize(h[4])
      modifies this
      ensures unchanged(this`tmpIn, this`maxBufferSize)
      ensures v.None? ==> Buffers() && ReadFrame(codec, h + more, old(owed)) == Bad
      ensures v.Some? ==> 0 < v.value <= |h| && (fromHeader ==> v.value == |h|) && Valid()
      ensures v.Some? ==> Outlook(h[v.value..] + more) == ReadFrame(codec, h + more, old(owed))
      ensures v.Some? ==> stage in {StoreFrameHeader, Init, GetSFrameSize, StoreSFrameSize}
      ensures v.Some? && stage == Init ==> content == []
    {
      hide ReadBlocks, LE32, LE64;
      info := Info(false, false, 0, false, 0, 0);
      ReadHeader(codec, h, more, owed);
      if LE32(h) / 16 == SKIPPABLE_START / 16 {
        if fromHeader {
          tmpInSize, tmpInTarget, stage := |h|, 8, StoreSFrameSize;
          assert header[4..tmpInSize] == h[4..] && h[|h|..] + more == more;
          return Some(|h|);
        }
        stage := GetSFrameSize;
        return Some(4);
      }
      if LE32(h) != MAGIC { return None; }
      var flg := h[4];
      if Flag(flg, 2) { return None; }
      if flg / 64 % 4 != 1 { return None; }
      var size := HeaderSize(flg);
      if |h| < size {
        tmpInSize, tmpInTarget, stage := |h|, size, StoreFrameHeader;
        assert h[|h|..] + more == more;
        FirstFour(header[..], h);
        return Some(|h|);
      }
      v := DecodeDescriptor(h, size, more);
    }

    /** The rest of LZ4F_decodeHeader: BD byte, checksum, and what the header says. */
    method DecodeDescriptor(h: seq<byte>, size: nat, ghost more: seq<byte>) returns (v: Option<nat>)
      requires Buffers() && BetweenFrames() && |h| >= MIN_HEADER && |h| >= size == HeaderSize(h[4])
      requires LE32(h) == MAGIC && FlagsOk(h[4])
      modifies this
      ensures unchanged(this`tmpIn, this`maxBufferSize)
      ensures v.None? ==> Buffers() && ReadFrame(codec, h + more, old(owed)) == Bad
      ensures v.Some? ==> v.value == size && Valid() && stage == Init && content == [] && info == HeaderInfo(h[..size])
      ensures v.Some? ==> Outlook(h[size..] + more) == ReadFrame(codec, h + more, old(owed))
    {
      hide ReadFrame, ReadBlocks, LE32, LE64;
      ReadHeader(codec, h, more, owed);
      DescriptorBits(h[5]);
      var bd := h[5];
      if Flag(bd, 128) { return None; }
      var blockSizeID := bd / 16 % 8;
      if blockSizeID < 4 { return None; }
      if bd % 16 != 0 { return None; }
      HeaderBytes(h, size);
      if codec.checksum(h[4..size - 1]) / 256 % 256 != h[size - 1] { return None; }
      info := HeaderInfo(h[..size]);
      maxBlockSize := BlockSize(blockSizeID);
      if Flag(h[4], 8) { frameRemainingSize, owed := info.contentSize, 0; }
      stage := Init;
      content := [];
      return Some(size);
    }

    /** dstage_getFrameHeader. */
    method AtGetFrameHeader(src: seq<byte>, p: nat, ghost more: seq<byte>) returns (q: nat, v: Verdict)
      requires Valid() && stage == GetFrameHeader && p <= |src|
      modifies this, header
      ensures unchanged(this`tmpIn) && p <= q <= |src|
      ensures Keeps(old(Outlook(src[p..] + more)), src, q, more, v) && v != Done
      ensures v == Go ==> q > p
      ensures v.Stop? ==> q == |src|
      ensures v != Fail ==> stage in {GetFrameHeader, StoreFrameHeader, Init, GetSFrameSize, StoreSFrameSize}
      ensures v != Fail && stage == Init ==> content == []
      ensures q == p && v != Fail ==> content == old(content)
    {
      hide ReadFrame;
      if |src| - p >= MAX_HEADER {
        var n := DecodeHeader(src[p..], false, more);
        if n.None? { return p, Fail; }
        assert src[p..][n.value..] == src[p + n.value..];
        return p + n.value, Go;
      }
      if |src| == p { return p, Stop(MIN_HEADER); }
      tmpInSize, tmpInTarget, stage := 0, MIN_HEADER, StoreFrameHeader;
      assert header[..0] + (src[p..] + more) == src[p..] + more;
      q, v := AtStoreFrameHeader(src, p, more);
    }

    /** dstage_storeFrameHeader. */
    method AtStoreFrameHeader(src: seq<byte>, p: nat, ghost more: seq<byte>) returns (q: nat, v: Verdict)
      requires Valid() && stage == StoreFrameHeader && p <= |src|
      modifies this, header
      ensures unchanged(this`tmpIn) && p <= q <= |src|
      ensures Keeps(old(Outlook(src[p..] + more)), src, q, more, v) && v != Done
      ensures v == Go ==> q > p
      ensures v.Stop? ==> q == |src|
      ensures v != Fail ==> stage in {GetFrameHeader, StoreFrameHeader, Init, GetSFrameSize, StoreSFrameSize}
      ensures v != Fail && stage == Init ==> content == []
      ensures q == p && v != Fail ==> content == old(content)
    {
      hide ReadFrame, LE32;
      ghost var held, had := header[..tmpInSize], header[..];
      tmpInSize, q := Fill(header, tmpInSize, tmpInTarget, src, p);
      Moved(held, src, p, q, more);
      if |held| >= MIN_HEADER { FirstFour(had, header[..]); }
      if tmpInSize < tmpInTarget {
        return q, Stop(tmpInTarget - tmpInSize + BLOCK_HEADER);
      }
      var h := header[..tmpInTarget];
      FirstFour(header[..], h);
      var n := DecodeHeader(h, true, src[q..] + more);
      if n.None? { return q, Fail; }
      assert h[n.value..] + (src[q..] + more) == src[q..] + more;
      v := Go;
    }

    /** dstage_init. Buffers that are large enough are kept; they are then large enough for the blocks, too. */
    method AtInit(ghost s: seq<byte>)
      requires Valid() && stage == Init
      modifies this`xxh, this`tmpIn, this`maxBufferSize, this`tmpInSize, this`tmpInTarget, this`stage
      modifies out`tmpOutBuffer, out`tmpOut, out`tmpOutStart, out`tmpOutSize
      ensures Valid() && stage == GetBlockHeader && Outlook(s) == old(Outlook(s))
      ensures out.dict == Nowhere && out.dictSize == 0 && out.tmpOut == 0
      ensures tmpIn == old(tmpIn) || fresh(tmpIn)
      ensures out.tmpOutBuffer == old(out.tmpOutBuffer) || fresh(out.tmpOutBuffer)
    {
      hide Valid, Outlook, Buffers, BlockSize, InFrame, ReadBlocks;
      InitSays(s);
      StartBlocks();
      BlocksBegin(s);
    }

    method StartBlocks()
      requires Buffers() && InFrame() && maxBlockSize == BlockSize(info.blockSizeID) && content == []
      modifies this`xxh, this`tmpIn, this`maxBufferSize, this`tmpInSize, this`tmpInTarget, this`stage
      modifies out`tmpOutBuffer, out`tmpOut, out`tmpOutStart, out`tmpOutSize
      ensures Buffers() && InBlocks() && stage == GetBlockHeader && out.tmpOut == 0
      ensures tmpIn == old(tmpIn) || fresh(tmpIn)
      ensures out.tmpOutBuffer == old(out.tmpOutBuffer) || fresh(out.tmpOutBuffer)
    {
      hide Buffers, InFrame;
      if info.contentChecksum { xxh := []; }
      MakeBuffers();
      tmpInSize, tmpInTarget := 0, 0;
      out.tmpOut, out.tmpOutStart, out.tmpOutSize := 0, 0, 0;
      stage := GetBlockHeader;
    }

    lemma InitSays(s: seq<byte>)
      requires Valid() && stage == Init
      ensures Buffers() && InFrame() && maxBlockSize == BlockSize(info.blockSizeID) && content == [] && out.dict == Nowhere && out.dictSize == 0
      ensures Outlook(s) == ReadBlocks(codec, info, [], s, owed)
    {
    }

    lemma BlocksBegin(s: seq<byte>)
      requires Buffers() && InBlocks() && stage == GetBlockHeader
      ensures Valid() && Outlook(s) == ReadBlocks(codec, info, content, s, owed)
    {
    }

    method MakeBuffers()
      requires Buffers() && maxBlockSize == BlockSize(info.blockSizeID)
      modifies this`tmpIn, this`maxBufferSize, out`tmpOutBuffer
      ensures Buffers() && maxBlockSize + (if info.linked then 2 * WINDOW else 0) <= maxBufferSize
      ensures tmpIn == old(tmpIn) || fresh(tmpIn)
      ensures out.tmpOutBuffer == old(out.tmpOutBuffer) || fresh(out.tmpOutBuffer)
    {
      hide BlockSize, RoomFor;
      NewRoom(info.blockSizeID, info.linked);
      var bufferNeeded := maxBlockSize + (if info.linked then 2 * WINDOW else 0);
      if bufferNeeded > maxBufferSize {
        tmpIn := new byte[maxBlockSize + CHECKSUM];
        out.tmpOutBuffer := new byte[bufferNeeded];
        maxBufferSize := bufferNeeded;
      }
    }

    /** dstage_getBlockHeader. */
    method AtGetBlockHeader(src: seq<byte>, p: nat, full: bool, ghost more: seq<byte>) returns (q: nat, v: Verdict)
      requires Valid() && stage == GetBlockHeader && p <= |src|
      modifies this`tmpInSize, this`tmpInTarget, this`blockXxh, this`stage, tmpIn
      ensures p <= q <= |src| && Keeps(old(Outlook(src[p..] + more)), src, q, more, v) && v != Done
      ensures v == Go ==> q > p
      ensures v.Stop? ==> q == |src| || full
      ensures !v.Fail? ==> stage in {StoreBlockHeader, GetSuffix, CopyDirect, GetCBlock}
    {
      hide ReadBlock, LE32;
      var s := src[p..];
      if |s| >= BLOCK_HEADER {
        FirstFour(s + more, src[p..p + BLOCK_HEADER]);
        assert (s + more)[BLOCK_HEADER..] == src[p + BLOCK_HEADER..] + more;
        q := p + BLOCK_HEADER;
        v := DecodeBlockHeader(LE32(src[p..q]), src, q, full, more);
        return;
      }
      tmpInSize, stage := 0, StoreBlockHeader;
      assert tmpIn[..0] + (s + more) == s + more;
      q, v := AtStoreBlockHeader(src, p, full, more);
    }

    /** dstage_storeBlockHeader. */
    method AtStoreBlockHeader(src: seq<byte>, p: nat, full: bool, ghost more: seq<byte>) returns (q: nat, v: Verdict)
      requires Valid() && stage == StoreBlockHeader && p <= |src|
      modifies this`tmpInSize, this`tmpInTarget, this`blockXxh, this`stage, tmpIn
      ensures p <= q <= |src| && Keeps(old(Outlook(src[p..] + more)), src, q, more, v) && v != Done
      ensures v == Go ==> q > p
      ensures v.Stop? ==> q == |src| || full
      ensures !v.Fail? ==> stage in {StoreBlockHeader, GetSuffix, CopyDirect, GetCBlock}
    {
      hide ReadBlock, LE32;
      ghost var held := tmpIn[..tmpInSize];
      tmpInSize, q := Fill(tmpIn, tmpInSize, BLOCK_HEADER, src, p);
      Moved(held, src, p, q, more);
      if tmpInSize < BLOCK_HEADER {
        return q, Stop(BLOCK_HEADER - tmpInSize);
      }
      var h := tmpIn[..BLOCK_HEADER];
      FirstFour(h + (src[q..] + more), h);
      assert (h + (src[q..] + more))[BLOCK_HEADER..] == src[q..] + more;
      v := DecodeBlockHeader(LE32(h), src, q, full, more);
    }

    /** What the block header `w` announces. */
    method DecodeBlockHeader(w: nat, src: seq<byte>, q: nat, full: bool, ghost more: seq<byte>) returns (v: Verdict)
      requires Buffers() && InBlocks() && q <= |src| && w < U32
      modifies this`tmpInTarget, this`blockXxh, this`stage
      ensures Keeps(old(ReadBlock(codec, info, content, w, src[q..] + more, owed)), src, q, more, v) && v != Done
      ensures v.Stop? ==> q == |src| || full
      ensures !v.Fail? ==> stage in {GetSuffix, CopyDirect, GetCBlock}
    {
      hide ReadSuffix, ReadDirect, ReadCompressed;
      var nextCBlockSize := w % UNCOMPRESSED;
      if nextCBlockSize == 0 {
        stage := GetSuffix;
        return Go;
      }
      if nextCBlockSize > maxBlockSize { return Fail; }
      if w >= UNCOMPRESSED {
        tmpInTarget := nextCBlockSize;
        blockXxh := [];
        stage := CopyDirect;
        return Go;
      }
      tmpInTarget := nextCBlockSize + Crc();
      stage := GetCBlock;
      v := if full || q == |src| then Stop(BLOCK_HEADER + nextCBlockSize + Crc()) else Go;
    }

    /** dstage_getBlockChecksum. */
    method AtGetBlockChecksum(src: seq<byte>, p: nat, ghost more: seq<byte>) returns (q: nat, v: Verdict)
      requires Valid() && stage == GetBlockChecksum && p <= |src|
      modifies this`tmpInSize, this`stage, header
      ensures p <= q <= |src| && Keeps(old(Outlook(src[p..] + more)), src, q, more, v) && v != Done
      ensures v == Go ==> q > p && stage == GetBlockHeader
      ensures v.Stop? ==> q == |src| && stage == GetBlockChecksum
    {
      hide LE32, ReadBlocks;
      ghost var held := header[..tmpInSize];
      var crcSrc;
      if |src| - p >= CHECKSUM && tmpInSize == 0 {
        crcSrc, q := src[p..p + CHECKSUM], p + CHECKSUM;
        assert held + (src[p..] + more) == crcSrc + (src[q..] + more);
      } else {
        tmpInSize, q := Fill(header, tmpInSize, CHECKSUM, src, p);
        Moved(held, src, p, q, more);
        if tmpInSize < CHECKSUM { return q, Stop(1); }
        crcSrc := header[..CHECKSUM];
      }
      AfterFour(crcSrc, src[q..] + more);
      if LE32(crcSrc) != codec.checksum(blockXxh) { return q, Fail; }
      stage := GetBlockHeader;
      v := Go;
    }

    /** dstage_getSuffix. */
    method AtGetSuffix(src: seq<byte>, p: nat, ghost more: seq<byte>) returns (q: nat, v: Verdict)
      requires Valid() && stage == GetSuffix && p <= |src|
      modifies this`tmpInSize, this`owed, this`stage, tmpIn, out`dict, out`dictSize
      ensures p <= q <= |src| && Keeps(old(Outlook(src[p..] + more)), src, q, more, v) && v != Go
      ensures v.Stop? ==> q == |src| && stage == StoreSuffix && unchanged(out`dict, out`dictSize)
    {
      hide LE32;
      if frameRemainingSize != 0 { return p, Fail; }
      if !info.contentChecksum {
        Reset();
        return p, Done;
      }
      if |src| - p < CHECKSUM {
        tmpInSize, stage := 0, StoreSuffix;
        assert tmpIn[..0] + (src[p..] + more) == src[p..] + more;
        q, v := AtStoreSuffix(src, p, more);
      } else {
        q := p + CHECKSUM;
        assert src[p..] + more == src[p..q] + (src[q..] + more);
        v := CheckSuffix(src[p..q], src[q..] + more);
      }
    }

    /** dstage_storeSuffix. */
    method AtStoreSuffix(src: seq<byte>, p: nat, ghost more: seq<byte>) returns (q: nat, v: Verdict)
      requires Valid() && stage == StoreSuffix && p <= |src|
      modifies this`tmpInSize, this`owed, this`stage, tmpIn, out`dict, out`dictSize
      ensures p <= q <= |src| && Keeps(old(Outlook(src[p..] + more)), src, q, more, v) && v != Go
      ensures v.Stop? ==> q == |src| && stage == StoreSuffix && unchanged(out`dict, out`dictSize)
    {
      hide LE32;
      ghost var held := tmpIn[..tmpInSize];
      tmpInSize, q := Fill(tmpIn, tmpInSize, CHECKSUM, src, p);
      Moved(held, src, p, q, more);
      if tmpInSize < CHECKSUM { return q, Stop(CHECKSUM - tmpInSize); }
      v := CheckSuffix(tmpIn[..CHECKSUM], src[q..] + more);
    }

    /** dstage_checkSuffix. */
    method CheckSuffix(crc: seq<byte>, ghost rest: seq<byte>) returns (v: Verdict)
      requires Buffers() && InBlocks() && |crc| == CHECKSUM && owed == 0 && SizeOk(info, content) && info.contentChecksum
      modifies this`stage, this`owed, out`dict, out`dictSize
      ensures v in {Done, Fail}
      ensures v == Fail ==> old(ReadSuffix(codec, info, content, crc + rest, owed)) == Bad
      ensures v == Done ==> Valid() && stage == GetFrameHeader && old(ReadSuffix(codec, info, content, crc + rest, owed)) == Frame(content, rest)
    {
      hide LE32;
      AfterFour(crc, rest);
      if LE32(crc) != codec.checksum(xxh) { return Fail; }
      Reset();
      v := Done;
    }

    /** LZ4F_resetDecompressionContext, at any time: the remaining size is not reset, so that it may be held against the next frame. */
    method Reset()
      requires Buffers()
      modifies this`stage, this`owed, out`dict, out`dictSize
      ensures Valid() && stage == GetFrameHeader && owed == frameRemainingSize
    {
      stage, out.dict, out.dictSize, owed := GetFrameHeader, Nowhere, 0, frameRemainingSize;
    }

    /** dstage_getSFrameSize. */
    method AtGetSFrameSize(src: seq<byte>, p: nat, ghost more: seq<byte>) returns (q: nat, v: Verdict)
      requires Valid() && stage == GetSFrameSize && p <= |src|
      modifies this`tmpInSize, this`tmpInTarget, this`stage, header
      ensures p <= q <= |src| && Keeps(old(Outlook(src[p..] + more)), src, q, more, v) && (v == Go || v.Stop?)
      ensures v == Go ==> q > p && stage == SkipSkippable
      ensures v.Stop? ==> q == |src| && stage == StoreSFrameSize
    {
      hide LE32, ReadSkip;
      if |src| - p >= 4 {
        q := p + 4;
        assert src[p..] + more == src[p..q] + (src[q..] + more);
        AfterFour(src[p..q], src[q..] + more);
        tmpInTarget, stage := LE32(src[p..q]), SkipSkippable;
        return q, Go;
      }
      tmpInSize, tmpInTarget, stage := 4, 8, StoreSFrameSize;
      assert header[4..4] + (src[p..] + more) == src[p..] + more;
      q, v := AtStoreSFrameSize(src, p, more);
    }

    /** dstage_storeSFrameSize. */
    method AtStoreSFrameSize(src: seq<byte>, p: nat, ghost more: seq<byte>) returns (q: nat, v: Verdict)
      requires Valid() && stage == StoreSFrameSize && p <= |src|
      modifies this`tmpInSize, this`tmpInTarget, this`stage, header
      ensures p <= q <= |src| && Keeps(old(Outlook(src[p..] + more)), src, q, more, v) && (v == Go || v.Stop?)
      ensures v == Go ==> q > p && stage == SkipSkippable
      ensures v.Stop? ==> q == |src| && stage == StoreSFrameSize
    {
      hide LE32, ReadSkip;
      ghost var held, had := header[..tmpInSize], tmpInSize;
      tmpInSize, q := Fill(header, tmpInSize, tmpInTarget, src, p);
      assert header[4..tmpInSize] == header[..tmpInSize][4..] == held[4..] + src[p..q];
      Moved(held[4..], src, p, q, more);
      if tmpInSize < tmpInTarget { return q, Stop(tmpInTarget - tmpInSize); }
      var size := header[4..8];
      AfterFour(size, src[q..] + more);
      tmpInTarget, stage := LE32(size), SkipSkippable;
      v := Go;
    }

    /** dstage_skipSkippable. */
    method AtSkipSkippable(src: seq<byte>, p: nat, ghost more: seq<byte>) returns (q: nat, v: Verdict)
      requires Valid() && stage == SkipSkippable && p <= |src|
      modifies this`tmpInTarget, this`stage, this`owed, this`content, out`dict, out`dictSize
      ensures p <= q <= |src| && Keeps(old(Outlook(src[p..] + more)), src, q, more, v) && (v == Done || v.Stop?)
      ensures v.Stop? ==> q == |src| && stage == SkipSkippable
      ensures if v == Done then content == [] else content == old(content)
    {
      ghost var all, n := src[p..] + more, tmpInTarget;
      var skipSize := if tmpInTarget < |src| - p then tmpInTarget else |src| - p;
      q := p + skipSize;
      tmpInTarget := tmpInTarget - skipSize;
      assert all[skipSize..] == src[q..] + more;
      if tmpInTarget > 0 {
        assert n <= |all| ==> all[n..] == all[skipSize..][tmpInTarget..];
        return q, Stop(tmpInTarget);
      }
      Reset();
      content := [];
      v := Done;
    }

    // ----- Output -----

    predicate HasHistory()
      reads this`stage
    {
      stage in {GetBlockHeader, StoreBlockHeader, CopyDirect, GetBlockChecksum, GetCBlock, StoreCBlock, FlushOut}
    }

    /** The history for the next block is at hand. */
    ghost predicate HistoryOk(dst: array<byte>)
      reads this, out, out.tmpOutBuffer, dst
    {
      && dst != header && dst != tmpIn && dst != out.tmpOutBuffer
      && (HasHistory() ==>
            if stage == FlushOut && info.linked then out.Flushing(dst, content, out.tmpOutStart)
            else out.Holds(dst, History(info, content)) && (!info.linked ==> out.dict == Nowhere && out.tmpOut == 0))
    }

    /** What has been given to the caller of this frame: all that was decoded but what waits to be flushed. */
    ghost function Emitted(): seq<byte>
      requires Valid()
      reads this, header, tmpIn, out, out.tmpOutBuffer
    {
      match stage
      case GetFrameHeader | StoreFrameHeader | GetSFrameSize | StoreSFrameSize | SkipSkippable => []
      case FlushOut => content[..|content| - out.tmpOutSize + out.tmpOutStart]
      case _ => content
    }

    /** In a call that began at `dstStart`, when `e0` had been emitted, output has come to `d`. */
    ghost predicate Ready(dst: array<byte>, dstStart: nat, d: nat, dstEnd: nat, e0: seq<byte>)
      reads this, header, tmpIn, out, out.tmpOutBuffer, dst
    {
      && Valid() && HistoryOk(dst) && Sound(codec)
      && dstStart <= d <= dstEnd <= dst.Length && (HasHistory() ==> out.Clear(d, dstEnd))
      && Emitted() == e0 + dst[dstStart..d]
    }

    /** `n` bytes of content have been written to the caller's buffer at `d0`. */
    method Account(dst: array<byte>, dstStart: nat, d0: nat, n: nat, ghost e0: seq<byte>)
      requires InBlocks() && dstStart <= d0 <= d0 + n <= dst.Length && content == e0 + dst[dstStart..d0]
      requires out.Holds(dst, History(info, content)) && (!info.linked ==> out.dict == Nowhere && out.tmpOut == 0)
      requires dst != out.tmpOutBuffer && (info.linked ==> out.tmpOutBuffer.Length >= 3 * WINDOW)
      modifies this`xxh, this`frameRemainingSize, this`content, out`dict, out`dictSize, out.tmpOutBuffer
      ensures InBlocks() && content == old(content) + dst[d0..d0 + n] == e0 + dst[dstStart..d0 + n]
      ensures out.Holds(dst, History(info, content)) && (!info.linked ==> out.dict == Nowhere && out.tmpOut == 0)
      ensures out.dict.InDst? ==> out.dict.at + out.dictSize == d0 + n
    {
      hide Window.Holds, EndsWith, InBlocks;
      ghost var before, shown := content, dst[dstStart..d0 + n];
      Tally(dst[d0..d0 + n]);
      assert shown == dst[dstStart..d0] + dst[d0..d0 + n];
      assert content == e0 + shown;
      JoinEnds(e0, shown);
      if info.linked { out.UpdateDirect(dst, d0, n, dstStart, before); }
    }

    /** `piece` is the next part of the content. */
    method Tally(piece: seq<byte>)
      requires InBlocks()
      modifies this`xxh, this`frameRemainingSize, this`content
      ensures InBlocks() && content == old(content) + piece
    {
      hide BlockSize;
      SubtractTwice(info.contentSize, |content|, |piece|);
      if info.contentChecksum { xxh := xxh + piece; }
      if info.contentSize > 0 { frameRemainingSize := (frameRemainingSize - |piece|) % U64; }
      content := content + piece;
    }

    /** The state of the output between two blocks. */
    ghost predicate Level(dst: array<byte>, dstStart: nat, d: nat, dstEnd: nat, e0: seq<byte>)
      reads this`info, this`maxBlockSize, this`frameRemainingSize, this`owed, this`content, this`maxBufferSize, this`xxh, this`tmpIn
      reads out, out.tmpOutBuffer, dst
    {
      && Buffers() && InBlocks() && dst != header && dst != tmpIn && dst != out.tmpOutBuffer
      && out.Holds(dst, History(info, content)) && (!info.linked ==> out.dict == Nowhere && out.tmpOut == 0)
      && dstStart <= d <= dstEnd <= dst.Length && out.Clear(d, dstEnd)
      && content == e0 + dst[dstStart..d]
    }

    /** `bytes` are put where output has come to. */
    method Deliver(dst: array<byte>, dstStart: nat, d0: nat, dstEnd: nat, room: nat, bytes: seq<byte>, ghost e0: seq<byte>)
      returns (d: nat)
      requires Level(dst, dstStart, d0, dstEnd, e0) && |bytes| <= room <= dstEnd - d0
      modifies this`xxh, this`frameRemainingSize, this`content, out`dict, out`dictSize, out.tmpOutBuffer, dst
      ensures Level(dst, dstStart, d, dstEnd, e0) && content == old(content) + bytes && d == d0 + |bytes|
      ensures forall k :: 0 <= k < d0 || dstEnd <= k < dst.Length ==> dst[k] == old(dst[k])
    {
      hide Window.DictBytes, Recent, InBlocks, RoomFor;
      RoomForHistory();
      ghost var shown := dst[dstStart..d0];
      out.Put(dst, d0, room, bytes);
      assert dst[dstStart..d0] == shown;
      Account(dst, dstStart, d0, |bytes|, e0);
      d := d0 + |bytes|;
    }

    lemma RoomForHistory()
      requires Buffers() && InBlocks()
      ensures out.tmpOutBuffer.Length >= maxBlockSize + (if info.linked then 2 * WINDOW else 0) && maxBlockSize >= WINDOW
    {
    }

    lemma AtDirect(dst: array<byte>, dstStart: nat, d: nat, dstEnd: nat, e0: seq<byte>, s: seq<byte>)
      requires Ready(dst, dstStart, d, dstEnd, e0) && stage == CopyDirect
      ensures Valid() && Level(dst, dstStart, d, dstEnd, e0) && Sound(codec) && 0 < tmpInTarget <= maxBlockSize
      ensures dstStart <= d <= dstEnd <= dst.Length && Outlook(s) == ReadDirect(codec, info, content, blockXxh, tmpInTarget, s, owed)
    {
      hide Window.Holds, InBlocks, ReadDirect, Sound;
    }

    /** dstage_copyDirect. */
    method AtCopyDirect(src: seq<byte>, p: nat, ghost more: seq<byte>,
                        dst: array<byte>, dstStart: nat, d0: nat, dstEnd: nat, ghost e0: seq<byte>)
      returns (q: nat, d: nat, v: Verdict)
      requires Ready(dst, dstStart, d0, dstEnd, e0) && stage == CopyDirect && p <= |src|
      modifies this`blockXxh, this`xxh, this`frameRemainingSize, this`content, this`tmpInSize, this`tmpInTarget, this`stage,
               out`dict, out`dictSize, out.tmpOutBuffer, dst
      ensures p <= q <= |src| && Keeps(old(Outlook(src[p..] + more)), src, q, more, v) && (v == Go || v.Stop?)
      ensures d0 <= d && Ready(dst, dstStart, d, dstEnd, e0)
      ensures v == Go ==> q > p
      ensures v.Stop? ==> d == dstEnd || (q == |src| && stage != FlushOut)
      ensures q == p && v != Fail ==> content == old(content)
      ensures forall k :: 0 <= k < d0 || dstEnd <= k < dst.Length ==> dst[k] == old(dst[k])
    {
      hide Ready, Level, Keeps, Valid, Outlook, ReadDirect, ReadBlocks, ReadBlockChecksum, Sound;
      AtDirect(dst, dstStart, d0, dstEnd, e0, src[p..] + more);
      var n := if |src| - p < dstEnd - d0 then |src| - p else dstEnd - d0;
      if tmpInTarget < n { n := tmpInTarget; }
      q := p + n;
      var piece := src[p..q];
      DirectStep(codec, info, content, blockXxh, tmpInTarget, src, p, q, more, owed);
      if info.blockChecksum { blockXxh := blockXxh + piece; }
      d := Deliver(dst, dstStart, d0, dstEnd, n, piece, e0);
      v := EndDirect(n, src, q, more, dst, dstStart, d, dstEnd, e0);
    }

    /** What follows when `n` more bytes of an uncompressed block have been passed on. */
    method EndDirect(n: nat, src: seq<byte>, q: nat, ghost more: seq<byte>,
                     dst: array<byte>, dstStart: nat, d: nat, dstEnd: nat, ghost e0: seq<byte>) returns (v: Verdict)
      requires Level(dst, dstStart, d, dstEnd, e0) && Sound(codec)
      requires stage == CopyDirect && 0 < tmpInTarget <= maxBlockSize && n <= tmpInTarget && q <= |src|
      modifies this`tmpInSize, this`tmpInTarget, this`stage
      ensures v == if n < old(tmpInTarget) then Stop(tmpInTarget + Crc() + BLOCK_HEADER) else Go
      ensures stage != FlushOut
      ensures Ready(dst, dstStart, d, dstEnd, e0)
      ensures Keeps(old(
        if n < tmpInTarget then ReadDirect(codec, info, content, blockXxh, tmpInTarget - n, src[q..] + more, owed)
        else if info.blockChecksum then ReadBlockChecksum(codec, info, content, blockXxh, src[q..] + more, owed)
        else ReadBlocks(codec, info, content, src[q..] + more, owed)), src, q, more, v)
    {
      hide Window.Holds, InBlocks, ReadDirect, ReadBlocks, ReadBlockChecksum, Sound;
      if n == tmpInTarget {
        if info.blockChecksum {
          tmpInSize, stage := 0, GetBlockChecksum;
          assert header[..0] + (src[q..] + more) == src[q..] + more;
        } else {
          stage := GetBlockHeader;
        }
        return Go;
      }
      tmpInTarget := tmpInTarget - n;
      v := Stop(tmpInTarget + Crc() + BLOCK_HEADER);
    }

    /** The call of the block decoder. More than 1 GB of dictionary is cut to the last 64 KB. */
    method Decode(dst: array<byte>, block: seq<byte>) returns (r: Option<seq<byte>>)
      requires Sound(codec) && InBlocks() && out.Holds(dst, History(info, content))
      ensures r == codec.decode(block, History(info, content), BlockSize(info.blockSizeID))
      ensures r.Some? ==> |r.value| <= maxBlockSize
    {
      var dict := out.DictBytes(dst);
      SameDecode(codec, block, dict, History(info, content), maxBlockSize);
      SameDecode(codec, block, dict, Recent(dict), maxBlockSize);
      if out.dictSize > 0x4000_0000 { dict := Recent(dict); }
      r := codec.decode(block, dict, maxBlockSize);
    }

    /** Copies the next `n` bytes of the block in tmpOut to the caller's buffer. */
    method FlushPiece(dst: array<byte>, dstStart: nat, d0: nat, dstEnd: nat, n: nat, ghost e0: seq<byte>)
      requires Ready(dst, dstStart, d0, dstEnd, e0) && stage == FlushOut
      requires out.tmpOutStart + n <= out.tmpOutSize && d0 + n <= dstEnd
      modifies dst
      ensures Valid() && HistoryOk(dst)
      ensures forall k :: 0 <= k < d0 || dstEnd <= k < dst.Length ==> dst[k] == old(dst[k])
      ensures dst[d0..d0 + n] == out.Buffer()[out.tmpOut + out.tmpOutStart..out.tmpOut + out.tmpOutStart + n]
      ensures content[..|content| - out.tmpOutSize + out.tmpOutStart + n] == e0 + dst[dstStart..d0 + n]
    {
      hide Ready, Valid, Recent, Window.DictBytes, Sound, Min, Window.Covered, Window.BlockIn, Window.Buffer;
      AtFlush(dst, dstStart, d0, dstEnd, e0, []);
      ghost var shown := dst[dstStart..d0];
      FlushedBytes(out.Buffer(), out.tmpOut, out.tmpOutSize, content, out.tmpOutStart, n);
      out.PutDue(dst, d0, n, content);
      assert dst[dstStart..d0] == shown;
      ShownGrows(e0, dst[..], dstStart, d0, d0 + n);
    }

    /** dstage_flushOut. */
    method AtFlushOut(dst: array<byte>, dstStart: nat, d0: nat, dstEnd: nat, ghost e0: seq<byte>, ghost s: seq<byte>)
      returns (d: nat, v: Verdict)
      requires Ready(dst, dstStart, d0, dstEnd, e0) && stage == FlushOut
      modifies this`stage, out`tmpOutStart, out`dict, out`dictSize, out.tmpOutBuffer, dst
      ensures d0 <= d <= dstEnd && Ready(dst, dstStart, d, dstEnd, e0) && Outlook(s) == old(Outlook(s))
      ensures if v == Go then stage == GetBlockHeader else v == Stop(BLOCK_HEADER) && d == dstEnd && stage == FlushOut
      ensures forall k :: 0 <= k < d0 || dstEnd <= k < dst.Length ==> dst[k] == old(dst[k])
    {
      hide Ready, Valid, HistoryOk, Outlook, Window.Clear, ReadBlocks;
      AtFlush(dst, dstStart, d0, dstEnd, e0, s);
      var n := if out.tmpOutSize - out.tmpOutStart < dstEnd - d0 then out.tmpOutSize - out.tmpOutStart else dstEnd - d0;
      d := d0 + n;
      FlushPiece(dst, dstStart, d0, dstEnd, n, e0);
      FlushedPiece(dst, dstStart, d0, dstEnd, n, e0);
      AtFlush(dst, dstStart, d, dstEnd, e0, s);
      if out.tmpOutStart == out.tmpOutSize {
        EndFlush(dst, dstStart, d, dstEnd, e0, s);
        return d, Go;
      }
      v := Stop(BLOCK_HEADER);
    }

    lemma AtFlush(dst: array<byte>, dstStart: nat, d: nat, dstEnd: nat, e0: seq<byte>, s: seq<byte>)
      requires Ready(dst, dstStart, d, dstEnd, e0) && stage == FlushOut
      ensures Valid() && HistoryOk(dst) && Sound(codec) && out.tmpOutStart <= out.tmpOutSize && out.Clear(d, dstEnd)
      ensures dstStart <= d <= dstEnd <= dst.Length && Outlook(s) == ReadBlocks(codec, info, content, s, owed)
      ensures dst != header && dst != tmpIn && dst != out.tmpOutBuffer
      ensures out.InRange(dst) && out.Due(content, out.tmpOutStart)
      ensures content[..|content| - out.tmpOutSize + out.tmpOutStart] == e0 + dst[dstStart..d]
    {
      hide Recent, Window.DictBytes, Window.Covered, Min, Window.Buffer, InBlocks, ReadBlocks, Sound;
    }

    method EndFlush(dst: array<byte>, dstStart: nat, d: nat, dstEnd: nat, ghost e0: seq<byte>, ghost s: seq<byte>)
      requires Ready(dst, dstStart, d, dstEnd, e0) && stage == FlushOut && out.tmpOutStart == out.tmpOutSize
      modifies this`stage
      ensures Ready(dst, dstStart, d, dstEnd, e0) && stage == GetBlockHeader && Outlook(s) == old(Outlook(s))
    {
      hide InBlocks, Window.Flushing, Window.Holds, Sound, ReadBlocks, RoomFor;
      if info.linked { out.Flushed(dst, content); }
      stage := GetBlockHeader;
    }

    /** The history management for a piece that has been flushed. */
    method FlushedPiece(dst: array<byte>, dstStart: nat, d0: nat, dstEnd: nat, n: nat, ghost e0: seq<byte>)
      requires Valid() && HistoryOk(dst) && Sound(codec) && stage == FlushOut
      requires out.tmpOutStart + n <= out.tmpOutSize && dstStart <= d0 <= d0 + n <= dstEnd <= dst.Length
      requires out.Clear(d0, dstEnd)
      requires dst[d0..d0 + n] == out.Buffer()[out.tmpOut + out.tmpOutStart..out.tmpOut + out.tmpOutStart + n]
      requires content[..|content| - out.tmpOutSize + out.tmpOutStart + n] == e0 + dst[dstStart..d0 + n]
      modifies out`tmpOutStart, out`dict, out`dictSize, out.tmpOutBuffer
      ensures Ready(dst, dstStart, d0 + n, dstEnd, e0) && out.tmpOutStart == old(out.tmpOutStart) + n
    {
      hide InBlocks, Recent, Window.DictBytes, Sound, EndsWith, Window.Covered, Window.InRange, Min, Window.Buffer, Valid, Ready, HistoryOk, Buffers;
      FlushIs(dst);
      JoinEnds(e0, dst[dstStart..d0 + n]);
      if info.linked { out.UpdateWithin(dst, d0, n, dstStart, content); }
      out.tmpOutStart := out.tmpOutStart + n;
      FlushReady(dst, dstStart, d0 + n, dstEnd, e0);
    }

    lemma FlushIs(dst: array<byte>)
      requires Valid() && HistoryOk(dst) && stage == FlushOut
      ensures Buffers() && InBlocks() && out.Due(content, out.tmpOutStart) && Flushable(dst)
      ensures info.linked ==> out.tmpOutBuffer.Length >= 3 * WINDOW
    {
      hide Recent, Min;
    }

    /** dstage_getCBlock. */
    method AtGetCBlock(src: seq<byte>, p: nat, ghost more: seq<byte>,
                       dst: array<byte>, dstStart: nat, d0: nat, dstEnd: nat, ghost e0: seq<byte>)
      returns (q: nat, d: nat, v: Verdict)
      requires Ready(dst, dstStart, d0, dstEnd, e0) && stage == GetCBlock && p <= |src|
      modifies this, out, out.tmpOutBuffer, dst
      ensures unchanged(this`tmpIn) && unchanged(out`tmpOutBuffer)
      ensures p <= q <= |src| && Keeps(old(Outlook(src[p..] + more)), src, q, more, v) && v != Done
      ensures d0 <= d <= dstEnd && (v != Fail ==> Ready(dst, dstStart, d, dstEnd, e0))
      ensures v == Go ==> q > p || stage == StoreCBlock
      ensures v.Stop? ==> d == dstEnd
      ensures q == p && v != Fail ==> content == old(content)
      ensures forall k :: 0 <= k < d0 || dstEnd <= k < dst.Length ==> dst[k] == old(dst[k])
    {
      hide Window.Holds, InBlocks, ReadCompressed, Sound;
      if |src| - p < tmpInTarget {
        tmpInSize, stage := 0, StoreCBlock;
        assert tmpIn[..0] + (src[p..] + more) == src[p..] + more;
        return p, d0, Go;
      }
      q := p + tmpInTarget;
      assert src[p..] + more == src[p..q] + (src[q..] + more);
      d, v := DecodeSelected(src[p..q], src, q, more, dst, dstStart, d0, dstEnd, e0);
    }

    /** dstage_storeCBlock. */
    method AtStoreCBlock(src: seq<byte>, p: nat, ghost more: seq<byte>,
                         dst: array<byte>, dstStart: nat, d0: nat, dstEnd: nat, ghost e0: seq<byte>)
      returns (q: nat, d: nat, v: Verdict)
      requires Ready(dst, dstStart, d0, dstEnd, e0) && stage == StoreCBlock && p <= |src|
      modifies this, tmpIn, out, out.tmpOutBuffer, dst
      ensures unchanged(this`tmpIn) && unchanged(out`tmpOutBuffer)
      ensures p <= q <= |src| && Keeps(old(Outlook(src[p..] + more)), src, q, more, v) && v != Done
      ensures d0 <= d <= dstEnd && (v != Fail ==> Ready(dst, dstStart, d, dstEnd, e0))
      ensures v == Go ==> q > p
      ensures v.Stop? ==> d == dstEnd || (q == |src| && stage != FlushOut)
      ensures q == p && v != Fail ==> content == old(content)
      ensures forall k :: 0 <= k < d0 || dstEnd <= k < dst.Length ==> dst[k] == old(dst[k])
    {
      hide Window.Holds, InBlocks, ReadCompressed, Sound;
      RoomForInput();
      ghost var held := tmpIn[..tmpInSize];
      tmpInSize, q := Fill(tmpIn, tmpInSize, tmpInTarget, src, p);
      Moved(held, src, p, q, more);
      if tmpInSize < tmpInTarget {
        return q, d0, Stop(tmpInTarget - tmpInSize + Crc() + BLOCK_HEADER);
      }
      d, v := DecodeSelected(tmpIn[..tmpInTarget], src, q, more, dst, dstStart, d0, dstEnd, e0);
    }

    lemma RoomForInput()
      requires Buffers() && InBlocks()
      ensures maxBlockSize + CHECKSUM <= tmpIn.Length
    {
    }

    /** A whole compressed block is there; its checksum is verified, and it is decoded. */
    method DecodeSelected(sel: seq<byte>, src: seq<byte>, q: nat, ghost more: seq<byte>,
                          dst: array<byte>, dstStart: nat, d0: nat, dstEnd: nat, ghost e0: seq<byte>)
      returns (d: nat, v: Verdict)
      requires Level(dst, dstStart, d0, dstEnd, e0) && Sound(codec) && q <= |src|
      requires |sel| == tmpInTarget && Crc() < tmpInTarget <= maxBlockSize + Crc()
      modifies this, out, out.tmpOutBuffer, dst
      ensures unchanged(this`tmpIn) && unchanged(out`tmpOutBuffer)
      ensures Keeps(old(ReadCompressed(codec, info, content, |sel| - Crc(), sel + (src[q..] + more), owed)), src, q, more, v)
      ensures v != Done && d0 <= d <= dstEnd && (v != Fail ==> Ready(dst, dstStart, d, dstEnd, e0))
      ensures v.Stop? ==> d == dstEnd
      ensures forall k :: 0 <= k < d0 || dstEnd <= k < dst.Length ==> dst[k] == old(dst[k])
    {
      hide Window.Holds, InBlocks, ReadCompressed, ReadBlocks, Sound, LE32, HeaderStored, BetweenFrames, InFrame, Recent, RoomFor, BlockSize;
      d := d0;
      CompressedBlock(codec, info, content, |sel| - Crc(), sel, src[q..] + more, owed);
      if info.blockChecksum {
        tmpInTarget := tmpInTarget - CHECKSUM;
        if LE32(sel[tmpInTarget..]) != codec.checksum(sel[..tmpInTarget]) { return d, Fail; }
      }
      var o := Decode(dst, sel[..tmpInTarget]);
      if o.None? { return d, Fail; }
      d, v := PassOn(o.value, dst, dstStart, d0, dstEnd, e0, src[q..] + more);
    }

    /** A decoded block goes to the caller directly, if there is room for the largest possible one. */
    method PassOn(block: seq<byte>, dst: array<byte>, dstStart: nat, d0: nat, dstEnd: nat, ghost e0: seq<byte>, ghost s: seq<byte>)
      returns (d: nat, v: Verdict)
      requires Level(dst, dstStart, d0, dstEnd, e0) && Sound(codec) && |block| <= maxBlockSize
      modifies this, out, out.tmpOutBuffer, dst
      ensures unchanged(this`tmpIn) && unchanged(out`tmpOutBuffer)
      ensures d0 <= d <= dstEnd && Ready(dst, dstStart, d, dstEnd, e0) && Outlook(s) == old(ReadBlocks(codec, info, content + block, s, owed))
      ensures v == Go || (v == Stop(BLOCK_HEADER) && d == dstEnd && stage == FlushOut)
      ensures forall k :: 0 <= k < d0 || dstEnd <= k < dst.Length ==> dst[k] == old(dst[k])
    {
      hide Level, Ready, Valid, HistoryOk, Outlook, Emitted, ReadBlocks, Sound;
      LevelSays(dst, dstStart, d0, dstEnd, e0);
      if dstEnd - d0 >= maxBlockSize {
        d := Deliver(dst, dstStart, d0, dstEnd, maxBlockSize, block, e0);
        LevelSays(dst, dstStart, d, dstEnd, e0);
        stage := GetBlockHeader;
        LevelIsReady(dst, dstStart, d, dstEnd, e0, s);
        v := Go;
      } else {
        DecodeToTmp(dst, dstStart, d0, dstEnd, block, e0);
        AtFlush(dst, dstStart, d0, dstEnd, e0, s);
        d, v := AtFlushOut(dst, dstStart, d0, dstEnd, e0, s);
      }
    }

    lemma LevelSays(dst: array<byte>, dstStart: nat, d: nat, dstEnd: nat, e0: seq<byte>)
      requires Level(dst, dstStart, d, dstEnd, e0)
      ensures dstStart <= d <= dstEnd <= dst.Length && dst != out.tmpOutBuffer
    {
    }

    lemma LevelIsReady(dst: array<byte>, dstStart: nat, d: nat, dstEnd: nat, e0: seq<byte>, s: seq<byte>)
      requires Level(dst, dstStart, d, dstEnd, e0) && Sound(codec) && stage == GetBlockHeader
      ensures Valid() && Ready(dst, dstStart, d, dstEnd, e0) && Outlook(s) == ReadBlocks(codec, info, content, s, owed)
    {
      hide Window.Holds, InBlocks, ReadBlocks, Sound, RoomFor;
    }

    /** The decoded block goes to tmpOut first. */
    method DecodeToTmp(dst: array<byte>, dstStart: nat, d: nat, dstEnd: nat, block: seq<byte>, ghost e0: seq<byte>)
      requires Level(dst, dstStart, d, dstEnd, e0) && Sound(codec) && |block| <= maxBlockSize
      modifies this`xxh, this`frameRemainingSize, this`content, this`stage, out, out.tmpOutBuffer
      ensures Ready(dst, dstStart, d, dstEnd, e0) && stage == FlushOut && content == old(content) + block
      ensures unchanged(out`tmpOutBuffer)
    {
      hide Sound, InBlocks, Buffers, Window.Flushing, Window.Holds, Window.Due, Window.Buffer, Recent, Min, BlockSize, Ready, Valid, HistoryOk;
      RoomForHistory();
      PutBlock(dst, block);
      DueNow(block);
      ghost var before := content;
      Tally(block);
      if info.linked { out.FlushBegins(dst, before, block); }
      assert content[..|before|] == before;
      stage := FlushOut;
      FlushReady(dst, dstStart, d, dstEnd, e0);
    }

    ghost predicate Flushable(dst: array<byte>)
      reads this, out, out.tmpOutBuffer, dst
    {
      && dst != header && dst != tmpIn && dst != out.tmpOutBuffer
      && if info.linked then out.Flushing(dst, content, out.tmpOutStart)
         else out.Holds(dst, []) && out.dict == Nowhere && out.tmpOut == 0
    }

    lemma FlushReady(dst: array<byte>, dstStart: nat, d: nat, dstEnd: nat, e0: seq<byte>)
      requires Buffers() && InBlocks() && stage == FlushOut && out.Due(content, out.tmpOutStart) && Sound(codec)
      requires Flushable(dst)
      requires dstStart <= d <= dstEnd <= dst.Length && out.Clear(d, dstEnd)
      requires content[..|content| - out.tmpOutSize + out.tmpOutStart] == e0 + dst[dstStart..d]
      ensures Ready(dst, dstStart, d, dstEnd, e0)
    {
      hide Sound, Recent, Min;
    }

    method PutBlock(dst: array<byte>, block: seq<byte>)
      requires dst != out.tmpOutBuffer && |block| <= maxBlockSize
      requires out.Holds(dst, History(info, content)) && (!info.linked ==> out.dict == Nowhere && out.tmpOut == 0)
      requires out.tmpOutBuffer.Length >= maxBlockSize + (if info.linked then 2 * WINDOW else 0) && maxBlockSize >= WINDOW
      modifies out`tmpOut, out`tmpOutSize, out`tmpOutStart, out`dict, out`dictSize, out.tmpOutBuffer
      ensures out.Holds(dst, History(info, content)) && (!info.linked ==> out.dict == Nowhere && out.tmpOut == 0)
      ensures out.tmpOutSize == |block| && out.tmpOutStart == 0
      ensures out.tmpOut + out.tmpOutSize <= out.tmpOutBuffer.Length
      ensures out.Buffer()[out.tmpOut..out.tmpOut + out.tmpOutSize] == block
      ensures info.linked ==> Min(out.tmpOut, WINDOW) == Min(|content|, WINDOW)
      ensures out.dict == InTmp ==> out.tmpOut == out.dictSize
      ensures out.dict.InDst? ==> out.dict == old(out.dict) && out.dictSize == old(out.dictSize)
    {
      hide Recent;
      if info.linked { out.MakeRoom(dst, content); }
      out.PutTmp(dst, maxBlockSize, block);
      out.tmpOutSize, out.tmpOutStart := |block|, 0;
    }

    lemma DueNow(block: seq<byte>)
      requires out.tmpOutSize == |block| && out.tmpOut + out.tmpOutSize <= out.tmpOutBuffer.Length
      requires out.Buffer()[out.tmpOut..out.tmpOut + out.tmpOutSize] == block
      ensures out.Due(content + block, 0)
    {
      assert (content + block)[|content|..] == block;
    }

    // ----- The machine -----

    /** Steps that neither take nor give anything lead to a stage of lower rank. */
    ghost function Rank(): nat
      reads this`stage
    {
      if stage in {Init, GetCBlock, FlushOut} then 1 else 0
    }

    /** A step that reads the header of a frame. */
    method StepHeader(src: seq<byte>, p: nat, ghost more: seq<byte>,
                      dst: array<byte>, dstStart: nat, d: nat, dstEnd: nat, ghost e0: seq<byte>)
      returns (q: nat, v: Verdict)
      requires Ready(dst, dstStart, d, dstEnd, e0) && p <= |src|
      requires stage in {GetFrameHeader, StoreFrameHeader, Init}
      modifies this, header, out
      ensures tmpIn == old(tmpIn) || fresh(tmpIn)
      ensures out.tmpOutBuffer == old(out.tmpOutBuffer) || fresh(out.tmpOutBuffer)
      ensures p <= q <= |src| && Keeps(old(Outlook(src[p..] + more)), src, q, more, v) && v != Done
      ensures v != Fail ==> Ready(dst, dstStart, d, dstEnd, e0)
      ensures v == Go ==> q > p || Rank() < old(Rank())
      ensures v.Stop? ==> q == |src| && stage != FlushOut
      ensures q == p && v != Fail ==> content == old(content)
    {
      hide Sound, ReadFrame, ReadBlocks, RoomFor, HeaderStored;
      ghost var shown := dst[dstStart..d];
      match stage {
        case GetFrameHeader => q, v := AtGetFrameHeader(src, p, more);
        case StoreFrameHeader => q, v := AtStoreFrameHeader(src, p, more);
        case Init =>
          AtInit(src[p..] + more);
          q, v := p, Go;
      }
      assert dst[dstStart..d] == shown;
    }

    /** A step inside a skippable frame. */
    method StepSkip(src: seq<byte>, p: nat, ghost more: seq<byte>,
                    dst: array<byte>, dstStart: nat, d: nat, dstEnd: nat, ghost e0: seq<byte>)
      returns (q: nat, v: Verdict)
      requires Ready(dst, dstStart, d, dstEnd, e0) && p <= |src|
      requires stage in {GetSFrameSize, StoreSFrameSize, SkipSkippable}
      modifies this`tmpInSize, this`owed, this`tmpInTarget, this`stage, this`content, header, out`dict, out`dictSize
      ensures p <= q <= |src| && Keeps(old(Outlook(src[p..] + more)), src, q, more, v) && v != Fail
      ensures Ready(dst, dstStart, d, dstEnd, e0)
      ensures v == Done ==> content == e0 + dst[dstStart..d]
      ensures v == Go ==> q > p
      ensures v.Stop? ==> q == |src| && stage != FlushOut
      ensures q == p && v != Done ==> content == old(content)
    {
      hide Sound, Outlook, RoomFor, Buffers, BetweenFrames, HeaderStored, InBlocks, InFrame;
      ghost var shown := dst[dstStart..d];
      match stage {
        case GetSFrameSize => q, v := AtGetSFrameSize(src, p, more);
        case StoreSFrameSize => q, v := AtStoreSFrameSize(src, p, more);
        case SkipSkippable => q, v := AtSkipSkippable(src, p, more);
      }
      assert dst[dstStart..d] == shown;
    }

    /** A step between the blocks of a frame, or after them. */
    method StepBetween(src: seq<byte>, p: nat, ghost more: seq<byte>,
                       dst: array<byte>, dstStart: nat, d: nat, dstEnd: nat, ghost e0: seq<byte>)
      returns (q: nat, v: Verdict)
      requires Ready(dst, dstStart, d, dstEnd, e0) && p <= |src|
      requires stage in {GetBlockHeader, StoreBlockHeader, GetBlockChecksum, GetSuffix, StoreSuffix}
      modifies this`tmpInSize, this`owed, this`tmpInTarget, this`blockXxh, this`stage, tmpIn, header, out`dict, out`dictSize
      ensures p <= q <= |src| && Keeps(old(Outlook(src[p..] + more)), src, q, more, v)
      ensures v != Fail && v != Done ==> Ready(dst, dstStart, d, dstEnd, e0)
      ensures v == Done ==> HistoryOk(dst) && content == e0 + dst[dstStart..d]
      ensures v == Go ==> q > p
      ensures v.Stop? ==> d == dstEnd || (q == |src| && stage != FlushOut)
    {
      hide Sound, InBlocks, Window.Holds, ReadBlocks, ReadSuffix, ReadBlockChecksum, RoomFor;
      ghost var shown := dst[dstStart..d];
      match stage {
        case GetBlockHeader => q, v := AtGetBlockHeader(src, p, d == dstEnd, more);
        case StoreBlockHeader => q, v := AtStoreBlockHeader(src, p, d == dstEnd, more);
        case GetBlockChecksum => q, v := AtGetBlockChecksum(src, p, more);
        case GetSuffix => q, v := AtGetSuffix(src, p, more);
        case StoreSuffix => q, v := AtStoreSuffix(src, p, more);
      }
      assert dst[dstStart..d] == shown;
    }

    /** A step that may give output. */
    method StepOutput(src: seq<byte>, p: nat, ghost more: seq<byte>,
                      dst: array<byte>, dstStart: nat, d0: nat, dstEnd: nat, ghost e0: seq<byte>)
      returns (q: nat, d: nat, v: Verdict)
      requires Ready(dst, dstStart, d0, dstEnd, e0) && p <= |src|
      requires stage in {CopyDirect, GetCBlock, StoreCBlock, FlushOut}
      modifies this, tmpIn, out, out.tmpOutBuffer, dst
      ensures unchanged(this`tmpIn) && unchanged(out`tmpOutBuffer)
      ensures p <= q <= |src| && Keeps(old(Outlook(src[p..] + more)), src, q, more, v) && v != Done
      ensures d0 <= d <= dstEnd && (v != Fail ==> Ready(dst, dstStart, d, dstEnd, e0))
      ensures v == Go ==> q > p || Rank() < old(Rank())
      ensures v.Stop? ==> d == dstEnd || (q == |src| && stage != FlushOut)
      ensures q == p && v != Fail && v != Done ==> content == old(content)
      ensures forall k :: 0 <= k < d0 || dstEnd <= k < dst.Length ==> dst[k] == old(dst[k])
    {
      hide Outlook, StageOk, HistoryOk, Sound, Emitted;
      match stage {
        case CopyDirect => q, d, v := AtCopyDirect(src, p, more, dst, dstStart, d0, dstEnd, e0);
        case GetCBlock => q, d, v := AtGetCBlock(src, p, more, dst, dstStart, d0, dstEnd, e0);
        case StoreCBlock => q, d, v := AtStoreCBlock(src, p, more, dst, dstStart, d0, dstEnd, e0);
        case FlushOut =>
          q := p;
          d, v := AtFlushOut(dst, dstStart, d0, dstEnd, e0, src[p..] + more);
      }
    }

    /** One step of the switch in LZ4F_decompress. */
    method Step(src: seq<byte>, p: nat, ghost more: seq<byte>,
                dst: array<byte>, dstStart: nat, d0: nat, dstEnd: nat, ghost e0: seq<byte>)
      returns (q: nat, d: nat, v: Verdict)
      requires Ready(dst, dstStart, d0, dstEnd, e0) && p <= |src|
      modifies this, header, tmpIn, out, out.tmpOutBuffer, dst
      ensures tmpIn == old(tmpIn) || fresh(tmpIn)
      ensures out.tmpOutBuffer == old(out.tmpOutBuffer) || fresh(out.tmpOutBuffer)
      ensures p <= q <= |src| && d0 <= d <= dstEnd && Keeps(old(Outlook(src[p..] + more)), src, q, more, v)
      ensures v != Fail && v != Done ==> Ready(dst, dstStart, d, dstEnd, e0)
      ensures v == Done ==> HistoryOk(dst) && content == e0 + dst[dstStart..d]
      ensures v == Go ==> q > p || Rank() < old(Rank())
      ensures v.Stop? ==> d == dstEnd || (q == |src| && stage != FlushOut)
      ensures q == p && v != Fail && v != Done ==> content == old(content)
      ensures forall k :: 0 <= k < d0 || dstEnd <= k < dst.Length ==> dst[k] == old(dst[k])
    {
      hide Outlook, StageOk, Emitted, Sound, HasHistory;
      d := d0;
      match stage {
        case GetFrameHeader | StoreFrameHeader | Init =>
          q, v := StepHeader(src, p, more, dst, dstStart, d0, dstEnd, e0);
        case GetSFrameSize | StoreSFrameSize | SkipSkippable =>
          q, v := StepSkip(src, p, more, dst, dstStart, d0, dstEnd, e0);
        case CopyDirect | GetCBlock | StoreCBlock | FlushOut =>
          q, d, v := StepOutput(src, p, more, dst, dstStart, d0, dstEnd, e0);
        case _ =>
          q, v := StepBetween(src, p, more, dst, dstStart, d0, dstEnd, e0);
      }
    }

    /** The history is where no caller can touch it. */
    ghost predicate Portable()
      reads this`stage, this`info, out`dict
    {
      HasHistory() && info.linked ==> out.dict == InTmp
    }

    /** The end of LZ4F_decompress: the history is saved, unless the caller promised to keep its buffer. */
    method SaveHistory(dst: array<byte>, dstStart: nat, d: nat, dstEnd: nat, stableDst: bool, ghost e0: seq<byte>, ghost s: seq<byte>)
      requires Valid() && Ready(dst, dstStart, d, dstEnd, e0) && stage != Init
      modifies out`dict, out`dictSize, out`tmpOut, out.tmpOutBuffer
      ensures Valid() && Ready(dst, dstStart, d, dstEnd, e0) && Outlook(s) == old(Outlook(s))
      ensures !stableDst ==> Portable()
      ensures forall k :: 0 <= k < dst.Length ==> dst[k] == old(dst[k])
    {
      hide Sound, InBlocks, RoomFor, Window.Covered, Window.Holds, Min, Window.Buffer, HeaderStored, BetweenFrames;
      hide InFrame, Recent, LE32, BlockSize, ReadFrame, ReadBlocks, ReadDirect, ReadBlockChecksum, ReadCompressed, ReadSuffix, ReadSkip, ReadSkipSize;
      if info.linked && out.dict != InTmp && !stableDst && HasHistory() {
        RoomForHistory();
        ghost var shown := dst[dstStart..d];
        out.Preserve(dst, stage == FlushOut, content);
        assert dst[dstStart..d] == shown;
      }
    }

    /**
      LZ4F_decompress. It takes all it is given or fills all the room it has,
      unless the frame is complete. What the caller has in the end depends on
      the input alone: the outlook over what is to come stays the same.
    */
    method Decompress(dst: array<byte>, dstStart: nat, dstSize: nat, src: seq<byte>, stableDst: bool, ghost more: seq<byte>)
      returns (v: Verdict, consumed: nat, produced: nat)
      requires dstStart + dstSize <= dst.Length
      requires Valid() && Ready(dst, dstStart, dstStart, dstStart + dstSize, Emitted()) && stage != Init
      modifies this, header, tmpIn, out, out.tmpOutBuffer, dst
      ensures tmpIn == old(tmpIn) || fresh(tmpIn)
      ensures out.tmpOutBuffer == old(out.tmpOutBuffer) || fresh(out.tmpOutBuffer)
      ensures v != Go && consumed <= |src| && produced <= dstSize && Keeps(old(Outlook(src + more)), src, consumed, more, v)
      ensures v.Stop? ==> produced == dstSize || (consumed == |src| && stage != FlushOut)
      ensures v.Stop? && consumed == 0 ==> content == old(content)
      ensures v.Stop? ==> Ready(dst, dstStart, dstStart + produced, dstStart + dstSize, old(Emitted()))
      ensures v.Stop? && !stableDst ==> Portable()
      ensures v == Done ==> content == old(Emitted()) + dst[dstStart..dstStart + produced]
      ensures forall k :: 0 <= k < dstStart || dstStart + dstSize <= k < dst.Length ==> dst[k] == old(dst[k])
    {
      hide Ready, Valid, HistoryOk, Outlook, Emitted;
      ghost var e0, was := Emitted(), Outlook(src + more);
      var p, d, dstEnd := 0, dstStart, dstStart + dstSize;
      v := Go;
      assert src[0..] == src;
      while v == Go
        invariant tmpIn == old(tmpIn) || fresh(tmpIn)
        invariant out.tmpOutBuffer == old(out.tmpOutBuffer) || fresh(out.tmpOutBuffer)
        invariant 0 <= p <= |src| && dstStart <= d <= dstEnd && Keeps(was, src, p, more, v)
        invariant v != Fail && v != Done ==> Ready(dst, dstStart, d, dstEnd, e0)
        invariant v == Done ==> content == e0 + dst[dstStart..d]
        invariant v.Stop? ==> d == dstEnd || (p == |src| && stage != FlushOut)
        invariant p == 0 && v != Fail && v != Done ==> content == old(content)
        invariant forall k :: 0 <= k < dstStart || dstEnd <= k < dst.Length ==> dst[k] == old(dst[k])
        decreases v == Go, |src| - p + (dstEnd - d), Rank()
      {
        p, d, v := Step(src, p, more, dst, dstStart, d, dstEnd, e0);
      }
      if v == Fail { return v, 0, 0; }
      if v.Stop? { SaveHistory(dst, dstStart, d, dstEnd, stableDst, e0, src[p..] + more); }
      consumed, produced := p, d - dstStart;
    }

    /** With the history in its own place, the next call may use any buffer. */
    lemma AnyBuffer(dst: array<byte>, dstStart: nat, d: nat, dstEnd: nat, e0: seq<byte>, next: array<byte>, from: nat, upto: nat)
      requires Ready(dst, dstStart, d, dstEnd, e0) && Portable()
      requires next != header && next != tmpIn && next != out.tmpOutBuffer && from <= upto <= next.Length
      ensures Ready(next, from, from, upto, Emitted())
    {
      hide Sound, InBlocks, RoomFor, Recent;
      assert next[from..from] == [];
      assert Emitted() + [] == Emitted();
    }

    lemma BuffersThen()
      requires Valid()
      ensures Buffers()
    {
    }

    lemma EmittedIsPart()
      requires Valid()
      ensures |Emitted()| <= |content|
    {
    }

    /** With nothing left to read or to flush, the input ends too early. */
    lemma Starved()
      requires Valid() && Waiting() && stage != FlushOut
      ensures Outlook([]) == Short
    {
      match stage {
        case StoreFrameHeader =>
          var h := header[..tmpInSize];
          assert h + [] == h;
          if |h| >= 4 { FirstFour(header[..], h); }
        case GetBlockChecksum => assert header[..tmpInSize] + [] == header[..tmpInSize];
        case StoreBlockHeader | StoreSuffix =>
          RoomForInput();
          assert tmpIn[..tmpInSize] + [] == tmpIn[..tmpInSize];
        case StoreCBlock =>
          RoomForInput();
          assert tmpIn[..tmpInSize] + [] == tmpIn[..tmpInSize];
          assert Outlook([]) == ReadCompressed(codec, info, content, tmpInTarget - Crc(), tmpIn[..tmpInSize], owed);
        case StoreSFrameSize => assert header[4..tmpInSize] + [] == header[4..tmpInSize];
        case _ =>
      }
    }
  }

  datatype Ending = Complete | Rejected | Unfinished

  /**
    Repeated calls, the k-th of which is given at most chunk(k) bytes of input
    and room(k) bytes of room. Whatever the pieces, the calls take exactly the
    frame and give exactly its content; an input that is no frame, or no more
    than the beginning of one, is always found out.
  */
  method DecodeFrame(dctx: Dctx, input: seq<byte>, chunk: nat -> nat, room: nat -> nat)
    returns (ending: Ending, output: seq<byte>, used: nat)
    requires dctx.Valid() && dctx.stage == GetFrameHeader && Sound(dctx.codec)
    requires forall k :: chunk(k) > 0 && room(k) > 0
    modifies dctx, dctx.header, dctx.tmpIn, dctx.out, dctx.out.tmpOutBuffer
    ensures used <= |input| && dctx.Buffers() && (ending == Complete ==> dctx.Valid() && dctx.stage == GetFrameHeader)
    ensures match ReadFrame(dctx.codec, input, old(dctx.owed))
      case Frame(content, rest) => ending == Complete && output == content && input[used..] == rest
      case Bad => ending == Rejected
      case Short => ending == Unfinished
  {
    hide ReadFrame, Dctx.Buffers, Between;
    ghost var goal := ReadFrame(dctx.codec, input, dctx.owed);
    output, used := [], 0;
    var k := 0;
    var v := Stop(1);
    var dst := new byte[0];
    ghost var last, e0 := 0, [];
    AtTheStart(dctx, dst, input);
    while v.Stop? && (used < |input| || dctx.stage == FlushOut)
      invariant 0 <= used <= |input| && 0 <= last && dctx.Buffers()
      invariant dctx.tmpIn == old(dctx.tmpIn) || fresh(dctx.tmpIn)
      invariant dctx.out.tmpOutBuffer == old(dctx.out.tmpOutBuffer) || fresh(dctx.out.tmpOutBuffer)
      invariant Between(dctx, v, input, used, output, goal, dst, last, e0)
      invariant v.Stop? ==> |output| <= |dctx.content|
      decreases v.Stop?, |input| - used, |dctx.content| - |output|, dctx.stage == FlushOut
    {
      var n := if chunk(k) < |input| - used then chunk(k) else |input| - used;
      var consumed, produced;
      v, consumed, produced, dst := CallOnce(dctx, input, used, n, room(k), output, goal, v, dst, last, e0);
      e0 := output;
      output := output + dst[..produced];
      used, k, last := used + consumed, k + 1, produced;
    }
    AtTheEnd(dctx, v, input, used, output, goal, dst, last, e0);
    ending := if v == Done then Complete else if v == Fail then Rejected else Unfinished;
  }

  /** Between two calls: what was shown is what was decoded, and the outlook is the goal; or it is reached. */
  ghost predicate Between(dctx: Dctx, v: Verdict, input: seq<byte>, used: nat, output: seq<byte>, goal: Reading,
                          dst: array<byte>, last: nat, e0: seq<byte>)
    requires used <= |input|
    reads dctx, dctx.header, dctx.tmpIn, dctx.out, dctx.out.tmpOutBuffer, dst
  {
    match v
    case Go => false
    case Fail => goal == Bad
    case Done => goal == Frame(output, input[used..]) && dctx.Valid() && dctx.stage == GetFrameHeader
    case Stop(_) =>
      && dctx.Valid() && dctx.Ready(dst, 0, last, dst.Length, e0) && dctx.Portable() && dctx.Waiting()
      && dctx.Emitted() == output && dctx.Outlook(input[used..]) == goal
  }

  lemma AtTheEnd(dctx: Dctx, v: Verdict, input: seq<byte>, used: nat, output: seq<byte>, goal: Reading,
                 dst: array<byte>, last: nat, e0: seq<byte>)
    requires used <= |input| && Between(dctx, v, input, used, output, goal, dst, last, e0)
    requires v.Stop? ==> used == |input| && dctx.stage != FlushOut
    ensures v != Go && (v == Fail ==> goal == Bad)
    ensures v == Done ==> goal == Frame(output, input[used..]) && dctx.Valid() && dctx.stage == GetFrameHeader
    ensures v.Stop? ==> goal == Short
  {
    hide Dctx.Valid, Dctx.Ready, Dctx.Outlook, Dctx.Emitted, Dctx.Portable, Dctx.Waiting;
    if v.Stop? {
      assert input[used..] == [];
      dctx.Starved();
    }
  }

  /** One call, into a buffer of its own. */
  method CallOnce(dctx: Dctx, input: seq<byte>, used: nat, n: nat, size: nat, ghost output: seq<byte>, ghost goal: Reading,
                  ghost asked: Verdict, ghost before: array<byte>, ghost last: nat, ghost e0: seq<byte>)
    returns (v: Verdict, consumed: nat, produced: nat, next: array<byte>)
    requires used + n <= |input| && asked.Stop? && Between(dctx, asked, input, used, output, goal, before, last, e0)
    modifies dctx, dctx.header, dctx.tmpIn, dctx.out, dctx.out.tmpOutBuffer
    ensures dctx.tmpIn == old(dctx.tmpIn) || fresh(dctx.tmpIn)
    ensures dctx.out.tmpOutBuffer == old(dctx.out.tmpOutBuffer) || fresh(dctx.out.tmpOutBuffer)
    ensures consumed <= n && produced <= next.Length && dctx.Buffers()
    ensures Between(dctx, v, input, used + consumed, output + next[..produced], goal, next, produced, output)
    ensures v.Stop? ==> produced == size || (consumed == n && dctx.stage != FlushOut)
    ensures v.Stop? && consumed == 0 ==> dctx.content == old(dctx.content)
    ensures v.Stop? ==> |output| + produced <= |dctx.content|
  {
    hide ReadFrame, Dctx.Valid, Dctx.HistoryOk, Dctx.Outlook, Dctx.Emitted, Dctx.HasHistory, Dctx.Portable, Dctx.Buffers, Sound;
    next := new byte[size];
    dctx.AnyBuffer(before, 0, last, before.Length, e0, next, 0, next.Length);
    ghost var more := input[used + n..];
    assert input[used..] == input[used..used + n] + more;
    v, consumed, produced := dctx.Decompress(next, 0, next.Length, input[used..used + n], false, more);
    if v != Fail {
      dctx.BuffersThen();
      assert input[used + consumed..] == input[used..used + n][consumed..] + more;
      assert next[0..0 + produced] == next[..produced];
    }
    if v.Stop? { dctx.EmittedIsPart(); }
  }

  /** Before the first call, any buffer will do. */
  lemma AtTheStart(dctx: Dctx, dst: array<byte>, input: seq<byte>)
    requires dctx.Valid() && dctx.stage == GetFrameHeader && Sound(dctx.codec)
    requires dst != dctx.header && dst != dctx.tmpIn && dst != dctx.out.tmpOutBuffer
    ensures Between(dctx, Stop(1), input, 0, [], ReadFrame(dctx.codec, input, dctx.owed), dst, 0, []) && dctx.Buffers()
  {
    hide ReadFrame;
    assert dst[0..0] == [] && input[0..] == input;
  }

  /**
    Whatever a context was in the middle of, and whatever error it ran into,
    after a reset it decodes a frame as a new context does if and only if
    nothing remained of the content size of the old frame, or the new one states
    its own, or is skippable. Otherwise it refuses the frame.
  */
  method DecodeAfterReset(dctx: Dctx, input: seq<byte>, chunk: nat -> nat, room: nat -> nat)
    returns (ending: Ending, output: seq<byte>, used: nat)
    requires dctx.Buffers() && Sound(dctx.codec) && forall k :: chunk(k) > 0 && room(k) > 0
    modifies dctx, dctx.header, dctx.tmpIn, dctx.out, dctx.out.tmpOutBuffer
    ensures used <= |input| && dctx.Buffers()
    ensures match ReadFrame(dctx.codec, input)
      case Frame(content, rest) =>
        && |input| >= MIN_HEADER
        && (ending == Complete && output == content && input[used..] == rest <==> Unaffected(input, old(dctx.frameRemainingSize)))
        && (ending == Rejected <==> !Unaffected(input, old(dctx.frameRemainingSize)))
      case _ => ending != Complete
  {
    hide ReadFrame, Dctx.Valid, Dctx.Buffers, Unaffected;
    dctx.Reset();
    ghost var owed := dctx.owed;
    if ReadFrame(dctx.codec, input).Frame? { ResetMatters(dctx.codec, input, owed); }
    NeverBetter(dctx.codec, input, owed);
    ending, output, used := DecodeFrame(dctx, input, chunk, room);
  }

  lemma NeverBetter(c: Codec, s: seq<byte>, owed: nat)
    ensures ReadFrame(c, s, owed).Frame? ==> ReadFrame(c, s).Frame?
  {
    hide ReadBlocks, LE32, Flag;
    if owed != 0 && ReadFrame(c, s, owed).Frame? && !Unaffected(s, owed) {
      var h := s[..HeaderSize(s[4])];
      OwedSpoils(c, HeaderInfo(h), [], s[|h|..], owed);
    }
  }
}
