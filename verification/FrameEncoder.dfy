/**
  The frame encoder (lz4frame.c): input is buffered until there is enough for a
  block, and blocks are written with their headers and checksums. Everything
  that has gone in is, at any time, in the blocks written or in the buffer.
*/
module FrameEncoder {
  import opened BlockFormat
  import opened FrameFormat
  import opened FrameHistory
  import opened Sizes
  import FrameDecoder

  /** No object of the 64-bit configuration is larger. */
  const ADDRESSABLE := 0x8000_0000_0000

  datatype Prefs = Prefs(info: Info, autoFlush: bool)

  predicate PrefsOk(p: Prefs) {
    && (p.info.blockSizeID == 0 || 4 <= p.info.blockSizeID <= 7)
    && p.info.contentSize < U64 && p.info.dictID < U32
  }

  // ----- Sizes -----

  /** LZ4F_getBlockSize, for the sizes there are. */
  function GetBlockSize(id: nat): nat {
    BlockSize(if id == 0 then 4 else id)
  }

  /** The smallest block size that holds the input, if the requested one is larger. */
  function OptimalID(requested: nat, srcSize: nat): nat {
    if requested > 4 && srcSize <= 0x1_0000 then 4
    else if requested > 5 && srcSize <= 0x4_0000 then 5
    else if requested > 6 && srcSize <= 0x10_0000 then 6
    else requested
  }

  /** LZ4F_optimalBSID. */
  method OptimalBSID(requested: nat, srcSize: nat) returns (id: nat)
    requires requested <= 7
    ensures id <= requested && (id < requested ==> 4 <= id && srcSize <= GetBlockSize(id))
    ensures forall k :: 4 <= k < id ==> GetBlockSize(k) < srcSize
    ensures id == OptimalID(requested, srcSize)
  {
    id := 4;
    var maxBlockSize := 0x1_0000;
    assert GetBlockSize(4) == 0x1_0000 && GetBlockSize(5) == 0x4_0000 && GetBlockSize(6) == 0x10_0000;
    while requested > id
      invariant 4 <= id && (id <= requested || requested < 4 == id)
      invariant id <= 7 && (requested >= 4 ==> maxBlockSize == GetBlockSize(id))
      invariant forall k :: 4 <= k < id ==> GetBlockSize(k) < srcSize
    {
      if srcSize <= maxBlockSize { return; }
      id, maxBlockSize := id + 1, maxBlockSize * 4;
    }
    id := requested;
  }

  /** LZ4F_compressBound_internal, whose block count is an unsigned int. */
  function BoundInternal(srcSize: nat, p: Prefs, alreadyBuffered: nat): nat {
    var blockSize := GetBlockSize(p.info.blockSizeID);
    var maxSrcSize := srcSize + (if alreadyBuffered < blockSize - 1 then alreadyBuffered else blockSize - 1);
    var nbFullBlocks := maxSrcSize / blockSize % U32;
    var lastBlockSize := if p.autoFlush || srcSize == 0 then maxSrcSize % blockSize else 0;
    BlocksBound(nbFullBlocks, lastBlockSize, blockSize, ChecksumSize(p.info)) + FrameEnd(p.info)
  }

  function BlocksBound(nbFull: nat, last: nat, blockSize: nat, crc: nat): nat {
    (BLOCK_HEADER + crc) * (nbFull + (if last > 0 then 1 else 0)) + blockSize * nbFull + last
  }

  function FrameEnd(info: Info): nat {
    BLOCK_HEADER + (if info.contentChecksum then CHECKSUM else 0)
  }

  /** LZ4F_compressFrameBound. */
  function FrameBound(srcSize: nat, p: Prefs): nat {
    MAX_HEADER + BoundInternal(srcSize, p.(autoFlush := true), 0)
  }

  /** The space for `n` bytes of blocks: all full ones, and the rest if `all` is to be written. */
  function Space(n: nat, blockSize: nat, crc: nat, all: bool): nat
    requires blockSize > 0
  {
    if n >= blockSize then BLOCK_HEADER + crc + blockSize + Space(n - blockSize, blockSize, crc, all)
    else if all && n > 0 then BLOCK_HEADER + crc + n
    else 0
  }

  /** The bound is that space, and the end of the frame. */
  lemma BoundIsSpace(srcSize: nat, p: Prefs, buffered: nat)
    requires PrefsOk(p) && srcSize <= ADDRESSABLE && buffered < GetBlockSize(p.info.blockSizeID)
    ensures BoundInternal(srcSize, p, buffered) == FrameEnd(p.info) +
            Space(srcSize + buffered, GetBlockSize(p.info.blockSizeID), ChecksumSize(p.info), p.autoFlush || srcSize == 0)
  {
    hide Space, BlockSize, BlocksBound, FrameEnd;
    var n, crc, all := srcSize + buffered, ChecksumSize(p.info), p.autoFlush || srcSize == 0;
    var id := if p.info.blockSizeID == 0 then 4 else p.info.blockSizeID;
    SpaceIs(n, id, crc, all);
    FewBlocks(n, id);
    SmallModulo(n / BlockSize(id));
  }

  lemma SmallModulo(q: nat)
    requires q < U32
    ensures q % U32 == q
  {
  }

  lemma FewBlocks(n: nat, id: nat)
    requires n < ADDRESSABLE + BlockSize(id)
    ensures BlockSize(id) > 0 && n / BlockSize(id) < U32
  {
    if id == 4 { assert n / 0x1_0000 < U32; }
    else if id == 5 { assert n / 0x4_0000 < U32; }
    else if id == 6 { assert n / 0x10_0000 < U32; }
    else { assert n / 0x40_0000 < U32; }
  }

  lemma {:induction false} SpaceIs(n: nat, id: nat, crc: nat, all: bool)
    ensures var b := BlockSize(id); var last := if all then n % b else 0;
      Space(n, b, crc, all) == BlocksBound(n / b, last, b, crc)
  {
    hide BlockSize;
    var b := BlockSize(id);
    OneBlockLess(n, id);
    if n >= b {
      SpaceIs(n - b, id, crc, all);
      OneMore(BLOCK_HEADER + crc, (n - b) / b, if all && n % b > 0 then 1 else 0);
      OneMore(b, (n - b) / b, 0);
    }
  }

  lemma OneMore(a: nat, q: nat, r: nat)
    ensures a * (q + 1 + r) == a + a * (q + r)
  {
  }

  lemma OneBlockLess(n: nat, id: nat)
    ensures var b := BlockSize(id);
      b > 0 && if n >= b then n / b == (n - b) / b + 1 && n % b == (n - b) % b else n / b == 0 && n % b == n
  {
  }

  /** Rewriting the preferences for a short input never makes the bound larger than the caller expects. */
  lemma OptimalBound(srcSize: nat, p: Prefs, q: Prefs)
    requires PrefsOk(p) && PrefsOk(q) && srcSize <= ADDRESSABLE && p.autoFlush && q.autoFlush
    requires q.info.blockChecksum == p.info.blockChecksum && q.info.contentChecksum == p.info.contentChecksum
    requires q.info.blockSizeID == p.info.blockSizeID ||
             (q.info.blockSizeID < p.info.blockSizeID && srcSize <= GetBlockSize(q.info.blockSizeID))
    ensures BoundInternal(srcSize, q, 0) == BoundInternal(srcSize, p, 0)
  {
    hide BoundInternal;
    BoundIsSpace(srcSize, p, 0);
    BoundIsSpace(srcSize, q, 0);
  }

  // ----- Writing numbers and headers -----

  function Bytes32(n: nat): (s: seq<byte>)
    requires n < U32
    ensures |s| == 4 && LE32(s) == n
  {
    var a := n / 0x100;
    var b := a / 0x100;
    [n % 0x100, a % 0x100, b % 0x100, b / 0x100]
  }

  function Bytes64(n: nat): (s: seq<byte>)
    requires n < U64
    ensures |s| == 8 && LE64(s) == n
  {
    assert (Bytes32(n % U32) + Bytes32(n / U32))[4..] == Bytes32(n / U32);
    FrameDecoder.AfterFour(Bytes32(n % U32), Bytes32(n / U32));
    Bytes32(n % U32) + Bytes32(n / U32)
  }

  function FlagsByte(info: Info): byte {
    64 + (if info.linked then 0 else 32) + (if info.blockChecksum then 16 else 0) + (if info.contentSize > 0 then 8 else 0)
    + (if info.contentChecksum then 4 else 0) + (if info.dictID > 0 then 1 else 0)
  }

  lemma FlagsRead(info: Info)
    ensures var f := FlagsByte(info);
      FlagsOk(f) && Flag(f, 32) == !info.linked && Flag(f, 16) == info.blockChecksum && Flag(f, 8) == (info.contentSize > 0)
      && Flag(f, 4) == info.contentChecksum && Flag(f, 1) == (info.dictID > 0)
  {
  }

  /** The header but for its checksum. */
  function Descriptor(info: Info): (s: seq<byte>)
    requires info.contentSize < U64 && info.dictID < U32 && 4 <= info.blockSizeID <= 7
    ensures |s| >= 6 && s[4] == FlagsByte(info)
  {
    Bytes32(MAGIC) + [FlagsByte(info), info.blockSizeID * 16] + SizeField(info) + DictField(info)
  }

  function SizeField(info: Info): seq<byte>
    requires info.contentSize < U64
  {
    if info.contentSize > 0 then Bytes64(info.contentSize) else []
  }

  function DictField(info: Info): seq<byte>
    requires info.dictID < U32
  {
    if info.dictID > 0 then Bytes32(info.dictID) else []
  }

  /** The header, with the second byte of its checksum. */
  function HeaderOf(c: Codec, info: Info): seq<byte>
    requires info.contentSize < U64 && info.dictID < U32 && 4 <= info.blockSizeID <= 7
  {
    var d := Descriptor(info);
    d + [c.checksum(d[4..]) / 256 % 256]
  }

  /** A header that was written is read back as it was meant. */
  lemma HeaderIsRead(c: Codec, info: Info, h: seq<byte>, rest: seq<byte>)
    requires info.contentSize < U64 && info.dictID < U32 && 4 <= info.blockSizeID <= 7
    requires h == HeaderOf(c, info)
    ensures ReadFrame(c, h + rest) == ReadBlocks(c, info, [], rest) && |h| == HeaderSize(FlagsByte(info))
  {
    hide ReadBlocks, LE32, LE64, Bytes32, Bytes64, FlagsByte;
    FlagsRead(info);
    var d := Descriptor(info);
    assert h[4..|h| - 1] == d[4..];
    FieldsAreRead(info, h);
    FrameDecoder.ReadHeader(c, h, rest);
    assert h[..|h|] == h && h[|h|..] + rest == rest;
    FrameDecoder.FirstFour(h, Bytes32(MAGIC));
  }

  lemma FieldsAreRead(info: Info, h: seq<byte>)
    requires info.contentSize < U64 && info.dictID < U32 && 4 <= info.blockSizeID <= 7
    requires |h| == |Descriptor(info)| + 1 && h[..|h| - 1] == Descriptor(info)
    ensures |h| == HeaderSize(FlagsByte(info)) && h[4] == FlagsByte(info) && HeaderInfo(h) == info && BlockSizeOk(h[5])
  {
    hide LE32, LE64, Bytes32, Bytes64, FlagsByte, FlagsOk, Flag;
    FlagsRead(info);
    var d := Descriptor(info);
    assert h[4] == d[4] && h[5] == d[5];
    if info.contentSize > 0 {
      FieldAt(h, Bytes32(MAGIC) + [FlagsByte(info), info.blockSizeID * 16], Bytes64(info.contentSize), DictField(info));
      FirstEight(h[6..], Bytes64(info.contentSize));
    }
    if info.dictID > 0 {
      var before := Bytes32(MAGIC) + [FlagsByte(info), info.blockSizeID * 16] + SizeField(info);
      assert before + Bytes32(info.dictID) + [] == d;
      FieldAt(h, before, Bytes32(info.dictID), []);
      FrameDecoder.FirstFour(h[|h| - 5..], Bytes32(info.dictID));
    }
  }

  lemma FieldAt(h: seq<byte>, a: seq<byte>, field: seq<byte>, b: seq<byte>)
    requires |h| > 0 && h[..|h| - 1] == a + field + b
    ensures h[|a|..][..|field|] == field
  {
    assert h[|a|..][..|field|] == (a + field + b)[|a|..|a| + |field|];
  }

  lemma FirstEight(s: seq<byte>, t: seq<byte>)
    requires |s| >= 8 && |t| == 8 && s[..8] == t
    ensures LE64(s) == LE64(t)
  {
    assert forall k :: 0 <= k < 8 ==> s[k] == t[k];
    FrameDecoder.FirstFour(s, t);
    FrameDecoder.FirstFour(s[4..], t[4..]);
  }

  // ----- Blocks -----

  /** The compression functions: the result is empty, or it decodes to the input; it never exceeds the capacity. */
  type Compressor = (nat, seq<byte>, seq<byte>, nat) -> seq<byte>

  ghost predicate Faithful(c: Codec, compress: Compressor) {
    && (forall k, s, h, cap :: compress(k, s, h, cap) != [] ==> Encodes(c, compress(k, s, h, cap), s, h, cap))
    && LooksBack(c)
    && (forall d :: c.checksum(d) < U32)
  }

  ghost predicate Encodes(c: Codec, packed: seq<byte>, src: seq<byte>, history: seq<byte>, cap: nat) {
    |packed| <= cap && forall n :: n >= |src| ==> c.decode(packed, history, n) == Some(src)
  }

  /** What a block decodes to with some history, it decodes to with more history before it. */
  ghost predicate LooksBack(c: Codec) {
    forall b, g, h, n {:trigger c.decode(b, g + h, n)} :: c.decode(b, h, n).Some? ==> c.decode(b, g + h, n) == c.decode(b, h, n)
  }

  /** A block as LZ4F_makeBlock writes it: compressed, if `packed` is not empty. */
  function BlockBytes(c: Codec, info: Info, src: seq<byte>, packed: seq<byte>): seq<byte>
    requires |src| < UNCOMPRESSED && |packed| < UNCOMPRESSED
  {
    var body := if packed == [] then src else packed;
    Bytes32(if packed == [] then |src| + UNCOMPRESSED else |packed|) + body
    + (if info.blockChecksum then Bytes32(c.checksum(body) % U32) else [])
  }

  /** `bytes` are whole blocks that take the content of a frame from `a` to `b`, whatever follows, and that `compress` made. */
  ghost predicate Carries(c: Codec, compress: Compressor, info: Info, a: seq<byte>, bytes: seq<byte>, b: seq<byte>) {
    && (forall rest :: ReadBlocks(c, info, a, bytes + rest) == ReadBlocks(c, info, b, rest))
    && MadeBy(c, compress, info, a, bytes, b)
  }

  /** One block: what `compress` makes of the next data with an end of the content as dictionary; the data themselves, if it makes nothing. */
  ghost predicate IsBlock(c: Codec, compress: Compressor, info: Info, a: seq<byte>, block: seq<byte>, b: seq<byte>) {
    exists turn: nat, src, known :: BlockOf(c, compress, info, a, block, turn, src, known) && b == a + src
  }

  ghost predicate BlockOf(c: Codec, compress: Compressor, info: Info, a: seq<byte>, block: seq<byte>, turn: nat, src: seq<byte>, known: seq<byte>) {
    && 0 < |src| <= BlockSize(info.blockSizeID) && EndsWith(History(info, a), known)
    && var packed := compress(turn, src, known, |src| - 1);
       |packed| < UNCOMPRESSED && block == BlockBytes(c, info, src, packed)
  }

  /** `bytes` are blocks, one after the other; `states` is the content before and after each. */
  ghost predicate MadeBy(c: Codec, compress: Compressor, info: Info, a: seq<byte>, bytes: seq<byte>, b: seq<byte>) {
    exists blocks, states :: Blocks(c, compress, info, a, blocks, states, b) && bytes == Concat(blocks)
  }

  ghost predicate Blocks(c: Codec, compress: Compressor, info: Info, a: seq<byte>, blocks: seq<seq<byte>>, states: seq<seq<byte>>, b: seq<byte>) {
    && |states| == |blocks| + 1 && states[0] == a && states[|blocks|] == b
    && forall i :: 0 <= i < |blocks| ==> IsBlock(c, compress, info, states[i], blocks[i], states[i + 1])
  }

  lemma CarriesNothing(c: Codec, compress: Compressor, info: Info, a: seq<byte>)
    ensures Carries(c, compress, info, a, [], a)
  {
    forall rest ensures ReadBlocks(c, info, a, [] + rest) == ReadBlocks(c, info, a, rest) {
      assert [] + rest == rest;
    }
    assert Blocks(c, compress, info, a, [], [a], a);
  }

  lemma CarriesOn(c: Codec, compress: Compressor, info: Info, a: seq<byte>, s: seq<byte>, b: seq<byte>, t: seq<byte>, d: seq<byte>)
    requires Carries(c, compress, info, a, s, b) && Carries(c, compress, info, b, t, d)
    ensures Carries(c, compress, info, a, s + t, d)
  {
    hide ReadBlocks, MadeBy;
    forall rest ensures ReadBlocks(c, info, a, s + t + rest) == ReadBlocks(c, info, d, rest) {
      assert s + t + rest == s + (t + rest);
    }
    MadeOn(c, compress, info, a, s, b, t, d);
  }

  lemma MadeOn(c: Codec, compress: Compressor, info: Info, a: seq<byte>, s: seq<byte>, b: seq<byte>, t: seq<byte>, d: seq<byte>)
    requires MadeBy(c, compress, info, a, s, b) && MadeBy(c, compress, info, b, t, d)
    ensures MadeBy(c, compress, info, a, s + t, d)
  {
    hide IsBlock, Concat;
    var blocks1, states1 :| Blocks(c, compress, info, a, blocks1, states1, b) && s == Concat(blocks1);
    var blocks2, states2 :| Blocks(c, compress, info, b, blocks2, states2, d) && t == Concat(blocks2);
    ConcatOfBoth(blocks1, blocks2);
    var states := states1[..|blocks1|] + states2;
    forall i | 0 <= i < |blocks1 + blocks2|
      ensures IsBlock(c, compress, info, states[i], (blocks1 + blocks2)[i], states[i + 1])
    {
      if i < |blocks1| {
        assert IsBlock(c, compress, info, states1[i], blocks1[i], states1[i + 1]);
      } else {
        assert IsBlock(c, compress, info, states2[i - |blocks1|], blocks2[i - |blocks1|], states2[i - |blocks1| + 1]);
      }
    }
    assert Blocks(c, compress, info, a, blocks1 + blocks2, states, d);
  }

  lemma {:induction false} ConcatOfBoth(s: seq<seq<byte>>, t: seq<seq<byte>>)
    ensures Concat(s + t) == Concat(s) + Concat(t)
    decreases |t|
  {
    if t == [] {
      assert s + t == s;
    } else {
      var u := t[..|t| - 1];
      assert (s + t)[..|s + t| - 1] == s + u;
      ConcatOfBoth(s, u);
    }
  }

  lemma BlockCarries(c: Codec, compress: Compressor, info: Info, content: seq<byte>, src: seq<byte>, turn: nat, known: seq<byte>)
    requires 0 < |src| <= BlockSize(info.blockSizeID) && forall d :: c.checksum(d) < U32
    requires EndsWith(History(info, content), known)
    requires var packed := compress(turn, src, known, |src| - 1);
      packed != [] ==> Encodes(c, packed, src, History(info, content), |src| - 1)
    ensures var packed := compress(turn, src, known, |src| - 1);
      |packed| < UNCOMPRESSED && Carries(c, compress, info, content, BlockBytes(c, info, src, packed), content + src)
  {
    hide ReadBlocks, BlockBytes, MadeBy, Encodes;
    var packed := compress(turn, src, known, |src| - 1);
    BlockReads(c, info, content, src, packed);
    MadeOfOne(c, compress, info, content, src, turn, known);
  }

  lemma MadeOfOne(c: Codec, compress: Compressor, info: Info, content: seq<byte>, src: seq<byte>, turn: nat, known: seq<byte>)
    requires 0 < |src| <= BlockSize(info.blockSizeID) && EndsWith(History(info, content), known)
    requires |compress(turn, src, known, |src| - 1)| < UNCOMPRESSED
    ensures MadeBy(c, compress, info, content, BlockBytes(c, info, src, compress(turn, src, known, |src| - 1)), content + src)
  {
    hide BlockBytes, Concat, EndsWith;
    var block := BlockBytes(c, info, src, compress(turn, src, known, |src| - 1));
    assert BlockOf(c, compress, info, content, block, turn, src, known);
    assert IsBlock(c, compress, info, content, block, content + src);
    assert Blocks(c, compress, info, content, [block], [content, content + src], content + src);
    ConcatOfOne(block);
  }

  lemma ConcatOfOne(block: seq<byte>)
    ensures Concat([block]) == block
  {
    assert Concat([]) == [];
  }

  lemma BlockReads(c: Codec, info: Info, content: seq<byte>, src: seq<byte>, packed: seq<byte>)
    requires 0 < |src| <= BlockSize(info.blockSizeID) && forall d :: c.checksum(d) < U32
    requires packed != [] ==> Encodes(c, packed, src, History(info, content), |src| - 1)
    ensures |packed| < UNCOMPRESSED
    ensures forall rest :: ReadBlocks(c, info, content, BlockBytes(c, info, src, packed) + rest) == ReadBlocks(c, info, content + src, rest)
  {
    hide ReadBlocks, LE32, Bytes32;
    var body := if packed == [] then src else packed;
    var crc := if info.blockChecksum then Bytes32(c.checksum(body) % U32) else [];
    var w := if packed == [] then |src| + UNCOMPRESSED else |packed|;
    forall rest ensures ReadBlocks(c, info, content, BlockBytes(c, info, src, packed) + rest) == ReadBlocks(c, info, content + src, rest) {
      assert BlockBytes(c, info, src, packed) + rest == Bytes32(w) + (body + crc + rest);
      BlockIsThere(c, info, content, w, body + crc + rest);
      if packed == [] {
        DirectIsRead(c, info, content, src, crc, rest);
      } else {
        CompressedIsRead(c, info, content, packed, crc, rest);
      }
    }
  }

  lemma BlockIsThere(c: Codec, info: Info, content: seq<byte>, w: nat, s: seq<byte>)
    requires w < U32
    ensures ReadBlocks(c, info, content, Bytes32(w) + s) == ReadBlock(c, info, content, w, s)
  {
    hide ReadBlock, LE32, Bytes32;
    FrameDecoder.AfterFour(Bytes32(w), s);
  }

  lemma DirectIsRead(c: Codec, info: Info, content: seq<byte>, src: seq<byte>, crc: seq<byte>, rest: seq<byte>)
    requires src != []
    requires if info.blockChecksum then |crc| == 4 && LE32(crc) == c.checksum(src) else crc == []
    ensures ReadDirect(c, info, content, [], |src|, src + crc + rest) == ReadBlocks(c, info, content + src, rest)
  {
    hide ReadBlocks, LE32;
    var s := src + crc + rest;
    assert s[..|src|] == src && s[|src|..] == crc + rest && [] + src == src;
    if info.blockChecksum {
      FrameDecoder.AfterFour(crc, rest);
    } else {
      assert crc + rest == rest;
    }
  }

  lemma CompressedIsRead(c: Codec, info: Info, content: seq<byte>, packed: seq<byte>, crc: seq<byte>, rest: seq<byte>)
    requires packed != []
    requires if info.blockChecksum then |crc| == 4 && LE32(crc) == c.checksum(packed) else crc == []
    ensures ReadCompressed(c, info, content, |packed|, packed + crc + rest) ==
      match c.decode(packed, History(info, content), BlockSize(info.blockSizeID))
      case None => Bad
      case Some(o) => ReadBlocks(c, info, content + o, rest)
  {
    hide ReadBlocks, LE32;
    FrameDecoder.CompressedBlock(c, info, content, |packed|, packed + crc, rest);
    assert (packed + crc)[..|packed|] == packed && (packed + crc)[|packed|..] == crc;
  }

  // ----- The context -----

  /** Where bytes begin: nowhere, in the own buffer tmpBuff, or in memory of the caller. */
  datatype Pointer = Null | Own(at: nat) | Callers(mem: array<byte>, at: nat)

  function Later(p: Pointer, n: nat): Pointer {
    match p
    case Null => Null
    case Own(at) => Own(at + n)
    case Callers(mem, at) => Callers(mem, at + n)
  }

  class Cctx {
    const codec: Codec
    const compress: Compressor
    var prefs: Prefs
    var cStage: nat
    var maxBlockSize: nat
    var maxBufferSize: nat
    var tmpBuff: array<byte>
    var tmpIn: nat
    var tmpInSize: nat
    var totalInSize: nat
    /** What has been hashed for the content checksum. */
    var xxh: seq<byte>
    /** The LZ4 stream: how often it was used, and where its dictionary is (of linked blocks only). */
    var lz4Ctx: nat
    var dict: Pointer
    var dictSize: nat
    /** All that was put into the frame. */
    ghost var content: seq<byte>

    constructor (codec: Codec, compress: Compressor)
      ensures cStage == 0 && maxBufferSize == tmpBuff.Length && fresh(tmpBuff)
      ensures this.codec == codec && this.compress == compress
    {
      this.codec, this.compress := codec, compress;
      prefs := Prefs(Info(false, false, 0, false, 4, 0), false);
      cStage, maxBlockSize, maxBufferSize, tmpIn, tmpInSize, totalInSize := 0, 0, 0, 0, 0, 0;
      tmpBuff := new byte[0];
      xxh, lz4Ctx, dict, dictSize, content := [], 0, Null, 0, [];
    }

    predicate Inside(p: Pointer, n: nat)
      reads this`tmpBuff
    {
      match p
      case Null => n == 0
      case Own(at) => at + n <= tmpBuff.Length
      case Callers(mem, at) => mem != tmpBuff && at + n <= mem.Length
    }

    /** The `n` bytes at a place. */
    function Bytes(p: Pointer, n: nat): (s: seq<byte>)
      requires Inside(p, n)
      reads this`tmpBuff, tmpBuff, if p.Callers? then {p.mem} else {}
      ensures |s| == n
    {
      match p
      case Null => []
      case Own(at) => tmpBuff[at..at + n]
      case Callers(mem, at) => mem[at..at + n]
    }

    /** What blocks may refer to: the last 64 KB of the dictionary. */
    function Dict(): (s: seq<byte>)
      requires Inside(dict, dictSize)
      reads this`tmpBuff, this`dict, this`dictSize, tmpBuff, if dict.Callers? then {dict.mem} else {}
      ensures |s| == Min(dictSize, WINDOW)
    {
      var n := Min(dictSize, WINDOW);
      Bytes(Later(dict, dictSize - n), n)
    }

    /** `p` is where the dictionary ends. */
    predicate Follows(p: Pointer)
      reads this`dict, this`dictSize
    {
      dict != Null && p == Later(dict, dictSize)
    }

    /** The part of the content that is in blocks already written. */
    ghost function Sent(): seq<byte>
      requires tmpInSize <= |content|
      reads this`tmpInSize, this`content
    {
      content[..|content| - tmpInSize]
    }

    /** The sizes of a frame that has been begun. */
    ghost predicate Begun()
      reads this`cStage, this`prefs, this`maxBlockSize, this`maxBufferSize, this`tmpBuff
    {
      && cStage == 1 && 4 <= prefs.info.blockSizeID <= 7 && maxBlockSize == BlockSize(prefs.info.blockSizeID)
      && prefs.info.contentSize < U64 && prefs.info.dictID < U32
      && BufferNeeded(prefs, maxBlockSize) <= maxBufferSize <= tmpBuff.Length
    }

    /** What the LZ4 stream of linked blocks finds in memory as its dictionary is an end of the content `done`. */
    ghost predicate Knows(done: seq<byte>)
      reads this`prefs, this`tmpBuff, this`dict, this`dictSize, tmpBuff, if dict.Callers? then {dict.mem} else {}
    {
      if prefs.info.linked then Inside(dict, dictSize) && EndsWith(done, Dict()) else dict == Null && dictSize == 0
    }

    /** The dictionary lies before the place for the next block. */
    ghost predicate Behind()
      reads this`tmpIn, this`dict, this`dictSize
    {
      dict.Own? ==> dict.at + dictSize <= tmpIn
    }

    /** It is all of the last 64 KB of the content, right in front of the place for the next block. */
    ghost predicate Whole(done: seq<byte>)
      requires Knows(done)
      reads this`prefs, this`tmpBuff, this`tmpIn, this`dict, this`dictSize, tmpBuff, if dict.Callers? then {dict.mem} else {}
    {
      prefs.info.linked ==> Dict() == Recent(done) && (done == [] || Follows(Own(tmpIn)))
    }

    /** There is room for a block in the buffer, at the place for it. */
    ghost predicate InLimits()
      reads this`prefs, this`tmpIn, this`maxBlockSize, this`maxBufferSize
    {
      prefs.autoFlush || tmpIn + maxBlockSize <= maxBufferSize
    }

    /** Of the content `all`, the buffer holds what is not in blocks, and the LZ4 stream knows the end of the rest. */
    ghost predicate Holds(all: seq<byte>)
      reads this`prefs, this`maxBlockSize, this`tmpIn, this`tmpInSize, this`dict, this`dictSize, this`tmpBuff, tmpBuff, if dict.Callers? then {dict.mem} else {}
    {
      && tmpInSize < maxBlockSize && tmpInSize <= |all| && (prefs.autoFlush ==> tmpInSize == 0)
      && (tmpInSize > 0 ==> tmpIn + tmpInSize <= tmpBuff.Length && tmpBuff[tmpIn..tmpIn + tmpInSize] == all[|all| - tmpInSize..])
      && Knows(all[..|all| - tmpInSize]) && Behind()
    }

    /** In the middle of a frame: what is not in blocks is in the buffer, and that is less than a block. */
    ghost predicate Valid()
      reads this, tmpBuff, if dict.Callers? then {dict.mem} else {}
    {
      && Begun() && InLimits() && Holds(content)
      && (prefs.info.contentChecksum ==> xxh == content)
      && (prefs.info.contentSize > 0 ==> totalInSize == |content| % U64)
    }

    /**
      The dictionary LZ4_compress_fast_continue uses for the block at `p`. One of
      less than 4 bytes is dropped unless the block follows it; of one that the
      block reaches into, the part behind the block is kept.
    */
    method Prepare(p: Pointer, n: nat, ghost done: seq<byte>)
      requires prefs.info.linked && Knows(done) && Inside(p, n) && p != Null
      modifies this`dict, this`dictSize
      ensures Knows(done)
      ensures old(Follows(p)) ==> Follows(p)
      ensures old(Follows(p)) || !(1 <= old(dictSize) <= 3 || old(Overlaps(p, n))) ==> dict == old(dict) && dictSize == old(dictSize)
      ensures !old(Follows(p)) && Follows(p) ==> dict == p && dictSize == 0
    {
      hide Knows;
      if 1 <= dictSize <= 3 && !Follows(p) { DropDict(p, done); }
      if Overlaps(p, n) { TrimDict(p, n, done); }
    }

    /** No dictionary but the place of the next block. */
    method DropDict(p: Pointer, ghost done: seq<byte>)
      requires prefs.info.linked && p != Null && Inside(p, 0)
      modifies this`dict, this`dictSize
      ensures Knows(done) && dict == p && dictSize == 0 && Follows(p)
    {
      dict, dictSize := p, 0;
      assert EndsWith(done, []);
    }

    /** The dictionary after the block at `p`, which ends in it. */
    method TrimDict(p: Pointer, n: nat, ghost done: seq<byte>)
      requires prefs.info.linked && Knows(done) && Overlaps(p, n)
      modifies this`dict, this`dictSize
      ensures Knows(done) && (old(Follows(p)) <==> Follows(p)) && !Follows(p)
    {
      hide EndsWith, Bytes;
      var size := dict.at + dictSize - (p.at + n);
      if size > WINDOW { size := WINDOW; }
      if size < 4 { size := 0; }
      Shorter(done, size);
      dict, dictSize := Later(dict, dictSize - size), size;
    }

    /** The block at `p` ends inside the dictionary. */
    predicate Overlaps(p: Pointer, n: nat)
      reads this`dict, this`dictSize
    {
      match (dict, p)
      case (Own(a), Own(b)) => a < b + n < a + dictSize
      case (Callers(m, a), Callers(k, b)) => m == k && a < b + n < a + dictSize
      case _ => false
    }

    lemma Shorter(done: seq<byte>, size: nat)
      requires Inside(dict, dictSize) && EndsWith(done, Dict()) && dict != Null && size <= dictSize && size <= WINDOW
      ensures Inside(Later(dict, dictSize - size), size) && EndsWith(done, Bytes(Later(dict, dictSize - size), size))
    {
      hide Bytes;
      var m := Min(dictSize, WINDOW);
      var q := Later(dict, dictSize - m);
      BytesSplit(q, m - size, size);
      EndOfEnd(done, Bytes(q, m - size), Bytes(Later(q, m - size), size));
    }

    /** The compression function on the block at `p`; from now on the block belongs to the dictionary. */
    method Compress(p: Pointer, n: nat, ghost done: seq<byte>) returns (packed: seq<byte>, ghost known: seq<byte>)
      requires Knows(done) && Faithful(codec, compress) && Inside(p, n) && p != Null && n > 0
      modifies this`lz4Ctx, this`dict, this`dictSize
      ensures packed == compress(old(lz4Ctx), Bytes(p, n), known, n - 1) && EndsWith(History(prefs.info, done), known)
      ensures prefs.info.linked ==> old(Inside(dict, dictSize))
      ensures prefs.info.linked && (old(Follows(p)) || !(1 <= old(dictSize) <= 3 || old(Overlaps(p, n)))) ==> known == old(Dict())
      ensures packed != [] ==> Encodes(codec, packed, Bytes(p, n), History(prefs.info, done), n - 1)
      ensures Knows(done + Bytes(p, n))
      ensures prefs.info.linked ==>
        if old(Follows(p)) then dict == old(dict) && dictSize == old(dictSize) + n else dict == p && dictSize == n
    {
      hide Faithful, Encodes, LooksBack, Knows, EndsWith, Bytes, Dict;
      KnowsEnd(done);
      if prefs.info.linked {
        packed, known := CompressLinked(p, n, done);
        return;
      }
      PackedEncodes(lz4Ctx, Bytes(p, n), [], n - 1);
      packed, known := compress(lz4Ctx, Bytes(p, n), [], n - 1), [];
      TailOf([], []);
      lz4Ctx := lz4Ctx + 1;
      KnowsNothing(done + Bytes(p, n));
    }

    lemma PackedEncodes(turn: nat, src: seq<byte>, known: seq<byte>, cap: nat)
      requires Faithful(codec, compress)
      ensures LooksBack(codec) && (compress(turn, src, known, cap) != [] ==> Encodes(codec, compress(turn, src, known, cap), src, known, cap))
    {
      hide Encodes, LooksBack;
    }

    /** The same with linked blocks: the stream knows its dictionary. */
    method CompressLinked(p: Pointer, n: nat, ghost done: seq<byte>) returns (packed: seq<byte>, ghost known: seq<byte>)
      requires prefs.info.linked && Knows(done) && Faithful(codec, compress) && Inside(p, n) && p != Null && n > 0
      modifies this`lz4Ctx, this`dict, this`dictSize
      ensures packed == compress(old(lz4Ctx), Bytes(p, n), known, n - 1) && EndsWith(done, known)
      ensures old(Inside(dict, dictSize))
      ensures old(Follows(p)) || !(1 <= old(dictSize) <= 3 || old(Overlaps(p, n))) ==> known == old(Dict())
      ensures packed != [] ==> Encodes(codec, packed, Bytes(p, n), done, n - 1)
      ensures Knows(done + Bytes(p, n))
      ensures if old(Follows(p)) then dict == old(dict) && dictSize == old(dictSize) + n else dict == p && dictSize == n
    {
      hide Faithful, Encodes, LooksBack, Knows, EndsWith, Bytes, Dict;
      KnowsEnd(done);
      Prepare(p, n, done);
      assert (old(Follows(p)) || !(1 <= old(dictSize) <= 3 || old(Overlaps(p, n)))) ==> dict == old(dict) && dictSize == old(dictSize);
      KnowsEnd(done);
      PackedEncodes(lz4Ctx, Bytes(p, n), Dict(), n - 1);
      packed, known := compress(lz4Ctx, Bytes(p, n), Dict(), n - 1), Dict();
      if packed != [] { SameEncoding(codec, packed, Bytes(p, n), known, done, n - 1); }
      lz4Ctx := lz4Ctx + 1;
      Remember(p, n, done);
    }

    lemma KnowsEnd(done: seq<byte>)
      requires Knows(done)
      ensures Inside(dict, dictSize) && (if prefs.info.linked then EndsWith(done, Dict()) else dict == Null && dictSize == 0)
      ensures !prefs.info.linked ==> Whole(done)
    {
    }

    /** With independent blocks there is nothing to know. */
    lemma KnowsNothing(done: seq<byte>)
      requires !prefs.info.linked && dict == Null && dictSize == 0
      ensures Knows(done)
    {
    }

    /** The block belongs to the dictionary if it follows it, and otherwise takes its place. */
    method Remember(p: Pointer, n: nat, ghost done: seq<byte>)
      requires prefs.info.linked && Knows(done) && Inside(p, n) && p != Null
      modifies this`dict, this`dictSize
      ensures Knows(done + Bytes(p, n))
      ensures if old(Follows(p)) then dict == old(dict) && dictSize == old(dictSize) + n else dict == p && dictSize == n
    {
      hide Bytes, EndsWith;
      ghost var known := Dict();
      if Follows(p) {
        Longer(p, n);
        dictSize := dictSize + n;
      } else {
        dict, dictSize := p, n;
        AloneInDict();
        known := [];
        TailOf(done, []);
        assert done + [] == done;
      }
      EndsMore(done, known, Bytes(p, n), Dict());
    }

    lemma BytesSplit(p: Pointer, k: nat, n: nat)
      requires p != Null && Inside(p, k + n)
      ensures Inside(p, k) && Inside(Later(p, k), n) && Bytes(p, k + n) == Bytes(p, k) + Bytes(Later(p, k), n)
    {
      match p
      case Own(at) => ArraySplit(tmpBuff, at, at + k, at + k + n);
      case Callers(mem, at) => ArraySplit(mem, at, at + k, at + k + n);
    }

    /** The dictionary together with a block that follows it. */
    lemma Longer(p: Pointer, n: nat)
      requires Inside(dict, dictSize) && Follows(p) && Inside(p, n)
      ensures Inside(dict, dictSize + n)
      ensures var k := Min(dictSize + n, WINDOW); EndsWith(Dict() + Bytes(p, n), Bytes(Later(dict, dictSize + n - k), k))
    {
      hide Bytes, EndsWith;
      var k, m := Min(dictSize + n, WINDOW), Min(dictSize, WINDOW);
      var q, i := Later(dict, dictSize - m), m + n - k;
      assert i + k == m + n && Inside(q, m + n) && Later(q, m) == p;
      BytesSplit(q, m, n);
      BytesSplit(q, i, k);
      TailOf(Bytes(q, i), Bytes(Later(q, i), k));
      assert Later(q, i) == Later(dict, dictSize + n - k);
    }

    lemma AloneInDict()
      requires Inside(dict, dictSize)
      ensures EndsWith([] + Bytes(dict, dictSize), Dict())
    {
      hide Bytes;
      var b, k := Bytes(dict, dictSize), dictSize - Min(dictSize, WINDOW);
      assert [] + b == b;
      if dict != Null {
        BytesSplit(dict, k, dictSize - k);
        TailOf(Bytes(dict, k), Dict());
      }
    }

    /** The dictionary is the last 64 KB of the content. */
    ghost predicate KnowsAll(done: seq<byte>)
      reads this`tmpBuff, this`dict, this`dictSize, tmpBuff, if dict.Callers? then {dict.mem} else {}
    {
      Inside(dict, dictSize) && Dict() == Recent(done)
    }

    lemma AllSays(done: seq<byte>)
      requires KnowsAll(done)
      ensures Min(dictSize, WINDOW) == Min(|done|, WINDOW)
    {
    }

    /** After a block, a dictionary that had `had` bytes and kept them is all there is if that was; a new one only if the block alone is enough. */
    lemma AllAfter(done: seq<byte>, src: seq<byte>, had: nat)
      requires prefs.info.linked && Knows(done + src) && dictSize == had + |src| && src != []
      requires Min(had, WINDOW) == Min(|done|, WINDOW) || had == 0
      ensures KnowsAll(done + src) <==> Min(had, WINDOW) == Min(|done|, WINDOW) || |src| >= WINDOW
    {
      if |Dict()| == Min(|done + src|, WINDOW) { EndIsRecent(done + src, Dict()); }
    }

    /** LZ4F_makeBlock, for the block that comes after the content `done`. */
    method MakeBlock(p: Pointer, n: nat, room: nat, ghost done: seq<byte>) returns (block: seq<byte>)
      requires Begun() && Knows(done) && Faithful(codec, compress) && Inside(p, n) && p != Null
      requires 0 < n <= maxBlockSize && room >= BLOCK_HEADER + n + ChecksumSize(prefs.info)
      modifies this`lz4Ctx, this`dict, this`dictSize
      ensures Knows(done + Bytes(p, n)) && Carries(codec, compress, prefs.info, done, block, done + Bytes(p, n))
      ensures |block| <= BLOCK_HEADER + n + ChecksumSize(prefs.info)
      ensures prefs.info.linked ==>
        if old(Follows(p)) then dict == old(dict) && dictSize == old(dictSize) + n else dict == p && dictSize == n
      ensures prefs.info.linked && old(KnowsAll(done)) ==>
        (KnowsAll(done + Bytes(p, n)) <==> old(Follows(p)) || n >= WINDOW || done == [])
    {
      hide Carries, Bytes32, Encodes, Knows, KnowsAll, Follows, Bytes;
      var src := Bytes(p, n);
      ghost var follows, all, had := Follows(p), KnowsAll(done), dictSize;
      if all { AllSays(done); }
      ghost var turn := lz4Ctx;
      ghost var known;
      var packed;
      packed, known := Compress(p, n, done);
      if prefs.info.linked && all { AllAfter(done, src, if follows then had else 0); }
      BlockCarries(codec, compress, prefs.info, done, src, turn, known);
      PackedSize(codec, packed, src, History(prefs.info, done), n - 1);
      block := BlockBytes(codec, prefs.info, src, packed);
    }

    /** Two short blocks from different places: the dictionary is the second one alone. */
    method Forget(a: array<byte>, b: array<byte>)
      requires Begun() && prefs.info.linked && dict == Null && dictSize == 0 && Faithful(codec, compress)
      requires a != b && a != tmpBuff && b != tmpBuff && a.Length == b.Length == 4
      modifies this`lz4Ctx, this`dict, this`dictSize
      ensures Knows(a[..] + b[..]) && !KnowsAll(a[..] + b[..])
    {
      hide Carries, Faithful, BlockSize, Recent;
      BlockSizePositive(prefs.info.blockSizeID);
      assert EndsWith([], Dict()) && Dict() == Recent([]);
      var block := MakeBlock(Callers(a, 0), 4, 20, []);
      assert [] + a[0..4] == a[..];
      block := MakeBlock(Callers(b, 0), 4, 20, a[..]);
      assert b[0..4] == b[..];
    }

    /** LZ4F_localSaveDict: the dictionary moves to the start of the buffer. */
    method LocalSaveDict() returns (size: nat)
      requires Inside(dict, dictSize) && Min(dictSize, WINDOW) <= tmpBuff.Length
      modifies this`dict, this`dictSize, tmpBuff
      ensures dict == Own(0) && dictSize == size == Min(old(dictSize), WINDOW)
      ensures Inside(dict, dictSize) && Dict() == old(Dict())
      ensures forall k :: size <= k < tmpBuff.Length ==> tmpBuff[k] == old(tmpBuff[k])
    {
      var saved := Dict();
      size := |saved|;
      forall i | 0 <= i < size { tmpBuff[i] := saved[i]; }
      dict, dictSize := Own(0), size;
      assert tmpBuff[0..size] == saved;
    }

    /** LZ4F_compressBegin_usingCDict, without a dictionary. */
    method Begin(p: Prefs, dstCapacity: nat) returns (r: Option<seq<byte>>)
      requires PrefsOk(p) && maxBufferSize <= tmpBuff.Length
      modifies this
      ensures r.None? <==> dstCapacity < MAX_HEADER
      ensures tmpBuff == old(tmpBuff) || fresh(tmpBuff)
      ensures r.Some? ==> Valid() && content == [] && tmpInSize == 0 && dict == Null && Whole([]) && |r.value| <= MAX_HEADER
      ensures r.Some? ==> prefs == p.(info := p.info.(blockSizeID := if p.info.blockSizeID == 0 then 4 else p.info.blockSizeID))
      ensures r.Some? ==> Opens(codec, prefs.info, r.value)
    {
      hide ReadFrame, ReadBlocks, Opens, Valid, Begun, Knows, Whole;
      if dstCapacity < MAX_HEADER { return None; }
      SetUp(p);
      Start();
      var h := WriteHeader();
      r := Some(h);
    }

    /** The preferences, and a buffer that is large enough for them. */
    method SetUp(p: Prefs)
      requires PrefsOk(p) && maxBufferSize <= tmpBuff.Length
      modifies this`prefs, this`maxBlockSize, this`tmpBuff, this`maxBufferSize, this`cStage
      ensures tmpBuff == old(tmpBuff) || fresh(tmpBuff)
      ensures Begun()
      ensures prefs == p.(info := p.info.(blockSizeID := if p.info.blockSizeID == 0 then 4 else p.info.blockSizeID))
    {
      hide BlockSize;
      prefs := p;
      if prefs.info.blockSizeID == 0 { prefs := prefs.(info := prefs.info.(blockSizeID := 4)); }
      maxBlockSize := BlockSize(prefs.info.blockSizeID);
      var requiredBuffSize := BufferNeeded(prefs, maxBlockSize);
      if maxBufferSize < requiredBuffSize {
        tmpBuff := new byte[requiredBuffSize];
        maxBufferSize := requiredBuffSize;
      }
      cStage := 1;
    }

    /** Nothing buffered, nothing hashed, and an LZ4 stream that knows nothing. */
    method Start()
      requires Begun()
      modifies this`tmpIn, this`tmpInSize, this`totalInSize, this`xxh, this`dict, this`dictSize, this`content
      ensures Begun() && Valid() && content == [] && tmpInSize == 0 && dict == Null && Whole([])
    {
      hide BlockSize;
      BlockSizePositive(prefs.info.blockSizeID);
      tmpIn, tmpInSize, xxh, dict, dictSize := 0, 0, [], Null, 0;
      if prefs.info.contentSize > 0 { totalInSize := 0; }
      content := [];
    }

    /** The header of the frame. */
    method WriteHeader() returns (h: seq<byte>)
      requires Begun()
      ensures |h| <= MAX_HEADER && Opens(codec, prefs.info, h)
    {
      hide ReadFrame, ReadBlocks, Descriptor, FlagsByte, BlockSize;
      var d := Descriptor(prefs.info);
      var checksum: byte := codec.checksum(d[4..]) / 256 % 256;
      h := d + [checksum];
      forall rest ensures ReadFrame(codec, h + rest) == ReadBlocks(codec, prefs.info, [], rest) {
        HeaderIsRead(codec, prefs.info, h, rest);
      }
      HeaderIsRead(codec, prefs.info, h, []);
    }

    /** LZ4F_flush. What is in the buffer becomes a block, and the dictionary goes on to reach as far back as it did. */
    method Flush(dstCapacity: nat) returns (r: Option<seq<byte>>)
      requires (cStage == 1 ==> Valid()) && Faithful(codec, compress)
      modifies this`tmpIn, this`tmpInSize, this`lz4Ctx, this`dict, this`dictSize, tmpBuff
      ensures r.None? <==> 0 < old(tmpInSize) && (cStage != 1 || dstCapacity < old(tmpInSize) + BLOCK_HEADER + CHECKSUM)
      ensures r.Some? ==> tmpInSize == 0
      ensures r.None? || old(tmpInSize) == 0 ==> tmpInSize == old(tmpInSize) && (r.Some? ==> r.value == [])
      ensures cStage == 1 ==> Valid() && old(tmpInSize) <= |content|
      ensures cStage == 1 && r.Some? ==> Carries(codec, compress, prefs.info, old(content[..|content| - tmpInSize]), r.value, content)
      ensures r.Some? ==> |r.value| <= if old(tmpInSize) == 0 then 0 else BLOCK_HEADER + old(tmpInSize) + ChecksumSize(prefs.info)
      ensures dict.Callers? ==> dict == old(dict)
      ensures old(WholeSent()) ==> WholeSent()
    {
      hide Carries, Recent, Faithful, BlockSize, Knows, Whole, Dict, Valid, Holds, Begun, WholeSent;
      if tmpInSize == 0 {
        if cStage == 1 {
          ValidSays();
          CarriesNothing(codec, compress, prefs.info, content);
          assert content[..|content|] == content;
        }
        return Some([]);
      }
      if cStage != 1 { return None; }
      ValidSays();
      if dstCapacity < tmpInSize + BLOCK_HEADER + CHECKSUM { return None; }
      var block := FlushTmp(dstCapacity);
      r := Some(block);
    }

    method FlushTmp(room: nat) returns (block: seq<byte>)
      requires Valid() && tmpInSize > 0 && tmpInSize <= |content| && Faithful(codec, compress)
      requires room >= tmpInSize + BLOCK_HEADER + CHECKSUM
      modifies this`tmpIn, this`tmpInSize, this`lz4Ctx, this`dict, this`dictSize, tmpBuff
      ensures Valid() && tmpInSize == 0 && Carries(codec, compress, prefs.info, old(Sent()), block, content)
      ensures |block| <= BLOCK_HEADER + old(tmpInSize) + ChecksumSize(prefs.info)
      ensures dict.Callers? ==> dict == old(dict)
      ensures old(WholeSent()) ==> WholeSent()
    {
      hide Carries, Recent, Faithful, BlockSize, Knows, Whole, Dict, Valid, Holds, Begun;
      ValidSays();
      HoldsSays();
      block := TmpBlock(tmpInSize, room, Sent());
      assert Sent() == content;
      KeepInLimits(content);
      NothingHeld();
    }

    lemma HoldsSays()
      requires Valid()
      ensures Holds(content) && InLimits() && tmpInSize < maxBlockSize && tmpInSize <= |content| && Knows(Sent()) && Behind()
      ensures !prefs.autoFlush ==> tmpIn + maxBlockSize <= tmpBuff.Length
      ensures tmpInSize > 0 ==> !prefs.autoFlush && tmpIn + tmpInSize <= tmpBuff.Length && Sent() + tmpBuff[tmpIn..tmpIn + tmpInSize] == content
    {
      assert Sent() + content[|content| - tmpInSize..] == content;
    }

    /** After everything was flushed. */
    lemma NothingHeld()
      requires Begun() && InLimits() && tmpInSize == 0 && Knows(content) && Behind()
      requires prefs.info.contentChecksum ==> xxh == content
      requires prefs.info.contentSize > 0 ==> totalInSize == |content| % U64
      ensures Valid()
    {
      assert content[..|content|] == content;
    }

    /** The first `n` bytes of the buffer become a block, and with linked blocks stay there as dictionary. */
    method TmpBlock(n: nat, room: nat, ghost done: seq<byte>) returns (block: seq<byte>)
      requires Begun() && Knows(done) && Behind() && Faithful(codec, compress) && tmpIn + n <= tmpBuff.Length
      requires 0 < n <= maxBlockSize && room >= BLOCK_HEADER + n + ChecksumSize(prefs.info)
      modifies this`tmpIn, this`tmpInSize, this`lz4Ctx, this`dict, this`dictSize
      ensures var now := done + tmpBuff[old(tmpIn)..old(tmpIn) + n];
        Knows(now) && Behind() && Carries(codec, compress, prefs.info, done, block, now) && (old(Whole(done)) ==> Whole(now))
      ensures |block| <= BLOCK_HEADER + n + ChecksumSize(prefs.info) && !dict.Callers?
      ensures tmpInSize == 0 && tmpIn == old(tmpIn) + if prefs.info.linked then n else 0
    {
      hide Carries, Faithful, Recent, BlockSize, Knows, KnowsAll, Whole, Dict, BufferNeeded;
      var p := Own(tmpIn);
      ghost var whole, had := Whole(done), dictSize;
      if whole { WholeSays(done); }
      block := MakeBlock(p, n, room, done);
      MovePast(n, done, done + Bytes(p, n), had, whole);
    }

    /** The block of `n` bytes stays before the place for the next one, if there is a dictionary to keep. */
    method MovePast(n: nat, ghost done: seq<byte>, ghost now: seq<byte>, ghost had: nat, ghost whole: bool)
      requires Knows(now) && |now| == |done| + n
      requires prefs.info.linked ==> dict.Own? && dict.at + dictSize == tmpIn + n
      requires whole && prefs.info.linked ==>
        Min(had, WINDOW) == Min(|done|, WINDOW) && (dictSize == had + n || (dictSize == n && done == []))
      modifies this`tmpIn, this`tmpInSize
      ensures Knows(now) && Behind() && (whole ==> Whole(now)) && !dict.Callers?
      ensures tmpInSize == 0 && tmpIn == old(tmpIn) + if prefs.info.linked then n else 0
    {
      hide Knows, Whole, Dict;
      KnowsEnd(now);
      if prefs.info.linked { tmpIn := tmpIn + n; }
      tmpInSize := 0;
      if whole { WholeGrows(done, had, now, n); }
    }

    lemma WholeSays(done: seq<byte>)
      requires Knows(done) && Whole(done)
      ensures prefs.info.linked ==> Min(dictSize, WINDOW) == Min(|done|, WINDOW) && (done == [] || Follows(Own(tmpIn)))
    {
    }

    /** A dictionary that had all there was and got the whole block has all there is. */
    lemma WholeGrows(done: seq<byte>, had: nat, now: seq<byte>, n: nat)
      requires Knows(now) && |now| == |done| + n
      requires prefs.info.linked ==> Follows(Own(tmpIn)) && Min(had, WINDOW) == Min(|done|, WINDOW)
      requires prefs.info.linked ==> dictSize == had + n || (dictSize == n && done == [])
      ensures Whole(now)
    {
      if prefs.info.linked { EndIsRecent(now, Dict()); }
    }

    /** The dictionary is saved, and the place for the next block is behind it. */
    method SaveToTmp(ghost done: seq<byte>)
      requires Begun() && prefs.info.linked && Knows(done)
      modifies this`tmpIn, this`dict, this`dictSize, tmpBuff
      ensures InLimits() && Knows(done) && Behind() && Inside(dict, dictSize) && Dict() == old(Dict()) && dict == Own(0)
      ensures tmpIn == dictSize && (old(dictSize) > 0 ==> tmpIn > 0)
      ensures old(dictSize) >= WINDOW || old(Whole(done)) ==> Whole(done)
    {
      hide BlockSize, Recent, Bytes;
      BlockSizePositive(prefs.info.blockSizeID);
      if dictSize >= WINDOW { EndIsRecent(done, Dict()); }
      tmpIn := LocalSaveDict();
    }

    /** Keeps tmpIn within limits, when no input is in the buffer. */
    method KeepInLimits(ghost done: seq<byte>)
      requires Begun() && Knows(done) && Behind() && (!prefs.autoFlush && !prefs.info.linked ==> InLimits())
      modifies this`tmpIn, this`dict, this`dictSize, tmpBuff
      ensures InLimits() && Knows(done) && Behind() && (dict.Callers? ==> dict == old(dict))
      ensures Inside(dict, dictSize) && old(Inside(dict, dictSize)) && Dict() == old(Dict())
      ensures old(Whole(done)) ==> Whole(done)
      ensures old(InLimits()) ==> unchanged(tmpBuff) && tmpIn == old(tmpIn)
    {
      hide BlockSize, Knows, Whole, Dict;
      KnowsEnd(done);
      if tmpIn + maxBlockSize > maxBufferSize && !prefs.autoFlush { SaveToTmp(done); }
    }

    /** The first step of LZ4F_compressUpdate, for a short input: it joins what is in the buffer. */
    method JoinTmp(mem: array<byte>, from: nat, size: nat, ghost src: seq<byte>)
      requires Valid() && tmpInSize > 0 && Input(mem, from, size, src) && tmpInSize + size < maxBlockSize
      modifies this`tmpInSize, tmpBuff
      ensures old(tmpInSize) <= |content| && Gathered(src, size, old(content[..|content| - tmpInSize]))
      ensures old(WholeSent()) ==> Whole(old(content[..|content| - tmpInSize]))
    {
      hide Recent, BlockSize, Knows, Whole, Dict, Input, Valid, Holds, Gathered;
      ghost var held := tmpInSize;
      ValidSays();
      HoldsSays();
      InputPart(mem, from, size, src, 0, size);
      assert src[0..size] == src;
      Append(size, mem, from, Sent());
      tmpInSize := tmpInSize + size;
      GatheredJoined(src, held);
    }

    lemma GatheredBlock(src: seq<byte>, p: nat)
      requires tmpInSize == 0 && p <= |src| && Begun() && Behind() && Knows(content + src[..p])
      requires !prefs.autoFlush && !prefs.info.linked ==> InLimits()
      ensures Gathered(src, p, content + src[..p])
    {
      hide Knows;
      PartOfAll(content, src, p);
      BlockSizePositive(prefs.info.blockSizeID);
    }

    lemma GatheredJoined(src: seq<byte>, held: nat)
      requires 0 < held <= |content| && tmpInSize == held + |src| < maxBlockSize && tmpIn + tmpInSize <= tmpBuff.Length
      requires tmpBuff[tmpIn..tmpIn + tmpInSize] == content[|content| - held..] + src
      requires Begun() && InLimits() && Behind() && !prefs.autoFlush && Knows(content[..|content| - held])
      ensures Gathered(src, |src|, content[..|content| - held])
    {
      hide Knows;
      TailOfAll(content, src, held);
    }

    /** The first step of LZ4F_compressUpdate otherwise: the block begun in the buffer is completed from the input. */
    method CompleteTmp(mem: array<byte>, from: nat, size: nat, ghost src: seq<byte>, room: nat, ghost all: bool)
      returns (p: nat, out: seq<byte>)
      requires Valid() && 0 < tmpInSize <= |content| && Faithful(codec, compress) && Input(mem, from, size, src)
      requires tmpInSize + size >= maxBlockSize
      requires room >= Space(tmpInSize + size, maxBlockSize, ChecksumSize(prefs.info), all)
      modifies this`tmpIn, this`tmpInSize, this`lz4Ctx, this`dict, this`dictSize, tmpBuff
      ensures p <= size == |src| && Gathered(src, p, content + src[..p]) && !dict.Callers?
      ensures Carries(codec, compress, prefs.info, old(content[..|content| - tmpInSize]), out, content + src[..p])
      ensures |out| + Space(size - p, maxBlockSize, ChecksumSize(prefs.info), all)
              <= Space(old(tmpInSize) + size, maxBlockSize, ChecksumSize(prefs.info), all)
      ensures old(WholeSent()) ==> Whole(content + src[..p])
    {
      hide Recent, Carries, BlockSize, Faithful, Knows, Whole, Dict, Input, Space, Valid, Holds, Gathered, Begun, InLimits;
      ValidSays();
      HoldsSays();
      p := maxBlockSize - tmpInSize;
      ghost var sent := Sent();
      InputPart(mem, from, size, src, 0, p);
      assert src[0..p] == src[..p];
      Append(p, mem, from, sent);
      SpaceOfBlock(tmpInSize + size, maxBlockSize, ChecksumSize(prefs.info), all);
      Joined(content, tmpInSize, src[..p]);
      out := TmpBlock(maxBlockSize, room, sent);
      GatheredBlock(src, p);
    }

    /** `src` is the input, in memory of the caller. */
    ghost predicate Input(mem: array<byte>, from: nat, size: nat, src: seq<byte>)
      reads this`tmpBuff, mem
    {
      mem != tmpBuff && from + size <= mem.Length && mem[from..from + size] == src
    }

    lemma NothingBefore(at: nat, n: nat, more: seq<byte>)
      requires at + n <= tmpBuff.Length && tmpBuff[at..at + 0 + n] == tmpBuff[at..at + 0] + more
      ensures tmpBuff[at..at + n] == more
    {
    }

    lemma InputPart(mem: array<byte>, from: nat, size: nat, src: seq<byte>, p: nat, q: nat)
      requires Input(mem, from, size, src) && p <= q <= size
      ensures mem != tmpBuff && from + q <= mem.Length && |src| == size && mem[from + p..from + q] == src[p..q]
    {
      SubSlice(mem[..], from, from + size, p, q);
      assert mem[..][from..from + size] == src;
      assert mem[..][from + p..from + q] == mem[from + p..from + q];
    }

    /** Copies input behind what is in the buffer; the dictionary is not touched. */
    method Append(n: nat, mem: array<byte>, from: nat, ghost done: seq<byte>)
      requires mem != tmpBuff && from + n <= mem.Length && tmpIn + tmpInSize + n <= tmpBuff.Length
      requires Knows(done) && Behind()
      modifies tmpBuff
      ensures tmpBuff[tmpIn..tmpIn + tmpInSize + n] == old(tmpBuff[tmpIn..tmpIn + tmpInSize]) + mem[from..from + n]
      ensures Knows(done) && Inside(dict, dictSize) && Dict() == old(Dict()) && (old(Whole(done)) ==> Whole(done))
    {
      hide EndsWith, Recent, Dict;
      Copy(n, mem, from);
      ArraySplit(tmpBuff, tmpIn, tmpIn + tmpInSize, tmpIn + tmpInSize + n);
    }

    /** memcpy behind what is in the buffer. */
    method Copy(n: nat, mem: array<byte>, from: nat)
      requires mem != tmpBuff && from + n <= mem.Length && tmpIn + tmpInSize + n <= tmpBuff.Length
      requires Inside(dict, dictSize) && Behind()
      modifies tmpBuff
      ensures tmpBuff[tmpIn..tmpIn + tmpInSize] == old(tmpBuff[tmpIn..tmpIn + tmpInSize])
      ensures tmpBuff[tmpIn + tmpInSize..tmpIn + tmpInSize + n] == mem[from..from + n]
      ensures Dict() == old(Dict())
    {
      ghost var known, held := Dict(), tmpBuff[tmpIn..tmpIn + tmpInSize];
      Memcpy(tmpBuff, tmpIn + tmpInSize, mem, from, n);
      assert tmpBuff[tmpIn..tmpIn + tmpInSize] == held;
      assert Dict() == known;
    }

    /** Blocks straight from the input: all full ones and, with autoFlush, what is left. */
    method WriteBlocks(mem: array<byte>, from: nat, size: nat, ghost src: seq<byte>, p0: nat, room: nat, ghost done0: seq<byte>)
      returns (p: nat, out: seq<byte>)
      requires Begun() && Knows(done0) && Behind() && Faithful(codec, compress) && Input(mem, from, size, src) && p0 <= size
      requires room >= Space(size - p0, maxBlockSize, ChecksumSize(prefs.info), prefs.autoFlush)
      modifies this`lz4Ctx, this`dict, this`dictSize
      ensures p0 <= p <= size && size - p < maxBlockSize && (prefs.autoFlush ==> p == size)
      ensures Knows(done0 + src[p0..p]) && Behind() && Carries(codec, compress, prefs.info, done0, out, done0 + src[p0..p])
      ensures |out| <= Space(size - p0, maxBlockSize, ChecksumSize(prefs.info), prefs.autoFlush)
      ensures if p == p0 then dict == old(dict) && dictSize == old(dictSize)
              else prefs.info.linked ==> FromCaller(mem) && (!prefs.autoFlush ==> dictSize >= WINDOW)
    {
      hide Recent, Carries, BlockSize, Faithful, Knows;
      BlockSizePositive(prefs.info.blockSizeID);
      p, out := p0, [];
      ghost var done := done0;
      CarriesNothing(codec, compress, prefs.info, done0);
      assert done0 + src[p0..p0] == done0;
      while size - p >= maxBlockSize
        invariant p0 <= p <= size && Knows(done) && Behind() && done == done0 + src[p0..p] && Carries(codec, compress, prefs.info, done0, out, done)
        invariant |out| + Space(size - p, maxBlockSize, ChecksumSize(prefs.info), prefs.autoFlush)
                  <= Space(size - p0, maxBlockSize, ChecksumSize(prefs.info), prefs.autoFlush)
        invariant if p == p0 then dict == old(dict) && dictSize == old(dictSize)
                  else prefs.info.linked ==> FromCaller(mem) && dictSize >= WINDOW
      {
        out, done := NextBlock(mem, from, size, src, p0, p, maxBlockSize, out, room, done0, done);
        p := p + maxBlockSize;
      }
      if prefs.autoFlush && p < size {
        out, done := NextBlock(mem, from, size, src, p0, p, size - p, out, room, done0, done);
        p := size;
      }
    }

    ghost predicate FromCaller(mem: array<byte>)
      reads this`dict, this`dictSize
    {
      dict.Callers? && dict.mem == mem && dictSize > 0
    }

    method NextBlock(mem: array<byte>, from: nat, size: nat, ghost src: seq<byte>, ghost p0: nat, p: nat, n: nat, out0: seq<byte>,
                     room: nat, ghost done0: seq<byte>, ghost done: seq<byte>)
      returns (out: seq<byte>, ghost now: seq<byte>)
      requires Begun() && Knows(done) && Behind() && Faithful(codec, compress) && Input(mem, from, size, src)
      requires p0 <= p <= p + n <= size && 0 < n <= maxBlockSize && done == done0 + src[p0..p]
      requires Carries(codec, compress, prefs.info, done0, out0, done)
      requires |out0| + BLOCK_HEADER + n + ChecksumSize(prefs.info) <= room
      modifies this`lz4Ctx, this`dict, this`dictSize
      ensures now == done0 + src[p0..p + n] && Knows(now) && Behind() && Carries(codec, compress, prefs.info, done0, out, now)
      ensures |out| <= |out0| + BLOCK_HEADER + n + ChecksumSize(prefs.info)
      ensures prefs.info.linked ==> FromCaller(mem) && dictSize >= n
    {
      hide Recent, Carries, BlockSize, Faithful, Knows, KnowsAll, Dict, Input;
      InputPart(mem, from, size, src, p, p + n);
      var block := MakeBlock(Callers(mem, from + p), n, room - |out0|, done);
      now := done + src[p..p + n];
      KnowsEnd(now);
      FrameDecoder.ShownGrows(done0, src, p0, p, p + n);
      CarriesOn(codec, compress, prefs.info, done0, out0, done, block, now);
      out := out0 + block;
    }

    /**
      LZ4F_compressUpdate. Nothing gets lost: the blocks written take the frame
      from what had been sent to what is sent now, and the rest is in the
      buffer; and with the capacity asked for, there is always room. The
      dictionary is in memory of the caller only if he promised to keep it; and
      it never loses any of the last 64 KB, without that promise and autoFlush.
    */
    method Update(mem: array<byte>, from: nat, size: nat, dstCapacity: nat, stableSrc: bool) returns (r: Option<seq<byte>>)
      requires (cStage == 1 ==> Valid()) && Faithful(codec, compress)
      requires mem != tmpBuff && from + size <= mem.Length && size <= ADDRESSABLE
      modifies this`tmpIn, this`tmpInSize, this`lz4Ctx, this`dict, this`dictSize, this`xxh, this`totalInSize, this`content, tmpBuff
      ensures r.None? <==> cStage != 1 || dstCapacity < BoundInternal(size, prefs, old(tmpInSize))
      ensures r.None? ==> content == old(content) && tmpInSize == old(tmpInSize) && (cStage == 1 ==> Valid())
      ensures r.Some? ==> Valid() && content == old(content) + mem[from..from + size]
      ensures r.Some? ==> Carries(codec, compress, prefs.info, old(if tmpInSize <= |content| then Sent() else []), r.value, Sent())
      ensures r.Some? ==> |r.value| + FrameEnd(prefs.info) <= BoundInternal(size, prefs, old(tmpInSize))
      ensures dict.Callers? ==> dict == old(dict) || (stableSrc && dict.mem == mem)
      ensures r.Some? && !stableSrc && !prefs.autoFlush && old(Valid() && WholeSent()) ==> WholeSent()
    {
      hide BoundInternal, Space, Carries, Valid, Begun, WholeSent;
      if cStage != 1 { return None; }
      if dstCapacity < BoundInternal(size, prefs, tmpInSize) { return None; }
      BoundHere(size);
      var out := Blocks(mem, from, size, mem[from..from + size], dstCapacity, stableSrc);
      r := Some(out);
    }

    /** The dictionary is all of the last 64 KB of what is in blocks. */
    ghost predicate WholeSent()
      reads this, tmpBuff, if dict.Callers? then {dict.mem} else {}
    {
      tmpInSize <= |content| && Knows(Sent()) && Whole(Sent())
    }

    lemma BoundHere(srcSize: nat)
      requires Valid() && srcSize <= ADDRESSABLE
      ensures maxBlockSize > 0 && tmpInSize <= |content|
      ensures BoundInternal(srcSize, prefs, tmpInSize) == FrameEnd(prefs.info) + SpaceNeeded(srcSize)
    {
      hide BoundInternal, Space;
      BoundIsSpace(srcSize, prefs, tmpInSize);
    }

    lemma Running()
      requires Valid()
      ensures cStage == 1 && maxBufferSize <= tmpBuff.Length
    {
    }

    lemma HeldIsPart()
      requires Valid()
      ensures maxBlockSize > 0 && tmpInSize <= |content|
    {
    }

    ghost function SpaceNeeded(srcSize: nat): nat
      requires maxBlockSize > 0
      reads this`prefs, this`maxBlockSize, this`tmpInSize
    {
      Space(tmpInSize + srcSize, maxBlockSize, ChecksumSize(prefs.info), prefs.autoFlush || srcSize == 0)
    }

    /** LZ4F_compressUpdate after its checks. */
    method Blocks(mem: array<byte>, from: nat, size: nat, ghost src: seq<byte>, room: nat, stableSrc: bool) returns (out: seq<byte>)
      requires Valid() && Faithful(codec, compress) && Input(mem, from, size, src) && room >= SpaceNeeded(size)
      modifies this`tmpIn, this`tmpInSize, this`lz4Ctx, this`dict, this`dictSize, this`xxh, this`totalInSize, this`content, tmpBuff
      ensures Valid() && content == old(content) + src
      ensures Carries(codec, compress, prefs.info, old(Sent()), out, Sent()) && |out| <= old(SpaceNeeded(size))
      ensures dict.Callers? ==> dict == old(dict) || (stableSrc && dict.mem == mem)
      ensures !stableSrc && !prefs.autoFlush && old(WholeSent()) ==> WholeSent()
    {
      hide Carries, Begun, Faithful, Space, SpaceNeeded, Knows, Whole, InLimits, Dict, Valid, Holds, WholeSent;
      ValidSays();
      ghost var done;
      out, done := Take(mem, from, size, src, room, stableSrc);
      Total(mem, from, size);
      ValidNow();
      if Whole(done) { WholeNow(done); }
    }

    /** The whole input is taken: into blocks, and the rest into the buffer. */
    method Take(mem: array<byte>, from: nat, size: nat, ghost src: seq<byte>, room: nat, stableSrc: bool)
      returns (out: seq<byte>, ghost done: seq<byte>)
      requires Valid() && Faithful(codec, compress) && Input(mem, from, size, src) && room >= SpaceNeeded(size)
      modifies this`tmpIn, this`tmpInSize, this`lz4Ctx, this`dict, this`dictSize, tmpBuff
      ensures Begun() && InLimits() && Holds(content + src) && Knows(done)
      ensures tmpInSize <= |content + src| && done == (content + src)[..|content + src| - tmpInSize]
      ensures Carries(codec, compress, prefs.info, old(Sent()), out, done) && |out| <= old(SpaceNeeded(size))
      ensures dict.Callers? ==> dict == old(dict) || (stableSrc && dict.mem == mem)
      ensures !stableSrc && !prefs.autoFlush && old(WholeSent()) ==> Whole(done)
    {
      hide Carries, Begun, Faithful, Space, SpaceNeeded, Knows, Whole, InLimits, Dict, Valid, Holds, WholeSent, Gathered;
      ValidSays();
      var p, fromSrc;
      p, out, fromSrc, done := BlocksOf(mem, from, size, src, room);
      Settle(mem, from, size, src, p, fromSrc, stableSrc, done);
      HoldsNow(content + src, done);
      KnowsEnd(done);
    }

    lemma ValidSays()
      requires Valid()
      ensures Begun() && tmpInSize <= |content| && (prefs.autoFlush ==> tmpInSize == 0)
      ensures prefs.info.contentChecksum ==> xxh == content
      ensures prefs.info.contentSize > 0 ==> totalInSize == |content| % U64
    {
    }

    lemma ValidNow()
      requires Begun() && InLimits() && Holds(content)
      requires prefs.info.contentChecksum ==> xxh == content
      requires prefs.info.contentSize > 0 ==> totalInSize == |content| % U64
      ensures Valid()
    {
    }

    lemma WholeNow(done: seq<byte>)
      requires tmpInSize <= |content| && done == Sent() && Knows(done) && Whole(done)
      ensures WholeSent()
    {
    }

    /**
      `done` is the content of all blocks when the input has been taken up to
      `p`; what follows it is in the buffer, or is the rest of the input.
    */
    ghost predicate Gathered(src: seq<byte>, p: nat, done: seq<byte>)
      reads this, tmpBuff, if dict.Callers? then {dict.mem} else {}
    {
      Begun() && Knows(done) && Behind() && p <= |src| && Placed(src, p, done)
    }

    ghost predicate Placed(src: seq<byte>, p: nat, done: seq<byte>)
      requires p <= |src|
      reads this`content, this`prefs, this`maxBlockSize, this`maxBufferSize, this`tmpIn, this`tmpInSize, this`tmpBuff, tmpBuff
    {
      var all := content + src;
      && tmpInSize < maxBlockSize && tmpInSize <= |all|
      && (!prefs.autoFlush && !prefs.info.linked ==> InLimits()) && (prefs.autoFlush ==> tmpInSize == 0)
      && if tmpInSize == 0 then done == all[..|content| + p]
         else
           && p == |src| && InLimits() && tmpIn + tmpInSize <= tmpBuff.Length
           && tmpBuff[tmpIn..tmpIn + tmpInSize] == all[|all| - tmpInSize..] && done == all[..|all| - tmpInSize]
    }

    /** The block in the buffer, if there is one. */
    method FirstBlock(mem: array<byte>, from: nat, size: nat, ghost src: seq<byte>, room: nat)
      returns (p: nat, out: seq<byte>, ghost done: seq<byte>)
      requires Valid() && Faithful(codec, compress) && Input(mem, from, size, src) && room >= SpaceNeeded(size)
      modifies this`tmpIn, this`tmpInSize, this`lz4Ctx, this`dict, this`dictSize, tmpBuff
      ensures Gathered(src, p, done) && Carries(codec, compress, prefs.info, old(Sent()), out, done)
      ensures |out| + Space(size - p, maxBlockSize, ChecksumSize(prefs.info), prefs.autoFlush) <= old(SpaceNeeded(size))
      ensures dict.Callers? ==> dict == old(dict)
      ensures old(WholeSent()) ==> Whole(done)
    {
      hide Recent, Carries, BlockSize, Faithful, Space, Knows, Whole, WholeSent, Valid, Holds, Gathered, Input;
      ValidSays();
      HeldIsPart();
      InputPart(mem, from, size, src, 0, size);
      ghost var all := prefs.autoFlush || size == 0;
      SpaceOfNothing(maxBlockSize, ChecksumSize(prefs.info), prefs.autoFlush);
      p, out, done := 0, [], Sent();
      CarriesNothing(codec, compress, prefs.info, done);
      if tmpInSize > 0 {
        var sizeToCopy := maxBlockSize - tmpInSize;
        if sizeToCopy > size {
          JoinTmp(mem, from, size, src);
          p := size;
        } else {
          p, out := CompleteTmp(mem, from, size, src, room, all);
          done := content + src[..p];
        }
      } else {
        NoneBegun(src);
      }
      SpaceGrows(size - p, maxBlockSize, ChecksumSize(prefs.info), prefs.autoFlush, all);
    }

    lemma NoneBegun(src: seq<byte>)
      requires Valid() && tmpInSize == 0
      ensures Gathered(src, 0, Sent()) && (WholeSent() ==> Whole(Sent()))
    {
      PartOfAll(content, src, 0);
      assert content + src[..0] == content == Sent();
    }

    /** The blocks an update writes. */
    method BlocksOf(mem: array<byte>, from: nat, size: nat, ghost src: seq<byte>, room: nat)
      returns (p: nat, out: seq<byte>, fromSrc: bool, ghost done: seq<byte>)
      requires Valid() && Faithful(codec, compress) && Input(mem, from, size, src) && room >= SpaceNeeded(size)
      modifies this`tmpIn, this`tmpInSize, this`lz4Ctx, this`dict, this`dictSize, tmpBuff
      ensures Gathered(src, p, done) && size - p < maxBlockSize && (prefs.autoFlush ==> p == size)
      ensures Carries(codec, compress, prefs.info, old(Sent()), out, done) && |out| <= old(SpaceNeeded(size))
      ensures fromSrc ==> tmpInSize == 0 && (prefs.info.linked ==> FromCaller(mem) && (!prefs.autoFlush ==> dictSize >= WINDOW))
      ensures !fromSrc && old(WholeSent()) ==> Whole(done)
      ensures !fromSrc && dict.Callers? ==> dict == old(dict)
    {
      hide Recent, Carries, BlockSize, Faithful, Space, SpaceNeeded, Valid, Knows, Whole, WholeSent, Dict, Gathered, Placed, Begun;
      HeldIsPart();
      p, out, done := FirstBlock(mem, from, size, src, room);
      GatheredSays(src, p, done);
      var q, more := WriteBlocks(mem, from, size, src, p, room - |out|, done);
      ghost var grown := done + src[p..q];
      CarriesOn(codec, compress, prefs.info, old(Sent()), out, done, more, grown);
      GatheredMore(src, p, q, done);
      fromSrc := q > p;
      p, out, done := q, out + more, grown;
    }

    lemma GatheredSays(src: seq<byte>, p: nat, done: seq<byte>)
      requires Gathered(src, p, done)
      ensures Begun() && Knows(done) && Behind() && p <= |src| && Placed(src, p, done) && (tmpInSize > 0 ==> p == |src|)
    {
    }

    lemma GatheredMore(src: seq<byte>, p: nat, q: nat, done: seq<byte>)
      requires p <= q <= |src| && Begun() && Knows(done + src[p..q]) && Behind() && Placed(src, p, done)
      requires tmpInSize > 0 ==> p == q == |src|
      ensures Gathered(src, q, done + src[p..q]) && (p == q ==> done + src[p..q] == done)
    {
      TakenMore(content, src, p, q, done);
    }

    /**
      The end of an update: where the buffer begins next, and what is left of
      the input goes there. The dictionary stays in front of that place, or in
      the memory the caller keeps.
    */
    method Settle(mem: array<byte>, from: nat, size: nat, ghost src: seq<byte>, p: nat, fromSrc: bool, stableSrc: bool, ghost done: seq<byte>)
      requires Input(mem, from, size, src) && Gathered(src, p, done) && size - p < maxBlockSize && (prefs.autoFlush ==> p == size)
      requires fromSrc ==> tmpInSize == 0 && (prefs.info.linked ==> FromCaller(mem))
      modifies this`tmpIn, this`tmpInSize, this`dict, this`dictSize, tmpBuff
      ensures Begun() && InLimits() && Held(content + src, done) && Knows(done) && Behind()
      ensures Inside(dict, dictSize) && Dict() == old(Dict())
      ensures dict.Callers? ==> dict == old(dict) && (prefs.info.linked && fromSrc ==> stableSrc)
      ensures Settled(fromSrc, stableSrc, old(Whole(done)), old(dictSize)) ==> Whole(done)
    {
      hide BlockSize, Whole, Knows, Dict, Gathered, Held, Input;
      InputPart(mem, from, size, src, 0, size);
      GatheredSays(src, p, done);
      MoveBuffer(src, p, fromSrc, stableSrc, done);
      if p < size {
        GatheredSays(src, p, done);
        BufferRest(mem, from, size, src, p, done);
      } else {
        AllGathered(src, done);
      }
      KnowsEnd(done);
    }

    /** Of the content `all`, the end after `done` is in the buffer. */
    ghost predicate Held(all: seq<byte>, done: seq<byte>)
      reads this`prefs, this`maxBlockSize, this`tmpIn, this`tmpInSize, this`tmpBuff, tmpBuff
    {
      && tmpInSize < maxBlockSize && tmpInSize <= |all| && (prefs.autoFlush ==> tmpInSize == 0)
      && (tmpInSize > 0 ==> tmpIn + tmpInSize <= tmpBuff.Length && tmpBuff[tmpIn..tmpIn + tmpInSize] == all[|all| - tmpInSize..])
      && done == all[..|all| - tmpInSize]
    }

    lemma AllGathered(src: seq<byte>, done: seq<byte>)
      requires Gathered(src, |src|, done)
      ensures Held(content + src, done) && Knows(done) && Behind()
    {
    }

    lemma HoldsNow(all: seq<byte>, done: seq<byte>)
      requires Held(all, done) && Knows(done) && Behind()
      ensures Holds(all) && tmpInSize <= |all| && done == all[..|all| - tmpInSize]
    {
    }

    /** When the dictionary has all of the last 64 KB after an update. */
    ghost predicate Settled(fromSrc: bool, stableSrc: bool, whole: bool, had: nat)
      reads this`prefs
    {
      !prefs.info.linked || if fromSrc then !stableSrc && had >= WINDOW else whole
    }

    /** tmpIn after blocks were written: behind the dictionary, or where it was. */
    method MoveBuffer(ghost src: seq<byte>, ghost p: nat, fromSrc: bool, stableSrc: bool, ghost done: seq<byte>)
      requires Gathered(src, p, done) && (fromSrc ==> tmpInSize == 0 && (prefs.info.linked ==> dict.Callers? && dictSize > 0))
      modifies this`tmpIn, this`dict, this`dictSize, tmpBuff
      ensures Gathered(src, p, done) && InLimits() && Inside(dict, dictSize) && old(Inside(dict, dictSize)) && Dict() == old(Dict())
      ensures dict.Callers? ==> dict == old(dict) && (prefs.info.linked && fromSrc ==> stableSrc)
      ensures Settled(fromSrc, stableSrc, old(Whole(done)), old(dictSize)) ==> Whole(done)
    {
      hide Knows, Whole, Dict, Begun, Behind;
      ghost var held := if tmpInSize > 0 then tmpBuff[tmpIn..tmpIn + tmpInSize] else [];
      MoveTmpIn(fromSrc, stableSrc, done);
      assert tmpInSize > 0 ==> tmpBuff[tmpIn..tmpIn + tmpInSize] == held;
    }

    method MoveTmpIn(fromSrc: bool, stableSrc: bool, ghost done: seq<byte>)
      requires Begun() && Knows(done) && Behind() && (fromSrc ==> prefs.info.linked ==> dict.Callers? && dictSize > 0)
      requires !prefs.autoFlush && !prefs.info.linked ==> InLimits()
      modifies this`tmpIn, this`dict, this`dictSize, tmpBuff
      ensures InLimits() && Knows(done) && Behind() && Inside(dict, dictSize) && old(Inside(dict, dictSize)) && Dict() == old(Dict())
      ensures dict.Callers? ==> dict == old(dict) && (prefs.info.linked && fromSrc ==> stableSrc)
      ensures Settled(fromSrc, stableSrc, old(Whole(done)), old(dictSize)) ==> Whole(done)
      ensures !fromSrc && old(InLimits()) ==> tmpIn == old(tmpIn) && unchanged(tmpBuff)
    {
      hide BlockSize, Knows, Whole;
      KnowsEnd(done);
      BlockSizePositive(prefs.info.blockSizeID);
      if prefs.info.linked && fromSrc {
        if stableSrc {
          tmpIn := 0;
        } else {
          SaveToTmp(done);
          assert tmpIn > 0; // an empty dictionary would be an error
        }
      }
      KeepInLimits(done);
      KnowsEnd(done);
    }

    /** The input that is left goes to the buffer. */
    method BufferRest(mem: array<byte>, from: nat, size: nat, ghost src: seq<byte>, p: nat, ghost done: seq<byte>)
      requires Begun() && InLimits() && Input(mem, from, size, src) && p < size && size - p < maxBlockSize && !prefs.autoFlush
      requires Knows(done) && Behind() && p <= |src| && Placed(src, p, done) && tmpInSize == 0
      modifies this`tmpInSize, tmpBuff
      ensures Held(content + src, done) && Knows(done) && Behind()
      ensures Inside(dict, dictSize) && Dict() == old(Dict()) && (old(Whole(done)) ==> Whole(done))
    {
      hide Knows, Whole, Dict, Behind, Input, BlockSize, Held;
      InputPart(mem, from, size, src, p, size);
      assert src[p..size] == src[p..];
      Append(size - p, mem, from + p, done);
      NothingBefore(tmpIn, size - p, src[p..]);
      tmpInSize := size - p;
      HeldRest(src, p, done);
    }

    lemma HeldRest(src: seq<byte>, p: nat, done: seq<byte>)
      requires p < |src| && tmpInSize == |src| - p < maxBlockSize && !prefs.autoFlush && done == (content + src)[..|content| + p]
      requires tmpIn + tmpInSize <= tmpBuff.Length && tmpBuff[tmpIn..tmpIn + tmpInSize] == src[p..]
      ensures Held(content + src, done)
    {
      PartOfAll(content, src, p);
    }

    /** The whole input is accounted for. */
    method Total(mem: array<byte>, from: nat, size: nat)
      requires from + size <= mem.Length
      modifies this`xxh, this`totalInSize, this`content
      ensures content == old(content) + mem[from..from + size]
      ensures prefs.info.contentChecksum && old(xxh) == old(content) ==> xxh == content
      ensures old(totalInSize) == old(|content|) % U64 ==> totalInSize == |content| % U64
    {
      if prefs.info.contentChecksum { xxh := xxh + mem[from..from + size]; }
      totalInSize := (totalInSize + size) % U64;
      content := content + mem[from..from + size];
    }

    /**
      LZ4F_compressEnd: what is buffered, the end mark, and the content checksum.
      It succeeds with the capacity LZ4F_compressBound gives for no input, when
      the content has the size that was announced.
    */
    method End(dstCapacity: nat) returns (r: Option<seq<byte>>)
      requires (cStage == 1 ==> Valid()) && Faithful(codec, compress) && maxBufferSize <= tmpBuff.Length
      modifies this`cStage, this`maxBufferSize, this`tmpIn, this`tmpInSize, this`lz4Ctx, this`dict, this`dictSize, tmpBuff
      ensures maxBufferSize <= tmpBuff.Length && (r.Some? ==> cStage == 0)
      ensures old(cStage) == 1 && r.Some? ==> SizeOk(prefs.info, content)
      ensures old(cStage) == 1 && r.Some? ==>
        Ends(codec, compress, prefs.info, old(if tmpInSize <= |content| then Sent() else []), r.value, content)
      ensures r.Some? ==> |r.value| <= FlushSpace(old(tmpInSize)) + FrameEnd(prefs.info)
      ensures old(cStage) == 1 && SizeOk(prefs.info, content) && dstCapacity >= CompressBound(0, prefs) ==> r.Some?
      ensures old(cStage) == 1 && SizeOk(prefs.info, content) && old(tmpInSize) == 0 && dstCapacity >= FrameEnd(prefs.info) ==> r.Some?
      ensures old(cStage) != 1 ==>
        && (r.Some? <==> old(tmpInSize) == 0 && dstCapacity >= FrameEnd(prefs.info)
                         && (prefs.info.contentSize == 0 || prefs.info.contentSize == totalInSize))
        && (r.Some? ==> r.value == LoneEnd())
    {
      hide Carries, Faithful, BlockSize, CompressBound, Recent, Knows, Whole, Dict, Valid, WholeSent, Begun;
      if cStage == 1 {
        ValidSays();
        EndFits();
      }
      ghost var running, sent := cStage == 1, if tmpInSize <= |content| then Sent() else [];
      var flushed := Flush(dstCapacity);
      if flushed.None? { return None; }
      if running { ValidSays(); }
      var out := flushed.value;
      var left := dstCapacity - |out|;
      if left < BLOCK_HEADER { return None; }
      var suffix := Bytes32(0);
      if prefs.info.contentChecksum {
        if left < 8 { return None; }
        suffix := suffix + Bytes32(codec.checksum(xxh) % U32);
      }
      assert suffix == EndOf(codec, prefs.info, xxh);
      hide EndOf, Ends;
      if running { EndOfContent(); }
      cStage, maxBufferSize := 0, 0;
      if prefs.info.contentSize > 0 && prefs.info.contentSize != totalInSize { return None; }
      if running { FrameEnds(codec, compress, prefs.info, sent, out, content); }
      r := Some(out + suffix);
    }

    lemma EndOfContent()
      requires Valid()
      ensures EndOf(codec, prefs.info, xxh) == EndOf(codec, prefs.info, content)
    {
    }

    lemma EndFits()
      requires Valid()
      ensures CompressBound(0, prefs) >= BLOCK_HEADER + tmpInSize + ChecksumSize(prefs.info) + FrameEnd(prefs.info)
      ensures CompressBound(0, prefs) >= tmpInSize + BLOCK_HEADER + CHECKSUM
    {
      hide CompressBound;
      BoundOfEnd(prefs, tmpInSize);
    }

    /** What is written when no frame has been begun. */
    ghost function LoneEnd(): seq<byte>
      reads this`prefs, this`xxh
    {
      EndOf(codec, prefs.info, xxh)
    }

    /** What a flush may write. */
    ghost function FlushSpace(held: nat): nat
      reads this`prefs
    {
      if held == 0 then 0 else BLOCK_HEADER + held + ChecksumSize(prefs.info)
    }

    /**
      LZ4F_compressFrame_usingCDict, without a dictionary. The capacity that
      LZ4F_compressFrameBound gives for the caller's preferences is enough,
      although the preferences are rewritten; the result is a frame of exactly
      the input.
    */
    method CompressFrame(mem: array<byte>, from: nat, size: nat, p: Prefs, dstCapacity: nat) returns (r: Option<seq<byte>>)
      requires PrefsOk(p) && maxBufferSize <= tmpBuff.Length && Faithful(codec, compress)
      requires mem != tmpBuff && from + size <= mem.Length && size <= ADDRESSABLE
      modifies this, tmpBuff
      ensures dstCapacity >= FrameBound(size, p) ==> r.Some?
      ensures r.Some? ==> |r.value| <= dstCapacity
      ensures r.Some? ==> IsFrame(codec, r.value, mem[from..from + size])
      ensures var info := Rewritten(p.info, size);
        r.Some? ==> MadeFrame(codec, compress, info, r.value, mem[from..from + size])
                    && [0x04, 0x22, 0x4D, 0x18, FlagsByte(info), 16 * info.blockSizeID] <= r.value
    {
      hide Carries, Ends, Opens, IsFrame, MadeFrame, Faithful, Valid, BoundInternal, ReadFrame, ReadBlocks, Recent, CompressBound;
      var q := p.(autoFlush := true);
      if q.info.contentSize != 0 { q := q.(info := q.info.(contentSize := size)); }
      var id := OptimalBSID(q.info.blockSizeID, size);
      q := q.(info := q.info.(blockSizeID := id));
      if size <= GetBlockSize(id) { q := q.(info := q.info.(linked := false)); }
      OptimalBound(size, p.(autoFlush := true), q);
      if dstCapacity < FrameBound(size, q) { return None; }
      r := FrameOf(mem, from, size, q, dstCapacity);
      FrameBegins(codec, compress, Rewritten(p.info, size), r.value, mem[from..from + size]);
    }

    /** The three calls, with room for all of them. */
    method FrameOf(mem: array<byte>, from: nat, size: nat, q: Prefs, dstCapacity: nat) returns (r: Option<seq<byte>>)
      requires PrefsOk(q) && maxBufferSize <= tmpBuff.Length && q.autoFlush
      requires mem != tmpBuff && from + size <= mem.Length && size <= ADDRESSABLE
      requires q.info.contentSize == 0 || q.info.contentSize == size
      requires Faithful(codec, compress) && dstCapacity >= FrameBound(size, q)
      modifies this, tmpBuff
      ensures r.Some? && |r.value| <= dstCapacity
      ensures IsFrame(codec, r.value, mem[from..from + size])
      ensures MadeFrame(codec, compress, Named(q.info), r.value, mem[from..from + size])
    {
      hide Carries, Ends, Opens, IsFrame, MadeFrame, Faithful, BoundInternal, ReadFrame, ReadBlocks, Recent,
        CompressBound, BlockSize, Knows, Whole, WholeSent, Valid, Begun;
      ghost var src := mem[from..from + size];
      var header := Begin(q, dstCapacity);
      DefaultSize(size, q, prefs);
      Running();
      var blocks := Update(mem, from, size, dstCapacity - |header.value|, true);
      Running();
      ValidSays();
      assert [] + src == src && Sent() == src && size % U64 == size;
      var end := End(dstCapacity - |header.value| - |blocks.value|);
      WholeFrame(codec, compress, prefs.info, header.value, blocks.value, src, end.value, src);
      r := Some(header.value + blocks.value + end.value);
    }
  }

  /** What the header says of these preferences: the default block size has two names. */
  function Named(info: Info): Info {
    info.(blockSizeID := if info.blockSizeID == 0 then 4 else info.blockSizeID)
  }

  /**
    What the header says of a frame that is made at once: its size if any was
    announced, no larger blocks than needed, and no links for a single block.
  */
  function Rewritten(info: Info, size: nat): Info {
    var id := OptimalID(info.blockSizeID, size);
    Named(info.(contentSize := if info.contentSize != 0 then size else 0, blockSizeID := id,
                linked := info.linked && size > (if id in [0, 4] then 0x1_0000 else if id == 5 then 0x4_0000
                                                 else if id == 6 then 0x10_0000 else 0x40_0000)))
  }

  /** The default block size has two names. */
  lemma DefaultSize(srcSize: nat, p: Prefs, q: Prefs)
    requires q == p.(info := p.info.(blockSizeID := if p.info.blockSizeID == 0 then 4 else p.info.blockSizeID))
    ensures BoundInternal(srcSize, p, 0) == BoundInternal(srcSize, q, 0)
  {
  }

  /** `header` opens a frame with these settings: what follows it are its blocks. */
  ghost predicate Opens(c: Codec, info: Info, header: seq<byte>) {
    && info.contentSize < U64 && info.dictID < U32 && 4 <= info.blockSizeID <= 7 && header == HeaderOf(c, info)
    && forall rest :: ReadFrame(c, header + rest) == ReadBlocks(c, info, [], rest)
  }

  /** `bytes` are a whole frame with this content, whatever follows. */
  ghost predicate IsFrame(c: Codec, bytes: seq<byte>, content: seq<byte>) {
    forall rest :: ReadFrame(c, bytes + rest) == Frame(content, rest)
  }

  /** `bytes` are the header, blocks that `compress` made of the content, and the end. */
  ghost predicate MadeFrame(c: Codec, compress: Compressor, info: Info, bytes: seq<byte>, content: seq<byte>) {
    && info.contentSize < U64 && info.dictID < U32 && 4 <= info.blockSizeID <= 7
    && exists blocks :: MadeBy(c, compress, info, [], blocks, content) && bytes == HeaderOf(c, info) + blocks + EndOf(c, info, content)
  }

  lemma WholeFrame(c: Codec, compress: Compressor, info: Info, header: seq<byte>, blocks: seq<byte>, sent: seq<byte>,
                   end: seq<byte>, content: seq<byte>)
    requires Opens(c, info, header) && Carries(c, compress, info, [], blocks, sent) && Ends(c, compress, info, sent, end, content)
    ensures IsFrame(c, header + blocks + end, content) && MadeFrame(c, compress, info, header + blocks + end, content)
  {
    hide ReadFrame, ReadBlocks, MadeBy, HeaderOf, EndOf;
    forall rest ensures ReadFrame(c, header + blocks + end + rest) == Frame(content, rest) {
      assert header + blocks + end + rest == header + (blocks + (end + rest));
    }
    var last :| MadeBy(c, compress, info, sent, last, content) && end == last + EndOf(c, info, content);
    MadeOn(c, compress, info, [], blocks, sent, last, content);
    assert header + blocks + end == HeaderOf(c, info) + (blocks + last) + EndOf(c, info, content);
  }

  lemma FrameBegins(c: Codec, compress: Compressor, info: Info, bytes: seq<byte>, content: seq<byte>)
    requires MadeFrame(c, compress, info, bytes, content)
    ensures [0x04, 0x22, 0x4D, 0x18, FlagsByte(info), 16 * info.blockSizeID] <= bytes
  {
    hide MadeBy, FlagsByte, EndOf, SizeField, DictField;
    assert Bytes32(MAGIC) == [0x04, 0x22, 0x4D, 0x18];
  }

  // ----- Whole sessions -----

  /** What a caller can do with a frame that has been begun; he may promise to keep the memory of a piece as it is. */
  datatype Op = Write(piece: seq<byte>, stableSrc: bool) | FlushNow

  function Written(ops: seq<Op>): seq<byte> {
    if ops == [] then [] else
      var op := ops[|ops| - 1];
      Written(ops[..|ops| - 1]) + (if op.Write? then op.piece else [])
  }

  /**
    Any updates and flushes, each with the capacity its bound asks for, make a
    frame of exactly what was written; although the caller overwrites the memory
    of every piece that he did not promise to keep.
  */
  method Session(cctx: Cctx, p: Prefs, ops: seq<Op>) returns (frame: seq<byte>)
    requires PrefsOk(p) && cctx.maxBufferSize <= cctx.tmpBuff.Length && Faithful(cctx.codec, cctx.compress)
    requires forall op :: op in ops && op.Write? ==> |op.piece| <= ADDRESSABLE
    requires SizeOk(p.info, Written(ops))
    modifies cctx, cctx.tmpBuff
    ensures IsFrame(cctx.codec, frame, Written(ops))
    ensures MadeFrame(cctx.codec, cctx.compress, Named(p.info), frame, Written(ops))
    ensures [0x04, 0x22, 0x4D, 0x18, FlagsByte(p.info), 16 * Named(p.info).blockSizeID] <= frame
  {
    hide Carries, Ends, Opens, IsFrame, MadeFrame, Faithful, BoundInternal, ReadFrame, ReadBlocks, Recent,
      CompressBound, BlockSize, Cctx.Valid, Cctx.Knows, Cctx.Whole;
    var header := cctx.Begin(p, MAX_HEADER);
    var blocks: seq<byte> := [];
    ghost var info := cctx.prefs.info;
    cctx.HeldIsPart();
    CarriesNothing(cctx.codec, cctx.compress, info, []);
    for i := 0 to |ops|
      invariant cctx.tmpBuff == old(cctx.tmpBuff) || fresh(cctx.tmpBuff)
      invariant cctx.Valid() && cctx.content == Written(ops[..i]) && cctx.prefs.info == info && cctx.tmpInSize <= |cctx.content|
      invariant Carries(cctx.codec, cctx.compress, info, [], blocks, cctx.Sent())
    {
      assert ops[..i + 1][..i] == ops[..i];
      ghost var sent := cctx.Sent();
      var more := Perform(cctx, ops[i]);
      CarriesOn(cctx.codec, cctx.compress, info, [], blocks, sent, more, cctx.Sent());
      blocks := blocks + more;
    }
    assert ops[..|ops|] == ops;
    ghost var sent := cctx.Sent();
    cctx.Running();
    var end := cctx.End(CompressBound(0, cctx.prefs));
    WholeFrame(cctx.codec, cctx.compress, info, header.value, blocks, sent, end.value, Written(ops));
    frame := header.value + blocks + end.value;
    FrameBegins(cctx.codec, cctx.compress, info, frame, Written(ops));
  }

  method Perform(cctx: Cctx, op: Op) returns (bytes: seq<byte>)
    requires cctx.Valid() && Faithful(cctx.codec, cctx.compress)
    requires op.Write? ==> |op.piece| <= ADDRESSABLE
    modifies cctx, cctx.tmpBuff
    ensures cctx.Valid() && cctx.prefs == old(cctx.prefs) && cctx.tmpBuff == old(cctx.tmpBuff)
    ensures cctx.content == old(cctx.content) + (if op.Write? then op.piece else [])
    ensures old(cctx.tmpInSize) <= |old(cctx.content)| && cctx.tmpInSize <= |cctx.content|
    ensures Carries(cctx.codec, cctx.compress, cctx.prefs.info, old(cctx.Sent()), bytes, cctx.Sent())
  {
    hide Carries, Faithful, BoundInternal, Recent, BlockSize, Cctx.Valid, Cctx.Knows, Cctx.Whole;
    cctx.HeldIsPart();
    match op {
      case Write(piece, stableSrc) =>
        cctx.Running();
        var mem := new byte[|piece|];
        forall i | 0 <= i < |piece| { mem[i] := piece[i]; }
        assert mem[0..0 + |piece|] == piece;
        var r := cctx.Update(mem, 0, |piece|, BoundInternal(|piece|, cctx.prefs, cctx.tmpInSize), stableSrc);
        bytes := r.value;
        if !stableSrc { Overwrite(cctx, mem); }
      case FlushNow =>
        cctx.Running();
        var r := cctx.Flush(cctx.tmpInSize + BLOCK_HEADER + CHECKSUM);
        bytes := r.value;
        assert cctx.Sent() == cctx.content;
    }
    cctx.HeldIsPart();
  }

  /** The caller uses his memory for something else. */
  method Overwrite(cctx: Cctx, mem: array<byte>)
    requires cctx.Valid() && mem != cctx.tmpBuff && (cctx.dict.Callers? ==> mem != cctx.dict.mem)
    modifies mem
    ensures cctx.Valid()
  {
    hide Cctx.Valid;
    forall i | 0 <= i < mem.Length { mem[i] := 255; }
  }

  /** LZ4F_compressBound, for any amount of buffered input. */
  function CompressBound(srcSize: nat, p: Prefs): nat {
    BoundInternal(srcSize, p, U64 - 1)
  }

  /** With no input, the bound covers a block of whatever is buffered, and the end of the frame. */
  lemma BoundOfEnd(p: Prefs, held: nat)
    requires PrefsOk(p) && held < GetBlockSize(p.info.blockSizeID)
    ensures CompressBound(0, p) >= BLOCK_HEADER + held + ChecksumSize(p.info) + FrameEnd(p.info)
    ensures CompressBound(0, p) >= held + BLOCK_HEADER + CHECKSUM
  {
    hide BlocksBound, BoundInternal;
    var b := GetBlockSize(p.info.blockSizeID);
    SameBound(p, b - 1);
    BoundIsSpace(0, p, b - 1);
    assert Space(b - 1, b, ChecksumSize(p.info), true) == BLOCK_HEADER + ChecksumSize(p.info) + (b - 1);
  }

  lemma SameBound(p: Prefs, buffered: nat)
    requires buffered == GetBlockSize(p.info.blockSizeID) - 1
    ensures CompressBound(0, p) == BoundInternal(0, p, buffered)
  {
  }

  /** The end mark, and the checksum of the content. */
  function EndOf(c: Codec, info: Info, content: seq<byte>): seq<byte> {
    Bytes32(0) + (if info.contentChecksum then Bytes32(c.checksum(content) % U32) else [])
  }

  /** `bytes` take a frame whose content so far is `a` to its end: blocks made by `compress`, and the end mark. */
  ghost predicate Ends(c: Codec, compress: Compressor, info: Info, a: seq<byte>, bytes: seq<byte>, content: seq<byte>) {
    && (forall rest :: ReadBlocks(c, info, a, bytes + rest) == Frame(content, rest))
    && exists blocks :: MadeBy(c, compress, info, a, blocks, content) && bytes == blocks + EndOf(c, info, content)
  }

  lemma FrameEnds(c: Codec, compress: Compressor, info: Info, a: seq<byte>, blocks: seq<byte>, content: seq<byte>)
    requires Carries(c, compress, info, a, blocks, content) && SizeOk(info, content) && Faithful(c, compress)
    ensures Ends(c, compress, info, a, blocks + EndOf(c, info, content), content)
  {
    hide ReadBlocks, Bytes32, LE32, SizeOk, MadeBy;
    var suffix := EndOf(c, info, content);
    forall rest ensures ReadBlocks(c, info, a, blocks + suffix + rest) == Frame(content, rest) {
      var crc := if info.contentChecksum then Bytes32(c.checksum(content) % U32) else [];
      assert blocks + suffix + rest == blocks + (Bytes32(0) + (crc + rest));
      BlockIsThere(c, info, content, 0, crc + rest);
      if info.contentChecksum {
        FrameDecoder.AfterFour(crc, rest);
      } else {
        assert crc + rest == rest;
      }
    }
  }

  lemma TakenMore(content: seq<byte>, src: seq<byte>, p: nat, q: nat, done: seq<byte>)
    requires p <= q <= |src|
    ensures done == (content + src)[..|content| + p] ==> done + src[p..q] == (content + src)[..|content| + q]
    ensures p == q ==> done + src[p..q] == done
  {
    PartOfAll(content, src, p);
    PartOfAll(content, src, q);
    assert src[..q] == src[..p] + src[p..q];
  }

  lemma Joined(content: seq<byte>, held: nat, more: seq<byte>)
    requires held <= |content|
    ensures content[..|content| - held] + (content[|content| - held..] + more) == content + more
  {
  }

  lemma TailOfAll(content: seq<byte>, src: seq<byte>, held: nat)
    requires held <= |content|
    ensures (content + src)[|content| - held..] == content[|content| - held..] + src
    ensures (content + src)[..|content| - held] == content[..|content| - held]
  {
  }

  lemma PartOfAll(content: seq<byte>, src: seq<byte>, p: nat)
    requires p <= |src|
    ensures (content + src)[..|content| + p] == content + src[..p] && (content + src)[|content| + p..] == src[p..]
  {
  }

  lemma SpaceOfBlock(n: nat, blockSize: nat, crc: nat, all: bool)
    requires 0 < blockSize <= n
    ensures Space(n, blockSize, crc, all) == BLOCK_HEADER + crc + blockSize + Space(n - blockSize, blockSize, crc, all)
  {
  }

  lemma SpaceOfNothing(blockSize: nat, crc: nat, all: bool)
    requires blockSize > 0
    ensures Space(0, blockSize, crc, all) == 0
  {
  }

  lemma {:induction false} SpaceGrows(n: nat, blockSize: nat, crc: nat, some: bool, all: bool)
    requires blockSize > 0 && (some ==> all)
    ensures Space(n, blockSize, crc, some) <= Space(n, blockSize, crc, all)
    decreases n
  {
    if n >= blockSize { SpaceGrows(n - blockSize, blockSize, crc, some, all); }
  }

  lemma BlockSizePositive(id: nat)
    ensures BlockSize(id) >= WINDOW
  {
  }

  lemma PackedSize(c: Codec, packed: seq<byte>, src: seq<byte>, history: seq<byte>, cap: nat)
    requires packed != [] ==> Encodes(c, packed, src, history, cap)
    ensures |packed| <= cap
  {
  }

  /** An encoder may know less than all the content, as long as it is the end of it. */
  lemma SameEncoding(c: Codec, packed: seq<byte>, src: seq<byte>, known: seq<byte>, done: seq<byte>, cap: nat)
    requires Encodes(c, packed, src, known, cap) && LooksBack(c) && EndsWith(done, known)
    ensures Encodes(c, packed, src, done, cap)
  {
    var g := done[..|done| - |known|];
    assert g + known == done;
    forall n | n >= |src| ensures c.decode(packed, done, n) == Some(src) {
      assert c.decode(packed, known, n) == Some(src);
      assert c.decode(packed, g + known, n) == Some(src);
    }
  }

  /** The last 64 KB of two neighbouring parts: how much of them the second has, and that it all is an end of the content. */
  lemma EndsMore(done: seq<byte>, known: seq<byte>, src: seq<byte>, now: seq<byte>)
    requires EndsWith(done, known) && EndsWith(known + src, now)
    ensures EndsWith(done + src, now)
  {
    assert done + src == done[..|done| - |known|] + (known + src);
  }

  lemma EndOfEnd(s: seq<byte>, a: seq<byte>, b: seq<byte>)
    requires EndsWith(s, a + b)
    ensures EndsWith(s, b)
  {
    assert s[|s| - |b|..] == s[|s| - |a + b|..][|a|..];
  }

  lemma ArraySplit(a: array<byte>, i: nat, j: nat, k: nat)
    requires i <= j <= k <= a.Length
    ensures a[i..j] + a[j..k] == a[i..k]
  {
  }

  lemma TailOf(a: seq<byte>, b: seq<byte>)
    ensures EndsWith(a + b, b)
  {
  }

  /** An end of the content that is long enough is its last 64 KB. */
  lemma EndIsRecent(s: seq<byte>, x: seq<byte>)
    requires EndsWith(s, x) && |x| == Min(|s|, WINDOW)
    ensures x == Recent(s)
  {
  }

  function BufferNeeded(p: Prefs, blockSize: nat): nat {
    if p.autoFlush then (if p.info.linked then WINDOW else 0)
    else blockSize + (if p.info.linked then 2 * WINDOW else 0)
  }
}
