/**
  The LZ4 Frame Format Description v1.6.1 ("Frame Descriptor", "Data Blocks",
  "Skippable Frames") as a reader of whole inputs: what a frame at the start of
  `s` contains, and what follows it. The resumable decoder and the buffering
  encoder are proved against these functions.
*/
module FrameFormat {
  import opened BlockFormat
  import opened Sizes

  const MAGIC := 0x184D2204
  const SKIPPABLE_START := 0x184D2A50
  const MIN_HEADER := 7
  const MAX_HEADER := 19
  const BLOCK_HEADER := 4
  const CHECKSUM := 4
  const UNCOMPRESSED := 0x8000_0000

  datatype Option<T> = None | Some(value: T)

  /**
    The two algorithms a frame is built on. `decode` gets a block, the history it
    may refer to and the greatest size of its content; `checksum` is XXH32 with
    seed 0. Nothing is assumed about them but what a proof says it needs.
  */
  datatype Codec = Codec(decode: (seq<byte>, seq<byte>, nat) -> Option<seq<byte>>, checksum: seq<byte> -> nat)

  /** Little-endian numbers. */
  function LE32(s: seq<byte>): (n: nat)
    requires |s| >= 4
    ensures n < U32
  {
    s[0] + 0x100 * s[1] as int + 0x1_0000 * s[2] as int + 0x100_0000 * s[3] as int
  }

  function LE64(s: seq<byte>): (n: nat)
    requires |s| >= 8
    ensures n < U64
  {
    LE32(s) + U32 * LE32(s[4..])
  }

  /** The frame descriptor. */
  datatype Info = Info(linked: bool, blockChecksum: bool, contentSize: nat, contentChecksum: bool, blockSizeID: nat, dictID: nat)

  function BlockSize(id: nat): nat {
    if id == 4 then 0x1_0000 else if id == 5 then 0x4_0000 else if id == 6 then 0x10_0000 else 0x40_0000
  }

  function Flag(b: byte, bit: nat): bool
    requires bit > 0
  {
    b / bit % 2 == 1
  }

  /** The FLG byte: version 01, and a reserved bit that is zero. */
  predicate FlagsOk(flg: byte) {
    flg / 64 == 1 && !Flag(flg, 2)
  }

  /** The BD byte: a known block size, and reserved bits that are zero. */
  predicate BlockSizeOk(bd: byte) {
    bd < 128 && bd / 16 % 8 >= 4 && bd % 16 == 0
  }

  function HeaderSize(flg: byte): (n: nat)
    ensures MIN_HEADER <= n <= MAX_HEADER
  {
    MIN_HEADER + (if Flag(flg, 8) then 8 else 0) + (if Flag(flg, 1) then 4 else 0)
  }

  function HeaderInfo(h: seq<byte>): (i: Info)
    requires |h| >= MIN_HEADER && |h| == HeaderSize(h[4])
    ensures i.contentSize < U64
  {
    Info(!Flag(h[4], 32), Flag(h[4], 16), if Flag(h[4], 8) then LE64(h[6..]) else 0, Flag(h[4], 4),
         h[5] / 16 % 8, if Flag(h[4], 1) then LE32(h[|h| - 5..]) else 0)
  }

  predicate HeaderChecksumOk(c: Codec, h: seq<byte>)
    requires |h| >= MIN_HEADER
  {
    c.checksum(h[4..|h| - 1]) / 256 % 256 == h[|h| - 1]
  }

  // ----- The reader -----

  /** `content` is all that the frame contains, `rest` is what follows it; or the input is not a frame; or it ends too early. */
  datatype Reading = Frame(content: seq<byte>, rest: seq<byte>) | Bad | Short

  /**
    The frame that `s` begins with. `owed` is 0 by the format; for a decoder that
    was reset in the middle of a frame it is what that frame still had to bring.
    A content size in the new header takes its place; otherwise it is held
    against the new frame.
  */
  function ReadFrame(c: Codec, s: seq<byte>, owed: nat := 0): Reading {
    if |s| < MIN_HEADER then Short
    else if LE32(s) / 16 == SKIPPABLE_START / 16 then ReadSkipSize(s[4..])
    else if LE32(s) != MAGIC || !FlagsOk(s[4]) then Bad
    else if |s| < HeaderSize(s[4]) then Short
    else
      var h := s[..HeaderSize(s[4])];
      if !BlockSizeOk(h[5]) || !HeaderChecksumOk(c, h) then Bad
      else ReadBlocks(c, HeaderInfo(h), [], s[|h|..], if Flag(s[4], 8) then 0 else owed)
  }

  function ReadSkipSize(s: seq<byte>): Reading {
    if |s| < 4 then Short else ReadSkip(LE32(s), s[4..])
  }

  function ReadSkip(n: nat, s: seq<byte>): Reading {
    if |s| < n then Short else Frame([], s[n..])
  }

  /** The blocks from here on, when `content` has been read before. */
  function ReadBlocks(c: Codec, info: Info, content: seq<byte>, s: seq<byte>, owed: nat := 0): Reading
    decreases |s|, 0
  {
    if |s| < BLOCK_HEADER then Short
    else ReadBlock(c, info, content, LE32(s), s[BLOCK_HEADER..], owed)
  }

  /** The block with header `w`, or the end of the frame. */
  function ReadBlock(c: Codec, info: Info, content: seq<byte>, w: nat, s: seq<byte>, owed: nat := 0): Reading
    decreases |s|, 2
  {
    var n := w % UNCOMPRESSED;
    if n == 0 then ReadSuffix(c, info, content, s, owed)
    else if n > BlockSize(info.blockSizeID) then Bad
    else if w >= UNCOMPRESSED then ReadDirect(c, info, content, [], n, s, owed)
    else ReadCompressed(c, info, content, n, s, owed)
  }

  /** The last `n` bytes of an uncompressed block, the first of which were `block`. */
  function ReadDirect(c: Codec, info: Info, content: seq<byte>, block: seq<byte>, n: nat, s: seq<byte>, owed: nat := 0): Reading
    requires n > 0
    decreases |s|, 1
  {
    if |s| < n then Short
    else if info.blockChecksum then ReadBlockChecksum(c, info, content + s[..n], block + s[..n], s[n..], owed)
    else ReadBlocks(c, info, content + s[..n], s[n..], owed)
  }

  function ReadBlockChecksum(c: Codec, info: Info, content: seq<byte>, block: seq<byte>, s: seq<byte>, owed: nat := 0): Reading
    decreases |s|, 0
  {
    if |s| < CHECKSUM then Short
    else if LE32(s) != c.checksum(block) then Bad
    else ReadBlocks(c, info, content, s[CHECKSUM..], owed)
  }

  function ChecksumSize(info: Info): nat {
    if info.blockChecksum then CHECKSUM else 0
  }

  function History(info: Info, content: seq<byte>): seq<byte> {
    if info.linked then content else []
  }

  /** A compressed block of `n` bytes. */
  function ReadCompressed(c: Codec, info: Info, content: seq<byte>, n: nat, s: seq<byte>, owed: nat := 0): Reading
    requires n > 0
    decreases |s|, 1
  {
    if |s| < n + ChecksumSize(info) then Short
    else
      var block := s[..n];
      var next := s[n + ChecksumSize(info)..];
      if info.blockChecksum && LE32(s[n..]) != c.checksum(block) then Bad
      else
        match c.decode(block, History(info, content), BlockSize(info.blockSizeID))
        case None => Bad
        case Some(out) => ReadBlocks(c, info, content + out, next, owed)
  }

  predicate SizeOk(info: Info, content: seq<byte>) {
    info.contentSize == 0 || info.contentSize == |content| % U64
  }

  /** After the end mark. */
  function ReadSuffix(c: Codec, info: Info, content: seq<byte>, s: seq<byte>, owed: nat := 0): Reading {
    if owed != 0 || !SizeOk(info, content) then Bad
    else if !info.contentChecksum then Frame(content, s)
    else if |s| < CHECKSUM then Short
    else if LE32(s) != c.checksum(content) then Bad
    else Frame(content, s[CHECKSUM..])
  }

  // ----- A decoder that was reset in the middle of a frame -----

  /** With anything owed, blocks never come to the end of a frame; and what would be one is refused. */
  lemma {:induction false} OwedSpoils(c: Codec, info: Info, content: seq<byte>, s: seq<byte>, owed: nat)
    requires owed != 0
    ensures !ReadBlocks(c, info, content, s, owed).Frame?
    ensures ReadBlocks(c, info, content, s).Frame? ==> ReadBlocks(c, info, content, s, owed) == Bad
    decreases |s|, 0
  {
    hide LE32;
    if |s| >= BLOCK_HEADER {
      OwedBlock(c, info, content, LE32(s), s[BLOCK_HEADER..], owed);
    }
  }

  lemma {:induction false} OwedBlock(c: Codec, info: Info, content: seq<byte>, w: nat, s: seq<byte>, owed: nat)
    requires owed != 0
    ensures !ReadBlock(c, info, content, w, s, owed).Frame?
    ensures ReadBlock(c, info, content, w, s).Frame? ==> ReadBlock(c, info, content, w, s, owed) == Bad
    decreases |s|, 2
  {
    hide LE32, BlockSize, SizeOk, ReadBlocks, ReadDirect, ReadCompressed;
    var n := w % UNCOMPRESSED;
    if n == 0 {
      assert ReadSuffix(c, info, content, s, owed) == Bad;
    } else if n <= BlockSize(info.blockSizeID) {
      if w >= UNCOMPRESSED {
        OwedDirect(c, info, content, n, s, owed);
      } else {
        OwedCompressed(c, info, content, n, s, owed);
      }
    }
  }

  lemma {:induction false} OwedDirect(c: Codec, info: Info, content: seq<byte>, n: nat, s: seq<byte>, owed: nat)
    requires owed != 0 && n > 0
    ensures !ReadDirect(c, info, content, [], n, s, owed).Frame?
    ensures ReadDirect(c, info, content, [], n, s).Frame? ==> ReadDirect(c, info, content, [], n, s, owed) == Bad
    decreases |s|, 1
  {
    hide LE32, ReadBlocks, ReadBlockChecksum;
    if |s| >= n {
      if info.blockChecksum {
        OwedChecksum(c, info, content + s[..n], [] + s[..n], s[n..], owed);
      } else {
        OwedSpoils(c, info, content + s[..n], s[n..], owed);
      }
    }
  }

  lemma {:induction false} OwedChecksum(c: Codec, info: Info, content: seq<byte>, block: seq<byte>, s: seq<byte>, owed: nat)
    requires owed != 0
    ensures !ReadBlockChecksum(c, info, content, block, s, owed).Frame?
    ensures ReadBlockChecksum(c, info, content, block, s).Frame? ==> ReadBlockChecksum(c, info, content, block, s, owed) == Bad
    decreases |s|, 0
  {
    hide LE32, ReadBlocks;
    if |s| >= CHECKSUM {
      OwedSpoils(c, info, content, s[CHECKSUM..], owed);
    }
  }

  lemma {:induction false} OwedCompressed(c: Codec, info: Info, content: seq<byte>, n: nat, s: seq<byte>, owed: nat)
    requires owed != 0 && n > 0
    ensures !ReadCompressed(c, info, content, n, s, owed).Frame?
    ensures ReadCompressed(c, info, content, n, s).Frame? ==> ReadCompressed(c, info, content, n, s, owed) == Bad
    decreases |s|, 1
  {
    hide LE32, ReadBlocks, BlockSize;
    if |s| >= n + ChecksumSize(info) {
      match c.decode(s[..n], History(info, content), BlockSize(info.blockSizeID))
      case None =>
      case Some(out) => OwedSpoils(c, info, content + out, s[n + ChecksumSize(info)..], owed);
    }
  }

  predicate Skippable(s: seq<byte>)
    requires |s| >= 4
  {
    LE32(s) / 16 == SKIPPABLE_START / 16
  }

  /** Whether it matters to the frame that `s` begins with what an abandoned one still had to bring: exactly if its header says no size. */
  predicate Unaffected(s: seq<byte>, owed: nat)
    requires |s| >= MIN_HEADER
  {
    owed == 0 || Skippable(s) || Flag(s[4], 8)
  }

  lemma ResetMatters(c: Codec, s: seq<byte>, owed: nat)
    requires ReadFrame(c, s).Frame?
    ensures |s| >= MIN_HEADER
    ensures ReadFrame(c, s, owed) == ReadFrame(c, s) <==> Unaffected(s, owed)
    ensures !Unaffected(s, owed) ==> ReadFrame(c, s, owed) == Bad
  {
    hide ReadBlocks, LE32, Flag;
    if !Unaffected(s, owed) {
      var h := s[..HeaderSize(s[4])];
      OwedSpoils(c, HeaderInfo(h), [], s[|h|..], owed);
    }
  }
}
