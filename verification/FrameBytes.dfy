/**
  Frames given byte by byte, as the LZ4 Frame Format Description v1.6.1 draws
  them ("General structure of LZ4 Frame format"), and what a reader makes of
  them. Numbers are stored with the lowest byte first.
*/
module FrameBytes {
  import opened BlockFormat
  import opened FrameFormat
  import opened Sizes
  import FrameDecoder
  import FrameEncoder

  // ----- Numbers -----

  /** The four bytes of a number. */
  function Low4(n: nat): (s: seq<byte>)
    requires n < 0x1_0000_0000
    ensures |s| == 4
  {
    [n % 256, n / 256 % 256, n / 65536 % 256, n / 16777216]
  }

  lemma Low4IsRead(n: nat, rest: seq<byte>)
    requires n < 0x1_0000_0000
    ensures LE32(Low4(n) + rest) == n && (Low4(n) + rest)[4..] == rest
  {
    var s := Low4(n) + rest;
    var a := n / 256;
    var b := a / 256;
    assert b == n / 65536;
    assert b / 256 == n / 16777216;
    assert n == n % 256 + 256 * (a % 256 + 256 * (b % 256 + 256 * (b / 256)));
    assert s[0] == n % 256 && s[1] == a % 256 && s[2] == b % 256 && s[3] == b / 256;
  }

  /** The eight bytes of a number below 2^32. */
  lemma Low8IsRead(n: nat, rest: seq<byte>)
    requires n < 0x1_0000_0000
    ensures LE64(Low4(n) + [0, 0, 0, 0] + rest) == n
  {
    hide LE32, Low4;
    var zero: seq<byte> := [0, 0, 0, 0];
    assert Low4(n) + zero + rest == Low4(n) + (zero + rest);
    Low4IsRead(n, zero + rest);
    FrameDecoder.AfterFour(zero, rest);
    assert LE32(zero) == 0 by { ZeroIsRead(); }
  }

  lemma ZeroIsRead()
    ensures LE32([0, 0, 0, 0]) == 0
  {
  }

  // ----- Beginnings -----

  /** What is not a frame: anything that begins neither with the magic number nor with one of the 16 of skippable frames. */
  lemma OnlyTheseBegin(c: Codec, s: seq<byte>)
    requires |s| >= 7
    ensures s[..4] != [0x04, 0x22, 0x4D, 0x18] && (s[0] / 16 != 5 || s[1..4] != [0x2A, 0x4D, 0x18]) ==> ReadFrame(c, s) == Bad
  {
    hide ReadBlocks, ReadSkipSize;
    if LE32(s) / 16 == SKIPPABLE_START / 16 {
      assert s[1..4] == [s[1], s[2], s[3]];
    }
    if LE32(s) == MAGIC {
      assert s[..4] == [s[0], s[1], s[2], s[3]];
    }
  }

  /** A skippable frame: `n` bytes of no concern. */
  lemma SkippableFrame(c: Codec, k: nat, skipped: seq<byte>, rest: seq<byte>)
    requires k < 16 && |skipped| < 0x1_0000_0000
    ensures ReadFrame(c, [0x50 + k, 0x2A, 0x4D, 0x18] + Low4(|skipped|) + skipped + rest) == Frame([], rest)
  {
    hide ReadBlocks, Low4;
    var magic: seq<byte> := [0x50 + k, 0x2A, 0x4D, 0x18];
    var s := magic + Low4(|skipped|) + skipped + rest;
    assert s == magic + (Low4(|skipped|) + (skipped + rest));
    assert LE32(magic) / 16 == SKIPPABLE_START / 16;
    FrameDecoder.AfterFour(magic, Low4(|skipped|) + (skipped + rest));
    Low4IsRead(|skipped|, skipped + rest);
    assert (skipped + rest)[|skipped|..] == rest;
  }

  // ----- Frames -----

  lemma EncoderWritesLow4(n: nat)
    requires n < 0x1_0000_0000
    ensures FrameEncoder.Bytes32(n) == Low4(n)
  {
    assert n / 256 / 256 == n / 65536 && n / 65536 / 256 == n / 16777216;
  }

  /** The descriptor: two bytes of flags and, if they say so, the content size and the dictionary ID. */
  function DescriptorBytes(info: Info): seq<byte>
    requires info.contentSize < 0x1_0000_0000_0000_0000 && info.dictID < 0x1_0000_0000 && 4 <= info.blockSizeID <= 7
  {
    [0x40 + (if info.linked then 0 else 0x20) + (if info.blockChecksum then 0x10 else 0)
     + (if info.contentSize > 0 then 0x08 else 0) + (if info.contentChecksum then 0x04 else 0) + (if info.dictID > 0 then 0x01 else 0),
     0x10 * info.blockSizeID]
    + (if info.contentSize > 0 then Low4(info.contentSize % 0x1_0000_0000) + Low4(info.contentSize / 0x1_0000_0000) else [])
    + (if info.dictID > 0 then Low4(info.dictID) else [])
  }

  /** The magic number, the descriptor, and the second byte of its checksum. */
  function HeaderBytes(c: Codec, info: Info): seq<byte>
    requires info.contentSize < 0x1_0000_0000_0000_0000 && info.dictID < 0x1_0000_0000 && 4 <= info.blockSizeID <= 7
  {
    [0x04, 0x22, 0x4D, 0x18] + DescriptorBytes(info) + [c.checksum(DescriptorBytes(info)) / 256 % 256]
  }

  lemma EncoderWritesHeader(c: Codec, info: Info)
    requires info.contentSize < 0x1_0000_0000_0000_0000 && info.dictID < 0x1_0000_0000 && 4 <= info.blockSizeID <= 7
    ensures FrameEncoder.HeaderOf(c, info) == HeaderBytes(c, info)
  {
    hide Low4, FrameEncoder.Bytes32;
    EncoderWritesLow4(MAGIC);
    EncoderWritesLow4(info.dictID);
    EncoderWritesLow4(info.contentSize % U32);
    EncoderWritesLow4(info.contentSize / U32);
    assert Low4(MAGIC) == [0x04, 0x22, 0x4D, 0x18] by { MagicBytes(); }
    var d := FrameEncoder.Descriptor(info);
    assert d[4..] == DescriptorBytes(info);
    assert d == [0x04, 0x22, 0x4D, 0x18] + DescriptorBytes(info);
  }

  lemma MagicBytes()
    ensures Low4(MAGIC) == [0x04, 0x22, 0x4D, 0x18]
  {
  }

  /** Every header given like this is read as it is meant. */
  lemma HeaderBytesAreRead(c: Codec, info: Info, rest: seq<byte>)
    requires info.contentSize < 0x1_0000_0000_0000_0000 && info.dictID < 0x1_0000_0000 && 4 <= info.blockSizeID <= 7
    ensures ReadFrame(c, HeaderBytes(c, info) + rest) == ReadBlocks(c, info, [], rest)
  {
    hide ReadFrame, ReadBlocks, HeaderBytes;
    EncoderWritesHeader(c, info);
    FrameEncoder.HeaderIsRead(c, info, FrameEncoder.HeaderOf(c, info), rest);
  }

  /** A stored block: its size with the highest bit set, its bytes and, if the flags say so, their checksum. */
  function StoredBlock(c: Codec, info: Info, data: seq<byte>): seq<byte>
    requires |data| < 0x8000_0000
  {
    Low4(|data| + 0x8000_0000) + data + (if info.blockChecksum then Low4(c.checksum(data) % 0x1_0000_0000) else [])
  }

  lemma StoredBlockIsRead(c: Codec, info: Info, content: seq<byte>, data: seq<byte>, rest: seq<byte>)
    requires 0 < |data| <= BlockSize(info.blockSizeID) && c.checksum(data) < 0x1_0000_0000
    ensures ReadBlocks(c, info, content, StoredBlock(c, info, data) + rest) == ReadBlocks(c, info, content + data, rest)
  {
    hide ReadBlocks, LE32, Low4;
    var crc := if info.blockChecksum then Low4(c.checksum(data) % U32) else [];
    var w := |data| + UNCOMPRESSED;
    assert StoredBlock(c, info, data) + rest == Low4(w) + (data + crc + rest);
    EncoderWritesLow4(w);
    FrameEncoder.BlockIsThere(c, info, content, w, data + crc + rest);
    if info.blockChecksum {
      assert crc + [] == crc;
      Low4IsRead(c.checksum(data), []);
    }
    FrameEncoder.DirectIsRead(c, info, content, data, crc, rest);
  }

  /** A compressed block: its size, its bytes and, if the flags say so, their checksum. */
  function PackedBlock(c: Codec, info: Info, packed: seq<byte>): seq<byte>
    requires |packed| < 0x8000_0000
  {
    Low4(|packed|) + packed + (if info.blockChecksum then Low4(c.checksum(packed) % 0x1_0000_0000) else [])
  }

  lemma PackedBlockIsRead(c: Codec, info: Info, content: seq<byte>, packed: seq<byte>, out: seq<byte>, rest: seq<byte>)
    requires 0 < |packed| <= BlockSize(info.blockSizeID) && c.checksum(packed) < 0x1_0000_0000
    requires c.decode(packed, if info.linked then content else [], BlockSize(info.blockSizeID)) == Some(out)
    ensures ReadBlocks(c, info, content, PackedBlock(c, info, packed) + rest) == ReadBlocks(c, info, content + out, rest)
  {
    hide ReadBlocks, LE32, Low4;
    var crc := if info.blockChecksum then Low4(c.checksum(packed) % U32) else [];
    assert PackedBlock(c, info, packed) + rest == Low4(|packed|) + (packed + crc + rest);
    EncoderWritesLow4(|packed|);
    FrameEncoder.BlockIsThere(c, info, content, |packed|, packed + crc + rest);
    if info.blockChecksum {
      assert crc + [] == crc;
      Low4IsRead(c.checksum(packed), []);
    }
    FrameEncoder.CompressedIsRead(c, info, content, packed, crc, rest);
  }

  lemma ZeroBytes()
    ensures Low4(0) == [0, 0, 0, 0]
  {
  }

  /** The end of a frame: four zero bytes and, if the flags say so, the checksum of the content. */
  lemma EndIsRead(c: Codec, info: Info, content: seq<byte>, rest: seq<byte>)
    requires c.checksum(content) < 0x1_0000_0000
    requires info.contentSize == 0 || info.contentSize == |content| < 0x1_0000_0000_0000_0000
    ensures var crc := if info.contentChecksum then Low4(c.checksum(content)) else [];
      ReadBlocks(c, info, content, [0, 0, 0, 0] + crc + rest) == Frame(content, rest)
  {
    hide LE32, Low4, ReadBlocks;
    var crc := if info.contentChecksum then Low4(c.checksum(content)) else [];
    var end: seq<byte> := [0, 0, 0, 0];
    assert end + crc + rest == end + (crc + rest);
    EncoderWritesLow4(0);
    assert Low4(0) == end by { ZeroBytes(); }
    FrameEncoder.BlockIsThere(c, info, content, 0, crc + rest);
    if info.contentChecksum {
      Low4IsRead(c.checksum(content), rest);
    } else {
      assert crc + rest == rest;
    }
  }

  /** A frame of one stored block, with any flags. */
  lemma OneStoredBlock(c: Codec, info: Info, data: seq<byte>, rest: seq<byte>)
    requires info.contentSize < 0x1_0000_0000_0000_0000 && info.dictID < 0x1_0000_0000 && 4 <= info.blockSizeID <= 7
    requires 0 < |data| <= BlockSize(info.blockSizeID) && forall d :: c.checksum(d) < 0x1_0000_0000
    requires info.contentSize == 0 || info.contentSize == |data|
    ensures ReadFrame(c, HeaderBytes(c, info) + (StoredBlock(c, info, data) + [0, 0, 0, 0])
                         + (if info.contentChecksum then Low4(c.checksum(data)) else []) + rest)
            == Frame(data, rest)
  {
    hide ReadFrame, ReadBlocks, HeaderBytes, StoredBlock, Low4;
    var h, block := HeaderBytes(c, info), StoredBlock(c, info, data);
    var end: seq<byte> := [0, 0, 0, 0];
    var crc := if info.contentChecksum then Low4(c.checksum(data)) else [];
    assert h + (block + end) + crc + rest == h + (block + (end + crc + rest));
    HeaderBytesAreRead(c, info, block + (end + crc + rest));
    StoredBlockIsRead(c, info, [], data, end + crc + rest);
    assert [] + data == data;
    EndIsRead(c, info, data, rest);
  }

  /**
    A frame of one stored block, with independent blocks, no checksums and no
    sizes, byte by byte: it is read exactly if the block has at most 64 KB,
    256 KB, 1 MB or 4 MB, as the second byte of the descriptor says.
  */
  lemma PlainFrame(c: Codec, id: nat, data: seq<byte>, rest: seq<byte>)
    requires 4 <= id <= 7 && 0 < |data| <= 0x40_0000 && forall d :: c.checksum(d) < 0x1_0000_0000
    ensures ReadFrame(c, [0x04, 0x22, 0x4D, 0x18, 0x60, 16 * id, c.checksum([0x60, 16 * id]) / 256 % 256]
                         + [|data| % 256, |data| / 256 % 256, |data| / 65536, 0x80] + data + [0, 0, 0, 0] + rest)
            == if |data| <= [0x1_0000, 0x4_0000, 0x10_0000, 0x40_0000][id - 4] then Frame(data, rest) else Bad
  {
    hide ReadFrame, ReadBlocks;
    var info := Info(false, false, 0, false, id, 0);
    var size: seq<byte> := [|data| % 256, |data| / 256 % 256, |data| / 65536, 0x80];
    var end: seq<byte> := [0, 0, 0, 0];
    assert DescriptorBytes(info) == [0x60, 16 * id];
    HighBit(|data|);
    assert StoredBlock(c, info, data) == size + data;
    hide StoredBlock, DescriptorBytes;
    var h: seq<byte> := [0x04, 0x22, 0x4D, 0x18, 0x60, 16 * id, c.checksum([0x60, 16 * id]) / 256 % 256];
    assert HeaderBytes(c, info) == h;
    if |data| <= BlockSize(id) {
      OneStoredBlock(c, info, data, rest);
      assert h + (size + data + end) + [] + rest == h + size + data + end + rest;
    } else {
      assert h + size + data + end + rest == h + (size + (data + end + rest));
      HeaderBytesAreRead(c, info, size + (data + end + rest));
      TooLarge(c, info, data, data + end + rest);
    }
  }

  lemma TooLarge(c: Codec, info: Info, data: seq<byte>, rest: seq<byte>)
    requires BlockSize(info.blockSizeID) < |data| <= 0x40_0000
    ensures ReadBlocks(c, info, [], Low4(|data| + 0x8000_0000) + rest) == Bad
  {
    hide Low4, LE32;
    EncoderWritesLow4(|data| + 0x8000_0000);
    FrameEncoder.BlockIsThere(c, info, [], |data| + 0x8000_0000, rest);
  }

  lemma HighBit(n: nat)
    requires n <= 0x40_0000
    ensures Low4(n + 0x8000_0000) == [n % 256, n / 256 % 256, n / 65536, 0x80]
  {
  }

  /** A stored block and the four bytes behind it, when the flags announce a checksum. */
  lemma BlockIsChecked(c: Codec, info: Info, content: seq<byte>, data: seq<byte>, k: nat, rest: seq<byte>)
    requires 0 < |data| <= BlockSize(info.blockSizeID) && info.blockChecksum && k < 0x1_0000_0000
    ensures ReadBlocks(c, info, content, Low4(|data| + 0x8000_0000) + data + Low4(k) + rest)
            == if k == c.checksum(data) then ReadBlocks(c, info, content + data, rest) else Bad
  {
    hide ReadBlocks, LE32, Low4;
    var w, crc := |data| + UNCOMPRESSED, Low4(k);
    assert Low4(w) + data + crc + rest == Low4(w) + (data + crc + rest);
    EncoderWritesLow4(w);
    FrameEncoder.BlockIsThere(c, info, content, w, data + crc + rest);
    DirectIsChecked(c, info, content, data, k, rest);
  }

  lemma DirectIsChecked(c: Codec, info: Info, content: seq<byte>, data: seq<byte>, k: nat, rest: seq<byte>)
    requires 0 < |data| && info.blockChecksum && k < 0x1_0000_0000
    ensures ReadDirect(c, info, content, [], |data|, data + Low4(k) + rest)
            == if k == c.checksum(data) then ReadBlocks(c, info, content + data, rest) else Bad
  {
    hide ReadBlocks, LE32, Low4;
    Low4IsRead(k, rest);
    var s := data + Low4(k) + rest;
    assert s[..|data|] == data && s[|data|..] == Low4(k) + rest && [] + data == data;
  }

  /** The end of a frame with a content checksum. */
  lemma EndIsChecked(c: Codec, info: Info, content: seq<byte>, k: nat, rest: seq<byte>)
    requires info.contentChecksum && k < 0x1_0000_0000 && |content| < 0x1_0000_0000_0000_0000
    ensures ReadBlocks(c, info, content, [0, 0, 0, 0] + Low4(k) + rest)
            == if info.contentSize in [0, |content|] && k == c.checksum(content) then Frame(content, rest) else Bad
  {
    hide LE32, Low4, ReadBlocks;
    var end: seq<byte> := [0, 0, 0, 0];
    assert end + Low4(k) + rest == end + (Low4(k) + rest);
    EncoderWritesLow4(0);
    ZeroBytes();
    FrameEncoder.BlockIsThere(c, info, content, 0, Low4(k) + rest);
    Low4IsRead(k, rest);
  }

  /**
    A frame with a content size in its header, a checksum after its block and
    one at its end: it is read if and only if the size is that of the content,
    the byte behind the descriptor is the one of its checksum, and both
    checksums are right.
  */
  lemma CheckedFrame(c: Codec, data: seq<byte>, size: nat, hc: byte, k: nat, l: nat, rest: seq<byte>)
    requires 0 < |data| <= 0x40_0000 && 0 < size <= 0x40_0000 && k < 0x1_0000_0000 && l < 0x1_0000_0000
    ensures var n := |data|;
            var descriptor: seq<byte> := [0x7C, 0x70, size % 256, size / 256 % 256, size / 65536, 0, 0, 0, 0, 0];
            ReadFrame(c, [0x04, 0x22, 0x4D, 0x18] + descriptor + [hc]
                         + [n % 256, n / 256 % 256, n / 65536, 0x80] + data + [k % 256, k / 256 % 256, k / 65536 % 256, k / 16777216]
                         + [0, 0, 0, 0] + [l % 256, l / 256 % 256, l / 65536 % 256, l / 16777216] + rest)
            == if hc == c.checksum(descriptor) / 256 % 256 && k == c.checksum(data) && l == c.checksum(data) && size == |data|
               then Frame(data, rest) else Bad
  {
    hide ReadFrame, ReadBlocks;
    var n := |data|;
    var info := Info(false, true, size, true, 7, 0);
    var descriptor: seq<byte> := [0x7C, 0x70, size % 256, size / 256 % 256, size / 65536, 0, 0, 0, 0, 0];
    var block: seq<byte> := [n % 256, n / 256 % 256, n / 65536, 0x80] + data + Low4(k);
    var after := [0, 0, 0, 0] + Low4(l) + rest;
    var h := [0x04, 0x22, 0x4D, 0x18] + descriptor + [hc];
    SizedHeader(c, size, hc, block + after);
    HighBit(n);
    BlockIsChecked(c, info, [], data, k, after);
    assert [] + data == data;
    EndIsChecked(c, info, data, l, rest);
    FourParts(h, [n % 256, n / 256 % 256, n / 65536, 0x80], data, Low4(k), [0, 0, 0, 0], Low4(l), rest);
    assert ReadBlocks(c, info, [], block + after)
           == if k == c.checksum(data) then ReadBlocks(c, info, data, after) else Bad;
    assert ReadBlocks(c, info, data, after) == if size == n && l == c.checksum(data) then Frame(data, rest) else Bad;
    assert h + (block + after) == h + [n % 256, n / 256 % 256, n / 65536, 0x80] + data + Low4(k) + [0, 0, 0, 0] + Low4(l) + rest;
  }

  lemma FourParts(h: seq<byte>, size: seq<byte>, data: seq<byte>, crc: seq<byte>, end: seq<byte>, last: seq<byte>, rest: seq<byte>)
    ensures h + (size + data + crc + (end + last + rest)) == h + size + data + crc + end + last + rest
  {
  }

  /** A header with a content size: it counts if the byte behind it is right. */
  lemma SizedHeader(c: Codec, size: nat, hc: byte, rest: seq<byte>)
    requires 0 < size <= 0x40_0000
    ensures var descriptor: seq<byte> := [0x7C, 0x70, size % 256, size / 256 % 256, size / 65536, 0, 0, 0, 0, 0];
            ReadFrame(c, [0x04, 0x22, 0x4D, 0x18] + descriptor + [hc] + rest)
            == if hc == c.checksum(descriptor) / 256 % 256 then ReadBlocks(c, Info(false, true, size, true, 7, 0), [], rest) else Bad
  {
    hide ReadBlocks, LE64;
    var descriptor: seq<byte> := [0x7C, 0x70, size % 256, size / 256 % 256, size / 65536, 0, 0, 0, 0, 0];
    var h := [0x04, 0x22, 0x4D, 0x18] + descriptor + [hc];
    assert h[4..|h| - 1] == descriptor && h[..15] == h && h[15..] + rest == rest;
    assert LE64(h[6..]) == size by {
      hide LE32;
      SmallBytes(size);
      Low8IsRead(size, [hc]);
      assert h[6..] == Low4(size) + [0, 0, 0, 0] + [hc];
    }
    FrameDecoder.ReadHeader(c, h, rest);
  }

  /** The first byte of the descriptor has version 1 and a zero bit; the second one of four block sizes, and zeros. */
  lemma DescriptorIsChecked(c: Codec, s: seq<byte>)
    requires |s| >= 19 && s[..4] == [0x04, 0x22, 0x4D, 0x18]
    ensures s[4] / 64 != 1 || s[4] / 2 % 2 != 0 || s[5] !in [0x40, 0x50, 0x60, 0x70] ==> ReadFrame(c, s) == Bad
  {
    hide ReadBlocks;
    assert s[..4] == [s[0], s[1], s[2], s[3]];
    var h := s[..HeaderSize(s[4])];
    assert h[5] == s[5];
  }

  lemma SmallBytes(n: nat)
    requires n < 0x100_0000
    ensures Low4(n) == [n % 256, n / 256 % 256, n / 65536, 0]
  {
  }

  /**
    A frame of two compressed blocks of at most 64 KB: linked, so that the
    second is decoded behind the content of the first, or independent.
  */
  lemma TwoBlockFrame(c: Codec, linked: bool, a: seq<byte>, b: seq<byte>, x: seq<byte>, y: seq<byte>, rest: seq<byte>)
    requires 0 < |a| <= 0x1_0000 && 0 < |b| <= 0x1_0000 && forall d :: c.checksum(d) < 0x1_0000_0000
    requires c.decode(a, [], 0x1_0000) == Some(x) && c.decode(b, if linked then x else [], 0x1_0000) == Some(y)
    ensures var descriptor: seq<byte> := [if linked then 0x40 else 0x60, 0x40];
            ReadFrame(c, [0x04, 0x22, 0x4D, 0x18] + descriptor + [c.checksum(descriptor) / 256 % 256]
                         + [|a| % 256, |a| / 256 % 256, |a| / 65536, 0] + a + [|b| % 256, |b| / 256 % 256, |b| / 65536, 0] + b
                         + [0, 0, 0, 0] + rest)
            == Frame(x + y, rest)
  {
    hide ReadFrame, ReadBlocks;
    var info := Info(linked, false, 0, false, 4, 0);
    var descriptor: seq<byte> := [if linked then 0x40 else 0x60, 0x40];
    var h := [0x04, 0x22, 0x4D, 0x18] + descriptor + [c.checksum(descriptor) / 256 % 256];
    var sizeA: seq<byte> := [|a| % 256, |a| / 256 % 256, |a| / 65536, 0];
    var sizeB: seq<byte> := [|b| % 256, |b| / 256 % 256, |b| / 65536, 0];
    var end: seq<byte> := [0, 0, 0, 0];
    assert DescriptorBytes(info) == descriptor;
    assert HeaderBytes(c, info) == h;
    SmallBytes(|a|);
    SmallBytes(|b|);
    assert PackedBlock(c, info, a) == sizeA + a && PackedBlock(c, info, b) == sizeB + b;
    hide HeaderBytes, PackedBlock, DescriptorBytes;
    var after := end + [] + rest;
    assert h + sizeA + a + sizeB + b + end + rest == h + (sizeA + a + (sizeB + b + after));
    HeaderBytesAreRead(c, info, sizeA + a + (sizeB + b + after));
    assert [] + x == x;
    PackedBlockIsRead(c, info, [], a, x, sizeB + b + after);
    PackedBlockIsRead(c, info, x, b, y, after);
    EndIsRead(c, info, x + y, rest);
  }

  /**
    Every frame of the encoder begins with the header drawn above, for what was
    asked for, and ends with four zeros and the checksum.
  */
  lemma MadeFrameIs(c: Codec, compress: FrameEncoder.Compressor, info: Info, bytes: seq<byte>, content: seq<byte>)
    requires FrameEncoder.MadeFrame(c, compress, info, bytes, content) && c.checksum(content) < 0x1_0000_0000
    ensures exists blocks ::
      && FrameEncoder.MadeBy(c, compress, info, [], blocks, content)
      && bytes == HeaderBytes(c, info) + blocks + ([0, 0, 0, 0] + (if info.contentChecksum then Low4(c.checksum(content)) else []))
  {
    hide Low4, HeaderBytes, FrameEncoder.EndOf, FrameEncoder.HeaderOf, FrameEncoder.MadeBy;
    EncoderWritesHeader(c, info);
    EncoderWritesEnd(c, info, content);
  }

  lemma EncoderWritesEnd(c: Codec, info: Info, content: seq<byte>)
    requires c.checksum(content) < 0x1_0000_0000
    ensures FrameEncoder.EndOf(c, info, content) == [0, 0, 0, 0] + (if info.contentChecksum then Low4(c.checksum(content)) else [])
  {
    hide Low4, FrameEncoder.Bytes32;
    EncoderWritesLow4(0);
    EncoderWritesLow4(c.checksum(content));
    ZeroBytes();
  }

  /** Every block of the encoder is a stored or a compressed block as drawn above. */
  lemma BlockIs(c: Codec, info: Info, src: seq<byte>, packed: seq<byte>)
    requires |src| < 0x8000_0000 && |packed| < 0x8000_0000
    ensures FrameEncoder.BlockBytes(c, info, src, packed) == if packed == [] then StoredBlock(c, info, src) else PackedBlock(c, info, packed)
  {
    hide Low4, FrameEncoder.Bytes32;
    var body := if packed == [] then src else packed;
    EncoderWritesLow4(if packed == [] then |src| + UNCOMPRESSED else |packed|);
    EncoderWritesLow4(c.checksum(body) % U32);
  }
}
