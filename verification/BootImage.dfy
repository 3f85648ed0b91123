/**
  The boot image (bootmk.c): firmware files and boot loader parts are appended
  to an image one after the other, while a table of where they are is filled in
  and finally written over the place kept for it.
*/
module BootImage {
  import opened BlockFormat
  import opened SparseFile
  import opened Sizes
  import FrameFormat

  const HEADER_AT := 0x1_0000
  const HEADER_SIZE := 0x4000
  const DDRFW_MAGIC := 0x4d46_4440
  const DDRFW_SLOTS := 9

  /** A file named on the command line: not there, there but not to be opened, or with these bytes. */
  datatype Input = Missing | Unreadable | Data(bytes: seq<byte>)

  /** What the table says about a region of the image. */
  datatype Entry = Entry(offset: nat, size: nat)

  /** The part of the header that is filled in here; all else in it is constant or copied through. */
  datatype Header = Header(counter: nat, firmware: seq<Entry>, digests: seq<seq<byte>>, toc: seq<Entry>)

  // ----- Firmware files -----

  /** size - 0x60 + 0x3fff & 0xffffc000, in 64-bit and 32-bit words. */
  function Size16k(size: nat): nat {
    (size + U64 - 0x60 + 0x3fff) % U64 % U32 / 0x4000 * 0x4000
  }

  lemma RoundsUp(size: nat)
    requires size < 0x8000_0000
    ensures size <= 0x60 ==> Size16k(size) == 0
    ensures size > 0x60 ==> size - 0x60 <= Size16k(size) < size - 0x60 + 0x4000
    ensures Size16k(size) % 0x4000 == 0
  {
  }

  /** The buffer a firmware file is read into: zeros at first, and no more read than the rounded size. */
  function FirmwareBuffer(bytes: seq<byte>): (b: seq<byte>)
    requires |bytes| < 0x8000_0000
    ensures |b| == Size16k(|bytes|) + 0x400 >= |bytes|
  {
    RoundsUp(|bytes|);
    var n := if |bytes| < Size16k(|bytes|) then |bytes| else Size16k(|bytes|);
    bytes[..n] + Zeros(Size16k(|bytes|) + 0x400 - n)
  }

  /** The magic is never seen in a file too short for it. */
  lemma MagicNeedsBytes(bytes: seq<byte>)
    requires |bytes| < 0x20
    ensures FrameFormat.LE32(FirmwareBuffer(bytes)[0x20..]) != DDRFW_MAGIC
  {
    RoundsUp(|bytes|);
  }

  /** Firmware is accepted with the right magic, when it begins with the digest of what follows. */
  predicate Accepts(sha256: seq<byte> -> seq<byte>, bytes: seq<byte>)
    requires |bytes| < 0x8000_0000
  {
    var b := FirmwareBuffer(bytes);
    FrameFormat.LE32(b[0x20..]) == DDRFW_MAGIC && |bytes| >= 0x20 && sha256(b[0x20..|bytes|]) == b[..0x20]
  }

  /** What of an accepted file goes into the image. */
  function FirmwareBody(bytes: seq<byte>): seq<byte>
    requires |bytes| < 0x8000_0000
  {
    FirmwareBuffer(bytes)[0x60..0x60 + Size16k(|bytes|)]
  }

  /** The body is the file from 0x60 on, in whole units of 16 KB. At most the last 0x60 bytes can be missing. */
  lemma BodyIsFile(bytes: seq<byte>)
    requires 0x60 < |bytes| < 0x8000_0000
    ensures var body, n := FirmwareBody(bytes), Size16k(|bytes|);
      && |body| == n && n % 0x4000 == 0
      && (|bytes| <= n ==> body == bytes[0x60..] + Zeros(n - (|bytes| - 0x60)))
      && (|bytes| > n > 0 ==> body == bytes[0x60..n] + Zeros(0x60))
  {
    RoundsUp(|bytes|);
  }

  /** The test in bytes, for a file that is read whole: the magic "@DFM" at 0x20, behind the digest of all from there on. */
  lemma AcceptsInBytes(sha256: seq<byte> -> seq<byte>, bytes: seq<byte>)
    requires 0x60 < |bytes| < 0x8000_0000 && |bytes| <= Size16k(|bytes|)
    ensures Accepts(sha256, bytes) <==> bytes[0x20..0x24] == [0x40, 0x44, 0x46, 0x4d] && sha256(bytes[0x20..]) == bytes[..0x20]
  {
    var b := FirmwareBuffer(bytes);
    assert b[0x20..|bytes|] == bytes[0x20..] && b[..0x20] == bytes[..0x20];
    FourBytes(b, 0x20, 0x40, 0x44, 0x46, 0x4d);
    assert b[0x20..0x24] == bytes[0x20..0x24];
  }

  /** A number in four bytes, the lowest first. */
  lemma FourBytes(b: seq<byte>, i: nat, b0: byte, b1: byte, b2: byte, b3: byte)
    requires i + 4 <= |b|
    ensures FrameFormat.LE32(b[i..]) == b0 + 0x100 * b1 + 0x1_0000 * b2 + 0x100_0000 * b3 <==> b[i..i + 4] == [b0, b1, b2, b3]
  {
    var s := b[i..];
    assert b[i..i + 4] == [s[0], s[1], s[2], s[3]];
    SameDigits(s[0], s[1], s[2], s[3], b0, b1, b2, b3);
  }

  lemma SameDigits(a0: byte, a1: byte, a2: byte, a3: byte, b0: byte, b1: byte, b2: byte, b3: byte)
    ensures a0 + 0x100 * a1 + 0x1_0000 * a2 + 0x100_0000 * a3 == b0 + 0x100 * b1 + 0x1_0000 * b2 + 0x100_0000 * b3
            ==> a0 == b0 && a1 == b1 && a2 == b2 && a3 == b3
  {
    if a0 + 0x100 * a1 + 0x1_0000 * a2 + 0x100_0000 * a3 == b0 + 0x100 * b1 + 0x1_0000 * b2 + 0x100_0000 * b3 {
      Digit(a0, a1 + 0x100 * a2 + 0x1_0000 * a3, b0, b1 + 0x100 * b2 + 0x1_0000 * b3);
      Digit(a1, a2 + 0x100 * a3, b1, b2 + 0x100 * b3);
      Digit(a2, a3, b2, b3);
    }
  }

  lemma Digit(d: byte, m: nat, e: byte, n: nat)
    requires d + 0x100 * m == e + 0x100 * n
    ensures d == e && m == n
  {
  }

  // ----- Boot loader parts -----

  const BL3X_HDR: seq<byte> := [0x42, 0x4c, 0x33, 0x58, 0x2d, 0x48, 0x44, 0x52]

  /** A part that begins with a BL3X header; no more than 0x100 bytes are looked at. */
  predicate HasHeader(bytes: seq<byte>) {
    var n := if |bytes| < 0x100 then |bytes| else 0x100;
    var b := bytes[..n] + Zeros(0x100 - n);
    b[..8] == BL3X_HDR && FrameFormat.LE32(b[0xc..]) == 0x100 && FrameFormat.LE32(b[0x30..]) == 0x1234_8765
  }

  /** Where the payload of part `no` begins: bl30 has 0x290 more before it. */
  function PayloadOffset(no: nat, bytes: seq<byte>): nat {
    (if HasHeader(bytes) then 0x590 else 0x490) + (if no == 1 then 0x290 else 0)
  }

  /** The same in bytes: "BL3X-HDR", 0x100 at 0xc and 0x12348765 at 0x30. */
  lemma PayloadInBytes(no: nat, bytes: seq<byte>)
    requires |bytes| >= 0x100
    ensures PayloadOffset(no, bytes) == (if no == 1 then 0x290 else 0) +
      if bytes[..8] == [0x42, 0x4c, 0x33, 0x58, 0x2d, 0x48, 0x44, 0x52] && bytes[0xc..0x10] == [0, 1, 0, 0]
         && bytes[0x30..0x34] == [0x65, 0x87, 0x34, 0x12]
      then 0x590 else 0x490
  {
    var b := bytes[..0x100] + Zeros(0x100 - 0x100);
    assert b == bytes[..0x100];
    assert b[..8] == bytes[..8] && b[0xc..0x10] == bytes[0xc..0x10] && b[0x30..0x34] == bytes[0x30..0x34];
    FourBytes(b, 0xc, 0, 1, 0, 0);
    FourBytes(b, 0x30, 0x65, 0x87, 0x34, 0x12);
  }

  // ----- The image -----

  /** Where the n-th body stands, seen from the header. */
  function Offset(bodies: seq<seq<byte>>, n: nat): nat
    requires n <= |bodies|
  {
    HEADER_SIZE + |Concat(bodies[..n])|
  }

  /** What the table says when it is right. */
  function Table(bodies: seq<seq<byte>>): (t: seq<Entry>)
    ensures |t| == |bodies|
  {
    seq(|bodies|, n requires 0 <= n < |bodies| => Entry(Offset(bodies, n), |bodies[n]|))
  }

  lemma OffsetKept(bodies: seq<seq<byte>>, body: seq<byte>, n: nat)
    requires n <= |bodies|
    ensures Offset(bodies + [body], n) == Offset(bodies, n)
  {
    assert (bodies + [body])[..n] == bodies[..n];
  }

  lemma ConcatGrows(bodies: seq<seq<byte>>, body: seq<byte>)
    ensures Concat(bodies + [body]) == Concat(bodies) + body
    ensures Offset(bodies + [body], |bodies| + 1) == Offset(bodies, |bodies|) + |body| == HEADER_SIZE + |Concat(bodies)| + |body|
  {
    var more := bodies + [body];
    assert more[..|bodies|] == bodies && more[..|bodies| + 1] == more && bodies[..|bodies|] == bodies;
  }

  lemma NoBodies()
    ensures Concat([]) == []
  {
  }

  lemma TableGrows(bodies: seq<seq<byte>>, body: seq<byte>)
    ensures Table(bodies + [body]) == Table(bodies) + [Entry(Offset(bodies, |bodies|), |body|)]
  {
    hide Offset;
    var more := bodies + [body];
    forall n | 0 <= n <= |bodies| ensures Offset(more, n) == Offset(bodies, n) {
      OffsetKept(bodies, body, n);
    }
  }

  /**
    Every entry names the region that holds exactly its body, the regions follow
    each other without gaps from 0x4000 on, and so none overlaps another or the
    header in front of them.
  */
  lemma {:induction false} EveryRegionHolds(bodies: seq<seq<byte>>, n: nat)
    requires n < |bodies|
    ensures var e, all := Table(bodies)[n], Concat(bodies);
      && HEADER_SIZE <= e.offset && e.offset + e.size <= HEADER_SIZE + |all|
      && all[e.offset - HEADER_SIZE..e.offset - HEADER_SIZE + e.size] == bodies[n]
  {
    var init, last := bodies[..|bodies| - 1], bodies[|bodies| - 1];
    assert bodies == init + [last];
    ConcatGrows(init, last);
    OffsetKept(init, last, n);
    if n < |init| {
      EveryRegionHolds(init, n);
    } else {
      assert bodies[..n] == init;
    }
  }

  /** The first region begins right behind the header, each other one where the one before it ends, and the last at the end. */
  lemma RegionsFollow(bodies: seq<seq<byte>>, n: nat)
    requires n < |bodies|
    ensures var e := Table(bodies)[n];
      && (n == 0 ==> e.offset == HEADER_SIZE)
      && (n + 1 < |bodies| ==> Table(bodies)[n + 1].offset == e.offset + e.size)
      && (n + 1 == |bodies| ==> HEADER_SIZE + |Concat(bodies)| == e.offset + e.size)
  {
    assert bodies[..n + 1] == bodies[..n] + [bodies[n]];
    ConcatGrows(bodies[..n], bodies[n]);
    assert n + 1 == |bodies| ==> bodies[..n + 1] == bodies;
  }

  lemma {:induction false} RegionsAreDisjoint(bodies: seq<seq<byte>>, m: nat, n: nat)
    requires m < n < |bodies|
    ensures Table(bodies)[m].offset + Table(bodies)[m].size <= Table(bodies)[n].offset
    decreases n
  {
    RegionsFollow(bodies, n - 1);
    if m + 1 < n {
      RegionsAreDisjoint(bodies, m, n - 1);
    }
  }

  // ----- Copying -----

  /**
    file_copy: exactly `size` bytes, in chunks of 0x400, if there are as many
    left; otherwise, and for size 0, nothing is written.
  */
  method FileCopy(fin: Source, fout: File, size0: nat) returns (ret: nat)
    requires fin.pos <= |fin.bytes| && fout.pos == |fout.contents|
    modifies fin, fout
    ensures ret == 0 <==> 0 < size0 <= |fin.bytes| - old(fin.pos)
    ensures fout.pos == |fout.contents|
    ensures fout.contents == old(fout.contents) + (if ret == 0 then fin.bytes[old(fin.pos)..old(fin.pos) + size0] else [])
  {
    ret := 1;
    if size0 > 0 {
      if size0 <= |fin.bytes| - fin.pos {
        var size := size0;
        ghost var from := fin.pos;
        while size > 0
          invariant 0 <= size <= size0 && fin.pos == from + (size0 - size) && fout.pos == |fout.contents|
          invariant fout.contents == old(fout.contents) + fin.bytes[from..fin.pos]
        {
          var len := if size < 0x401 then size else 0x400;
          ghost var at := fin.pos;
          var chunk := fin.Read(len);
          if |chunk| == 0 { break; }
          fout.Write(chunk);
          assert fin.bytes[from..at] + fin.bytes[at..fin.pos] == fin.bytes[from..fin.pos];
          size := size - len;
        }
        ret := 0;
      }
    }
  }

  // ----- The two loops -----

  /** The bodies of the accepted firmware files, in order. */
  function FirmwareBodies(sha256: seq<byte> -> seq<byte>, files: seq<Input>): seq<seq<byte>>
    requires SmallFiles(files)
  {
    if files == [] then [] else
      var file := files[|files| - 1];
      FirmwareBodies(sha256, files[..|files| - 1])
      + (if file.Data? && Accepts(sha256, file.bytes) then [FirmwareBody(file.bytes)] else [])
  }

  predicate SmallFiles(files: seq<Input>) {
    forall f :: f in files && f.Data? ==> |f.bytes| < 0x8000_0000
  }

  /** The payloads of parts 1 to n. A part that is missing has an empty one; one that cannot be opened has none. */
  function PartBodies(parts: seq<Input>, n: nat): seq<seq<byte>>
    requires n <= |parts| && LongEnough(parts)
  {
    if n == 0 then [] else
      PartBodies(parts, n - 1) +
      match parts[n - 1]
      case Missing => [[]]
      case Unreadable => []
      case Data(bytes) => [bytes[PayloadOffset(n, bytes)..]]
  }

  /** Parts are no shorter than the offset of their payload. */
  predicate LongEnough(parts: seq<Input>) {
    forall k :: 0 <= k < |parts| && parts[k].Data? ==> PayloadOffset(k + 1, parts[k].bytes) <= |parts[k].bytes|
  }

  lemma {:induction false} FewerFiles(sha256: seq<byte> -> seq<byte>, files: seq<Input>, n: nat)
    requires SmallFiles(files) && n <= |files|
    ensures |FirmwareBodies(sha256, files[..n])| <= n
    ensures |Concat(FirmwareBodies(sha256, files[..n]))| <= |Concat(FirmwareBodies(sha256, files))|
    decreases |files|
  {
    hide Accepts, FirmwareBody;
    if n < |files| {
      var init := files[..|files| - 1];
      assert init[..n] == files[..n];
      FewerFiles(sha256, init, n);
      var file := files[|files| - 1];
      if file.Data? && Accepts(sha256, file.bytes) {
        ConcatGrows(FirmwareBodies(sha256, init), FirmwareBody(file.bytes));
      }
      assert FirmwareBodies(sha256, init) + [] == FirmwareBodies(sha256, init);
    } else {
      assert files[..n] == files;
      if n > 0 {
        var init := files[..|files| - 1];
        assert init[..n - 1] == init;
        FewerFiles(sha256, init, n - 1);
      }
    }
  }

  /**
    The five entries from 4 on, which name the headers of bl2, bl30, bl31, bl32
    and bl33, once parts 1 to n have been seen. A missing part takes away the
    entry before its own.
  */
  predicate FixedEntries(toc: seq<Entry>, parts: seq<Input>, n: nat)
    requires n <= |parts| <= 4
  {
    |toc| == 9 && forall k :: 4 <= k < 9 ==>
      toc[k] == if k - 4 < n && parts[k - 4].Missing? then Entry(0, 0) else Entry(0x188 + (k - 4) * 0x468, 0x468)
  }

  lemma FixedOnePart(was: seq<Entry>, now: seq<Entry>, parts: seq<Input>, no: nat)
    requires 1 <= no <= |parts| <= 4 && FixedEntries(was, parts, no - 1) && |now| == |was|
    requires |was| == 9 ==> forall k :: 4 <= k < 9 ==> now[k] == if parts[no - 1].Missing? && k == no + 3 then Entry(0, 0) else was[k]
    ensures FixedEntries(now, parts, no)
  {
  }

  class Maker {
    const sha256: seq<byte> -> seq<byte>
    /** How the header is laid out in its 0x4000 bytes. */
    const layout: Header -> seq<byte>
    const ddrfw: array<Entry>
    const digests: array<seq<byte>>
    const toc: array<Entry>
    const buffers: array<seq<byte>>
    const sizes: array<nat>
    var ddrfwCounter: nat
    var offset: nat
    var i: nat
    const fout: File
    ghost var bodies: seq<seq<byte>>

    constructor (sha256: seq<byte> -> seq<byte>, layout: Header -> seq<byte>)
      ensures this.sha256 == sha256 && this.layout == layout && Shape() && ddrfwCounter == i == 0 && bodies == []
      ensures fresh(ddrfw) && fresh(digests) && fresh(toc) && fresh(buffers) && fresh(sizes) && fresh(fout)
      ensures fout.Now() == Disk([], 0) && offset == HEADER_SIZE
      ensures forall k :: 0 <= k < 9 ==> toc[k] == Entry(0, 0) && ddrfw[k] == Entry(0, 0) && digests[k] == []
    {
      this.sha256, this.layout := sha256, layout;
      ddrfw := new Entry[9](_ => Entry(0, 0));
      digests := new seq<byte>[9](_ => []);
      toc := new Entry[9](_ => Entry(0, 0));
      buffers := new seq<byte>[9](_ => []);
      sizes := new nat[9](_ => 0);
      ddrfwCounter, offset, i, bodies := 0, HEADER_SIZE, 0, [];
      fout := new File();
    }

    ghost predicate Shape() {
      && ddrfw.Length == toc.Length == buffers.Length == sizes.Length == digests.Length == DDRFW_SLOTS
      && ddrfw != toc && digests != buffers
    }

    /** The firmware accepted so far: its entries, and the bytes kept for the image. */
    ghost predicate Collected()
      reads this, ddrfw, digests, buffers, sizes
    {
      && Shape() && ddrfwCounter == |bodies| <= DDRFW_SLOTS && ddrfw[..ddrfwCounter] == Table(bodies)
      && offset == HEADER_SIZE + |Concat(bodies)|
      && (forall k :: 0 <= k < ddrfwCounter ==> digests[k] == sha256(bodies[k]))
      && (forall k :: ddrfwCounter <= k < DDRFW_SLOTS ==> ddrfw[k] == Entry(0, 0) && digests[k] == [])
      && forall k :: 0 <= k < ddrfwCounter ==>
           sizes[k] == |bodies[k]| && |buffers[k]| >= 0x60 + sizes[k] && buffers[k][0x60..0x60 + sizes[k]] == bodies[k]
    }

    lemma NothingYet()
      requires Shape() && ddrfwCounter == i == 0 && bodies == [] && offset == HEADER_SIZE
      requires forall k :: 0 <= k < DDRFW_SLOTS ==> ddrfw[k] == Entry(0, 0) && digests[k] == []
      ensures Collected()
    {
    }

    lemma Known()
      requires Collected()
      ensures ddrfwCounter == |bodies| && offset == HEADER_SIZE + |Concat(bodies)|
      ensures Shape() && ddrfwCounter <= DDRFW_SLOTS && forall k :: 0 <= k < ddrfwCounter ==> digests[k] == sha256(bodies[k])
      ensures forall k :: ddrfwCounter <= k < DDRFW_SLOTS ==> ddrfw[k] == Entry(0, 0) && digests[k] == []
    {
    }

    /** The first loop of main. False when a file cannot be opened, which ends the program. */
    method CollectFirmware(files: seq<Input>) returns (ok: bool)
      requires Collected() && bodies == [] && i == 0 && |files| == DDRFW_SLOTS && SmallFiles(files)
      requires HEADER_SIZE + |Concat(FirmwareBodies(sha256, files))| < U32
      modifies this`ddrfwCounter, this`offset, this`bodies, ddrfw, digests, buffers, sizes
      ensures ok <==> forall f :: f in files ==> f != Unreadable
      ensures ok ==> Collected() && bodies == FirmwareBodies(sha256, files)
    {
      hide Accepts, FirmwareBody, Collected, Concat;
      assert ddrfwCounter == |bodies| && offset == HEADER_SIZE + |Concat(bodies)| by { Known(); }
      for pos := 0 to DDRFW_SLOTS
        invariant Collected() && bodies == FirmwareBodies(sha256, files[..pos])
        invariant ddrfwCounter == |bodies| && offset == HEADER_SIZE + |Concat(bodies)|
        invariant forall f :: f in files[..pos] ==> f != Unreadable
      {
        FewerFiles(sha256, files, pos + 1);
        assert files[..pos + 1][..pos] == files[..pos] && files[..pos + 1] == files[..pos] + [files[pos]];
        match files[pos] {
          case Missing =>
          case Unreadable =>
            assert files[pos] in files;
            return false;
          case Data(bytes) =>
            assert files[pos] in files;
            FewerFiles(sha256, files, pos);
            ConcatGrows(bodies, FirmwareBody(bytes));
            AddFirmware(bytes);
            Known();
        }
      }
      assert files[..DDRFW_SLOTS] == files;
      ok := true;
    }

    /** One firmware file: it is read, and taken if it is accepted. */
    method AddFirmware(bytes: seq<byte>)
      requires Collected() && ddrfwCounter < DDRFW_SLOTS && |bytes| < 0x8000_0000
      requires Accepts(sha256, bytes) ==> offset + |FirmwareBody(bytes)| < U32
      modifies this`ddrfwCounter, this`offset, this`bodies, ddrfw, digests, buffers, sizes
      ensures Collected() && bodies == old(bodies) + (if Accepts(sha256, bytes) then [FirmwareBody(bytes)] else [])
    {
      hide Concat, FirmwareBuffer, Size16k, Table, Collected;
      Known();
      var j := ddrfwCounter;
      var size16k := Size16k(|bytes|);
      SetBuffer(j, FirmwareBuffer(bytes));
      var buffer := buffers[j];
      assert bodies + [] == bodies;
      if FrameFormat.LE32(buffer[0x20..]) == DDRFW_MAGIC {
        if |bytes| < 0x20 { MagicNeedsBytes(bytes); assert false; }
        if sha256(buffer[0x20..|bytes|]) == buffer[..0x20] {
          Record(j, size16k);
          return;
        }
      }
      assert !Accepts(sha256, bytes);
    }

    /** The buffer of the next entry; it is not in use before the file is accepted. */
    method SetBuffer(j: nat, buffer: seq<byte>)
      requires Collected() && j == ddrfwCounter < DDRFW_SLOTS
      modifies buffers
      ensures Collected() && buffers[j] == buffer
    {
      hide Concat, Table;
      buffers[j] := buffer;
    }

    /** The entry of an accepted file, whose body is in its buffer. */
    method Record(j: nat, size16k: nat)
      requires Collected() && j == ddrfwCounter < DDRFW_SLOTS && |buffers[j]| >= 0x60 + size16k
      requires offset + size16k < U32
      modifies this`ddrfwCounter, this`offset, this`bodies, ddrfw, digests, sizes
      ensures Collected() && bodies == old(bodies) + [buffers[j][0x60..0x60 + size16k]]
    {
      hide Concat, Table;
      ghost var body := buffers[j][0x60..0x60 + size16k];
      TableGrows(bodies, body);
      ConcatGrows(bodies, body);
      ddrfwCounter := ddrfwCounter + 1;
      sizes[j] := size16k;
      ddrfw[j] := Entry(offset % U32, size16k);
      digests[j] := sha256(buffers[j][0x60..0x60 + size16k]);
      bodies := bodies + [body];
      offset := offset + size16k;
      assert ddrfw[..j + 1] == ddrfw[..j] + [ddrfw[j]];
    }

    function HeaderNow(): Header
      reads this`ddrfwCounter, ddrfw, digests, toc
    {
      Header(ddrfwCounter, ddrfw[..], digests[..], toc[..])
    }

    /** Everything up to here is in the image, behind `head`, and the table says where. */
    ghost predicate Placed(head: seq<byte>)
      reads this, ddrfw, toc, fout
    {
      && Shape() && ddrfwCounter <= DDRFW_SLOTS && i <= 4 && |head| == HEADER_AT + HEADER_SIZE
      && fout.pos == |fout.contents| && fout.contents == head + Concat(bodies)
      && offset == HEADER_SIZE + |Concat(bodies)|
      && ddrfw[..ddrfwCounter] + toc[..i] == Table(bodies)
      && forall k :: i <= k < 4 ==> toc[k] == Entry(0, 0)
    }

    /** The entries of the five headers, which have fixed places. */
    method PrePopulate()
      requires Shape() && forall k :: 0 <= k < 9 ==> toc[k] == Entry(0, 0)
      modifies toc
      ensures forall k :: 0 <= k < 4 ==> toc[k] == Entry(0, 0)
      ensures forall k :: 4 <= k < 9 ==> toc[k] == Entry(0x188 + (k - 4) * 0x468, 0x468)
    {
      for pos := 0 to 5
        invariant forall k :: 0 <= k < 4 ==> toc[k] == Entry(0, 0)
        invariant forall k :: 4 <= k < 4 + pos ==> toc[k] == Entry(0x188 + (k - 4) * 0x468, 0x468)
      {
        toc[4 + pos] := Entry(0x188 + pos * 0x468, 0x468);
      }
    }

    /** bl2 goes first, then the header for the first time, then the firmware. */
    method WriteBl2(bl2: seq<byte>) returns (ghost head: seq<byte>)
      requires Collected() && i == 0 && HEADER_AT <= |bl2| && fout.Now() == Disk([], 0)
      requires forall h :: |layout(h)| == HEADER_SIZE
      requires forall k :: 0 <= k < 4 ==> toc[k] == Entry(0, 0)
      modifies fout
      ensures Placed(head) && |head| >= HEADER_AT && head[..HEADER_AT] == bl2[..HEADER_AT]
    {
      hide Table, Concat;
      var fin := new Source(bl2);
      var ret := FileCopy(fin, fout, HEADER_AT);
      var bytes := layout(HeaderNow());
      fout.Write(bytes);
      head := bl2[..HEADER_AT] + bytes;
      assert fout.contents == head;
      WriteFirmware(head);
      assert ddrfw[..ddrfwCounter] + toc[..0] == ddrfw[..ddrfwCounter];
    }

    method WriteFirmware(ghost head: seq<byte>)
      requires Collected() && fout.pos == |fout.contents| && fout.contents == head
      modifies fout
      ensures fout.pos == |fout.contents| && fout.contents == head + Concat(bodies)
    {
      hide Table, Collected, Concat;
      Known();
      assert bodies[..0] == [] && head + Concat([]) == head by { NoBodies(); }
      for k := 0 to ddrfwCounter
        invariant fout.pos == |fout.contents| && fout.contents == head + Concat(bodies[..k])
      {
        assert bodies[..k + 1] == bodies[..k] + [bodies[k]];
        ConcatGrows(bodies[..k], bodies[k]);
        ghost var was := Concat(bodies[..k]);
        Buffered(k);
        if sizes[k] != 0 {
          fout.Write(buffers[k][0x60..0x60 + sizes[k]]);
        }
        assert head + was + bodies[k] == head + (was + bodies[k]);
      }
      assert bodies[..ddrfwCounter] == bodies;
    }

    lemma Buffered(k: nat)
      requires Collected() && k < ddrfwCounter
      ensures k < |bodies| && k < DDRFW_SLOTS && Shape() && sizes[k] == |bodies[k]| && |buffers[k]| >= 0x60 + sizes[k]
      ensures buffers[k][0x60..0x60 + sizes[k]] == bodies[k]
    {
    }

    /** An entry has been filled in and its body appended; on to the next one. */
    method NextEntry(body: seq<byte>, ghost head: seq<byte>)
      requires Shape() && ddrfwCounter <= DDRFW_SLOTS && i < 4 && |head| == HEADER_AT + HEADER_SIZE
      requires fout.pos == |fout.contents| && fout.contents == head + Concat(bodies) + body
      requires offset == HEADER_SIZE + |Concat(bodies)|
      requires ddrfw[..ddrfwCounter] + toc[..i] == Table(bodies) && toc[i] == Entry(offset, |body|)
      requires forall k :: i < k < 4 ==> toc[k] == Entry(0, 0)
      modifies this`i, this`offset, this`bodies
      ensures Placed(head) && i == old(i) + 1 && bodies == old(bodies) + [body]
    {
      hide Table, Concat;
      TableGrows(bodies, body);
      ConcatGrows(bodies, body);
      ghost var table := ddrfw[..ddrfwCounter] + toc[..i];
      assert bodies[..|bodies|] == bodies;
      assert head + Concat(bodies) + body == head + (Concat(bodies) + body);
      assert ddrfw[..ddrfwCounter] + toc[..i + 1] == table + [toc[i]];
      bodies := bodies + [body];
      offset := offset + |body|;
      i := i + 1;
    }

    /** Part `no` of the boot loader (1 to 4). */
    method WritePart(no: nat, part: Input, ghost head: seq<byte>)
      requires Placed(head) && 1 <= no <= 4 && i < no
      requires part.Data? ==> PayloadOffset(no, part.bytes) <= |part.bytes|
      modifies this`i, this`offset, this`bodies, toc, fout
      ensures Placed(head) && i <= no
      ensures forall k :: 4 <= k < 9 ==> toc[k] == if part.Missing? && k == no + 3 then Entry(0, 0) else old(toc[k])
      ensures bodies == old(bodies) + match part
        case Missing => [[]]
        case Unreadable => []
        case Data(bytes) => [bytes[PayloadOffset(no, bytes)..]]
    {
      hide Table, Concat, PayloadOffset;
      match part {
        case Unreadable =>
        case Missing =>
          toc[i] := toc[i].(offset := offset);
          toc[no + 3] := Entry(0, 0);
          assert toc[..i] == old(toc[..i]) && fout.contents + [] == fout.contents;
          NextEntry([], head);
        case Data(bytes) =>
          var payloadOff := PayloadOffset(no, bytes);
          var size := |bytes| - payloadOff;
          toc[i] := Entry(offset, size);
          var fin := new Source(bytes);
          fin.pos := payloadOff;
          var ret := FileCopy(fin, fout, size);
          assert toc[..i] == old(toc[..i]) && bytes[payloadOff..payloadOff + size] == bytes[payloadOff..];
          NextEntry(bytes[payloadOff..], head);
      }
    }

    /** The second loop of main after bl2, and the header once more, now complete. */
    method WriteParts(parts: seq<Input>, ghost head0: seq<byte>) returns (ghost head: seq<byte>)
      requires Placed(head0) && i == 0 && |parts| == 4 && LongEnough(parts) && forall h :: |layout(h)| == HEADER_SIZE
      requires FixedEntries(toc[..], parts, 0)
      modifies this`i, this`offset, this`bodies, toc, fout
      ensures bodies == old(bodies) + PartBodies(parts, 4) && |head0| >= HEADER_AT
      ensures head == head0[..HEADER_AT] + layout(HeaderNow()) && fout.contents == head + Concat(bodies)
      ensures Shape() && ddrfwCounter <= 9 && i <= 4 && ddrfw[..ddrfwCounter] + toc[..i] == Table(bodies)
      ensures FixedEntries(toc[..], parts, 4) && forall k :: i <= k < 4 ==> toc[k] == Entry(0, 0)
    {
      hide PayloadOffset, Placed, Table, Concat, FixedEntries;
      ghost var before := bodies;
      assert before + [] == before;
      for no := 1 to 5
        invariant Placed(head0) && i < no && bodies == before + PartBodies(parts, no - 1)
        invariant FixedEntries(toc[..], parts, no - 1)
      {
        ghost var was := toc[..];
        WritePart(no, parts[no - 1], head0);
        FixedOnePart(was, toc[..], parts, no);
      }
      head := Finish(head0);
    }

    /** The header is written over the place kept for it. */
    method Finish(ghost head0: seq<byte>) returns (ghost head: seq<byte>)
      requires Placed(head0) && forall h :: |layout(h)| == HEADER_SIZE
      modifies fout
      ensures |head0| >= HEADER_AT && head == head0[..HEADER_AT] + layout(HeaderNow())
      ensures Shape() && ddrfwCounter <= 9 && i <= 4 && forall k :: i <= k < 4 ==> toc[k] == Entry(0, 0)
      ensures fout.contents == head + Concat(bodies) && ddrfw[..ddrfwCounter] + toc[..i] == Table(bodies)
    {
      hide Table, Concat;
      var bytes := layout(HeaderNow());
      fout.Seek(HEADER_AT);
      ghost var was := fout.contents;
      fout.Write(bytes);
      head := head0[..HEADER_AT] + bytes;
      assert was[..HEADER_AT] == head0[..HEADER_AT] && was[HEADER_AT + HEADER_SIZE..] == Concat(bodies);
    }

    /**
      The whole program, after its options are read: unless a firmware file
      cannot be opened, the image is bl2's first 64 KB, the header, and the
      bodies of firmware and parts one after the other, and the table in the
      header says of each of them exactly where it is.
    */
    method Make(bl2: seq<byte>, firmware: seq<Input>, parts: seq<Input>) returns (ok: bool)
      requires Shape() && Collected() && bodies == [] && i == 0 && fout.Now() == Disk([], 0)
      requires forall k :: 0 <= k < 9 ==> toc[k] == Entry(0, 0)
      requires forall h :: |layout(h)| == HEADER_SIZE
      requires HEADER_AT <= |bl2| && |firmware| == DDRFW_SLOTS && |parts| == 4 && SmallFiles(firmware) && LongEnough(parts)
      requires HEADER_SIZE + |Concat(FirmwareBodies(sha256, firmware))| < U32
      modifies this, ddrfw, digests, toc, buffers, sizes, fout
      ensures ok <==> forall f :: f in firmware ==> f != Unreadable
      ensures ok ==> bodies == FirmwareBodies(sha256, firmware) + PartBodies(parts, 4)
      ensures ok ==> ddrfwCounter == |FirmwareBodies(sha256, firmware)| <= DDRFW_SLOTS && ddrfwCounter <= |bodies|
      ensures ok ==> forall k :: 0 <= k < ddrfwCounter ==> digests[k] == sha256(bodies[k])
      ensures ok ==> fout.contents == bl2[..HEADER_AT] + layout(HeaderNow()) + Concat(bodies)
      ensures ok ==> ddrfwCounter <= 9 && i <= 4 && ddrfw[..ddrfwCounter] + toc[..i] == Table(bodies)
      ensures ok ==> FixedEntries(toc[..], parts, 4) && forall k :: i <= k < 4 ==> toc[k] == Entry(0, 0)
      ensures ok ==> forall k :: ddrfwCounter <= k < DDRFW_SLOTS ==> ddrfw[k] == Entry(0, 0) && digests[k] == []
    {
      hide Collected, Placed, Concat, Table, FirmwareBodies, PartBodies;
      ok := CollectFirmware(firmware);
      if !ok { return; }
      Known();
      PrePopulate();
      ghost var head := WriteBl2(bl2);
      head := WriteParts(parts, head);
    }
  }

  /** Where the table points in the finished image, there the body is. */
  lemma ImageRegion(image: seq<byte>, front: seq<byte>, bodies: seq<seq<byte>>, n: nat)
    requires |front| == HEADER_AT + HEADER_SIZE && image == front + Concat(bodies) && n < |bodies|
    ensures var e := Table(bodies)[n];
      && e.size == |bodies[n]| && HEADER_AT + HEADER_SIZE <= HEADER_AT + e.offset && HEADER_AT + e.offset + e.size <= |image|
      && image[HEADER_AT + e.offset..HEADER_AT + e.offset + e.size] == bodies[n]
  {
    hide Concat;
    EveryRegionHolds(bodies, n);
    var e, all := Table(bodies)[n], Concat(bodies);
    assert image[HEADER_AT + e.offset..HEADER_AT + e.offset + e.size] ==
           all[e.offset - HEADER_SIZE..e.offset - HEADER_SIZE + e.size];
  }

  /** The entries of a header that name regions: one for each accepted firmware file, and one for each part that was written. */
  function Entries(h: Header, parts: nat): seq<Entry>
    requires h.counter <= |h.firmware| && parts <= |h.toc|
  {
    h.firmware[..h.counter] + h.toc[..parts]
  }

  /**
    bootmk: at 0x10000 the image has the header, and every firmware file that
    was accepted and every part has an entry in it and stands, byte for byte,
    where that says; firmware entries have the digest of their bodies.
  */
  method BootMk(sha256: seq<byte> -> seq<byte>, layout: Header -> seq<byte>, bl2: seq<byte>, firmware: seq<Input>, parts: seq<Input>)
    returns (ok: bool, image: seq<byte>, header: Header)
    requires forall h :: |layout(h)| == HEADER_SIZE
    requires HEADER_AT <= |bl2| && |firmware| == DDRFW_SLOTS && |parts| == 4 && SmallFiles(firmware) && LongEnough(parts)
    requires HEADER_SIZE + |Concat(FirmwareBodies(sha256, firmware))| < U32
    ensures ok <==> forall f :: f in firmware ==> f != Unreadable
    ensures ok ==> |image| >= 0x1_4000 && image[..0x1_0000] == bl2[..0x1_0000] && image[0x1_0000..0x1_4000] == layout(header)
    ensures ok ==>
      var accepted, written := FirmwareBodies(sha256, firmware), PartBodies(parts, 4);
      var bodies := accepted + written;
      && header.counter == |accepted| <= |header.firmware| && |accepted| <= |header.digests| && |written| <= |header.toc|
      && Entries(header, |written|) == Table(bodies)
      && (forall n :: 0 <= n < |accepted| ==> header.digests[n] == sha256(accepted[n]))
      && forall n :: 0 <= n < |bodies| ==>
           var e := Table(bodies)[n];
           && e.size == |bodies[n]| && 0x1_0000 + e.offset + e.size <= |image|
           && image[0x1_0000 + e.offset..0x1_0000 + e.offset + e.size] == bodies[n]
    ensures ok ==> |header.firmware| == |header.digests| == |header.toc| == 9
    ensures ok ==> forall k :: header.counter <= k < 9 ==> header.firmware[k] == Entry(0, 0) && header.digests[k] == []
    ensures ok ==> forall k :: |PartBodies(parts, 4)| <= k < 4 ==> header.toc[k] == Entry(0, 0)
    ensures ok ==> FixedEntries(header.toc, parts, 4)
  {
    hide Concat, Table, FirmwareBodies, PartBodies;
    var maker := new Maker(sha256, layout);
    maker.NothingYet();
    ok := maker.Make(bl2, firmware, parts);
    image, header := maker.fout.contents, maker.HeaderNow();
    if ok {
      ghost var front, bodies := bl2[..HEADER_AT] + layout(header), maker.bodies;
      assert |Entries(header, maker.i)| == |Table(bodies)|;
      assert image[HEADER_AT..HEADER_AT + HEADER_SIZE] == front[HEADER_AT..];
      forall n | 0 <= n < |FirmwareBodies(sha256, firmware)|
        ensures header.digests[n] == sha256(FirmwareBodies(sha256, firmware)[n])
      {
        assert bodies[n] == FirmwareBodies(sha256, firmware)[n];
      }
      forall n | 0 <= n < |bodies|
        ensures var e := Table(bodies)[n];
          && e.size == |bodies[n]| && HEADER_AT + e.offset + e.size <= |image|
          && image[HEADER_AT + e.offset..HEADER_AT + e.offset + e.size] == bodies[n]
      {
        ImageRegion(image, front, bodies, n);
      }
    }
  }
}
