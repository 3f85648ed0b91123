/**
  LZ4IO_fwriteSparse and LZ4IO_fwriteSparseEnd (lz4io.c): runs of zeros are
  skipped instead of written, and the skips are carried from call to call.
*/
module SparseFile {
  import opened BlockFormat
  import opened Sizes

  const WORD := 8
  const SEGMENT := 32 * KB / WORD

  function Zeros(n: nat): (s: seq<byte>)
    ensures |s| == n && forall k :: 0 <= k < n ==> s[k] == 0
  {
    seq(n, _ => 0)
  }

  lemma ZerosJoin(a: nat, b: nat)
    ensures Zeros(a) + Zeros(b) == Zeros(a + b)
  {
  }

  /** The bytes of a file after `bytes` are written at `pos`; a gap before them reads as zeros. */
  function Written(contents: seq<byte>, pos: nat, bytes: seq<byte>): seq<byte> {
    if bytes == [] then contents
    else
      var padded := if pos > |contents| then contents + Zeros(pos - |contents|) else contents;
      padded[..pos] + bytes + (if pos + |bytes| < |padded| then padded[pos + |bytes|..] else [])
  }

  /** What is on disk: the bytes of a file, and the position of the next write. */
  datatype Disk = Disk(contents: seq<byte>, pos: nat) {
    /** Writing has only ever appended; a gap left open is accounted for by pending skips. */
    predicate Appending(skips: nat) {
      pos >= |contents| && (pos > |contents| ==> skips > 0)
    }

    /** What the file will hold once the pending skips are made good. */
    function Logical(skips: nat): seq<byte>
      requires Appending(skips)
    {
      contents + Zeros(pos - |contents| + skips)
    }
  }

  /** A file opened for writing. */
  class File {
    var contents: seq<byte>
    var pos: nat

    constructor ()
      ensures Now() == Disk([], 0)
    {
      contents, pos := [], 0;
    }

    function Now(): Disk
      reads this
    {
      Disk(contents, pos)
    }

    /** fseek from the current position. */
    method Skip(n: nat)
      modifies this
      ensures Now() == Disk(old(contents), old(pos) + n)
    {
      pos := pos + n;
    }

    /** fseek from the start. */
    method Seek(place: nat)
      modifies this
      ensures Now() == Disk(old(contents), place)
    {
      pos := place;
    }

    /** fwrite. */
    method Write(bytes: seq<byte>)
      modifies this
      ensures Now() == Disk(Written(old(contents), old(pos), bytes), old(pos) + |bytes|)
    {
      contents := Written(contents, pos, bytes);
      pos := pos + |bytes|;
    }
  }

  /** A file opened for reading. */
  class Source {
    const bytes: seq<byte>
    var pos: nat

    constructor (bytes: seq<byte>)
      ensures this.bytes == bytes && pos == 0
    {
      this.bytes := bytes;
      pos := 0;
    }

    /** fread. */
    method Read(n: nat) returns (got: seq<byte>)
      requires pos <= |bytes|
      modifies this
      ensures pos == old(pos) + |got| <= |bytes| && got == bytes[old(pos)..pos]
      ensures |got| == n || (|got| < n && pos == |bytes|)
    {
      var upto := if pos + n <= |bytes| then pos + n else |bytes|;
      got := bytes[pos..upto];
      pos := upto;
    }
  }

  // ----- How many zeros are pending, and how often their 32-bit count wraps -----

  datatype Tally = Tally(skips: nat, wraps: nat)

  predicate AllZero(s: seq<byte>) {
    forall k :: 0 <= k < |s| ==> s[k] == 0
  }

  /** The bytes in leading units of zeros only. */
  function ZeroPrefix(s: seq<byte>, unit: nat): (n: nat)
    requires unit > 0
    ensures n <= |s| && AllZero(s[..n])
  {
    if |s| >= unit && AllZero(s[..unit]) then
      var n := ZeroPrefix(s[unit..], unit);
      assert s[..unit + n] == s[..unit] + s[unit..][..n];
      unit + n
    else 0
  }

  /** A segment of words, or the bytes after the last word: its leading zeros become pending; if anything follows them, all are made good. */
  function AfterPiece(t: Tally, piece: seq<byte>, unit: nat): Tally
    requires unit > 0
  {
    var z := ZeroPrefix(piece, unit);
    Tally(if z == |piece| then (t.skips + z) % U32 else 0, t.wraps + (t.skips + z) / U32)
  }

  /** The whole words in a segment at the start of a buffer. */
  function SegmentSize(buffer: seq<byte>): (n: nat)
    requires |buffer| >= WORD
    ensures WORD <= n <= |buffer|
  {
    (if |buffer| / WORD < SEGMENT then |buffer| / WORD else SEGMENT) * WORD
  }

  function AfterBuffer(t: Tally, buffer: seq<byte>): Tally
    decreases |buffer|
  {
    if |buffer| >= WORD then
      var n := SegmentSize(buffer);
      AfterBuffer(AfterPiece(t, buffer[..n], WORD), buffer[n..])
    else if buffer == [] then t
    else AfterPiece(t, buffer, 1)
  }

  /** More than 1 GB of pending zeros: 1 GB is made good first. */
  function Deducted(t: Tally): Tally {
    if t.skips > GB then t.(skips := t.skips - GB) else t
  }

  /** All buffers, put one after the other. */
  function AfterAll(buffers: seq<seq<byte>>): Tally {
    if buffers == [] then Tally(0, 0)
    else AfterBuffer(Deducted(AfterAll(buffers[..|buffers| - 1])), buffers[|buffers| - 1])
  }

  lemma AllZeroIs(s: seq<byte>)
    requires AllZero(s)
    ensures s == Zeros(|s|)
  {
  }

  lemma {:induction false} ZeroPrefixOfZeros(s: seq<byte>, unit: nat)
    requires (unit == WORD || unit == 1) && |s| % unit == 0 && AllZero(s)
    ensures ZeroPrefix(s, unit) == |s|
  {
    if s != [] {
      ZeroPrefixOfZeros(s[unit..], unit);
    }
  }

  lemma CountedTwice(a: nat, b: nat, c: nat)
    ensures ((a + b) % U32 + c) % U32 == (a + (b + c)) % U32
    ensures (a + b) / U32 + ((a + b) % U32 + c) / U32 == (a + (b + c)) / U32
  {
  }

  /** A buffer of zeros is only counted, modulo 2^32. */
  lemma {:induction false} ZerosAreCounted(t: Tally, buffer: seq<byte>)
    requires AllZero(buffer)
    ensures AfterBuffer(t, buffer) == Tally((t.skips + |buffer|) % U32, t.wraps + (t.skips + |buffer|) / U32)
            || (buffer == [] && AfterBuffer(t, buffer) == t)
    decreases |buffer|
  {
    hide ZeroPrefix;
    if |buffer| >= WORD {
      var n := SegmentSize(buffer);
      ZeroPrefixOfZeros(buffer[..n], WORD);
      CountedTwice(t.skips, n, |buffer| - n);
      ZerosAreCounted(AfterPiece(t, buffer[..n], WORD), buffer[n..]);
    } else if buffer != [] {
      ZeroPrefixOfZeros(buffer, 1);
    }
  }

  /** The count does not wrap if there are not enough bytes for that. */
  lemma {:induction false} FewZeros(t: Tally, buffer: seq<byte>, limit: nat)
    requires t.skips + |buffer| <= limit < U32
    ensures AfterBuffer(t, buffer).wraps == t.wraps && AfterBuffer(t, buffer).skips <= limit
    decreases |buffer|
  {
    hide ZeroPrefix;
    if |buffer| >= WORD {
      var n := SegmentSize(buffer);
      FewZeros(AfterPiece(t, buffer[..n], WORD), buffer[n..], limit);
    }
  }

  lemma {:induction false} GigabytesAreSafe(buffers: seq<seq<byte>>)
    requires forall i :: 0 <= i < |buffers| ==> |buffers[i]| <= GB
    ensures AfterAll(buffers).wraps == 0 && AfterAll(buffers).skips <= 2 * GB
  {
    hide AfterBuffer;
    if buffers != [] {
      var front := buffers[..|buffers| - 1];
      GigabytesAreSafe(front);
      FewZeros(Deducted(AfterAll(front)), buffers[|buffers| - 1], 2 * GB);
    }
  }

  /** Each buffer of more than 1 GB of zeros leaves more of them pending, until the count wraps. */
  lemma {:induction false} PendingGrows(size: nat, n: nat)
    requires size > GB
    ensures var t := AfterAll(seq(n, _ => Zeros(size))); t.wraps == 0 ==> n <= t.skips < U32
  {
    hide AfterBuffer, Zeros;
    var all := seq(n, _ => Zeros(size));
    if n > 0 {
      assert all[..n - 1] == seq(n - 1, _ => Zeros(size));
      PendingGrows(size, n - 1);
      var t := Deducted(AfterAll(all[..n - 1]));
      ZerosAreCounted(t, Zeros(size));
    }
  }

  ghost predicate AtMost(buffers: seq<seq<byte>>, size: nat) {
    forall i :: 0 <= i < |buffers| ==> |buffers[i]| <= size
  }

  /** 1 GB is the largest size of buffers for which the count never wraps. */
  lemma OneGigabyteIsExact(size: nat)
    ensures (forall buffers :: AtMost(buffers, size) ==> AfterAll(buffers).wraps == 0) <==> size <= GB
  {
    hide AfterAll, Zeros;
    if size <= GB {
      forall buffers | AtMost(buffers, size) ensures AfterAll(buffers).wraps == 0 {
        GigabytesAreSafe(buffers);
      }
    } else {
      PendingGrows(size, U32);
      var buffers := seq(U32, _ => Zeros(size));
      assert AtMost(buffers, size) && AfterAll(buffers).wraps != 0;
    }
  }

  // ----- Putting bytes to a file -----

  /**
    What becomes of a file and its pending zeros when `part` is put to it. As
    long as the count does not wrap, the part comes to stand at the end. Every
    time it wraps, 2^32 zeros are missing from then on.
  */
  predicate Puts(was: Disk, t0: Tally, part: seq<byte>, now: Disk, t1: Tally) {
    && t1.skips < U32 && t0.wraps <= t1.wraps
    && (was.pos >= |was.contents| ==> now.pos >= |now.contents|)
    && now.pos + t1.skips + U32 * t1.wraps == was.pos + t0.skips + U32 * t0.wraps + |part|
    && (t1.wraps == t0.wraps && was.Appending(t0.skips) ==>
      now.Appending(t1.skips) && now.Logical(t1.skips) == was.Logical(t0.skips) + part)
  }

  lemma PutsNothing(disk: Disk, t: Tally)
    requires t.skips < U32
    ensures Puts(disk, t, [], disk, t)
  {
    if disk.Appending(t.skips) {
      assert disk.Logical(t.skips) + [] == disk.Logical(t.skips);
    }
  }

  /** Two parts put one after the other are their concatenation put at once. */
  lemma PutsMore(d0: Disk, t0: Tally, a: seq<byte>, d1: Disk, t1: Tally, b: seq<byte>, d2: Disk, t2: Tally)
    requires Puts(d0, t0, a, d1, t1) && Puts(d1, t1, b, d2, t2)
    ensures Puts(d0, t0, a + b, d2, t2)
  {
    if d0.Appending(t0.skips) {
      assert d0.Logical(t0.skips) + a + b == d0.Logical(t0.skips) + (a + b);
    }
  }

  /** Zeros that are only counted. */
  lemma PutsZeros(disk: Disk, t: Tally, zeros: seq<byte>)
    requires AllZero(zeros)
    ensures Puts(disk, t, zeros, disk, Tally((t.skips + |zeros|) % U32, t.wraps + (t.skips + |zeros|) / U32))
  {
    AllZeroIs(zeros);
    if disk.Appending(t.skips) && t.skips + |zeros| < U32 {
      ZerosJoin(disk.pos - |disk.contents| + t.skips, |zeros|);
      assert disk.Logical(t.skips + |zeros|) == disk.Logical(t.skips) + zeros;
    }
  }

  /** Skipping and writing amounts to appending the skipped zeros and the bytes. */
  method SkipAndWrite(f: File, skips: nat, bytes: seq<byte>, ghost t: Tally)
    requires bytes != [] && skips == t.skips
    modifies f
    ensures Puts(old(f.Now()), t, bytes, f.Now(), t.(skips := 0))
  {
    ghost var was := f.Now();
    f.Skip(skips);
    f.Write(bytes);
    assert Zeros(0) == [] && f.contents + [] == f.contents;
    if was.Appending(t.skips) {
      assert f.contents == was.Logical(t.skips) + bytes;
    }
  }

  /** The number of bytes in leading units of zeros of a piece. */
  method LeadingZeros(buffer: seq<byte>, p: nat, q: nat, unit: nat) returns (z: nat)
    requires p <= q <= |buffer| && unit > 0
    ensures z == ZeroPrefix(buffer[p..q], unit)
  {
    z := 0;
    while z + unit <= q - p && AllZero(buffer[p + z..p + z + unit])
      invariant z <= q - p && z + ZeroPrefix(buffer[p + z..q], unit) == ZeroPrefix(buffer[p..q], unit)
    {
      assert buffer[p + z..q][..unit] == buffer[p + z..p + z + unit];
      assert buffer[p + z..q][unit..] == buffer[p + z + unit..q];
      z := z + unit;
    }
    if z + unit <= q - p {
      assert buffer[p + z..q][..unit] == buffer[p + z..p + z + unit];
    }
  }

  /** A segment of words, or what follows them: leading zeros become pending, and whatever comes after them is written. */
  method PutPiece(f: File, buffer: seq<byte>, p: nat, q: nat, unit: nat, storedSkips: nat, ghost t: Tally) returns (skips: nat)
    requires p <= q <= |buffer| && unit > 0 && storedSkips == t.skips < U32
    modifies f
    ensures skips == AfterPiece(t, buffer[p..q], unit).skips
    ensures Puts(old(f.Now()), t, buffer[p..q], f.Now(), AfterPiece(t, buffer[p..q], unit))
  {
    hide Puts;
    ghost var was := f.Now();
    var z := LeadingZeros(buffer, p, q, unit);
    skips := (storedSkips + z) % U32;
    ghost var counted := Tally(skips, t.wraps + (storedSkips + z) / U32);
    assert buffer[p..p + z] == buffer[p..q][..z];
    PutsZeros(was, t, buffer[p..p + z]);
    assert buffer[p..p + z] + buffer[p + z..q] == buffer[p..q];
    if p + z != q {
      SkipAndWrite(f, skips, buffer[p + z..q], counted);
      PutsMore(was, t, buffer[p..p + z], was, counted, buffer[p + z..q], f.Now(), counted.(skips := 0));
      skips := 0;
    } else {
      assert buffer[p..p + z] == buffer[p..q];
    }
  }

  /** LZ4IO_fwriteSparse after its first steps: whole words in segments of 32 KB, and the bytes after the last word. */
  method WriteSparse(f: File, buffer: seq<byte>, storedSkips: nat, ghost t0: Tally) returns (skips: nat)
    requires storedSkips == t0.skips < U32
    modifies f
    ensures skips == AfterBuffer(t0, buffer).skips < U32
    ensures Puts(old(f.Now()), t0, buffer, f.Now(), AfterBuffer(t0, buffer))
  {
    hide Puts, AfterPiece;
    ghost var t := t0;
    var p := 0;
    skips := storedSkips;
    PutsNothing(f.Now(), t);
    assert buffer[..0] == [] && buffer[0..] == buffer;
    while |buffer| - p >= WORD
      invariant 0 <= p <= |buffer| && skips == t.skips < U32 && Puts(old(f.Now()), t0, buffer[..p], f.Now(), t)
      invariant AfterBuffer(t, buffer[p..]) == AfterBuffer(t0, buffer)
    {
      var n := SegmentSize(buffer[p..]);
      assert buffer[p..][..n] == buffer[p..p + n] && buffer[p..][n..] == buffer[p + n..];
      skips, t := PutNext(f, buffer, p, p + n, WORD, skips, old(f.Now()), t0, t);
      p := p + n;
    }
    if p < |buffer| {
      assert buffer[p..|buffer|] == buffer[p..];
      skips, t := PutNext(f, buffer, p, |buffer|, 1, skips, old(f.Now()), t0, t);
    }
    assert buffer[..|buffer|] == buffer;
  }

  /** One more piece of the buffer. */
  method PutNext(f: File, buffer: seq<byte>, p: nat, q: nat, unit: nat, storedSkips: nat, ghost was: Disk, ghost t0: Tally, ghost t: Tally)
    returns (skips: nat, ghost now: Tally)
    requires p <= q <= |buffer| && unit > 0 && storedSkips == t.skips < U32 && Puts(was, t0, buffer[..p], f.Now(), t)
    modifies f
    ensures now == AfterPiece(t, buffer[p..q], unit) && skips == now.skips < U32
    ensures Puts(was, t0, buffer[..q], f.Now(), now)
  {
    hide Puts;
    ghost var before := f.Now();
    skips := PutPiece(f, buffer, p, q, unit, storedSkips, t);
    now := AfterPiece(t, buffer[p..q], unit);
    PutsMore(was, t0, buffer[..p], before, t, buffer[p..q], f.Now(), now);
    assert buffer[..p] + buffer[p..q] == buffer[..q];
  }

  /**
    LZ4IO_fwriteSparse. What the file will hold grows by exactly the buffer,
    wherever its zeros go, unless the count of pending zeros wraps.
  */
  method FwriteSparse(sparse: bool, f: File, buffer: seq<byte>, storedSkips0: nat, ghost t0: Tally) returns (skips: nat)
    requires storedSkips0 == t0.skips < U32 && f.Now().pos >= |f.Now().contents|
    requires !sparse ==> storedSkips0 == 0 && f.Now().Appending(0)
    modifies f
    ensures skips < U32
    ensures sparse ==> skips == AfterBuffer(Deducted(t0), buffer).skips
                       && Puts(old(f.Now()), t0, buffer, f.Now(), AfterBuffer(Deducted(t0), buffer))
    ensures !sparse ==> skips == 0 && f.contents == old(f.contents) + buffer && f.Now().Appending(0)
  {
    if !sparse {
      ghost var was := f.contents;
      f.Write(buffer);
      assert f.contents == was + buffer;
      return 0;
    }
    hide AfterBuffer;
    ghost var was := f.Now();
    var storedSkips := storedSkips0;
    if storedSkips > GB {
      f.Skip(GB);
      storedSkips := storedSkips - GB;
    }
    ghost var before := f.Now();
    skips := WriteSparse(f, buffer, storedSkips, Deducted(t0));
    assert was.Appending(t0.skips) ==> before.Appending(storedSkips) && before.Logical(storedSkips) == was.Logical(t0.skips);
  }

  /** LZ4IO_fwriteSparseEnd: the last pending zero is written, so that the file gets its full length. */
  method FwriteSparseEnd(f: File, storedSkips: nat)
    requires f.Now().pos >= |f.Now().contents|
    modifies f
    ensures old(f.Now()).Appending(storedSkips) ==> f.contents == old(f.Now()).Logical(storedSkips)
    ensures |f.contents| == if storedSkips > 0 then old(f.pos) + storedSkips else old(|f.contents|)
  {
    if storedSkips > 0 {
      ghost var was := f.contents;
      ghost var gap: nat := f.pos - |was|;
      f.Skip(storedSkips - 1);
      f.Write([0]);
      assert f.contents == was + Zeros(gap + storedSkips - 1) + [0];
      assert Zeros(gap + storedSkips) == Zeros(gap + storedSkips - 1) + [0];
    } else {
      assert f.contents + Zeros(0) == f.contents;
    }
  }

  /**
    Any sequence of buffers leaves the same file as writing them one after the
    other, if and only if the count of pending zeros never wraps; otherwise the
    file is shorter by 2^32 bytes at least for every time it does.
  */
  method WriteAll(sparse: bool, buffers: seq<seq<byte>>) returns (f: File)
    ensures f.contents == Concat(buffers) <==> !sparse || AfterAll(buffers).wraps == 0
    ensures sparse ==> |f.contents| + U32 * AfterAll(buffers).wraps <= |Concat(buffers)|
    ensures AtMost(buffers, GB) ==> f.contents == Concat(buffers)
  {
    hide AfterBuffer;
    if AtMost(buffers, GB) { GigabytesAreSafe(buffers); }
    f := new File();
    var skips: nat := 0;
    ghost var t := Tally(0, 0);
    assert buffers[..0] == [] && f.contents + Zeros(0) == [];
    PutsNothing(f.Now(), t);
    for i := 0 to |buffers|
      invariant fresh(f) && skips == t.skips < U32 && f.pos >= |f.contents|
      invariant sparse ==> t == AfterAll(buffers[..i]) && Puts(Disk([], 0), Tally(0, 0), Concat(buffers[..i]), f.Now(), t)
      invariant !sparse ==> skips == 0 && f.contents == Concat(buffers[..i]) && f.Now().Appending(0)
    {
      assert buffers[..i + 1][..i] == buffers[..i];
      ghost var before := f.Now();
      skips := FwriteSparse(sparse, f, buffers[i], skips, t);
      if sparse {
        ghost var now := AfterBuffer(Deducted(t), buffers[i]);
        PutsMore(Disk([], 0), Tally(0, 0), Concat(buffers[..i]), before, t, buffers[i], f.Now(), now);
        t := now;
      }
    }
    assert buffers[..|buffers|] == buffers;
    assert f.Now().Appending(0) ==> f.Now().Logical(0) == f.contents;
    FwriteSparseEnd(f, skips);
    assert [] + Zeros(0) + Concat(buffers) == Concat(buffers);
  }

  /** The simplest case that is not exact: one buffer of 2^32 zeros leaves no trace at all. */
  method FourGigabytesLost() returns (f: File)
    ensures f.contents == [] != Zeros(U32)
  {
    hide AfterBuffer, Zeros;
    var buffer := Zeros(U32);
    var buffers := [buffer];
    assert buffers[..0] == [];
    ZerosAreCounted(Tally(0, 0), buffer);
    f := WriteAll(true, buffers);
    assert Concat(buffers) == Concat(buffers[..0]) + buffer == buffer;
  }
}
