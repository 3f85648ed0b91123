/**
  The copying primitives of lz4.c over one output buffer. Pointers are indices.
  A C memcpy is only defined for disjoint regions, so each primitive here
  requires its source to end before its destination starts.
*/
module Memory {
  import opened BlockFormat
  import opened Sizes

  method CopyWithin(buf: array<byte>, d: nat, s: nat, n: nat)
    requires s + n <= d && d + n <= buf.Length
    modifies buf
    ensures forall k :: d <= k < d + n ==> buf[k] == old(buf[s + k - d])
    ensures forall k :: 0 <= k < d || d + n <= k < buf.Length ==> buf[k] == old(buf[k])
  {
    forall k | d <= k < d + n {
      buf[k] := buf[s + k - d];
    }
  }

  method CopyFrom(buf: array<byte>, d: nat, src: seq<byte>, s: nat, n: nat)
    requires s + n <= |src| && d + n <= buf.Length
    modifies buf
    ensures forall k :: d <= k < d + n ==> buf[k] == src[s + k - d]
    ensures forall k :: 0 <= k < d || d + n <= k < buf.Length ==> buf[k] == old(buf[k])
  {
    forall k | d <= k < d + n {
      buf[k] := src[s + k - d];
    }
  }

  /** LZ4_wildCopy8 on literals: copies whole words and may write up to 7 bytes past `e`. */
  method WildCopy8From(buf: array<byte>, d: nat, src: seq<byte>, s: nat, e: nat)
    requires d <= e && Max(d + 8, e + 7) <= buf.Length
    requires s + Max(8, e - d + 7) <= |src|
    modifies buf
    ensures forall k :: d <= k < e ==> buf[k] == src[s + k - d]
    ensures forall k :: 0 <= k < d || Max(d + 8, e + 7) <= k < buf.Length ==> buf[k] == old(buf[k])
  {
    CopyFrom(buf, d, src, s, 8);
    var x := d + 8;
    while x < e
      invariant d + 8 <= x <= Max(d + 8, e + 7)
      invariant forall k :: d <= k < x ==> buf[k] == src[s + k - d]
      invariant forall k :: 0 <= k < d || x <= k < buf.Length ==> buf[k] == old(buf[k])
    {
      CopyFrom(buf, x, src, s + (x - d), 8);
      x := x + 8;
    }
  }

  /** LZ4_wildCopy32 on literals: may write up to 31 bytes past `e`. */
  method WildCopy32From(buf: array<byte>, d: nat, src: seq<byte>, s: nat, e: nat)
    requires d <= e && Max(d + 32, e + 31) <= buf.Length
    requires s + Max(32, e - d + 31) <= |src|
    modifies buf
    ensures forall k :: d <= k < e ==> buf[k] == src[s + k - d]
    ensures forall k :: 0 <= k < d || Max(d + 32, e + 31) <= k < buf.Length ==> buf[k] == old(buf[k])
  {
    var x := d;
    while true
      invariant d <= x && (x == d || x < e)
      invariant forall k :: d <= k < x ==> buf[k] == src[s + k - d]
      invariant forall k :: 0 <= k < d || x <= k < buf.Length ==> buf[k] == old(buf[k])
      decreases e - x
    {
      CopyFrom(buf, x, src, s + (x - d), 16);
      CopyFrom(buf, x + 16, src, s + (x - d) + 16, 16);
      x := x + 32;
      if x >= e {
        break;
      }
    }
  }

  /** LZ4_wildCopy8 inside the output: the distance between the regions is kept, so a distance of 8 or more is enough. */
  method WildCopy8Within(buf: array<byte>, d: nat, s: nat, e: nat)
    requires s + 8 <= d && Max(d + 8, e + 7) <= buf.Length
    modifies buf
    ensures Repeats(buf[..], d, Max(d + 8, e), d - s)
    ensures forall k :: 0 <= k < d || Max(d + 8, e + 7) <= k < buf.Length ==> buf[k] == old(buf[k])
  {
    CopyWithin(buf, d, s, 8);
    var x := d + 8;
    while x < e
      invariant d + 8 <= x <= Max(d + 8, e + 7)
      invariant forall k :: d <= k < x ==> buf[k] == buf[k - (d - s)]
      invariant forall k :: 0 <= k < d || x <= k < buf.Length ==> buf[k] == old(buf[k])
    {
      CopyWithin(buf, x, x - (d - s), 8);
      x := x + 8;
    }
  }

  /** LZ4_wildCopy32 inside the output: two 16-byte copies a turn, so a distance of 16 or more is enough. */
  method WildCopy32Within(buf: array<byte>, d: nat, s: nat, e: nat)
    requires s + 16 <= d <= e && Max(d + 32, e + 31) <= buf.Length
    modifies buf
    ensures Repeats(buf[..], d, e, d - s)
    ensures forall k :: 0 <= k < d || Max(d + 32, e + 31) <= k < buf.Length ==> buf[k] == old(buf[k])
  {
    var x := d;
    while true
      invariant d <= x && (x == d || x < e)
      invariant forall k :: d <= k < x ==> buf[k] == buf[k - (d - s)]
      invariant forall k :: 0 <= k < d || x <= k < buf.Length ==> buf[k] == old(buf[k])
      decreases e - x
    {
      CopyWithin(buf, x, x - (d - s), 16);
      CopyWithin(buf, x + 16, x + 16 - (d - s), 16);
      x := x + 32;
      if x >= e {
        break;
      }
    }
  }

  // ----- Overlapping copies -----

  // The corrections of lz4.c that turn a distance below 8 into a multiple of it that is at least 8.
  const INC32: seq<nat> := [0, 1, 2, 1, 0, 4, 4, 4]
  const DEC64: seq<int> := [0, 0, 0, -1, -4, 1, 2, 3]

  /** The distance at which copying goes on after the first 8 bytes of a match at `offset`. */
  function WideDistance(offset: nat): nat {
    if offset >= 8 then offset else offset + 8 - INC32[offset] + DEC64[offset]
  }

  /** The table entries do what they are for: the new distance is a multiple of the old one, wide enough, and not too wide. */
  lemma WideDistanceIsMultiple(offset: nat)
    returns (m: nat)
    requires 1 <= offset
    ensures m >= 1 && IsMultiple(WideDistance(offset), offset, m)
    ensures 8 <= WideDistance(offset) <= 8 + offset
  {
    m := if offset >= 8 then 1 else [0, 8, 4, 3, 2, 2, 2, 2][offset];
  }

  ghost predicate IsMultiple(wide: nat, distance: nat, m: nat) {
    wide == m * distance
  }

  /** Going back `m` periods inside a repeating region changes nothing. */
  lemma {:induction false} RepeatsBack(buf: seq<byte>, from: int, upto: int, distance: nat, k: int, m: nat, back: nat)
    requires Repeats(buf, from, upto, distance)
    requires IsMultiple(back, distance, m) && 0 <= k - back && k < upto
    requires m > 0 ==> from <= k - back + distance
    ensures buf[k - back] == buf[k]
    decreases m
  {
    if m > 0 {
      assert IsMultiple(back - distance, distance, m - 1);
      RepeatsBack(buf, from, upto, distance, k, m - 1, back - distance);
    }
  }

  lemma {:induction false} RepeatsOneMore(buf: seq<byte>, from: int, mid: int, distance: nat, m: nat, wide: nat)
    requires Repeats(buf, from, mid, distance)
    requires m >= 1 && IsMultiple(wide, distance, m) && 1 <= distance <= wide <= mid - from + distance
    requires wide <= mid < |buf| && buf[mid] == buf[mid - wide]
    ensures Repeats(buf, from, mid + 1, distance)
  {
    assert IsMultiple(wide - distance, distance, m - 1);
    RepeatsBack(buf, from, mid, distance, mid - distance, m - 1, wide - distance);
    assert mid - distance - (wide - distance) == mid - wide;
  }

  /**
    If the first bytes of a region repeat at `distance` and the rest at a
    multiple of it that reaches back no further than the first bytes, then the
    whole region repeats at `distance`.
  */
  lemma {:induction false} RepeatsJoin(buf: seq<byte>, from: int, mid: int, upto: int, distance: nat, m: nat, wide: nat)
    requires Repeats(buf, from, mid, distance)
    requires m >= 1 && IsMultiple(wide, distance, m) && 1 <= distance <= wide <= mid - from + distance
    requires Repeats(buf, mid, upto, wide)
    ensures Repeats(buf, from, upto, distance)
    decreases upto - mid
  {
    if mid < upto {
      hide IsMultiple;
      RepeatsOneMore(buf, from, mid, distance, m, wide);
      RepeatsJoin(buf, from, mid + 1, upto, distance, m, wide);
    }
  }

  /** LZ4_write32(p, 0). */
  method Clear4(buf: array<byte>, p: nat)
    requires p + 4 <= buf.Length
    modifies buf
    ensures forall k :: 0 <= k < p || p + 4 <= k < buf.Length ==> buf[k] == old(buf[k])
  {
    forall k | p <= k < p + 4 {
      buf[k] := 0;
    }
  }

  /** The first four bytes of an overlapping match, one at a time. */
  method FirstFour(buf: array<byte>, op: nat, offset: nat)
    requires offset <= op && op + 4 <= buf.Length
    modifies buf
    ensures offset >= 1 ==> Repeats(buf[..], op, op + 4, offset)
    ensures forall k :: 0 <= k < op || op + 4 <= k < buf.Length ==> buf[k] == old(buf[k])
  {
    var match0 := op - offset;
    Clear4(buf, op);
    buf[op] := buf[match0];
    buf[op + 1] := buf[match0 + 1];
    buf[op + 2] := buf[match0 + 2];
    buf[op + 3] := buf[match0 + 3];
    assert offset >= 1 ==> buf[op] == buf[op - offset] && buf[op + 1] == buf[op + 1 - offset]
                           && buf[op + 2] == buf[op + 2 - offset] && buf[op + 3] == buf[op + 3 - offset];
  }

  /** Four more bytes at a widened distance still repeat at the match offset. */
  lemma FourMore(buf: seq<byte>, op: nat, offset: nat)
    requires 1 <= offset < 8
    requires Repeats(buf, op, op + 4, offset)
    requires Repeats(buf, op + 4, op + 8, offset + 4 - INC32[offset])
    ensures Repeats(buf, op, op + 8, offset)
  {
    var m := [0, 4, 2, 2, 2, 1, 1, 1][offset];
    assert IsMultiple(offset + 4 - INC32[offset], offset, m);
    RepeatsJoin(buf, op, op + 4, op + 8, offset, m, offset + 4 - INC32[offset]);
  }

  /** The first eight bytes of a match. Returns where to read on, at a distance fit for 8-byte copies. */
  method FirstEight(buf: array<byte>, op: nat, offset: nat) returns (from: nat)
    requires offset <= op && op + 8 <= buf.Length
    modifies buf
    ensures from + WideDistance(offset) == op + 8
    ensures offset >= 1 ==> Repeats(buf[..], op, op + 8, offset)
    ensures forall k :: 0 <= k < op || op + 8 <= k < buf.Length ==> buf[k] == old(buf[k])
  {
    if offset < 8 {
      FirstFour(buf, op, offset);
      from := op - offset + INC32[offset];
      ghost var four := buf[..];
      CopyWithin(buf, op + 4, from, 4);
      if offset >= 1 {
        RepeatsKept(four, buf[..], op, op + 4, offset);
        FourMore(buf[..], op, offset);
      }
      from := from - DEC64[offset];
    } else {
      CopyWithin(buf, op, op - offset, 8);
      from := op - offset + 8;
    }
  }

  /** The first eight bytes and then the rest at the widened distance make up the match. */
  lemma EightThenRest(buf: seq<byte>, op: nat, e: nat, offset: nat)
    requires offset >= 1 && Repeats(buf, op, op + 8, offset)
    requires op + 8 <= e && Repeats(buf, op + 8, e, WideDistance(offset))
    ensures Repeats(buf, op, e, offset)
  {
    var m := WideDistanceIsMultiple(offset);
    RepeatsJoin(buf, op, op + 8, e, offset, m, WideDistance(offset));
  }

  lemma RepeatsKept(was: seq<byte>, now: seq<byte>, from: int, upto: int, distance: int)
    requires Repeats(was, from, upto, distance)
    requires |now| == |was| && forall k :: 0 <= k < upto ==> now[k] == was[k]
    ensures Repeats(now, from, upto, distance)
  {
  }

  /** A word of eight bytes that repeats at 1, 2 or 4. */
  ghost predicate IsPattern(v: seq<byte>, offset: nat) {
    && |v| == 8 && offset in {1, 2, 4}
    && forall k :: 0 <= k < 8 ==> v[k] == v[k % offset]
  }

  lemma ModShift(a: nat, b: nat)
    requires a % 8 == 0 && b < 8
    ensures (a + b) % 8 == b
  {
  }

  /** Fills `buf` from `op` to at least `e` with copies of one 8-byte word. */
  method FillWords(buf: array<byte>, op: nat, e: nat, v: seq<byte>)
    requires |v| == 8 && Max(op + 8, e + 7) <= buf.Length
    modifies buf
    ensures forall k :: op <= k < Max(op + 8, e) ==> buf[k] == v[(k - op) % 8]
    ensures forall k :: 0 <= k < op || Max(op + 8, e + 7) <= k < buf.Length ==> buf[k] == old(buf[k])
  {
    CopyFrom(buf, op, v, 0, 8);
    var x := op + 8;
    while x < e
      invariant op + 8 <= x <= Max(op + 8, e + 7)
      invariant (x - op) % 8 == 0
      invariant forall k :: op <= k < x ==> buf[k] == v[(k - op) % 8]
      invariant forall k :: 0 <= k < op || x <= k < buf.Length ==> buf[k] == old(buf[k])
    {
      CopyFrom(buf, x, v, 0, 8);
      forall k | x <= k < x + 8
        ensures buf[k] == v[(k - op) % 8]
      {
        ModShift(x - op, k - x);
      }
      x := x + 8;
    }
  }

  /** Words whose pattern is the bytes just before them repeat at the pattern length. */
  lemma WordsRepeat(was: seq<byte>, now: seq<byte>, op: nat, e: nat, offset: nat, v: seq<byte>)
    requires IsPattern(v, offset) && offset <= op <= e <= |now| == |was|
    requires forall k :: 0 <= k < op ==> now[k] == was[k]
    requires forall k :: 0 <= k < offset ==> v[k] == was[op - offset + k]
    requires forall k :: op <= k < e ==> now[k] == v[(k - op) % 8]
    ensures Repeats(now, op, e, offset)
  {
    forall k | op <= k < e
      ensures now[k] == now[k - offset]
    {
      if k - offset < op {
        assert (k - op) % 8 == k - op;
        assert now[k] == v[k - op];
      } else {
        assert v[(k - op) % 8] == v[((k - op) % 8) % offset];
        assert v[(k - offset - op) % 8] == v[((k - offset - op) % 8) % offset];
        assert ((k - op) % 8) % offset == ((k - offset - op) % 8) % offset;
      }
    }
  }

  /** LZ4_memcpy_using_offset: a match whose distance is below 16, with room to over-copy. */
  method CopyUsingOffset(buf: array<byte>, op: nat, offset: nat, cpy: nat)
    requires offset <= op && op + MIN_MATCH <= cpy && cpy + 12 <= buf.Length
    modifies buf
    ensures offset >= 1 ==> Repeats(buf[..], op, cpy, offset)
    ensures forall k :: 0 <= k < op || cpy + 12 <= k < buf.Length ==> buf[k] == old(buf[k])
  {
    if offset == 1 || offset == 2 || offset == 4 {
      ghost var was := buf[..];
      Clear4(buf, op);
      var v := PatternOf(buf, op, offset);
      FillWords(buf, op, cpy, v);
      WordsRepeat(was, buf[..], op, cpy, offset, v);
    } else {
      var from := FirstEight(buf, op, offset);
      ghost var eight := buf[..];
      WildCopy8Within(buf, op + 8, from, cpy);
      if offset >= 1 {
        RepeatsKept(eight, buf[..], op, op + 8, offset);
        EightThenRest(buf[..], op, Max(op + 16, cpy), offset);
      }
    }
  }

  /** The 8-byte pattern made of the 1, 2 or 4 bytes before `op`. */
  method PatternOf(buf: array<byte>, op: nat, offset: nat) returns (v: seq<byte>)
    requires offset in {1, 2, 4} && offset <= op <= buf.Length
    ensures IsPattern(v, offset)
    ensures forall k :: 0 <= k < offset ==> v[k] == buf[op - offset + k]
  {
    if offset == 1 {
      var b := buf[op - 1];
      v := [b, b, b, b, b, b, b, b];
    } else if offset == 2 {
      var a, b := buf[op - 2], buf[op - 1];
      v := [a, b, a, b, a, b, a, b];
    } else {
      var a, b, c, d := buf[op - 4], buf[op - 3], buf[op - 2], buf[op - 1];
      v := [a, b, c, d, a, b, c, d];
    }
  }
}
