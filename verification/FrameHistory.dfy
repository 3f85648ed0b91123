/**
  Where the frame decoder (lz4frame.c) keeps the history that linked blocks
  refer to: in the caller's buffer as long as possible, otherwise in its own
  buffer tmpOutBuffer, next to the decoded bytes that still wait to be flushed.
*/
module FrameHistory {
  import opened BlockFormat
  import opened Sizes

  /** 64 KB. */
  const WINDOW := 0x1_0000

  /** The part of a history that later blocks can refer to. */
  function Recent(s: seq<byte>): (r: seq<byte>)
    ensures |r| == Min(|s|, WINDOW)
  {
    if |s| <= WINDOW then s else s[|s| - WINDOW..]
  }

  lemma RecentJoin(a: seq<byte>, b: seq<byte>, x: seq<byte>)
    requires Recent(a) == Recent(b)
    ensures Recent(a + x) == Recent(b + x)
  {
    RecentOfJoin(a, x);
    RecentOfJoin(b, x);
  }

  lemma RecentOfJoin(a: seq<byte>, x: seq<byte>)
    ensures Recent(a + x) == Recent(Recent(a) + x)
  {
    if |a| > WINDOW {
      assert a + x == a[..|a| - WINDOW] + (Recent(a) + x);
    }
  }

  predicate EndsWith(s: seq<byte>, x: seq<byte>) {
    |x| <= |s| && s[|s| - |x|..] == x
  }

  /** A long enough end of a history is as good as the history. */
  lemma RecentOfEnd(s: seq<byte>, x: seq<byte>)
    requires EndsWith(s, x) && (|x| >= WINDOW || |x| == |s|)
    ensures Recent(s) == Recent(x)
  {
    if |x| >= WINDOW {
      assert s[|s| - WINDOW..] == x[|x| - WINDOW..];
    } else {
      assert s == x;
    }
  }

  /** The last `n` bytes of two histories with the same recent part. */
  lemma RecentEnd(a: seq<byte>, b: seq<byte>, n: nat)
    requires Recent(a) == Recent(b) && n <= WINDOW && n <= |b|
    ensures n <= |a| && a[|a| - n..] == b[|b| - n..]
  {
    assert a[|a| - n..] == Recent(a)[|Recent(a)| - n..];
    assert b[|b| - n..] == Recent(b)[|Recent(b)| - n..];
  }

  lemma KeptEnough(all: seq<byte>, cut: nat, added: seq<byte>)
    requires cut <= |all| && (cut == 0 || |all| - cut + |added| >= WINDOW)
    ensures Recent(all[cut..] + added) == Recent(all + added)
  {
    assert (all + added)[cut..] == all[cut..] + added;
    if cut == 0 {
      assert all[0..] == all;
    } else {
      RecentOfEnd(all + added, all[cut..] + added);
    }
  }

  /** memcpy inside one buffer, where source and destination must not overlap. */
  method MemcpyWithin(a: array<byte>, at: nat, from: nat, n: nat)
    requires at + n <= a.Length && from + n <= a.Length && (at + n <= from || from + n <= at || n == 0)
    modifies a
    ensures a[at..at + n] == old(a[from..from + n])
    ensures forall k :: 0 <= k < at || at + n <= k < a.Length ==> a[k] == old(a[k])
  {
    forall i | 0 <= i < n {
      a[at + i] := a[from + i];
    }
    assert a[at..at + n] == old(a[from..from + n]);
  }

  /** memcpy between two buffers. */
  method Memcpy(a: array<byte>, at: nat, b: array<byte>, from: nat, n: nat)
    requires at + n <= a.Length && from + n <= b.Length && a != b
    modifies a
    ensures a[at..at + n] == b[from..from + n]
    ensures forall k :: 0 <= k < at || at + n <= k < a.Length ==> a[k] == old(a[k])
  {
    forall i | 0 <= i < n {
      a[at + i] := b[from + i];
    }
    assert a[at..at + n] == b[from..from + n];
  }

  /** How much history must stand before `size` bytes, of the `room` bytes there, for what follows them. */
  function CopySize(size: nat, room: nat): (n: nat)
    ensures n <= room && (n > 0 ==> size + n <= WINDOW)
  {
    Min(if size > WINDOW then 0 else WINDOW - size, room)
  }

  lemma CopyFits(size: nat, room: nat, before: nat)
    requires Min(room, WINDOW) == Min(before, WINDOW)
    ensures CopySize(size, room) <= before
  {
  }

  lemma JoinedEnd(a: seq<byte>, i: nat, b: seq<byte>, j: nat, n: nat)
    requires n <= i <= |a| && n <= j <= |b| && a[i - n..i] == b[j - n..j] && a[i..] == b[j..]
    ensures EndsWith(a, b[j - n..])
  {
    assert a[i - n..] == a[i - n..i] + a[i..];
    assert b[j - n..] == b[j - n..j] + b[j..];
  }

  /** The buffer up to the end of the block is as good as the content, once enough history is before the block. */
  lemma HistoryBrought(buf: seq<byte>, at: nat, content: seq<byte>, size: nat)
    requires |buf| == at + size && size <= |content| && Min(at, WINDOW) == Min(|content| - size, WINDOW)
    requires buf[at..] == content[|content| - size..]
    requires var n := CopySize(size, at);
      n <= |content| - size && buf[at - n..at] == content[|content| - size - n..|content| - size]
    ensures Recent(buf) == Recent(content)
  {
    hide Recent;
    var n := CopySize(size, at);
    var x := content[|content| - size - n..];
    assert |x| >= WINDOW || |x| == |content| == |buf|;
    JoinedEnd(buf, at, content, |content| - size, n);
    RecentOfEnd(buf, x);
    RecentOfEnd(content, x);
  }

  /** The same after copying `n` bytes of history into a buffer that holds the block. */
  lemma BlockKept(was: seq<byte>, now: seq<byte>, at: nat, size: nat, content: seq<byte>, n: nat)
    requires at + size <= |was| == |now| && size <= |content| && n == CopySize(size, at) <= |content| - size
    requires Min(at, WINDOW) == Min(|content| - size, WINDOW)
    requires was[at..at + size] == content[|content| - size..]
    requires now[at - n..at] == content[|content| - size - n..|content| - size]
    requires forall k :: 0 <= k < at - n || at <= k < |now| ==> now[k] == was[k]
    ensures Recent(now[..at + size]) == Recent(content) && now[at..at + size] == content[|content| - size..]
  {
    hide Recent;
    assert now[at..at + size] == was[at..at + size];
    assert now[..at + size][at..] == now[at..at + size];
    assert now[..at + size][at - n..at] == now[at - n..at];
    HistoryBrought(now[..at + size], at, content, size);
  }

  /** The bytes of the block from `start` on are the next ones of the content. */
  lemma FlushedBytes(buffer: seq<byte>, at: nat, size: nat, content: seq<byte>, start: nat, n: nat)
    requires start + n <= size <= |content| && at + size <= |buffer| && buffer[at..at + size] == content[|content| - size..]
    ensures content[..|content| - size + start] + buffer[at + start..at + start + n] ==
            content[..|content| - size + start + n]
  {
    var from := |content| - size + start;
    SubSlice(buffer, at, at + size, start, start + n);
    assert content[|content| - size..] == content[|content| - size..|content|];
    SubSlice(content, |content| - size, |content|, start, start + n);
    assert content[..from] + content[from..from + n] == content[..from + n];
  }

  lemma SubSlice(s: seq<byte>, a: nat, b: nat, i: nat, j: nat)
    requires a <= b <= |s| && i <= j <= b - a
    ensures s[a..b][i..j] == s[a + i..a + j]
  {
    forall k | 0 <= k < j - i ensures s[a..b][i..j][k] == s[a + i..a + j][k] {
      assert s[a..b][i + k] == s[a + i + k];
    }
  }

  lemma SliceGrows(s: seq<byte>, a: nat, b: nat, c: nat)
    requires a <= b <= c <= |s|
    ensures s[a..b] + s[b..c] == s[a..c]
  {
  }

  /** Which bytes lie `n` before the block, as the dictionary has them once `start` bytes are flushed. */
  lemma BytesBefore(dict: seq<byte>, content: seq<byte>, size: nat, start: nat, n: nat)
    requires start <= size <= |content| && n <= |content| - size && (n == 0 || start + n <= WINDOW)
    requires Recent(dict) == Recent(content[..|content| - size + start])
    ensures n > 0 ==> start + n <= |dict|
    ensures n > 0 ==> dict[|dict| - start - n..|dict| - start] == content[|content| - size - n..|content| - size]
  {
    if n > 0 {
      var e := content[..|content| - size + start];
      RecentEnd(dict, e, start + n);
      var d, f := dict[|dict| - start - n..], e[|e| - start - n..];
      assert d[0..n] == f[0..n];
      assert d == dict[|dict| - start - n..|dict|] && f == e[|e| - start - n..|e|] && e == content[0..|e|];
      SubSlice(dict, |dict| - start - n, |dict|, 0, n);
      SubSlice(e, |e| - start - n, |e|, 0, n);
      SubSlice(content, 0, |e|, |e| - start - n, |e| - start);
    }
  }

  datatype Place = Nowhere | InTmp | InDst(at: nat)

  /** The fields of the decompression context that hold the history and the output not yet flushed. */
  class Window {
    var tmpOutBuffer: array<byte>
    var tmpOut: nat
    var tmpOutSize: nat
    var tmpOutStart: nat
    var dict: Place
    var dictSize: nat

    constructor ()
      ensures dict == Nowhere && dictSize == 0 && fresh(tmpOutBuffer) && tmpOutBuffer.Length == 0
    {
      tmpOutBuffer := new byte[0];
      tmpOut, tmpOutSize, tmpOutStart, dict, dictSize := 0, 0, 0, Nowhere, 0;
    }

    function Buffer(): (s: seq<byte>)
      reads this`tmpOutBuffer, tmpOutBuffer
      ensures |s| == tmpOutBuffer.Length
    {
      tmpOutBuffer[..]
    }

    predicate InRange(dst: array<byte>)
      reads this`tmpOutBuffer, this`dict, this`dictSize
    {
      && tmpOutBuffer != dst
      && match dict
         case Nowhere => dictSize == 0
         case InTmp => dictSize <= tmpOutBuffer.Length
         case InDst(at) => at + dictSize <= dst.Length
    }

    /** The bytes between dict and dict + dictSize. */
    function DictBytes(dst: array<byte>): (s: seq<byte>)
      requires InRange(dst)
      reads this`tmpOutBuffer, this`dict, this`dictSize, tmpOutBuffer, dst
      ensures |s| == dictSize
    {
      match dict
      case Nowhere => []
      case InTmp => Buffer()[..dictSize]
      case InDst(at) => dst[at..at + dictSize]
    }

    /** Writing between `from` and `upto` does not touch the dictionary. */
    predicate Clear(from: nat, upto: nat)
      reads this`dict, this`dictSize
    {
      dict.InDst? ==> dict.at + dictSize <= from || upto <= dict.at
    }

    /** `bytes` are written to the caller's buffer; the writer may use the room up to `at + room`. */
    method Put(dst: array<byte>, at: nat, room: nat, bytes: seq<byte>)
      requires InRange(dst) && |bytes| <= room && at + room <= dst.Length && Clear(at, at + room)
      modifies dst
      ensures InRange(dst) && DictBytes(dst) == old(DictBytes(dst)) && Buffer() == old(Buffer())
      ensures dst[at..at + |bytes|] == bytes
      ensures forall k :: 0 <= k < at || at + room <= k < dst.Length ==> dst[k] == old(dst[k])
    {
      forall i | 0 <= i < |bytes| { dst[at + i] := bytes[i]; }
      assert dst[at..at + |bytes|] == bytes;
    }

    /** Between blocks: the dictionary is as good as everything decoded so far. */
    ghost predicate Holds(dst: array<byte>, content: seq<byte>)
      reads this`tmpOutBuffer, this`dict, this`dictSize, tmpOutBuffer, dst
    {
      InRange(dst) && Recent(DictBytes(dst)) == Recent(content)
    }

    /**
      While a block decoded into tmpOut is being flushed: `content` ends with it,
      and `start` bytes of it have been flushed. The dictionary covers what has
      been flushed; or it is the buffer itself, where the rest already follows.
    */
    ghost predicate Flushing(dst: array<byte>, content: seq<byte>, start: nat)
      reads this`tmpOutBuffer, this`tmpOut, this`tmpOutSize, this`dict, this`dictSize, tmpOutBuffer, dst
    {
      InRange(dst) && BlockIn(content, start) && Covered(dst, content, start)
    }

    /** The block that `content` ends with stands in the buffer, behind as much history as there is of use. */
    ghost predicate BlockIn(content: seq<byte>, start: nat)
      reads this`tmpOutBuffer, this`tmpOut, this`tmpOutSize, tmpOutBuffer
    {
      Due(content, start) && Min(tmpOut, WINDOW) == Min(|content| - tmpOutSize, WINDOW)
    }

    ghost predicate Due(content: seq<byte>, start: nat)
      reads this`tmpOutBuffer, this`tmpOut, this`tmpOutSize, tmpOutBuffer
    {
      && start <= tmpOutSize <= |content| && tmpOut + tmpOutSize <= tmpOutBuffer.Length
      && Buffer()[tmpOut..tmpOut + tmpOutSize] == content[|content| - tmpOutSize..]
    }

    ghost predicate Covered(dst: array<byte>, content: seq<byte>, start: nat)
      requires InRange(dst) && BlockIn(content, start)
      reads this`tmpOutBuffer, this`tmpOut, this`tmpOutSize, this`dict, this`dictSize, tmpOutBuffer, dst
    {
      if dict == InTmp
      then dictSize == tmpOut + start && Recent(Buffer()[..tmpOut + tmpOutSize]) == Recent(content)
      else Recent(DictBytes(dst)) == Recent(content[..|content| - tmpOutSize + start])
    }

    /** The next `n` bytes of the block go to the caller's buffer. */
    method PutDue(dst: array<byte>, at: nat, n: nat, ghost content: seq<byte>)
      requires InRange(dst) && Due(content, tmpOutStart) && tmpOutStart + n <= tmpOutSize
      requires at + n <= dst.Length && Clear(at, at + n)
      modifies dst
      ensures InRange(dst) && DictBytes(dst) == old(DictBytes(dst)) && Buffer() == old(Buffer())
      ensures old(Flushing(dst, content, tmpOutStart)) ==> Flushing(dst, content, tmpOutStart)
      ensures dst[at..at + n] == Buffer()[tmpOut + tmpOutStart..tmpOut + tmpOutStart + n]
      ensures forall k :: 0 <= k < at || at + n <= k < dst.Length ==> dst[k] == old(dst[k])
    {
      hide DictBytes, Recent, Min;
      Put(dst, at, n, tmpOutBuffer[tmpOut + tmpOutStart..tmpOut + tmpOutStart + n]);
    }

    /** When everything is flushed, the dictionary again is as good as all that was decoded. */
    lemma Flushed(dst: array<byte>, content: seq<byte>)
      requires Flushing(dst, content, tmpOutSize)
      ensures Holds(dst, content)
    {
      assert content[..|content| - tmpOutSize + tmpOutSize] == content;
    }

    lemma PartOfDict(dst: array<byte>, from: nat, n: nat)
      requires InRange(dst) && dict != InTmp && from + n <= dictSize && dictSize > 0
      ensures dict.InDst? && |DictBytes(dst)| == dictSize
      ensures DictBytes(dst)[from..from + n] == dst[dict.at + from..dict.at + from + n]
    {
    }

    /** Copies the `n` bytes before the last `start` ones of the dictionary to where tmpOut begins. */
    method CopyBefore(dst: array<byte>, start: nat, n: nat)
      requires InRange(dst) && dict != InTmp && n <= tmpOut <= tmpOutBuffer.Length && (n > 0 ==> start + n <= dictSize)
      modifies tmpOutBuffer
      ensures n > 0 ==> start + n <= |old(DictBytes(dst))|
      ensures Buffer()[tmpOut - n..tmpOut] ==
        if n == 0 then [] else old(DictBytes(dst))[dictSize - start - n..dictSize - start]
      ensures forall k :: 0 <= k < tmpOut - n || tmpOut <= k < |Buffer()| ==> Buffer()[k] == old(Buffer()[k])
    {
      if n > 0 {
        var from := dictSize - start - n;
        PartOfDict(dst, from, n);
        hide DictBytes;
        Memcpy(tmpOutBuffer, tmpOut - n, dst, dict.at + from, n);
        assert Buffer()[tmpOut - n..tmpOut] == tmpOutBuffer[tmpOut - n..tmpOut];
      }
    }

    /** Copies the history in front of tmpOut, as far as later blocks can refer to it. */
    method CopyHistory(dst: array<byte>, ghost content: seq<byte>)
      requires Flushing(dst, content, tmpOutStart) && dict != InTmp
      modifies tmpOutBuffer
      ensures Recent(Buffer()[..tmpOut + tmpOutSize]) == Recent(content)
      ensures Buffer()[tmpOut..tmpOut + tmpOutSize] == content[|content| - tmpOutSize..]
    {
      hide Recent, DictBytes, CopySize, Min, EndsWith, Buffer, InRange;
      var copySize := CopySize(tmpOutSize, tmpOut);
      CopyFits(tmpOutSize, tmpOut, |content| - tmpOutSize);
      ghost var was := Buffer();
      BytesBefore(DictBytes(dst), content, tmpOutSize, tmpOutStart, copySize);
      CopyBefore(dst, tmpOutStart, copySize);
      BlockKept(was, Buffer(), tmpOut, tmpOutSize, content, copySize);
    }

    /** From then on the buffer itself is the dictionary. */
    method BringHistory(dst: array<byte>, flushed: nat, ghost content: seq<byte>)
      requires Flushing(dst, content, tmpOutStart) && dict != InTmp
      requires tmpOutStart <= flushed <= tmpOutSize
      modifies this`dict, this`dictSize, tmpOutBuffer
      ensures dict == InTmp && Flushing(dst, content, flushed)
    {
      hide Recent, DictBytes, Min, Buffer;
      CopyHistory(dst, content);
      ghost var buffer := Buffer();
      dict := InTmp;
      dictSize := tmpOut + flushed;
      assert Buffer() == buffer;
    }

    /** What stands in the caller's buffer since the call began has been decoded for this frame. */
    ghost predicate InView(dst: array<byte>, from: nat, upto: nat, content: seq<byte>)
      reads dst
    {
      from <= upto <= dst.Length && EndsWith(content, dst[from..upto])
    }

    /** The first two cases of LZ4F_updateDict: the dictionary lies, or comes to lie, in the caller's buffer. */
    method StayInDst(dst: array<byte>, dstPtr: nat, dstSize: nat, dstStart: nat, ghost e: seq<byte>) returns (done: bool)
      requires InRange(dst) && ((dict == InTmp && dictSize > 0) || Recent(DictBytes(dst)) == Recent(e))
      requires dstStart <= dstPtr <= dstPtr + dstSize <= dst.Length
      requires InView(dst, dstStart, dstPtr + dstSize, e + dst[dstPtr..dstPtr + dstSize])
      modifies this`dict, this`dictSize
      ensures InRange(dst) && (!done ==> dict == old(dict))
      ensures !done ==> dictSize == old(dictSize) > 0 && dstPtr - dstStart + dstSize < WINDOW
      ensures done ==> dict.InDst? && Holds(dst, e + dst[dstPtr..dstPtr + dstSize])
      ensures done ==> dict.at + dictSize == dstPtr + dstSize
    {
      hide Recent, DictBytes;
      ghost var added := dst[dstPtr..dstPtr + dstSize];
      if Recent(DictBytes(dst)) == Recent(e) { RecentJoin(DictBytes(dst), e, added); }
      if dictSize == 0 {
        EmptyDict(dst);
        dict := InDst(dstPtr);
        EmptyDict(dst);
      }
      if dict.InDst? && dict.at + dictSize == dstPtr {
        ExtendInDst(dst, dstSize);
        return true;
      }
      if dstPtr - dstStart + dstSize >= WINDOW {
        dict, dictSize := InDst(dstStart), dstPtr - dstStart + dstSize;
        DictIn(dst);
        RecentOfEnd(e + added, dst[dstStart..dstPtr + dstSize]);
        return true;
      }
      return false;
    }

    lemma EmptyDict(dst: array<byte>)
      requires InRange(dst) && dictSize == 0
      ensures DictBytes(dst) == []
    {
    }

    lemma DictIn(dst: array<byte>)
      requires InRange(dst) && dict.InDst?
      ensures DictBytes(dst) == dst[dict.at..dict.at + dictSize]
    {
    }

    method ExtendInDst(dst: array<byte>, dstSize: nat)
      requires InRange(dst) && dict.InDst? && dict.at + dictSize + dstSize <= dst.Length
      modifies this`dictSize
      ensures InRange(dst) && dictSize == old(dictSize) + dstSize
      ensures DictBytes(dst) == old(DictBytes(dst)) + dst[dict.at + old(dictSize)..dict.at + old(dictSize) + dstSize]
    {
      SliceGrows(dst[..], dict.at, dict.at + dictSize, dict.at + dictSize + dstSize);
      ghost var d := DictBytes(dst);
      dictSize := dictSize + dstSize;
      assert d == dst[..][dict.at..dict.at + dictSize - dstSize];
    }

    /** The last two cases of LZ4F_updateDict: the new bytes are copied behind the dictionary, into the buffer. */
    method AppendToTmp(dst: array<byte>, dstPtr: nat, dstSize: nat, ghost e: seq<byte>)
      requires Holds(dst, e) && dictSize > 0 && dstSize < WINDOW && dstPtr + dstSize <= dst.Length
      requires tmpOutBuffer.Length >= 3 * WINDOW
      modifies this`dict, this`dictSize, tmpOutBuffer
      ensures dict == InTmp && Holds(dst, e + dst[dstPtr..dstPtr + dstSize])
    {
      hide Recent, Min;
      ghost var all, added := DictBytes(dst), dst[dstPtr..dstPtr + dstSize];
      if dict == InTmp {
        if dictSize + dstSize > tmpOutBuffer.Length {
          KeepLast(dst, WINDOW - dstSize);
        }
      } else {
        KeepLast(dst, if WINDOW - dstSize > dictSize then dictSize else WINDOW - dstSize);
      }
      ghost var kept := DictBytes(dst);
      assert kept == all[|all| - |kept|..];
      Extend(dst, dstPtr, dstSize);
      KeptEnough(all, |all| - |kept|, added);
      RecentJoin(all, e, added);
    }

    lemma DictEnd(dst: array<byte>, from: nat)
      requires InRange(dst) && from <= dictSize
      ensures DictBytes(dst)[from..] ==
        match dict
        case Nowhere => []
        case InTmp => tmpOutBuffer[from..dictSize]
        case InDst(at) => dst[at + from..at + dictSize]
    {
    }

    /** Copies the last `n` bytes of the dictionary to the start of the buffer. */
    method KeepLast(dst: array<byte>, n: nat)
      requires InRange(dst) && n <= dictSize && n <= tmpOutBuffer.Length && (dict == InTmp ==> 2 * n <= dictSize)
      modifies this`dict, this`dictSize, tmpOutBuffer
      ensures InRange(dst) && dict == InTmp && dictSize == n
      ensures DictBytes(dst) == old(DictBytes(dst))[old(dictSize) - n..]
    {
      ghost var from := dictSize - n;
      DictEnd(dst, from);
      if dict == InTmp {
        MemcpyWithin(tmpOutBuffer, 0, dictSize - n, n);
      } else if dict.InDst? {
        Memcpy(tmpOutBuffer, 0, dst, dict.at + dictSize - n, n);
      }
      dict, dictSize := InTmp, n;
      assert Buffer()[..n] == tmpOutBuffer[0..n];
    }

    /** Copies new bytes behind the dictionary. */
    method Extend(dst: array<byte>, dstPtr: nat, dstSize: nat)
      requires InRange(dst) && dict == InTmp && dictSize + dstSize <= tmpOutBuffer.Length && dstPtr + dstSize <= dst.Length
      modifies this`dictSize, tmpOutBuffer
      ensures InRange(dst) && dictSize == old(dictSize) + dstSize
      ensures DictBytes(dst) == old(DictBytes(dst)) + dst[dstPtr..dstPtr + dstSize]
    {
      ghost var kept := DictBytes(dst);
      Memcpy(tmpOutBuffer, dictSize, dst, dstPtr, dstSize);
      dictSize := dictSize + dstSize;
      assert DictBytes(dst) == kept + dst[dstPtr..dstPtr + dstSize];
    }

    /** LZ4F_updateDict for bytes that were decoded or copied directly into the caller's buffer. */
    method UpdateDirect(dst: array<byte>, dstPtr: nat, dstSize: nat, dstStart: nat, ghost e: seq<byte>)
      requires Holds(dst, e) && tmpOutBuffer.Length >= 3 * WINDOW
      requires dstStart <= dstPtr <= dstPtr + dstSize <= dst.Length
      requires InView(dst, dstStart, dstPtr + dstSize, e + dst[dstPtr..dstPtr + dstSize])
      modifies this`dict, this`dictSize, tmpOutBuffer
      ensures Holds(dst, e + dst[dstPtr..dstPtr + dstSize])
      ensures dict.InDst? ==> dict.at + dictSize == dstPtr + dstSize
    {
      hide Recent, InView, DictBytes;
      var done := StayInDst(dst, dstPtr, dstSize, dstStart, e);
      if done { return; }
      AppendToTmp(dst, dstPtr, dstSize, e);
    }

    /** LZ4F_updateDict for bytes of the block in tmpOut that were just flushed to the caller's buffer. */
    method UpdateWithin(dst: array<byte>, dstPtr: nat, dstSize: nat, dstStart: nat, ghost content: seq<byte>)
      requires Flushing(dst, content, tmpOutStart) && tmpOutStart + dstSize <= tmpOutSize
      requires dstStart <= dstPtr <= dstPtr + dstSize <= dst.Length
      requires dst[dstPtr..dstPtr + dstSize] == Buffer()[tmpOut + tmpOutStart..tmpOut + tmpOutStart + dstSize]
      requires InView(dst, dstStart, dstPtr + dstSize, content[..|content| - tmpOutSize + tmpOutStart + dstSize])
      modifies this`dict, this`dictSize, tmpOutBuffer
      ensures Flushing(dst, content, tmpOutStart + dstSize)
      ensures dict.InDst? ==> dict.at + dictSize == dstPtr + dstSize
    {
      hide Recent, InView, DictBytes, Buffer, Min;
      ghost var e := content[..|content| - tmpOutSize + tmpOutStart];
      FlushedBytes(Buffer(), tmpOut, tmpOutSize, content, tmpOutStart, dstSize);
      NothingYet(dst, content);
      var done := StayInDst(dst, dstPtr, dstSize, dstStart, e);
      if done { return; }
      if dict == InTmp {
        dictSize := dictSize + dstSize;
      } else {
        BringHistory(dst, tmpOutStart + dstSize, content);
      }
    }

    /** An empty dictionary means that nothing has been decoded. */
    lemma NothingYet(dst: array<byte>, content: seq<byte>)
      requires Flushing(dst, content, tmpOutStart)
      ensures dictSize == 0 ==> Recent(DictBytes(dst)) == Recent(content[..|content| - tmpOutSize + tmpOutStart])
    {
      if dict == InTmp && dictSize == 0 {
        assert content[..|content| - tmpOutSize + tmpOutStart] == [] == DictBytes(dst);
      }
    }

    /** Before a block is decoded into tmpOut: room for it is made after the history. */
    method MakeRoom(dst: array<byte>, ghost content: seq<byte>)
      requires Holds(dst, content) && tmpOutBuffer.Length >= 3 * WINDOW
      modifies this`tmpOut, this`dict, this`dictSize, tmpOutBuffer
      ensures Holds(dst, content) && tmpOut <= 2 * WINDOW && dict == old(dict)
      ensures dict != InTmp ==> dictSize == old(dictSize)
      ensures Min(tmpOut, WINDOW) == Min(|content|, WINDOW) && (dict == InTmp ==> tmpOut == dictSize)
    {
      hide Recent;
      assert |Recent(DictBytes(dst))| == |Recent(content)|;
      if dict == InTmp {
        if dictSize > 2 * WINDOW {
          ghost var all := DictBytes(dst);
          KeepLast(dst, WINDOW);
          RecentOfEnd(all, DictBytes(dst));
        }
        tmpOut := dictSize;
      } else {
        tmpOut := Min(dictSize, WINDOW);
      }
    }

    /** A block is decoded into tmpOut; the decoder may use the room up to `tmpOut + room`. */
    method PutTmp(dst: array<byte>, room: nat, bytes: seq<byte>)
      requires InRange(dst) && |bytes| <= room && tmpOut + room <= tmpOutBuffer.Length && (dict == InTmp ==> tmpOut == dictSize)
      modifies tmpOutBuffer
      ensures InRange(dst) && DictBytes(dst) == old(DictBytes(dst))
      ensures Buffer()[tmpOut..tmpOut + |bytes|] == bytes
    {
      ghost var d := DictBytes(dst);
      forall i | 0 <= i < |bytes| { tmpOutBuffer[tmpOut + i] := bytes[i]; }
      assert Buffer()[tmpOut..tmpOut + |bytes|] == bytes;
      assert DictBytes(dst) == d;
    }

    /** After a block was decoded into tmpOut. */
    lemma FlushBegins(dst: array<byte>, content: seq<byte>, block: seq<byte>)
      requires Holds(dst, content) && tmpOut + tmpOutSize <= tmpOutBuffer.Length && |block| == tmpOutSize
      requires Min(tmpOut, WINDOW) == Min(|content|, WINDOW) && (dict == InTmp ==> tmpOut == dictSize)
      requires Buffer()[tmpOut..tmpOut + tmpOutSize] == block
      ensures Flushing(dst, content + block, 0)
    {
      hide Recent, Min;
      RecentJoin(DictBytes(dst), content, block);
      assert (content + block)[..|content|] == content && (content + block)[|content|..] == block;
      assert Buffer()[..tmpOut + tmpOutSize] == Buffer()[..tmpOut] + block;
    }

    /** At the end of a call, for a caller whose buffer may change: the history moves into the buffer. */
    method Preserve(dst: array<byte>, flushing: bool, ghost content: seq<byte>)
      requires dict != InTmp && tmpOutBuffer.Length >= 3 * WINDOW
      requires if flushing then Flushing(dst, content, tmpOutStart) else Holds(dst, content)
      modifies this`dict, this`dictSize, this`tmpOut, tmpOutBuffer
      ensures dict == InTmp
      ensures if flushing then Flushing(dst, content, tmpOutStart) else Holds(dst, content)
    {
      hide Recent;
      if flushing {
        BringHistory(dst, tmpOutStart, content);
      } else {
        ghost var all := DictBytes(dst);
        KeepLast(dst, Min(dictSize, WINDOW));
        tmpOut := dictSize;
        RecentOfEnd(all, DictBytes(dst));
      }
    }
  }
}
