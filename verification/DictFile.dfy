/**
  LZ4IO_createDict (lz4io.c): a file of any length is read through a ring buffer
  of 64 KB, and what is left in the buffer is put in order.
*/
module DictFile {
  import opened BlockFormat
  import opened FrameHistory
  import opened SparseFile
  import opened Sizes

  /** The buffer holds the last bytes of the `n` first ones of `data`, each where its position falls. */
  ghost predicate Ring(buf: seq<byte>, data: seq<byte>, n: nat)
    requires |buf| == WINDOW && n <= |data|
  {
    forall k :: 0 <= k < n && n - WINDOW <= k ==> buf[k % WINDOW] == data[k]
  }

  lemma InStep(n: nat, i: nat)
    requires n % WINDOW + i < WINDOW
    ensures (n + i) % WINDOW == n % WINDOW + i
  {
  }

  /** fread into the ring: from dictEnd on, at most up to the end of the buffer. */
  method ReadChunk(circularBuf: array<byte>, dictFile: Source, dictEnd: nat, ghost start: nat, ghost n: nat) returns (readSize: nat)
    requires circularBuf.Length == WINDOW && start <= dictFile.pos <= |dictFile.bytes| && n == dictFile.pos - start
    requires dictEnd == n % WINDOW && Ring(circularBuf[..], dictFile.bytes[start..], n)
    modifies circularBuf, dictFile
    ensures dictFile.pos == old(dictFile.pos) + readSize <= |dictFile.bytes| && readSize <= WINDOW - dictEnd
    ensures readSize == 0 ==> dictFile.pos == |dictFile.bytes|
    ensures Ring(circularBuf[..], dictFile.bytes[start..], n + readSize)
  {
    ghost var data := dictFile.bytes[start..];
    var got := dictFile.Read(WINDOW - dictEnd);
    readSize := |got|;
    forall i | 0 <= i < readSize { circularBuf[dictEnd + i] := got[i]; }
    forall k | 0 <= k < n + readSize && n + readSize - WINDOW <= k ensures circularBuf[..][k % WINDOW] == data[k] {
      if k >= n {
        InStep(n, k - n);
        assert got[k - n] == data[k];
      } else {
        NotOverwritten(k, n, readSize);
        assert old(circularBuf[..])[k % WINDOW] == data[k];
      }
    }
  }

  /** A byte that is still among the last 64 KB is not where new ones go. */
  lemma NotOverwritten(k: nat, n: nat, size: nat)
    requires k < n && n + size - WINDOW <= k && n % WINDOW + size <= WINDOW
    ensures !(n % WINDOW <= k % WINDOW < n % WINDOW + size)
  {
  }

  /** The dictionary is the last 64 KB of the file, or all of it, whether or not seeking in it works. */
  method CreateDict(file: seq<byte>, seekable: bool) returns (dict: seq<byte>)
    ensures dict == Recent(file)
  {
    var circularBuf := new byte[WINDOW];
    var dictFile := new Source(file);
    if seekable && |file| >= WINDOW { dictFile.pos := |file| - WINDOW; }
    ghost var start := dictFile.pos;
    ghost var data := file[start..];
    var dictEnd, dictLen, readSize: nat := 0, 0, 1;
    while readSize > 0
      invariant start <= dictFile.pos <= |file| && dictLen == dictFile.pos - start && dictEnd == dictLen % WINDOW
      invariant Ring(circularBuf[..], data, dictLen) && dictFile.bytes == file
      invariant readSize == 0 ==> dictFile.pos == |file|
      decreases |file| - dictFile.pos, readSize
    {
      readSize := ReadChunk(circularBuf, dictFile, dictEnd, start, dictLen);
      dictEnd := (dictEnd + readSize) % WINDOW;
      dictLen := dictLen + readSize;
    }
    ghost var n := dictLen;
    if dictLen > WINDOW { dictLen := WINDOW; }
    var dictStart := (WINDOW + dictEnd - dictLen) % WINDOW;
    InOrder(circularBuf[..], data, dictStart, dictLen);
    if dictStart == 0 {
      dict := circularBuf[..dictLen];
    } else {
      dict := circularBuf[dictStart..] + circularBuf[..dictLen - (WINDOW - dictStart)];
    }
    assert dict == Unroll(circularBuf[..], dictStart, dictLen);
    RecentOfEnd(file, data);
  }

  function Unroll(buf: seq<byte>, dictStart: nat, dictLen: nat): (r: seq<byte>)
    requires |buf| == WINDOW && dictLen <= WINDOW && dictStart < WINDOW && (dictStart > 0 ==> dictLen == WINDOW)
    ensures |r| == dictLen
  {
    if dictStart == 0 then buf[..dictLen] else buf[dictStart..] + buf[..dictLen - (WINDOW - dictStart)]
  }

  lemma UnrolledByte(buf: seq<byte>, dictStart: nat, dictLen: nat, i: nat)
    requires |buf| == WINDOW && i < dictLen <= WINDOW && dictStart < WINDOW && (dictStart > 0 ==> dictLen == WINDOW)
    ensures Unroll(buf, dictStart, dictLen)[i] == buf[if dictStart + i < WINDOW then dictStart + i else dictStart + i - WINDOW]
  {
  }

  lemma InOrder(buf: seq<byte>, data: seq<byte>, dictStart: nat, dictLen: nat)
    requires |buf| == WINDOW && Ring(buf, data, |data|) && dictLen == Min(|data|, WINDOW)
    requires dictStart == (WINDOW + |data| % WINDOW - dictLen) % WINDOW
    ensures (dictStart > 0 ==> dictLen == WINDOW) && Unroll(buf, dictStart, dictLen) == Recent(data)
  {
    hide Unroll;
    Unwound(|data|, dictLen, dictStart, 0);
    var first := |data| - dictLen;
    assert Recent(data) == data[first..];
    forall i | 0 <= i < dictLen ensures Unroll(buf, dictStart, dictLen)[i] == data[first..][i] {
      Unwound(|data|, dictLen, dictStart, i);
      UnrolledByte(buf, dictStart, dictLen, i);
      assert buf[(first + i) % WINDOW] == data[first + i];
    }
  }

  /** Where the i-th byte of the dictionary is in the ring. */
  lemma Unwound(n: nat, dictLen: nat, dictStart: nat, i: nat)
    requires dictLen == Min(n, WINDOW) && i <= dictLen && dictStart == (WINDOW + n % WINDOW - dictLen) % WINDOW
    ensures dictStart > 0 ==> dictLen == WINDOW
    ensures dictLen == 0 ==> dictStart == 0
    ensures i < dictLen ==> (n - dictLen + i) % WINDOW == if dictStart + i < WINDOW then dictStart + i else dictStart + i - WINDOW
  {
  }
}
