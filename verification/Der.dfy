/**
  The DER writer and reader of mbedtls (asn1write.c, asn1parse.c). The writer
  works backwards from the end of a buffer, the reader forwards with a cursor.
*/
module Der {
  import opened BlockFormat

  const MAX_LENGTH := 0xFFFF_FFFF
  const INT_MAX := 0x7FFF_FFFF
  const BIT_STRING: byte := 3

  // ---------------------------------------------------------------- numbers

  /** The big-endian digits of a number, at least one. */
  function Digits(n: nat): (s: seq<byte>)
    ensures |s| >= 1 && (n >= 256 ==> s[0] != 0)
  {
    if n < 256 then [n] else Digits(n / 256) + [n % 256]
  }

  function Number(s: seq<byte>): nat {
    if s == [] then 0 else Number(s[..|s| - 1]) * 256 + s[|s| - 1]
  }

  /** Any spelling of a number is its digits after some zeros. */
  lemma {:induction false} Spelling(s: seq<byte>)
    requires s != []
    ensures var d := Digits(Number(s)); |s| >= |d| && s[|s| - |d|..] == d
    ensures forall k :: 0 <= k < |s| - |Digits(Number(s))| ==> s[k] == 0
  {
    var init, last := s[..|s| - 1], s[|s| - 1];
    if init == [] {
      assert Number(init) == 0;
    } else {
      Spelling(init);
      var d := Digits(Number(init));
      if Number(s) < 256 {
        assert Number(init) == 0 && d == [0];
        assert init[|init| - 1..][0] == 0;
        assert s[|s| - 1..] == [last];
      } else {
        assert Digits(Number(s)) == d + [last];
        assert s[|s| - |d| - 1..] == init[|init| - |d|..] + [last];
      }
    }
  }

  lemma {:induction false} DigitsBack(n: nat)
    ensures Number(Digits(n)) == n
  {
    if n < 256 {
      assert Number([]) == 0 && [n as byte][..0] == [];
    } else {
      DigitsBack(n / 256);
      var d := Digits(n / 256);
      assert (d + [n % 256])[..|d|] == d;
    }
  }

  lemma {:induction false} NumberJoin(a: seq<byte>, b: seq<byte>)
    ensures a == [] || a == [0] ==> Number(a + b) == Number(b)
  {
    if a == [] {
      assert a + b == b;
    } else if a == [0] {
      if b == [] {
        assert a + b == [0] && [0][..0] == [];
        assert Number([]) == 0;
      } else {
        NumberJoin(a, b[..|b| - 1]);
        assert (a + b)[..|b|] == a + b[..|b| - 1];
      }
    }
  }

  lemma {:induction false} NumberOfFour(s: seq<byte>)
    ensures |s| == 1 ==> Number(s) == s[0]
    ensures |s| == 2 ==> Number(s) == s[0] as int * 0x100 + s[1]
    ensures |s| == 3 ==> Number(s) == s[0] as int * 0x1_0000 + s[1] as int * 0x100 + s[2]
    ensures |s| == 4 ==> Number(s) == s[0] as int * 0x100_0000 + s[1] as int * 0x1_0000 + s[2] as int * 0x100 + s[3]
  {
    if 1 <= |s| <= 4 {
      NumberOfFour(s[..|s| - 1]);
    }
  }

  /** A number without leading zeros fits an int exactly when it is short enough. */
  lemma {:induction false} FitsInt(s: seq<byte>)
    requires s == [] || s[0] != 0
    ensures Number(s) > INT_MAX <==> |s| > 4 || (|s| == 4 && s[0] >= 0x80)
  {
    NumberOfFour(s);
    if |s| > 4 {
      var init := s[..|s| - 1];
      FitsInt(init);
      NumberOfFour(init);
    }
  }

  // ---------------------------------------------------------------- lengths

  /** The length octets X.690 prescribes (sections 8.1.3 and 10.1): the shortest. */
  function LengthOctets(len: nat): (s: seq<byte>)
    requires len <= MAX_LENGTH
    ensures 1 <= |s| <= 5
  {
    if len < 0x80 then [len] else
      var d := Digits(len);
      FewDigits(len);
      [0x80 + |d|] + d
  }

  lemma FewDigits(n: nat)
    ensures n < 0x100 ==> |Digits(n)| == 1
    ensures 0x100 <= n < 0x1_0000 ==> |Digits(n)| == 2
    ensures 0x1_0000 <= n < 0x100_0000 ==> |Digits(n)| == 3
    ensures 0x100_0000 <= n <= MAX_LENGTH ==> |Digits(n)| == 4
  {
    if 0x100 <= n <= MAX_LENGTH {
      FewDigits(n / 256);
    }
  }

  /** What a reader takes for length octets, shortest or not. */
  predicate IsLength(s: seq<byte>, len: nat) {
    && s != []
    && if s[0] < 0x80 then |s| == 1 && len == s[0]
       else 1 <= s[0] - 0x80 <= 4 && |s| == 1 + (s[0] - 0x80) && len == Number(s[1..])
  }

  lemma LengthIsRead(len: nat)
    requires len <= MAX_LENGTH
    ensures IsLength(LengthOctets(len), len)
  {
    if len >= 0x80 {
      FewDigits(len);
      DigitsBack(len);
      assert LengthOctets(len)[1..] == Digits(len);
    }
  }

  lemma LengthIsBounded(s: seq<byte>, len: nat)
    requires IsLength(s, len)
    ensures len <= MAX_LENGTH
  {
    NumberOfFour(s[1..]);
  }

  /** No spelling of a length is shorter than the one written, and only that one is as short. */
  lemma LengthIsShortest(s: seq<byte>, len: nat)
    requires IsLength(s, len) && len <= MAX_LENGTH
    ensures |s| >= |LengthOctets(len)|
    ensures |s| == |LengthOctets(len)| ==> s == LengthOctets(len)
  {
    if s[0] >= 0x80 {
      Spelling(s[1..]);
      FewDigits(len);
      if |s| == |LengthOctets(len)| && len >= 0x80 {
        assert s[1..][|s| - 1 - |Digits(len)|..] == s[1..];
        assert s == [s[0]] + s[1..];
      }
    }
  }

  /** Where length octets end, and what they say, is settled by the bytes themselves. */
  lemma LengthIsUnique(buf: seq<byte>, p: nat, q1: nat, len1: nat, q2: nat, len2: nat)
    requires p <= q1 <= |buf| && p <= q2 <= |buf|
    requires IsLength(buf[p..q1], len1) && IsLength(buf[p..q2], len2)
    ensures q1 == q2 && len1 == len2
  {
    assert buf[p..q1][0] == buf[p] == buf[p..q2][0];
  }

  // ---------------------------------------------------------------- writing

  datatype Written = Wrote(len: nat) | BufTooSmall | InvalidLength

  /** `bytes` now stand right before `p`, and nothing else changed. */
  predicate Prepended(was: seq<byte>, now: seq<byte>, p: nat, q: nat, bytes: seq<byte>) {
    q + |bytes| == p <= |was| && now == was[..q] + bytes + was[p..]
  }

  predicate OnlyBetween(was: seq<byte>, now: seq<byte>, start: nat, p: nat) {
    && p <= |was| == |now|
    && if p < start then now == was else now[..start] == was[..start] && now[p..] == was[p..]
  }

  /**
    The whole contract of a writer: it succeeds exactly when there is room for
    `bytes`, has then put them right before `p`, and never writes elsewhere.
  */
  predicate Writes(was: seq<byte>, now: seq<byte>, start: nat, p: nat, bytes: seq<byte>, ret: Written, q: nat) {
    && (p - start >= |bytes| <==> ret.Wrote?)
    && (ret.Wrote? ==> ret.len == |bytes| && Prepended(was, now, p, q, bytes))
    && OnlyBetween(was, now, start, p)
  }

  lemma WritesOnlyBetween(was: seq<byte>, now: seq<byte>, start: nat, p: nat, q: nat, bytes: seq<byte>)
    requires Prepended(was, now, p, q, bytes) && start <= q
    ensures OnlyBetween(was, now, start, p)
  {
  }

  lemma PrependedTwice(a: seq<byte>, b: seq<byte>, c: seq<byte>, p: nat, q: nat, r: nat, x: seq<byte>, y: seq<byte>)
    requires Prepended(a, b, p, q, x) && Prepended(b, c, q, r, y)
    ensures Prepended(a, c, p, r, y + x)
  {
    assert b[..r] == a[..r] && b[q..] == x + a[p..];
    assert a[..r] + y + (x + a[p..]) == a[..r] + (y + x) + a[p..];
  }

  /** *--(*p) = b. */
  method Push(buf: array<byte>, p: nat, b: byte) returns (q: nat)
    requires 0 < p <= buf.Length
    modifies buf
    ensures Prepended(old(buf[..]), buf[..], p, q, [b])
  {
    q := p - 1;
    buf[q] := b;
  }

  /** Pushes the low bytes of `n`, lowest first. */
  method PushBytes(buf: array<byte>, p: nat, n: nat, count: nat) returns (q: nat)
    requires 1 <= count <= p <= buf.Length && count == |Digits(n)|
    modifies buf
    ensures Prepended(old(buf[..]), buf[..], p, q, Digits(n))
    decreases n
  {
    q := Push(buf, p, n % 256);
    if count > 1 {
      ghost var mid := buf[..];
      ghost var at := q;
      q := PushBytes(buf, q, n / 256, count - 1);
      PrependedTwice(old(buf[..]), mid, buf[..], p, at, q, [n % 256], Digits(n / 256));
    }
  }

  /** mbedtls_asn1_write_len. */
  method WriteLen(buf: array<byte>, start: nat, p: nat, len: nat) returns (ret: Written, q: nat)
    requires p <= buf.Length
    modifies buf
    ensures len > MAX_LENGTH ==> ret == InvalidLength && buf[..] == old(buf[..])
    ensures len <= MAX_LENGTH ==> Writes(old(buf[..]), buf[..], start, p, LengthOctets(len), ret, q)
  {
    q := p;
    ret := BufTooSmall;
    if len < 0x80 {
      if p - start < 1 { return; }
      q := Push(buf, p, len);
      WritesOnlyBetween(old(buf[..]), buf[..], start, p, q, [len]);
      return Wrote(1), q;
    }
    FewDigits(len);
    var count := if len <= 0xFF then 1 else if len <= 0xFFFF then 2 else if len <= 0xFF_FFFF then 3 else 4;
    if len > MAX_LENGTH { return InvalidLength, q; }
    if p - start < 1 + count { return; }
    q := PushBytes(buf, p, len, count);
    ghost var mid, at := buf[..], q;
    q := Push(buf, q, 0x80 + count);
    PrependedTwice(old(buf[..]), mid, buf[..], p, at, q, Digits(len), [0x80 + count]);
    WritesOnlyBetween(old(buf[..]), buf[..], start, p, q, LengthOctets(len));
    ret := Wrote(1 + count);
  }

  /** mbedtls_asn1_write_tag. */
  method WriteTag(buf: array<byte>, start: nat, p: nat, tag: byte) returns (ret: Written, q: nat)
    requires p <= buf.Length
    modifies buf
    ensures Writes(old(buf[..]), buf[..], start, p, [tag], ret, q)
  {
    if p - start < 1 { return BufTooSmall, p; }
    q := Push(buf, p, tag);
    WritesOnlyBetween(old(buf[..]), buf[..], start, p, q, [tag]);
    ret := Wrote(1);
  }

  /** A value of `content` octets: tag, length, content. */
  function Element(tag: byte, content: seq<byte>): (s: seq<byte>)
    requires |content| <= MAX_LENGTH
    ensures |s| > |content| + 1
  {
    [tag] + LengthOctets(|content|) + content
  }

  /** The content has been written down to `p`; its length and the tag go before it. */
  method WriteHeader(buf: array<byte>, start: nat, p0: nat, p: nat, tag: byte, ghost was: seq<byte>, ghost content: seq<byte>, len: nat)
    returns (ret: Written, q: nat)
    requires start <= p <= p0 <= buf.Length && len == |content| && Prepended(was, buf[..], p0, p, content)
    modifies buf
    ensures len > MAX_LENGTH ==> ret == InvalidLength && OnlyBetween(was, buf[..], start, p0)
    ensures len <= MAX_LENGTH ==> Writes(was, buf[..], start, p0, Element(tag, content), ret, q)
  {
    ghost var s0 := buf[..];
    WritesOnlyBetween(was, s0, start, p0, p, content);
    ret, q := WriteLen(buf, start, p, len);
    if !ret.Wrote? { return; }
    var total := len + ret.len;
    ghost var s1, q1, lengthBytes := buf[..], q, LengthOctets(len);
    PrependedTwice(was, s0, s1, p0, p, q, content, lengthBytes);
    ret, q := WriteTag(buf, start, q, tag);
    if !ret.Wrote? { return; }
    PrependedTwice(was, s1, buf[..], p0, q1, q, lengthBytes + content, [tag]);
    assert [tag] + (lengthBytes + content) == Element(tag, content);
    WritesOnlyBetween(was, buf[..], start, p0, q, Element(tag, content));
    ret := Wrote(total + ret.len);
  }

  /** The content octets of a non-negative int: its digits, kept non-negative (X.690 section 8.3). */
  function IntOctets(val: nat): (s: seq<byte>)
    ensures |s| >= 1 && s[0] < 0x80
  {
    var d := Digits(val);
    if d[0] >= 0x80 then [0] + d else d
  }

  lemma IntOctetsAreFew(val: nat)
    requires val <= INT_MAX
    ensures |IntOctets(val)| <= 4
  {
    FewDigits(val);
    DigitsBack(val);
    NumberOfFour(Digits(val));
  }

  /** asn1_write_tagged_int, for the non-negative values. */
  method WriteTaggedInt(buf: array<byte>, start: nat, p: nat, val0: nat, tag: byte) returns (ret: Written, q: nat)
    requires p <= buf.Length && val0 <= INT_MAX
    modifies buf
    ensures |IntOctets(val0)| <= MAX_LENGTH
    ensures Writes(old(buf[..]), buf[..], start, p, Element(tag, IntOctets(val0)), ret, q)
  {
    hide Digits, LengthOctets;
    IntOctetsAreFew(val0);
    ghost var was := buf[..];
    var len, val := 0, val0;
    q := p;
    ghost var done: seq<byte> := [];
    assert was[..p] + [] + was[p..] == was;
    while len == 0 || val > 0
      invariant (len > 0 ==> start <= q) && q <= p && len == |done| && Prepended(was, buf[..], p, q, done)
      invariant len == 0 ==> val == val0 && done == []
      invariant len > 0 ==> (if val == 0 then Digits(val0) == done else Digits(val0) == Digits(val) + done)
      decreases len == 0, val
    {
      if start <= q { WritesOnlyBetween(was, buf[..], start, p, q, done); }
      if q - start < 1 { return BufTooSmall, q; }
      len := len + 1;
      ghost var before, at := buf[..], q;
      q := Push(buf, q, val % 256);
      PrependedTwice(was, before, buf[..], p, at, q, done, [val % 256]);
      OneDigit(val, done);
      done := [val % 256] + done;
      val := val / 256;
    }
    if buf[q] >= 0x80 {
      WritesOnlyBetween(was, buf[..], start, p, q, done);
      if q - start < 1 { return BufTooSmall, q; }
      ghost var before, at := buf[..], q;
      q := Push(buf, q, 0);
      PrependedTwice(was, before, buf[..], p, at, q, done, [0]);
      done := [0] + done;
      len := len + 1;
    }
    ret, q := WriteHeader(buf, start, p, q, tag, was, IntOctets(val0), len);
  }

  lemma OneDigit(n: nat, rest: seq<byte>)
    ensures n / 256 == 0 ==> Digits(n) + rest == [n % 256] + rest
    ensures n / 256 > 0 ==> Digits(n) + rest == Digits(n / 256) + ([n % 256] + rest)
  {
  }

  // ---------------------------------------------------------------- bits

  function Pow2(k: nat): (r: nat)
    requires k <= 8
    ensures r > 0 && (k > 0 ==> r == 2 * Pow2(k - 1))
  {
    if k == 0 then 1 else if k == 1 then 2 else if k == 2 then 4 else if k == 3 then 8
    else if k == 4 then 16 else if k == 5 then 32 else if k == 6 then 64 else if k == 7 then 128 else 256
  }

  /** Bit `k` of a byte, counted from its lowest. */
  predicate LowBit(b: nat, k: nat) {
    if k == 0 then b % 2 == 1 else LowBit(b / 2, k - 1)
  }

  /** A byte with its `u` lowest bits cleared, b & ~((1 << u) - 1), one bit after the other. */
  function ClearLow(b: byte, u: nat): (r: byte)
    ensures r <= b
  {
    if u == 0 then b else 2 * ClearLow(b / 2, u - 1)
  }

  lemma {:induction false} ClearLowBit(b: byte, u: nat, k: nat)
    ensures LowBit(ClearLow(b, u), k) == (k >= u && LowBit(b, k))
  {
    if u > 0 && k > 0 {
      ClearLowBit(b / 2, u - 1, k - 1);
    }
  }

  lemma {:induction false} SameBits(a: nat, b: nat, n: nat)
    requires n <= 8 && a < Pow2(n) && b < Pow2(n)
    requires forall k: nat :: k < n ==> LowBit(a, k) == LowBit(b, k)
    ensures a == b
  {
    if n > 0 {
      assert LowBit(a, 0) == LowBit(b, 0);
      forall k: nat | k < n - 1 ensures LowBit(a / 2, k) == LowBit(b / 2, k) {
        assert LowBit(a, k + 1) == LowBit(b, k + 1);
      }
      SameBits(a / 2, b / 2, n - 1);
    }
  }

  /** The first `n` bits of a string of bytes, highest bit of the first byte first. */
  function Bits(buf: seq<byte>, n: nat): (bits: seq<bool>)
    requires n <= 8 * |buf|
    ensures |bits| == n
  {
    seq(n, i requires 0 <= i < n => LowBit(buf[i / 8], 7 - i % 8))
  }

  predicate BitAt(bits: seq<bool>, i: nat) {
    i < |bits| && bits[i]
  }

  function Gather(bits: seq<bool>, at: nat, n: nat): (r: nat)
    requires n <= 8
    ensures r < Pow2(n)
  {
    if n == 0 then 0 else 2 * Gather(bits, at, n - 1) + (if BitAt(bits, at + n - 1) then 1 else 0)
  }

  lemma {:induction false} GatherBit(bits: seq<bool>, at: nat, n: nat, k: nat)
    requires k < n <= 8
    ensures LowBit(Gather(bits, at, n), k) == BitAt(bits, at + n - 1 - k)
  {
    if k > 0 {
      GatherBit(bits, at, n - 1, k - 1);
    }
  }

  /** Bits packed into bytes, the last one filled up with zeros. */
  function Pack(bits: seq<bool>): (s: seq<byte>)
    ensures |s| == (|bits| + 7) / 8
  {
    seq((|bits| + 7) / 8, i requires 0 <= i => Gather(bits, 8 * i, 8))
  }

  function Unused(n: nat): (u: nat)
    ensures u <= 7 && (n + u) % 8 == 0
  {
    (n + 7) / 8 * 8 - n
  }

  lemma PackBack(bits: seq<bool>)
    ensures Bits(Pack(bits), |bits|) == bits
  {
    forall i | 0 <= i < |bits| ensures Bits(Pack(bits), |bits|)[i] == bits[i] {
      GatherBit(bits, 8 * (i / 8), 8, 7 - i % 8);
    }
  }

  /** A byte of the packed bits of `src` is that byte of `src`, but for the unused bits. */
  lemma PackedByte(src: seq<byte>, n: nat, i: nat)
    requires n <= 8 * |src| && i < (n + 7) / 8
    ensures Pack(Bits(src, n))[i] == ClearLow(src[i], if i == (n + 7) / 8 - 1 then Unused(n) else 0)
  {
    var u := if i == (n + 7) / 8 - 1 then Unused(n) else 0;
    var a, b := Gather(Bits(src, n), 8 * i, 8), ClearLow(src[i], u);
    forall k: nat | k < 8 ensures LowBit(a, k) == LowBit(b, k) {
      GatherBit(Bits(src, n), 8 * i, 8, k);
      ClearLowBit(src[i], u, k);
      var j := 8 * i + 7 - k;
      assert k >= u ==> j < n && j / 8 == i && 7 - j % 8 == k;
    }
    SameBits(a, b, 8);
  }

  // ---------------------------------------------------------------- bit strings

  /** The content octets of a bit string (X.690 section 8.6). */
  function BitOctets(bits: seq<bool>): (s: seq<byte>)
    ensures |s| == 1 + (|bits| + 7) / 8
  {
    [Unused(|bits|)] + Pack(bits)
  }

  /** (*p) -= n; memcpy(*p, src, n). */
  method PushAll(buf: array<byte>, p: nat, src: seq<byte>, n: nat) returns (q: nat)
    requires n <= |src| && n <= p <= buf.Length
    modifies buf
    ensures Prepended(old(buf[..]), buf[..], p, q, src[..n])
  {
    q := p - n;
    forall i | 0 <= i < n {
      buf[q + i] := src[i];
    }
    assert buf[q..p] == src[..n];
  }

  /** mbedtls_asn1_write_bitstring. */
  method WriteBitstring(buf: array<byte>, start: nat, p: nat, src: seq<byte>, bits: nat) returns (ret: Written, q: nat)
    requires p <= buf.Length && bits <= 8 * |src|
    modifies buf
    ensures var content := BitOctets(Bits(src, bits));
      if |content| > MAX_LENGTH then !ret.Wrote? && OnlyBetween(old(buf[..]), buf[..], start, p)
      else Writes(old(buf[..]), buf[..], start, p, Element(BIT_STRING, content), ret, q)
  {
    hide Bits, Pack, ClearLow, Element, LengthOctets;
    var byteLen := (bits + 7) / 8;
    var unusedBits := byteLen * 8 - bits;
    if p < start || p - start < byteLen + 1 { return BufTooSmall, p; }
    var len := byteLen + 1;
    ghost var was, packed := buf[..], Pack(Bits(src, bits));
    q := p;
    assert was[..p] + [] + was[p..] == was;
    if byteLen > 0 {
      byteLen := byteLen - 1;
      PackedBytes(src, bits);
      q := Push(buf, q, ClearLow(src[byteLen], unusedBits));
      ghost var mid, at := buf[..], q;
      q := PushAll(buf, q, src, byteLen);
      PrependedTwice(was, mid, buf[..], p, at, q, [packed[byteLen]], src[..byteLen]);
    } else {
      assert packed == [];
    }
    ghost var mid, at := buf[..], q;
    q := Push(buf, q, unusedBits);
    PrependedTwice(was, mid, buf[..], p, at, q, packed, [unusedBits]);
    ret, q := WriteHeader(buf, start, p, q, BIT_STRING, was, BitOctets(Bits(src, bits)), len);
  }

  lemma PackedBytes(src: seq<byte>, n: nat)
    requires 0 < n <= 8 * |src|
    ensures var m := (n + 7) / 8 - 1; Pack(Bits(src, n)) == src[..m] + [ClearLow(src[m], Unused(n))]
  {
    hide Bits, Pack;
    var m := (n + 7) / 8 - 1;
    forall i | 0 <= i < m + 1 ensures Pack(Bits(src, n))[i] == if i == m then ClearLow(src[m], Unused(n)) else src[i] {
      PackedByte(src, n, i);
    }
  }

  /** A named bit string stands for its bits without the zeros at the end (X.690 section 11.2.2). */
  function Trimmed(bits: seq<bool>): (r: seq<bool>)
    ensures r <= bits && (r == [] || r[|r| - 1])
    ensures forall i :: |r| <= i < |bits| ==> !bits[i]
  {
    if bits == [] || bits[|bits| - 1] then bits else Trimmed(bits[..|bits| - 1])
  }

  /** Zero bits at the end never change what is written. */
  lemma {:induction false} TrailingZeros(bits: seq<bool>, n: nat)
    ensures Trimmed(bits + seq(n, _ => false)) == Trimmed(bits)
  {
    var more := bits + seq(n, _ => false);
    if n == 0 {
      assert more == bits;
    } else {
      assert more[..|more| - 1] == bits + seq(n - 1, _ => false);
      TrailingZeros(bits, n - 1);
    }
  }

  /** The bits of a byte, taken by shifting it right. */
  function Shifted(b: nat, k: nat): nat {
    if k == 0 then b else Shifted(b, k - 1) / 2
  }

  lemma {:induction false} ShiftedBit(b: nat, k: nat)
    ensures Shifted(b, k) % 2 == 1 <==> LowBit(b, k)
  {
    if k > 0 {
      ShiftedHalf(b, k);
      ShiftedBit(b / 2, k - 1);
    }
  }

  lemma {:induction false} ShiftedHalf(b: nat, k: nat)
    requires k > 0
    ensures Shifted(b, k) == Shifted(b / 2, k - 1)
  {
    if k > 1 {
      ShiftedHalf(b, k - 1);
    }
  }

  /** mbedtls_asn1_write_named_bitstring. */
  method WriteNamedBitstring(buf: array<byte>, start: nat, p: nat, src: seq<byte>, bits0: nat) returns (ret: Written, q: nat)
    requires p <= buf.Length && bits0 <= 8 * |src|
    modifies buf
    ensures var content := BitOctets(Trimmed(Bits(src, bits0)));
      if |content| > MAX_LENGTH then !ret.Wrote? && OnlyBetween(old(buf[..]), buf[..], start, p)
      else Writes(old(buf[..]), buf[..], start, p, Element(BIT_STRING, content), ret, q)
  {
    hide BitOctets, Element, Writes, OnlyBetween, Trimmed, Bits, Shifted;
    var byteLen := (bits0 + 7) / 8;
    var unusedBits := byteLen * 8 - bits0;
    var bits := bits0;
    ghost var all := Bits(src, bits0);
    if bits != 0 {
      var cur := byteLen - 1;
      var shifted: nat := Shifted(src[cur], unusedBits);
      assert all[..bits] == all;
      FirstByte(src, bits);
      while true
        invariant 0 < bits <= bits0 && cur == (bits - 1) / 8
        invariant shifted == Shifted(src[cur], 7 - (bits - 1) % 8)
        invariant Trimmed(all[..bits]) == Trimmed(all) && buf[..] == old(buf[..])
        decreases bits
      {
        var bit := shifted % 2;
        LastBit(src, bits0, bits);
        TrimOne(all, bits);
        shifted := shifted / 2;
        if bit != 0 { break; }
        bits := bits - 1;
        if bits == 0 { break; }
        FirstByte(src, bits);
        if bits % 8 == 0 {
          cur := cur - 1;
          shifted := src[cur];
        }
      }
    }
    FewerBits(src, bits0, bits);
    TrimDone(all, bits);
    assert Bits(src, bits) == Trimmed(all);
    ret, q := WriteBitstring(buf, start, p, src, bits);
  }

  /** The bit looked at is the last one left, and shifting brings up the one before it in the same byte. */
  lemma LastBit(src: seq<byte>, n: nat, m: nat)
    requires 0 < m <= n <= 8 * |src|
    ensures var b, k := src[(m - 1) / 8], 7 - (m - 1) % 8;
      && (Shifted(b, k) % 2 != 0 <==> Bits(src, n)[m - 1])
      && Shifted(b, k) / 2 == Shifted(b, k + 1) && Shifted(b, 0) == b
  {
    ShiftedBit(src[(m - 1) / 8], 7 - (m - 1) % 8);
  }

  /** The byte of the last of `n` bits, and its place there. */
  lemma FirstByte(src: seq<byte>, n: nat)
    requires 0 < n <= 8 * |src|
    ensures (n + 7) / 8 - 1 == (n - 1) / 8 < |src| && (n + 7) / 8 * 8 - n == 7 - (n - 1) % 8
    ensures if n % 8 == 0 then n / 8 == (n - 1) / 8 + 1 && (n - 1) % 8 == 7 else n / 8 == (n - 1) / 8 && n % 8 == (n - 1) % 8 + 1
    ensures Shifted(src[(n - 1) / 8], 0) == src[(n - 1) / 8]
  {
    var q, r := (n - 1) / 8, (n - 1) % 8;
    assert n - 1 == 8 * q + r;
    if r == 7 {
      assert n == 8 * (q + 1);
    } else {
      assert n == 8 * q + (r + 1);
    }
  }

  lemma FewerBits(src: seq<byte>, n: nat, m: nat)
    requires m <= n <= 8 * |src|
    ensures Bits(src, m) == Bits(src, n)[..m]
  {
  }

  lemma TrimOne(all: seq<bool>, n: nat)
    requires 0 < n <= |all|
    ensures if all[n - 1] then Trimmed(all[..n]) == all[..n] else Trimmed(all[..n]) == Trimmed(all[..n - 1])
  {
    assert all[..n][..n - 1] == all[..n - 1];
  }

  lemma TrimDone(all: seq<bool>, n: nat)
    ensures n == 0 <= |all| ==> Trimmed(all[..n]) == all[..n] == []
    ensures n == |all| ==> all[..n] == all
  {
  }

  // ---------------------------------------------------------------- reading

  datatype Parsed = Done | OutOfData | UnexpectedTag | BadLength | LengthMismatch

  /** The bytes from `p` to `q` are length octets, and as many bytes follow before `end`. */
  predicate LengthAt(buf: seq<byte>, p: nat, end: nat, q: nat, len: nat) {
    p <= q <= end <= |buf| && IsLength(buf[p..q], len) && len <= end - q
  }

  /** mbedtls_asn1_get_len. */
  method GetLen(buf: seq<byte>, p: nat, end: nat) returns (r: Parsed, q: nat, len: nat)
    requires p <= end <= |buf|
    ensures r == Done ==> LengthAt(buf, p, end, q, len)
    ensures r != Done ==> forall q': nat, len': nat :: !LengthAt(buf, p, end, q', len')
  {
    q, len := p, 0;
    if end - p < 1 { return OutOfData, q, len; }
    if buf[p] < 0x80 {
      len, q := buf[p], p + 1;
    } else {
      var n := buf[p] - 0x80;
      if n == 0 || n > 4 { return BadLength, q, len; }
      if end - p < n + 1 { return OutOfData, q, len; }
      len := match n
        case 1 => buf[p + 1]
        case 2 => buf[p + 1] as int * 0x100 + buf[p + 2]
        case 3 => buf[p + 1] as int * 0x1_0000 + buf[p + 2] as int * 0x100 + buf[p + 3]
        case _ => buf[p + 1] as int * 0x100_0000 + buf[p + 2] as int * 0x1_0000 + buf[p + 3] as int * 0x100 + buf[p + 4];
      q := p + n + 1;
      NumberOfFour(buf[p + 1..q]);
      assert buf[p..q][1..] == buf[p + 1..q];
    }
    assert IsLength(buf[p..q], len);
    forall q': nat, len': nat | LengthAt(buf, p, end, q', len') ensures q' == q && len' == len {
      LengthIsUnique(buf, p, q, len, q', len');
    }
    r := if len > end - q then OutOfData else Done;
  }

  /** A tag, a length and as many bytes: the content runs from `h` to `h + len`. */
  predicate ElementAt(buf: seq<byte>, p: nat, end: nat, tag: byte, h: nat, len: nat) {
    p < end <= |buf| && buf[p] == tag && LengthAt(buf, p + 1, end, h, len)
  }

  lemma ElementIsUnique(buf: seq<byte>, p: nat, end1: nat, end2: nat, tag: byte, h1: nat, len1: nat, h2: nat, len2: nat)
    requires ElementAt(buf, p, end1, tag, h1, len1) && ElementAt(buf, p, end2, tag, h2, len2)
    ensures h1 == h2 && len1 == len2
  {
    LengthIsUnique(buf, p + 1, h1, len1, h2, len2);
  }

  /** mbedtls_asn1_get_tag. */
  method GetTag(buf: seq<byte>, p: nat, end: nat, tag: byte) returns (r: Parsed, q: nat, len: nat)
    requires p <= end <= |buf|
    ensures r == Done ==> ElementAt(buf, p, end, tag, q, len)
    ensures r != Done ==> forall q': nat, len': nat :: !ElementAt(buf, p, end, tag, q', len')
  {
    if end - p < 1 { return OutOfData, p, 0; }
    if buf[p] != tag { return UnexpectedTag, p, 0; }
    r, q, len := GetLen(buf, p + 1, end);
  }

  /** A non-negative int that fits: what a reader takes for one, spelt with few digits or many. */
  predicate IntAt(buf: seq<byte>, p: nat, end: nat, tag: byte, h: nat, len: nat, val: nat) {
    ElementAt(buf, p, end, tag, h, len) && len > 0 && buf[h] < 0x80 && Number(buf[h..h + len]) == val <= INT_MAX
  }

  /** asn1_get_tagged_int. */
  method GetTaggedInt(buf: seq<byte>, p: nat, end: nat, tag: byte) returns (r: Parsed, q: nat, val: nat)
    requires p <= end <= |buf|
    ensures r == Done ==> exists h: nat, len: nat :: IntAt(buf, p, end, tag, h, len, val) && q == h + len
    ensures r != Done ==> forall h: nat, len: nat, val': nat :: !IntAt(buf, p, end, tag, h, len, val')
  {
    hide Number, IsLength;
    var len0;
    r, q, len0 := GetTag(buf, p, end, tag);
    val := 0;
    if r != Done { return; }
    var h := q;
    forall h': nat, len': nat, val': nat | IntAt(buf, p, end, tag, h', len', val') ensures h' == h && len' == len0 {
      ElementIsUnique(buf, p, end, end, tag, h, len0, h', len');
    }
    if len0 == 0 || buf[q] >= 0x80 { return BadLength, q, 0; }
    var len := len0;
    while len > 0 && buf[q] == 0
      invariant 0 <= len && h <= q && q + len == h + len0 <= |buf|
      invariant Number(buf[q..q + len]) == Number(buf[h..h + len0])
      decreases len
    {
      assert buf[q..q + len] == [0] + buf[q + 1..q + len];
      NumberJoin([0], buf[q + 1..q + len]);
      q, len := q + 1, len - 1;
    }
    FitsInt(buf[q..q + len]);
    if len > 4 || (len == 4 && buf[q] >= 0x80) { return BadLength, q, 0; }
    val := ReadNumber(buf, q, len);
    q := q + len;
    assert IntAt(buf, p, end, tag, h, len0, val);
  }

  /** The last loop of asn1_get_tagged_int. */
  method ReadNumber(buf: seq<byte>, p: nat, len0: nat) returns (val: nat)
    requires p + len0 <= |buf|
    ensures val == Number(buf[p..p + len0])
  {
    val := 0;
    var q, len := p, len0;
    while len > 0
      invariant 0 <= len && p <= q && q + len == p + len0 && val == Number(buf[p..q])
      decreases len
    {
      assert buf[p..q + 1][..q - p] == buf[p..q];
      val := val * 0x100 + buf[q];
      q, len := q + 1, len - 1;
    }
  }

  /** A bit string up to the very end. */
  predicate BitStringAt(buf: seq<byte>, p: nat, end: nat, h: nat, len: nat) {
    ElementAt(buf, p, end, BIT_STRING, h, len) && len > 0 && buf[h] <= 7 && h + len == end
  }

  /** mbedtls_asn1_get_bitstring: `len` bytes from `q`, without the last `unused` bits. */
  method GetBitstring(buf: seq<byte>, p: nat, end: nat) returns (r: Parsed, q: nat, len: nat, unused: nat)
    requires p <= end <= |buf|
    ensures r == Done ==> q > 0 && BitStringAt(buf, p, end, q - 1, len + 1) && unused == buf[q - 1]
    ensures r != Done ==> forall h, len' :: !BitStringAt(buf, p, end, h, len')
  {
    unused := 0;
    r, q, len := GetTag(buf, p, end, BIT_STRING);
    if r != Done { return; }
    forall h: nat, len': nat | BitStringAt(buf, p, end, h, len') ensures h == q && len' == len {
      ElementIsUnique(buf, p, end, end, BIT_STRING, q, len, h, len');
    }
    if len < 1 { return OutOfData, q, len, unused; }
    len := len - 1;
    unused := buf[q];
    if unused > 7 { return BadLength, q, len, unused; }
    q := q + 1;
    if q + len != end { r := LengthMismatch; }
  }

  // ---------------------------------------------------------------- back again

  lemma ElementParts(s: seq<byte>, tag: byte, content: seq<byte>)
    requires |content| <= MAX_LENGTH && s == Element(tag, content)
    ensures s[0] == tag && IsLength(s[1..|s| - |content|], |content|) && s[|s| - |content|..] == content
  {
    hide IsLength, LengthOctets;
    LengthIsRead(|content|);
    assert s[1..|s| - |content|] == LengthOctets(|content|);
  }

  /** What a writer put right before `p` is an element that a reader finds there. */
  lemma ElementIsThere(was: seq<byte>, now: seq<byte>, p: nat, q: nat, end: nat, tag: byte, content: seq<byte>)
    requires |content| <= MAX_LENGTH && Prepended(was, now, p, q, Element(tag, content)) && p <= end <= |was|
    ensures ElementAt(now, q, end, tag, p - |content|, |content|)
    ensures now[p - |content|..p] == content
  {
    hide IsLength, LengthOctets;
    ghost var s, n := Element(tag, content), |content|;
    ElementParts(s, tag, content);
    assert forall k :: q <= k < p ==> now[k] == s[k - q];
    assert now[q + 1..p - n] == s[1..|s| - n];
    assert now[p - n..p] == s[|s| - n..];
  }

  /** A written int is read back, whatever follows it, and exactly the written bytes are consumed. */
  method IntRoundTrip(buf: array<byte>, start: nat, p: nat, val: nat, tag: byte)
    returns (ret: Written, r: Parsed, back: nat, after: nat)
    requires start <= p <= buf.Length && val <= INT_MAX
    modifies buf
    ensures |IntOctets(val)| <= 4
    ensures ret.Wrote? <==> p - start >= |Element(tag, IntOctets(val))|
    ensures ret.Wrote? ==> r == Done && back == val && after == p
  {
    hide IntAt, Writes, Element, IntOctets;
    IntOctetsAreFew(val);
    var q;
    ret, q := WriteTaggedInt(buf, start, p, val, tag);
    WritesRoom(old(buf[..]), buf[..], start, p, Element(tag, IntOctets(val)), ret, q);
    if !ret.Wrote? { return ret, OutOfData, 0, p; }
    IntIsThere(old(buf[..]), buf[..], p, q, buf.Length, tag, val);
    r, after, back := GetTaggedInt(buf[..], q, buf.Length, tag);
    var h: nat, len: nat :| IntAt(buf[..], q, buf.Length, tag, h, len, back) && after == h + len;
    IntIsUnique(buf[..], q, buf.Length, tag, p - |IntOctets(val)|, |IntOctets(val)|, val, h, len, back);
  }

  lemma WritesRoom(was: seq<byte>, now: seq<byte>, start: nat, p: nat, bytes: seq<byte>, ret: Written, q: nat)
    requires Writes(was, now, start, p, bytes, ret, q)
    ensures ret.Wrote? <==> p - start >= |bytes|
    ensures ret.Wrote? ==> Prepended(was, now, p, q, bytes)
  {
  }

  lemma IntIsThere(was: seq<byte>, now: seq<byte>, p: nat, q: nat, end: nat, tag: byte, val: nat)
    requires val <= INT_MAX && |IntOctets(val)| <= 4
    requires Prepended(was, now, p, q, Element(tag, IntOctets(val))) && p <= end <= |was|
    ensures |IntOctets(val)| <= p && IntAt(now, q, end, tag, p - |IntOctets(val)|, |IntOctets(val)|, val)
  {
    hide IsLength, LengthOctets, IntOctets, Number, LengthAt;
    ElementIsThere(was, now, p, q, end, tag, IntOctets(val));
    IntContent(val);
    assert now[p - |IntOctets(val)|] == IntOctets(val)[0];
  }

  lemma IntIsUnique(buf: seq<byte>, p: nat, end: nat, tag: byte, h1: nat, len1: nat, val1: nat, h2: nat, len2: nat, val2: nat)
    requires IntAt(buf, p, end, tag, h1, len1, val1) && IntAt(buf, p, end, tag, h2, len2, val2)
    ensures h1 == h2 && len1 == len2 && val1 == val2
  {
    ElementIsUnique(buf, p, end, end, tag, h1, len1, h2, len2);
  }

  lemma IntContent(val: nat)
    ensures Number(IntOctets(val)) == val
  {
    DigitsBack(val);
    NumberJoin([0], Digits(val));
  }

  /** No content that reads as an int is shorter than the one written, and no other is as short. */
  lemma ContentIsShortest(content: seq<byte>)
    requires content != [] && content[0] < 0x80
    ensures var v := Number(content);
      |content| >= |IntOctets(v)| && (|content| == |IntOctets(v)| ==> content == IntOctets(v))
  {
    var d := Digits(Number(content));
    Spelling(content);
    if |content| == |d| {
      assert content[0..] == content;
    } else if |content| == |d| + 1 {
      assert content == [content[0]] + content[1..];
    }
  }

  /** No spelling of an int that a reader takes is shorter than the one written, and no other is as short. */
  lemma IntIsShortest(s: seq<byte>, tag: byte, h: nat, len: nat, val: nat)
    requires IntAt(s, 0, |s|, tag, h, len, val) && h + len == |s|
    ensures |IntOctets(val)| <= 4 && |s| >= |Element(tag, IntOctets(val))|
    ensures |s| == |Element(tag, IntOctets(val))| ==> s == Element(tag, IntOctets(val))
  {
    hide IsLength, IntOctets, Number;
    IntOctetsAreFew(val);
    var content := s[h..];
    assert s[h..h + len] == content;
    ContentIsShortest(content);
    LengthIsBounded(s[1..h], len);
    LengthIsShortest(s[1..h], len);
    assert s == [s[0]] + s[1..h] + content;
  }

  /** A written bit string is read back, bit for bit, when nothing follows it. */
  method BitstringRoundTrip(buf: array<byte>, start: nat, p: nat, src: seq<byte>, bits: nat)
    returns (ret: Written, r: Parsed, q: nat, len: nat, unused: nat)
    requires start <= p <= buf.Length && bits <= 8 * |src|
    modifies buf
    ensures var content := BitOctets(Bits(src, bits));
      ret.Wrote? <==> |content| <= MAX_LENGTH && p - start >= |Element(BIT_STRING, content)|
    ensures ret.Wrote? ==> r == Done && q + len == p && 8 * len - unused == bits
    ensures ret.Wrote? ==> Bits(buf[q..p], bits) == Bits(src, bits)
  {
    hide Bits, Pack, LengthAt, IsLength, Element;
    ghost var all := Bits(src, bits);
    ghost var content := BitOctets(all);
    ret, q := WriteBitstring(buf, start, p, src, bits);
    if |content| <= MAX_LENGTH {
      WritesRoom(old(buf[..]), buf[..], start, p, Element(BIT_STRING, content), ret, q);
    }
    if !ret.Wrote? { return ret, OutOfData, 0, 0, 0; }
    ElementIsThere(old(buf[..]), buf[..], p, q, p, BIT_STRING, content);
    ghost var at, h: nat := q, p - |content|;
    assert buf[..][h] == content[0];
    assert BitStringAt(buf[..], at, p, h, |content|);
    r, q, len, unused := GetBitstring(buf[..], q, p);
    ElementIsUnique(buf[..], at, p, p, BIT_STRING, h, |content|, q - 1, len + 1);
    assert buf[q..p] == content[1..] == Pack(all);
    PackBack(all);
  }
}
