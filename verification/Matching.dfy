/**
  Comparing input regions: LZ4_count and the counters of lz4hc.c. Machine words
  are read as the bytes they are made of (little-endian order);
  LZ4_NbCommonBytes is given by what it returns, the index of the first
  differing byte.
*/
module Matching {
  import opened BlockFormat

  /** The `length` bytes at `s` repeat those at `m`, within the distance the format can express. */
  ghost predicate IsMatch(data: seq<byte>, s: int, m: int, length: int) {
    0 <= m && 1 <= s - m <= MAX_DISTANCE && Repeats(data, s, s + length, s - m)
  }

  /** `n` is exactly the length of the longest common run of `p` and `q` that ends by `limit`. */
  ghost predicate CommonLength(data: seq<byte>, p: nat, q: nat, limit: nat, n: nat)
    requires q < p <= limit <= |data|
  {
    && p + n <= limit && Repeats(data, p, p + n, p - q)
    && (p + n < limit ==> data[p + n] != data[q + n])
  }

  predicate SameWord(data: seq<byte>, p: nat, q: nat, width: nat)
    requires p + width <= |data| && q + width <= |data|
  {
    data[p..p + width] == data[q..q + width]
  }

  lemma SameWordRepeats(data: seq<byte>, p: nat, q: nat, width: nat)
    requires q < p && p + width <= |data|
    ensures SameWord(data, p, q, width) <==> Repeats(data, p, p + width, p - q)
  {
    if SameWord(data, p, q, width) {
      forall k | p <= k < p + width
        ensures data[k] == data[k - (p - q)]
      {
        assert data[p..p + width][k - p] == data[q..q + width][k - p];
      }
    }
  }

  /** LZ4_NbCommonBytes of two differing words: the index of the first byte that differs. */
  function FirstDifference(data: seq<byte>, p: nat, q: nat, width: nat): (n: nat)
    requires q < p && p + width <= |data| && !Repeats(data, p, p + width, p - q)
    ensures n < width && Repeats(data, p, p + n, p - q) && data[p + n] != data[q + n]
    decreases width
  {
    if data[p] != data[q] then 0 else 1 + FirstDifference(data, p + 1, q + 1, width - 1)
  }

  lemma RepeatsNothing(data: seq<byte>, p: nat, gap: nat)
    requires gap <= p <= |data|
    ensures Repeats(data, p, p, gap)
  {
  }

  lemma RepeatsAppend(data: seq<byte>, p: nat, q: nat, r: nat, gap: nat)
    requires Repeats(data, p, q, gap) && Repeats(data, q, r, gap)
    ensures Repeats(data, p, r, gap)
  {
  }

  /** LZ4_count: 8 bytes a turn, then 4, 2 and 1. */
  method Count(data: seq<byte>, pIn: nat, pMatch: nat, pInLimit: nat) returns (n: nat)
    requires pMatch < pIn <= pInLimit <= |data|
    ensures CommonLength(data, pIn, pMatch, pInLimit, n)
  {
    hide Repeats, SameWord, FirstDifference;
    n := 0;
    RepeatsNothing(data, pIn, pIn - pMatch);
    while pIn + n + 8 <= pInLimit
      invariant pIn + n <= pInLimit && Repeats(data, pIn, pIn + n, pIn - pMatch)
    {
      SameWordRepeats(data, pIn + n, pMatch + n, 8);
      if !SameWord(data, pIn + n, pMatch + n, 8) {
        var d := FirstDifference(data, pIn + n, pMatch + n, 8);
        RepeatsAppend(data, pIn, pIn + n, pIn + n + d, pIn - pMatch);
        return n + d;
      }
      RepeatsAppend(data, pIn, pIn + n, pIn + n + 8, pIn - pMatch);
      n := n + 8;
    }
    n := CountTail(data, pIn, pMatch, pInLimit, n);
  }

  /** The last, fewer than 8, bytes. */
  method CountTail(data: seq<byte>, pIn: nat, pMatch: nat, pInLimit: nat, n0: nat) returns (n: nat)
    requires pMatch < pIn && pIn + n0 <= pInLimit <= |data| && pInLimit < pIn + n0 + 8
    requires Repeats(data, pIn, pIn + n0, pIn - pMatch)
    ensures CommonLength(data, pIn, pMatch, pInLimit, n)
  {
    n := CountWord(data, pIn, pMatch, pInLimit, n0, 4);
    n := CountWord(data, pIn, pMatch, pInLimit, n, 2);
    if pIn + n < pInLimit && data[pMatch + n] == data[pIn + n] {
      n := n + 1;
    }
  }

  /**
    One conditional step over a word. When fewer than two words are left, a
    step that is not taken leaves less than one word, or a difference inside it.
  */
  method CountWord(data: seq<byte>, pIn: nat, pMatch: nat, pInLimit: nat, n0: nat, width: nat) returns (n: nat)
    requires pMatch < pIn && pIn + n0 <= pInLimit <= |data| && width >= 1
    requires Repeats(data, pIn, pIn + n0, pIn - pMatch)
    requires pInLimit < pIn + n0 + 2 * width || DiffersWithin(data, pIn, pMatch, pInLimit, n0, 2 * width)
    ensures pIn + n <= pInLimit && Repeats(data, pIn, pIn + n, pIn - pMatch)
    ensures pInLimit < pIn + n + width || DiffersWithin(data, pIn, pMatch, pInLimit, n, width)
  {
    n := n0;
    if pIn + n + width <= pInLimit {
      SameWordRepeats(data, pIn + n, pMatch + n, width);
      if SameWord(data, pIn + n, pMatch + n, width) {
        n := n + width;
      }
    }
  }

  ghost predicate DiffersWithin(data: seq<byte>, p: nat, q: nat, limit: nat, n: nat, width: nat)
    requires q < p && limit <= |data|
  {
    exists k :: p + n <= k < p + n + width && k < limit && data[k] != data[k - (p - q)]
  }

  /** LZ4HC_countBack: exactly how many bytes before `ip` and `match` agree, within both lower limits (as a positive number). */
  method CountBack(data: seq<byte>, ip: nat, m: nat, iMin: nat, mMin: nat) returns (back: nat)
    requires iMin <= ip <= |data| && mMin <= m < ip
    ensures back <= ip - iMin && back <= m - mMin
    ensures Repeats(data, ip - back, ip, ip - m)
    ensures back < ip - iMin && back < m - mMin ==> data[ip - back - 1] != data[m - back - 1]
  {
    back := 0;
    while back < ip - iMin && back < m - mMin && data[ip - back - 1] == data[m - back - 1]
      invariant back <= ip - iMin && back <= m - mMin
      invariant Repeats(data, ip - back, ip, ip - m)
    {
      back := back + 1;
    }
  }

  // ----- Repeated patterns -----

  /** data[p..p+n] continues the 4-byte pattern `word`, starting with its first byte. */
  ghost predicate Continues(data: seq<byte>, p: nat, n: nat, word: seq<byte>)
    requires |word| == 4
  {
    p + n <= |data| && forall k :: p <= k < p + n ==> data[k] == word[(k - p) % 4]
  }

  /** data[p-n..p] ends with the 4-byte pattern `word`, read backwards from its last byte. */
  ghost predicate Precedes(data: seq<byte>, p: nat, n: nat, word: seq<byte>)
    requires |word| == 4
  {
    n <= p <= |data| && forall k :: p - n <= k < p ==> data[k] == word[3 - (p - 1 - k) % 4]
  }

  /** The pattern goes on for another byte before data[p-n..p], within the limit. */
  ghost predicate PrecedesMore(data: seq<byte>, p: nat, n: nat, iLow: nat, word: seq<byte>)
    requires |word| == 4
  {
    iLow < p - n && Precedes(data, p, n + 1, word)
  }

  /** How far a word of 8 bytes agrees with the doubled pattern. */
  function AgreementWith(w: seq<byte>, word: seq<byte>, k: nat): (n: nat)
    requires |w| == 8 && |word| == 4 && k <= 8
    ensures k <= n <= 8 && forall i :: k <= i < n ==> w[i] == word[i % 4]
    ensures n < 8 ==> w[n] != word[n % 4]
    decreases 8 - k
  {
    if k < 8 && w[k] == word[k % 4] then AgreementWith(w, word, k + 1) else k
  }

  /** LZ4HC_countPattern: 8 bytes a turn, then single bytes of the shifted pattern. */
  method CountPattern(data: seq<byte>, p: nat, iEnd: nat, word: seq<byte>) returns (n: nat)
    requires p <= iEnd <= |data| && |word| == 4
    ensures p + n <= iEnd && Continues(data, p, n, word)
    ensures p + n < iEnd ==> data[p + n] != word[n % 4]
  {
    hide AgreementWith, Continues;
    n := 0;
    ContinuesNot(data, p, word);
    while p + n + 8 <= iEnd
      invariant p + n <= iEnd && n % 8 == 0 && Continues(data, p, n, word)
    {
      var agreed := AgreementWith(data[p + n..p + n + 8], word, 0);
      ContinuesFor(data, p, n, word, agreed);
      if agreed < 8 {
        return n + agreed;
      }
      n := n + 8;
    }
    n := PatternTail(data, p, iEnd, word, n);
  }

  /** The last bytes, fewer than 8. */
  method PatternTail(data: seq<byte>, p: nat, iEnd: nat, word: seq<byte>, n0: nat) returns (n: nat)
    requires p + n0 <= iEnd < p + n0 + 8 && iEnd <= |data| && |word| == 4 && n0 % 8 == 0 && Continues(data, p, n0, word)
    ensures p + n <= iEnd && Continues(data, p, n, word)
    ensures p + n < iEnd ==> data[p + n] != word[n % 4]
  {
    hide Continues;
    var shifted := 0;
    n := n0;
    SamePhase(n0, 0);
    while p + n < iEnd && data[p + n] == word[shifted % 4]
      invariant p + n <= iEnd && n == n0 + shifted && n % 4 == shifted % 4 && Continues(data, p, n, word)
    {
      ContinuesOne(data, p, n, word);
      n, shifted := n + 1, shifted + 1;
      if shifted < 8 { SamePhase(n0, shifted); }
    }
  }

  lemma ContinuesNot(data: seq<byte>, p: nat, word: seq<byte>)
    requires |word| == 4 && p <= |data|
    ensures Continues(data, p, 0, word)
  {
  }

  lemma ContinuesOne(data: seq<byte>, p: nat, n: nat, word: seq<byte>)
    requires |word| == 4 && Continues(data, p, n, word) && p + n < |data| && data[p + n] == word[n % 4]
    ensures Continues(data, p, n + 1, word)
  {
  }

  lemma ContinuesFor(data: seq<byte>, p: nat, n: nat, word: seq<byte>, agreed: nat)
    requires |word| == 4 && n % 8 == 0 && Continues(data, p, n, word) && p + n + 8 <= |data|
    requires agreed == AgreementWith(data[p + n..p + n + 8], word, 0)
    ensures Continues(data, p, n + agreed, word)
    ensures agreed < 8 ==> data[p + n + agreed] != word[(n + agreed) % 4]
  {
    hide AgreementWith;
    var w := data[p + n..p + n + 8];
    forall k | p + n <= k < p + n + agreed
      ensures data[k] == word[(k - p) % 4]
    {
      assert w[k - p - n] == data[k];
      SamePhase(n, k - p - n);
    }
    if agreed < 8 {
      assert w[agreed] == data[p + n + agreed];
      SamePhase(n, agreed);
    }
  }

  lemma SamePhase(n: nat, k: nat)
    requires n % 8 == 0 && k < 8
    ensures (n + k) % 4 == k % 4
  {
  }

  /** LZ4HC_reverseCountPattern: 4 bytes a turn, then single bytes; the byte cursor never leaves the pattern. */
  method ReverseCountPattern(data: seq<byte>, p: nat, iLow: nat, word: seq<byte>) returns (n: nat)
    requires iLow <= p <= |data| && |word| == 4
    ensures iLow + n <= p && Precedes(data, p, n, word) && !PrecedesMore(data, p, n, iLow, word)
  {
    n := 0;
    while p - n >= iLow + 4 && data[p - n - 4..p - n] == word
      invariant iLow + n <= p && n % 4 == 0 && Precedes(data, p, n, word)
    {
      PrecedesWord(data, p, n, word);
      n := n + 4;
    }
    if p - n >= iLow + 4 {
      WordDiffers(data, p - n - 4, word);
    }
    n := ReverseTail(data, p, iLow, word, n);
  }

  /** The single bytes: fewer than four are left, or one of the next four differs. */
  method ReverseTail(data: seq<byte>, p: nat, iLow: nat, word: seq<byte>, n0: nat) returns (n: nat)
    requires |word| == 4 && iLow + n0 <= p <= |data| && n0 % 4 == 0 && Precedes(data, p, n0, word)
    requires p - n0 < iLow + 4 || exists b :: 0 <= b < 4 && data[p - n0 - 4 + b] != word[b]
    ensures iLow + n <= p && Precedes(data, p, n, word) && !PrecedesMore(data, p, n, iLow, word)
  {
    var more := 0;
    while p - n0 - more > iLow && data[p - n0 - more - 1] == word[3 - more]
      invariant 0 <= more <= 3 && iLow + n0 + more <= p
      invariant forall k :: p - n0 - more <= k < p - n0 ==> data[k] == word[4 - (p - n0 - k)]
    {
      if more == 3 {
        var b :| 0 <= b < 4 && data[p - n0 - 4 + b] != word[b];
        assert false;
      }
      more := more + 1;
    }
    n := n0 + more;
    PrecedesTail(data, p, n0, more, word);
    if iLow < p - n {
      PhaseBelow(n0, more);
      assert (p - 1 - (p - n - 1)) % 4 == more;
    }
  }

  lemma PrecedesTail(data: seq<byte>, p: nat, n0: nat, more: nat, word: seq<byte>)
    requires |word| == 4 && n0 % 4 == 0 && Precedes(data, p, n0, word) && more <= 3 && n0 + more <= p
    requires forall k :: p - n0 - more <= k < p - n0 ==> data[k] == word[4 - (p - n0 - k)]
    ensures Precedes(data, p, n0 + more, word)
  {
    forall k | p - n0 - more <= k < p
      ensures data[k] == word[3 - (p - 1 - k) % 4]
    {
      if k < p - n0 {
        PhaseBelow(n0, p - 1 - k - n0);
      }
    }
  }

  lemma PhaseBelow(n: nat, j: nat)
    requires n % 4 == 0 && j < 4
    ensures (n + j) % 4 == j
  {
  }

  lemma WordDiffers(data: seq<byte>, p: nat, word: seq<byte>)
    requires |word| == 4 && p + 4 <= |data| && data[p..p + 4] != word
    ensures exists b :: 0 <= b < 4 && data[p + b] != word[b]
  {
    var w := data[p..p + 4];
    assert w[0] != word[0] || w[1] != word[1] || w[2] != word[2] || w[3] != word[3];
    var b :| 0 <= b < 4 && w[b] != word[b];
    assert data[p + b] != word[b];
  }

  lemma PrecedesWord(data: seq<byte>, p: nat, n: nat, word: seq<byte>)
    requires |word| == 4 && n % 4 == 0 && Precedes(data, p, n, word) && n + 4 <= p
    requires data[p - n - 4..p - n] == word
    ensures Precedes(data, p, n + 4, word)
  {
    var w := data[p - n - 4..p - n];
    assert w[0] == data[p - n - 4] && w[1] == data[p - n - 3] && w[2] == data[p - n - 2] && w[3] == data[p - n - 1];
  }

  // ----- Runs -----

  /** An input of one byte repeated. */
  ghost predicate OneByte(data: seq<byte>) {
    forall k :: 0 <= k < |data| ==> data[k] == data[0]
  }
}
