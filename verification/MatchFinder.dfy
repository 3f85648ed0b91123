/** LZ4HC_InsertAndGetWiderMatch (lz4hc.c), in single prefix mode and without an attached dictionary. */
module MatchFinder {
  import opened BlockFormat
  import opened Matching
  import opened HashChain
  import opened Sizes


  datatype Repeat = Untested | NotRepeating | Confirmed

  /** The fixed arguments of one search. Positions count from the start of the prefix. */
  datatype Request = Request(ip: nat, iLow: nat, iHigh: nat, patternAnalysis: bool, chainSwap: bool, favorDecSpeed: bool)

  /** The local variables of the search loop. `matchPos` and `startPos` mean something once a match was found. */
  datatype Search = Search(matchIndex: nat, nbAttempts: nat, longest: nat, matchPos: int, startPos: int,
                           chainPos: nat, repeat: Repeat, srcPatternLength: nat)

  /** What lz4hc.c demands of a search: room for a minimal match, and a target longer than the look-back. */
  ghost predicate RequestOk(data: seq<byte>, r: Request, longest: nat) {
    && r.iLow <= r.ip && r.ip + MIN_MATCH <= r.iHigh < |data|
    && r.ip - r.iLow < longest && r.iLow + longest < |data|
    && (r.chainSwap ==> r.iLow == r.ip)
  }

  /** A match that covers `ip`, starts at or after `iLow` and ends by `iHigh`. */
  ghost predicate Covers(data: seq<byte>, r: Request, startPos: int, matchPos: int, length: int) {
    && IsMatch(data, startPos, matchPos, length)
    && r.iLow <= startPos <= r.ip && startPos + length <= r.iHigh
    && r.ip + MIN_MATCH <= startPos + length
  }

  /** No match of `ip` with the position `m` is longer than `longest`, however far it is widened within the limits. */
  ghost predicate Unbeaten(data: seq<byte>, r: Request, m: int, longest: int) {
    forall startPos, matchPos, length ::
      Covers(data, r, startPos, matchPos, length) && startPos - matchPos == r.ip - m ==> length <= longest
  }

  /** With favorDecSpeed, matches of small offsets are passed over. */
  predicate Passed(r: Request, m: int) {
    r.favorDecSpeed && r.ip - m < 8
  }

  lemma UnbeatenByMore(data: seq<byte>, r: Request, m: int, longest: int, longer: int)
    requires Unbeaten(data, r, m, longest) && longest <= longer
    ensures Unbeaten(data, r, m, longer)
  {
  }

  /** The quick tests fail only for matches that are not longer. */
  lemma QuickTests(data: seq<byte>, r: Request, m: nat, longest: nat)
    requires RequestOk(data, r, longest) && m < r.ip
    requires !SameWord(data, r.iLow + longest - 1, m - (r.ip - r.iLow) + longest - 1, 2) || !SameWord(data, r.ip, m, MIN_MATCH)
    ensures Unbeaten(data, r, m, longest)
  {
    forall startPos, matchPos, length
      | Covers(data, r, startPos, matchPos, length) && startPos - matchPos == r.ip - m
      ensures length <= longest
    {
      if length > longest {
        var at := r.iLow + longest - 1;
        SameWordRepeats(data, at, at - (r.ip - m), 2);
        SameWordRepeats(data, r.ip, m, MIN_MATCH);
      }
    }
  }

  /** What was counted in both directions is all there is. */
  lemma CountedAll(data: seq<byte>, r: Request, m: nat, back: nat, more: nat)
    requires r.iLow <= r.ip && m < r.ip && r.ip + MIN_MATCH <= r.iHigh < |data|
    requires CommonLength(data, r.ip + MIN_MATCH, m + MIN_MATCH, r.iHigh, more)
    requires back <= r.ip - r.iLow && back <= m
    requires back < r.ip - r.iLow && back < m ==> data[r.ip - back - 1] != data[m - back - 1]
    ensures Unbeaten(data, r, m, MIN_MATCH + more + back)
  {
    forall startPos, matchPos, length
      | Covers(data, r, startPos, matchPos, length) && startPos - matchPos == r.ip - m
      ensures length <= MIN_MATCH + more + back
    {
      assert startPos + length <= r.ip + MIN_MATCH + more;
      assert startPos >= r.ip - back;
    }
  }

  /** Whatever is longer than the length asked for is a match. */
  ghost predicate Found(data: seq<byte>, r: Request, longest0: nat, s: Search) {
    && s.longest >= longest0
    && (s.longest > longest0 ==> Covers(data, r, s.startPos, s.matchPos, s.longest))
  }

  /** LZ4HC_protectDictEnd, in 32-bit arithmetic. */
  predicate ProtectDictEnd(dictLimit: nat, matchIndex: nat) {
    (dictLimit - 1 - matchIndex) % U32 >= 3
  }

  lemma ProtectedInPrefix(dictLimit: nat, matchIndex: nat)
    requires dictLimit <= matchIndex <= INDEX_LIMIT
    ensures ProtectDictEnd(dictLimit, matchIndex)
  {
    assert (dictLimit - 1 - matchIndex) % U32 == dictLimit - 1 - matchIndex + U32;
  }

  /** The oldest index a match of `ipIndex` may start at. */
  function LowestMatchIndex(dictLimit: nat, ipIndex: nat): nat {
    if dictLimit + MAX_DISTANCE + 1 > ipIndex then dictLimit else ipIndex - MAX_DISTANCE
  }

  /** Compares one candidate and keeps it when it is longer. Returns the length found, 0 when the quick tests fail. */
  method TryCandidate(data: seq<byte>, r: Request, s: Search, dictLimit: nat, ghost longest0: nat)
    returns (matchLength: nat, s': Search)
    requires RequestOk(data, r, s.longest) && Found(data, r, longest0, s)
    requires LowestMatchIndex(dictLimit, dictLimit + r.ip) <= s.matchIndex < dictLimit + r.ip
    ensures Found(data, r, longest0, s') && s'.longest >= s.longest
    ensures s' == s.(longest := s'.longest, matchPos := s'.matchPos, startPos := s'.startPos)
    ensures RequestOk(data, r, s'.longest)
    ensures !Passed(r, s.matchIndex - dictLimit) ==> Unbeaten(data, r, s.matchIndex - dictLimit, s'.longest)
    ensures matchLength > 0 && r.iLow == r.ip ==> IsMatch(data, r.ip, s.matchIndex - dictLimit, matchLength)
  {
    hide Repeats, SameWord, Unbeaten;
    matchLength, s' := 0, s;
    var m := s.matchIndex - dictLimit;
    if r.favorDecSpeed && dictLimit + r.ip - s.matchIndex < 8 {
      return;
    }
    var at := r.iLow + s.longest - 1;
    if SameWord(data, at, m - (r.ip - r.iLow) + s.longest - 1, 2) {
      if SameWord(data, r.ip, m, MIN_MATCH) {
        var back := 0;
        if r.ip != r.iLow {
          back := CountBack(data, r.ip, m, r.iLow, 0);
        }
        var more := Count(data, r.ip + MIN_MATCH, m + MIN_MATCH, r.iHigh);
        Widened(data, r.ip, m, back, more, r.iHigh);
        CountedAll(data, r, m, back, more);
        matchLength := MIN_MATCH + more + back;
        if matchLength > s.longest {
          s' := s.(longest := matchLength, matchPos := m - back, startPos := r.ip - back);
        } else {
          UnbeatenByMore(data, r, m, matchLength, s.longest);
        }
        return;
      }
    }
    QuickTests(data, r, m, s.longest);
  }

  /** Equal words, extended on both sides, make one match. */
  lemma Widened(data: seq<byte>, ip: nat, m: nat, back: nat, more: nat, limit: nat)
    requires m < ip && ip - m <= MAX_DISTANCE && ip + MIN_MATCH <= limit <= |data| && back <= m
    requires SameWord(data, ip, m, MIN_MATCH) && Repeats(data, ip - back, ip, ip - m)
    requires CommonLength(data, ip + MIN_MATCH, m + MIN_MATCH, limit, more)
    ensures IsMatch(data, ip - back, m - back, MIN_MATCH + more + back)
  {
    SameWordRepeats(data, ip, m, MIN_MATCH);
  }

  // ----- Nothing is lost -----

  /** A search forward only, for any offset. */
  predicate Forward(r: Request) {
    r.iLow == r.ip && !r.favorDecSpeed
  }

  /** The chain entry of every position of the window is exact. */
  ghost predicate LinksOk(hash: seq<byte> -> nat, data: seq<byte>, r: Request, dictLimit: nat, table: seq<nat>)
    requires r.ip + 4 <= |data|
  {
    && |table| == CHAIN_SIZE
    && forall idx :: LowestMatchIndex(dictLimit, dictLimit + r.ip) <= idx < dictLimit + r.ip ==>
         LinkExact(hash, data, dictLimit, idx, table[idx % CHAIN_SIZE])
  }

  /** The words `k` bytes behind the position `idx` and behind `ip` have the same hash. */
  ghost predicate SameHash(hash: seq<byte> -> nat, data: seq<byte>, r: Request, dictLimit: nat, idx: int, k: nat) {
    && dictLimit <= idx && idx + k - dictLimit + 4 <= |data| && r.ip + k + 4 <= |data|
    && SlotOf(hash, WordAt(data, dictLimit, idx + k)) == SlotOf(hash, data[r.ip + k..r.ip + k + 4])
  }

  /** Every match of `ip` that is longer than `longest` is with a position up to `top`. */
  ghost predicate LeftBelow(data: seq<byte>, r: Request, dictLimit: nat, longest: int, top: int) {
    forall m, length :: Covers(data, r, r.ip, m, length) && length > longest ==> m + dictLimit <= top
  }

  /** A match that reaches `k + 4` bytes has the same word there. */
  lemma MatchHasWord(hash: seq<byte> -> nat, data: seq<byte>, r: Request, dictLimit: nat, m: nat, length: nat, k: nat)
    requires IsMatch(data, r.ip, m, length) && k + 4 <= length
    ensures SameHash(hash, data, r, dictLimit, dictLimit + m, k)
  {
    assert WordAt(data, dictLimit, dictLimit + m + k) == data[r.ip + k..r.ip + k + 4];
  }

  /**
    The chain of the word `k` bytes behind a candidate leads to the next one, if
    matches have to reach that far: no longer match is passed over.
  */
  lemma LinkLosesNothing(hash: seq<byte> -> nat, data: seq<byte>, r: Request, dictLimit: nat, table: seq<nat>, longest: nat, idx: nat, k: nat)
    requires r.ip + 4 <= r.iHigh < |data| && LinksOk(hash, data, r, dictLimit, table) && SameHash(hash, data, r, dictLimit, idx, k)
    requires LowestMatchIndex(dictLimit, dictLimit + r.ip) <= idx && idx + k < dictLimit + r.ip && (k > 0 ==> k + 4 <= longest)
    requires LeftBelow(data, r, dictLimit, longest, idx - 1)
    ensures var next := idx - table[(idx + k) % CHAIN_SIZE];
      && next < idx && LeftBelow(data, r, dictLimit, longest, next)
      && (next >= LowestMatchIndex(dictLimit, dictLimit + r.ip) ==> SameHash(hash, data, r, dictLimit, next, k))
  {
    var slot := SlotOf(hash, WordAt(data, dictLimit, idx + k));
    var link := table[(idx + k) % CHAIN_SIZE];
    assert LinkExact(hash, data, dictLimit, idx + k, link);
    var previous := Latest(hash, data, dictLimit, slot, idx + k);
    forall m, length | Covers(data, r, r.ip, m, length) && length > longest ensures m + dictLimit <= idx - link {
      MatchHasWord(hash, data, r, dictLimit, m, length, k);
      assert previous >= m + dictLimit + k;
    }
  }

  /** Before a candidate is compared: what has been found, or is certain to be found with it, beats all matches with later positions. */
  ghost predicate Ahead(hash: seq<byte> -> nat, data: seq<byte>, r: Request, dictLimit: nat, s: Search, promise: nat) {
    && s.matchIndex + s.chainPos < dictLimit + r.ip && (s.chainPos > 0 ==> s.chainPos + 4 <= s.longest)
    && (s.matchIndex >= LowestMatchIndex(dictLimit, dictLimit + r.ip) ==> SameHash(hash, data, r, dictLimit, s.matchIndex, s.chainPos))
    && (promise > 0 ==> s.matchIndex >= LowestMatchIndex(dictLimit, dictLimit + r.ip)
                        && Covers(data, r, r.ip, s.matchIndex - dictLimit, promise))
    && LeftBelow(data, r, dictLimit, Max(s.longest, promise), s.matchIndex)
  }

  /** After it has been compared. */
  ghost predicate Behind(hash: seq<byte> -> nat, data: seq<byte>, r: Request, dictLimit: nat, s: Search, matchLength: nat) {
    && s.matchIndex + s.chainPos < dictLimit + r.ip && (s.chainPos > 0 ==> s.chainPos + 4 <= s.longest)
    && SameHash(hash, data, r, dictLimit, s.matchIndex, s.chainPos)
    && LeftBelow(data, r, dictLimit, s.longest, s.matchIndex - 1)
    && (matchLength > 0 ==> IsMatch(data, r.ip, s.matchIndex - dictLimit, matchLength))
  }

  /** The comparison: what was promised has been found. */
  lemma ComparedHere(hash: seq<byte> -> nat, data: seq<byte>, r: Request, dictLimit: nat, s: Search, promise: nat, s': Search, matchLength: nat)
    requires Ahead(hash, data, r, dictLimit, s, promise) && s.matchIndex >= LowestMatchIndex(dictLimit, dictLimit + r.ip)
    requires r.iLow == r.ip && s'.longest >= s.longest && s' == s.(longest := s'.longest, matchPos := s'.matchPos, startPos := s'.startPos)
    requires Unbeaten(data, r, s.matchIndex - dictLimit, s'.longest)
    requires matchLength > 0 ==> IsMatch(data, r.ip, s.matchIndex - dictLimit, matchLength)
    ensures Behind(hash, data, r, dictLimit, s', matchLength)
  {
    if promise > 0 {
      assert Covers(data, r, r.ip, s.matchIndex - dictLimit, promise);
      assert promise <= s'.longest;
    }
  }

  /** The next link. */
  lemma NextLinkAhead(hash: seq<byte> -> nat, data: seq<byte>, r: Request, dictLimit: nat, table: seq<nat>, s: Search, matchLength: nat, s': Search)
    requires r.ip + 4 <= r.iHigh < |data| && LinksOk(hash, data, r, dictLimit, table)
    requires s.matchIndex >= LowestMatchIndex(dictLimit, dictLimit + r.ip) && Behind(hash, data, r, dictLimit, s, matchLength)
    requires table[(s.matchIndex + s.chainPos) % CHAIN_SIZE] <= s.matchIndex && s'.longest == s.longest
    requires s'.matchIndex == s.matchIndex - table[(s.matchIndex + s.chainPos) % CHAIN_SIZE] && s'.chainPos == s.chainPos
    ensures Ahead(hash, data, r, dictLimit, s', 0) && s'.matchIndex < s.matchIndex
  {
    hide LinksOk, SameHash, LeftBelow;
    LinkLosesNothing(hash, data, r, dictLimit, table, s.longest, s.matchIndex, s.chainPos);
  }

  /** Another chain, for a candidate that matches over the whole length. */
  lemma SwapAhead(hash: seq<byte> -> nat, data: seq<byte>, r: Request, dictLimit: nat, table: seq<nat>, s: Search, matchLength: nat, s': Search)
    requires r.ip + 4 <= r.iHigh < |data| && LinksOk(hash, data, r, dictLimit, table)
    requires s.matchIndex >= LowestMatchIndex(dictLimit, dictLimit + r.ip) && Behind(hash, data, r, dictLimit, s, matchLength)
    requires matchLength == s.longest > 0 && s.matchIndex + s.longest <= dictLimit + r.ip && s'.chainPos + 4 <= s.longest
    requires table[(s.matchIndex + s'.chainPos) % CHAIN_SIZE] <= s.matchIndex && s'.longest == s.longest
    requires s'.matchIndex == s.matchIndex - table[(s.matchIndex + s'.chainPos) % CHAIN_SIZE]
    ensures Ahead(hash, data, r, dictLimit, s', 0) && s'.matchIndex < s.matchIndex
  {
    hide LinksOk, SameHash, LeftBelow;
    MatchHasWord(hash, data, r, dictLimit, s.matchIndex - dictLimit, s.longest, s'.chainPos);
    LinkLosesNothing(hash, data, r, dictLimit, table, s.longest, s.matchIndex, s'.chainPos);
  }

  // ----- Better chains -----

  /** How far the chain `k` positions on from `idx` jumps. */
  function Jump(chainTable: array<nat>, idx: nat, k: nat): nat
    requires chainTable.Length == CHAIN_SIZE
    reads chainTable
  {
    chainTable[(idx + k) % CHAIN_SIZE]
  }

  /**
    The scan of the chain-swap heuristic: among the positions of the current
    match, one whose chain jumps as far as that of any other it looks at; these
    are the first 17, and then fewer and fewer. Any choice is sound, because
    every candidate is compared before it is used.
  */
  method BestChain(chainTable: array<nat>, matchIndex: nat, longest: nat, chainPos0: nat)
    returns (distanceToNextMatch: nat, chainPos: nat)
    requires chainTable.Length == CHAIN_SIZE
    requires forall k :: 0 <= k < CHAIN_SIZE ==> chainTable[k] <= MAX_DISTANCE
    ensures 1 <= distanceToNextMatch <= MAX_DISTANCE
    ensures if distanceToNextMatch == 1 then chainPos == chainPos0
            else chainPos < longest - MIN_MATCH + 1 && distanceToNextMatch == Jump(chainTable, matchIndex, chainPos)
    ensures forall k :: 0 <= k <= 16 && k < longest - MIN_MATCH + 1 ==> Jump(chainTable, matchIndex, k) <= distanceToNextMatch
  {
    distanceToNextMatch, chainPos := 1, chainPos0;
    var step, accel := 1, 16;
    var pos := 0;
    while pos < longest - MIN_MATCH + 1
      invariant pos >= 0 && step >= 1 && accel >= 16
      invariant 1 <= distanceToNextMatch <= MAX_DISTANCE
      invariant if distanceToNextMatch == 1 then chainPos == chainPos0
                else chainPos < longest - MIN_MATCH + 1 && distanceToNextMatch == Jump(chainTable, matchIndex, chainPos)
      invariant pos <= 16 ==> accel <= 16 + pos
      invariant forall k :: 0 <= k <= 16 && k < pos ==> Jump(chainTable, matchIndex, k) <= distanceToNextMatch
      decreases longest - pos
    {
      var candidateDist := Jump(chainTable, matchIndex, pos);
      step, accel := accel / 16, accel + 1;
      if candidateDist > distanceToNextMatch {
        distanceToNextMatch := candidateDist;
        chainPos := pos;
        accel := 16;
      }
      pos := pos + step;
    }
  }

  // ----- Repeated patterns -----

  predicate OneByteWord(w: seq<byte>) {
    |w| == 4 && w[0] == w[2] && w[1] == w[3] && w[0] == w[3]
  }

  /** A region of bytes all equal to the one repeated in `w`. */
  ghost predicate AllPattern(data: seq<byte>, p: nat, upto: nat, w: seq<byte>)
    requires OneByteWord(w)
  {
    p <= upto <= |data| && forall k :: p <= k < upto ==> data[k] == w[0]
  }

  lemma PatternWord(data: seq<byte>, p: nat, w: seq<byte>)
    requires OneByteWord(w) && p + 4 <= |data| && data[p..p + 4] == w
    ensures AllPattern(data, p, p + 4, w)
  {
    assert data[p] == w[0] && data[p + 1] == w[1] && data[p + 2] == w[2] && data[p + 3] == w[3];
  }

  lemma PatternForward(data: seq<byte>, p: nat, n: nat, w: seq<byte>)
    requires OneByteWord(w) && Continues(data, p, n, w)
    ensures AllPattern(data, p, p + n, w)
  {
  }

  lemma PatternBackward(data: seq<byte>, p: nat, n: nat, w: seq<byte>)
    requires OneByteWord(w) && Precedes(data, p, n, w)
    ensures AllPattern(data, p - n, p, w)
  {
  }

  /** Two runs of the same byte are equal, so a length taken from counts alone is a match. */
  lemma RunsMatch(data: seq<byte>, s: nat, m: nat, n: nat, w: seq<byte>)
    requires OneByteWord(w) && m < s && s - m <= MAX_DISTANCE
    requires AllPattern(data, s, s + n, w) && AllPattern(data, m, m + n, w)
    ensures IsMatch(data, s, m, n)
  {
  }

  /** The run of the pattern at `ip`, counted once per search. */
  ghost predicate SourceRun(data: seq<byte>, r: Request, s: Search) {
    r.ip + 4 <= |data| &&
    (s.repeat.Confirmed? ==>
       && r.ip + s.srcPatternLength <= r.iHigh && s.srcPatternLength >= 4
       && OneByteWord(data[r.ip..r.ip + 4])
       && AllPattern(data, r.ip, r.ip + s.srcPatternLength, data[r.ip..r.ip + 4])
       && EndsAt(data, r.ip + s.srcPatternLength, r.iHigh, data[r.ip]))
  }

  /** A run of `b` goes no further: there is another byte, or the limit. */
  ghost predicate EndsAt(data: seq<byte>, p: nat, limit: nat, b: byte) {
    p <= limit <= |data| && (p < limit ==> data[p] != b)
  }

  /** Decides, once per search, whether the source repeats one byte. */
  method TestRepeat(data: seq<byte>, r: Request, s: Search) returns (s': Search)
    requires r.ip + MIN_MATCH <= r.iHigh < |data| && SourceRun(data, r, s)
    ensures s' == s.(repeat := s'.repeat, srcPatternLength := s'.srcPatternLength)
    ensures SourceRun(data, r, s') && !s'.repeat.Untested?
  {
    s' := s;
    if s.repeat.Untested? {
      var w := data[r.ip..r.ip + 4];
      if OneByteWord(w) {
        var n := CountPattern(data, r.ip + 4, r.iHigh, w);
        PatternWord(data, r.ip, w);
        PatternForward(data, r.ip + 4, n, w);
        s' := s.(repeat := Confirmed, srcPatternLength := n + 4);
      } else {
        s' := s.(repeat := NotRepeating);
      }
    }
  }

  datatype Step = GoOn | Stop | NotHandled

  /** The candidate run around `candidate`: how far it reaches forward and, no further than `lowest`, backward. */
  method MeasureRun(data: seq<byte>, r: Request, candidate: nat, dictLimit: nat, lowest: nat, w: seq<byte>)
    returns (forward: nat, back: nat)
    requires OneByteWord(w) && r.ip + MIN_MATCH <= r.iHigh < |data|
    requires dictLimit <= lowest <= candidate < dictLimit + r.ip
    requires data[candidate - dictLimit..candidate - dictLimit + 4] == w
    ensures forward >= 4 && lowest <= candidate - back
    ensures AllPattern(data, candidate - dictLimit - back, candidate - dictLimit + forward, w)
    ensures EndsAt(data, candidate - dictLimit + forward, r.iHigh, w[0])
  {
    var m := candidate - dictLimit;
    var n := CountPattern(data, m + 4, r.iHigh, w);
    forward := n + 4;
    var b := ReverseCountPattern(data, m, 0, w);
    var start := candidate - b;
    if start < lowest {
      start := lowest;
    }
    back := candidate - start;
    PatternWord(data, m, w);
    PatternForward(data, m + 4, n, w);
    PatternBackward(data, m, b, w);
  }

  /** The run around `candidate`, and where it ends. */
  ghost predicate CandidateRun(data: seq<byte>, r: Request, dictLimit: nat, candidate: nat, forward: nat, back: nat)
    requires r.ip + 4 <= |data|
  {
    && OneByteWord(data[r.ip..r.ip + 4]) && dictLimit <= candidate - back && forward >= 4
    && AllPattern(data, candidate - dictLimit - back, candidate - dictLimit + forward, data[r.ip..r.ip + 4])
    && EndsAt(data, candidate - dictLimit + forward, r.iHigh, data[r.ip])
  }

  /** The run is long enough: no position of it is better than the one from which it ends with the source's. */
  lemma RunJumpAhead(hash: seq<byte> -> nat, data: seq<byte>, r: Request, dictLimit: nat, s: Search, matchLength: nat,
                     candidate: nat, forward: nat, back: nat, s': Search)
    requires r.ip + 4 <= r.iHigh < |data| && SourceRun(data, r, s) && s.repeat.Confirmed? && r.iLow == r.ip
    requires CandidateRun(data, r, dictLimit, candidate, forward, back) && LowestMatchIndex(dictLimit, dictLimit + r.ip) <= candidate - back
    requires Behind(hash, data, r, dictLimit, s, matchLength) && candidate == s.matchIndex - 1 && s.chainPos == 0
    requires back + forward >= s.srcPatternLength >= forward && s' == s.(matchIndex := candidate + forward - s.srcPatternLength)
    ensures Ahead(hash, data, r, dictLimit, s', s.srcPatternLength) && s'.matchIndex < s.matchIndex
  {
    var n, c := s.srcPatternLength, candidate - dictLimit;
    var m0 := c + forward - n;
    RunsMatch(data, r.ip, m0, n, data[r.ip..r.ip + 4]);
    MatchHasWord(hash, data, r, dictLimit, m0, n, 0);
    forall m, length | Covers(data, r, r.ip, m, length) && length > Max(s.longest, n) ensures m <= m0 {
      var d := c + forward - m;
      assert 0 <= d < length ==> data[r.ip + d] == data[m + d];
      assert m <= m0;
    }
  }

  /** It is not, or goes on for longer: no position of it gives more than the lengths say. */
  lemma RunIsWorth(data: seq<byte>, r: Request, dictLimit: nat, s: Search, candidate: nat, forward: nat, back: nat, longest: nat)
    requires r.ip + 4 <= r.iHigh < |data| && SourceRun(data, r, s) && s.repeat.Confirmed? && r.iLow == r.ip
    requires CandidateRun(data, r, dictLimit, candidate, forward, back) && candidate < dictLimit + r.ip
    requires LeftBelow(data, r, dictLimit, s.longest, candidate) && longest >= s.longest && longest >= Min(back + forward, s.srcPatternLength)
    requires back + forward < s.srcPatternLength || forward > s.srcPatternLength
    ensures LeftBelow(data, r, dictLimit, longest, candidate - back - 1)
  {
    var n, c := s.srcPatternLength, candidate - dictLimit;
    forall m, length | Covers(data, r, r.ip, m, length) && length > longest ensures m + dictLimit <= candidate - back - 1 {
      assert m <= c;
      var d := if back + forward < n then c + forward - m else n;
      assert 0 <= d < length ==> data[r.ip + d] == data[m + d];
      assert m < c - back;
    }
  }

  lemma RunStart(hash: seq<byte> -> nat, data: seq<byte>, r: Request, dictLimit: nat, s: Search, candidate: nat, forward: nat, back: nat)
    requires r.ip + 4 <= r.iHigh < |data| && SourceRun(data, r, s) && s.repeat.Confirmed? && candidate < dictLimit + r.ip
    requires CandidateRun(data, r, dictLimit, candidate, forward, back) && LowestMatchIndex(dictLimit, dictLimit + r.ip) <= candidate - back
    ensures SameHash(hash, data, r, dictLimit, candidate - back, 0)
  {
    var m0 := candidate - back - dictLimit;
    RunsMatch(data, r.ip, m0, 4, data[r.ip..r.ip + 4]);
    MatchHasWord(hash, data, r, dictLimit, m0, 4, 0);
  }

  /** So the search goes on behind it. */
  lemma RunSkipAhead(hash: seq<byte> -> nat, data: seq<byte>, r: Request, dictLimit: nat, table: seq<nat>, s: Search, matchLength: nat,
                     candidate: nat, forward: nat, back: nat, s': Search)
    requires r.ip + 4 <= r.iHigh < |data| && SourceRun(data, r, s) && s.repeat.Confirmed? && r.iLow == r.ip
    requires CandidateRun(data, r, dictLimit, candidate, forward, back) && LowestMatchIndex(dictLimit, dictLimit + r.ip) <= candidate - back
    requires Behind(hash, data, r, dictLimit, s, matchLength) && candidate == s.matchIndex - 1 && s.chainPos == 0
    requires back + forward < s.srcPatternLength || forward > s.srcPatternLength
    requires LinksOk(hash, data, r, dictLimit, table) && table[(candidate - back) % CHAIN_SIZE] <= candidate - back
    requires s'.longest == Max(s.longest, Min(back + forward, s.srcPatternLength)) && s'.chainPos == 0
    requires s'.matchIndex == candidate - back - table[(candidate - back) % CHAIN_SIZE]
    ensures Ahead(hash, data, r, dictLimit, s', 0) && s'.matchIndex < s.matchIndex
  {
    hide LinksOk, SameHash, LeftBelow, CandidateRun, SourceRun;
    RunStart(hash, data, r, dictLimit, s, candidate, forward, back);
    RunIsWorth(data, r, dictLimit, s, candidate, forward, back, s'.longest);
    LinkLosesNothing(hash, data, r, dictLimit, table, s'.longest, candidate - back, 0);
  }

  /** Moves to the best place inside a run of the pattern; when no look-back is possible, its length is already known. */
  method UseRun(data: seq<byte>, r: Request, s: Search, chainTable: array<nat>, dictLimit: nat, lowest: nat,
                candidate: nat, forward: nat, back: nat, ghost longest0: nat) returns (step: Step, s': Search)
    requires chainTable.Length == CHAIN_SIZE && dictLimit + |data| <= INDEX_LIMIT
    requires RequestOk(data, r, s.longest) && Found(data, r, longest0, s) && SourceRun(data, r, s) && s.repeat.Confirmed?
    requires dictLimit <= lowest == LowestMatchIndex(dictLimit, dictLimit + r.ip)
    requires candidate < dictLimit + r.ip && forward >= 4 && lowest <= candidate - back
    requires AllPattern(data, candidate - dictLimit - back, candidate - dictLimit + forward, data[r.ip..r.ip + 4])
    ensures !step.NotHandled? && Found(data, r, longest0, s') && SourceRun(data, r, s') && RequestOk(data, r, s'.longest)
    ensures s'.matchIndex < dictLimit + r.ip && s'.nbAttempts == s.nbAttempts && s'.longest >= s.longest
    ensures r.iLow == r.ip && (forall k :: 0 <= k < CHAIN_SIZE ==> chainTable[k] < dictLimit) ==>
      if back + forward >= s.srcPatternLength >= forward then
        step.GoOn? && s' == s.(matchIndex := candidate + forward - s.srcPatternLength)
      else
        && step.GoOn? && s'.chainPos == s.chainPos && s'.longest == Max(s.longest, Min(back + forward, s.srcPatternLength))
        && s'.matchIndex == candidate - back - chainTable[(candidate - back) % CHAIN_SIZE]
  {
    var segment := back + forward;
    step := GoOn;
    if segment >= s.srcPatternLength && forward <= s.srcPatternLength {
      var newMatchIndex := candidate + forward - s.srcPatternLength;
      ProtectedInPrefix(dictLimit, newMatchIndex);
      s' := s.(matchIndex := if ProtectDictEnd(dictLimit, newMatchIndex) then newMatchIndex else dictLimit);
    } else {
      var newMatchIndex := candidate - back;
      ProtectedInPrefix(dictLimit, newMatchIndex);
      if !ProtectDictEnd(dictLimit, newMatchIndex) {
        s' := s.(matchIndex := dictLimit);
      } else {
        s' := s.(matchIndex := newMatchIndex);
        if r.ip == r.iLow {
          var maxML := Min(segment, s.srcPatternLength);
          if s.longest < maxML {
            if dictLimit + r.ip - newMatchIndex > MAX_DISTANCE {
              step := Stop;
              return;
            }
            RunsMatch(data, r.ip, newMatchIndex - dictLimit, maxML, data[r.ip..r.ip + 4]);
            s' := s'.(longest := maxML, matchPos := newMatchIndex - dictLimit, startPos := r.ip);
          }
          var distToNextPattern := chainTable[newMatchIndex % CHAIN_SIZE];
          if distToNextPattern > newMatchIndex {
            step := Stop;
            return;
          }
          s' := s'.(matchIndex := newMatchIndex - distToNextPattern);
        }
      }
    }
  }

  /** The pattern-analysis block of the search loop. */
  method PatternStep(data: seq<byte>, r: Request, s: Search, chainTable: array<nat>, dictLimit: nat, lowest: nat, ghost longest0: nat,
                     ghost hash: seq<byte> -> nat, ghost matchLength: nat)
    returns (step: Step, s': Search, ghost promise: nat)
    requires chainTable.Length == CHAIN_SIZE && 1 <= dictLimit && dictLimit + |data| <= INDEX_LIMIT
    requires RequestOk(data, r, s.longest) && Found(data, r, longest0, s) && SourceRun(data, r, s)
    requires dictLimit <= lowest == LowestMatchIndex(dictLimit, dictLimit + r.ip)
    requires lowest <= s.matchIndex < dictLimit + r.ip
    ensures Found(data, r, longest0, s') && SourceRun(data, r, s') && RequestOk(data, r, s'.longest)
    ensures s'.matchIndex < dictLimit + r.ip && s'.nbAttempts == s.nbAttempts && s'.longest >= s.longest
    ensures step.NotHandled? ==> s'.matchIndex == s.matchIndex && s'.chainPos == s.chainPos && s'.longest == s.longest
    ensures (forall k :: 0 <= k < CHAIN_SIZE ==> chainTable[k] < dictLimit) && Forward(r) && s.chainPos == 0 && !step.NotHandled?
            && LinksOk(hash, data, r, dictLimit, chainTable[..]) && Behind(hash, data, r, dictLimit, s, matchLength) ==>
      step.GoOn? && Ahead(hash, data, r, dictLimit, s', promise) && s'.matchIndex < s.matchIndex
  {
    hide Covers, LinksOk, SameHash, LeftBelow;
    promise := 0;
    s' := TestRepeat(data, r, s);
    var candidate := s.matchIndex - 1;
    if s'.repeat.Confirmed? && candidate >= lowest && ProtectDictEnd(dictLimit, candidate) {
      var w := data[r.ip..r.ip + 4];
      if data[candidate - dictLimit..candidate - dictLimit + 4] == w {
        var forward, back := MeasureRun(data, r, candidate, dictLimit, lowest, w);
        ghost var tested := s';
        step, s' := UseRun(data, r, s', chainTable, dictLimit, lowest, candidate, forward, back, longest0);
        if (forall k :: 0 <= k < CHAIN_SIZE ==> chainTable[k] < dictLimit) && Forward(r) && s.chainPos == 0
          && LinksOk(hash, data, r, dictLimit, chainTable[..]) && Behind(hash, data, r, dictLimit, s, matchLength)
        {
          if back + forward >= tested.srcPatternLength >= forward {
            RunJumpAhead(hash, data, r, dictLimit, tested, matchLength, candidate, forward, back, s');
            promise := tested.srcPatternLength;
          } else {
            RunSkipAhead(hash, data, r, dictLimit, chainTable[..], tested, matchLength, candidate, forward, back, s');
          }
        }
        return;
      }
    }
    step := NotHandled;
  }

  // ----- The search -----

  /** A search that follows one chain, link by link. */
  predicate Plain(r: Request) {
    !r.patternAnalysis && !r.chainSwap
  }

  /** The candidates of a search, as the tables have them: the chain from `matchIndex` on. */
  ghost function Chain(data: seq<byte>, r: Request, matchIndex: int, chainTable: array<nat>, dictLimit: nat): seq<int>
    requires chainTable.Length == CHAIN_SIZE
    reads chainTable
  {
    Walk(chainTable[..], matchIndex, LowestMatchIndex(dictLimit, dictLimit + r.ip))
  }

  /** Of the candidates `tried`, none makes a longer match. */
  ghost predicate NoneBeats(data: seq<byte>, r: Request, dictLimit: nat, tried: seq<int>, longest: int) {
    forall i :: 0 <= i < |tried| && !Passed(r, tried[i] - dictLimit) ==> Unbeaten(data, r, tried[i] - dictLimit, longest)
  }

  lemma NoneBeatsMore(data: seq<byte>, r: Request, dictLimit: nat, tried: seq<int>, longest: int, longer: int)
    requires NoneBeats(data, r, dictLimit, tried, longest) && longest <= longer
    ensures NoneBeats(data, r, dictLimit, tried, longer)
  {
    forall i | 0 <= i < |tried| && !Passed(r, tried[i] - dictLimit) ensures Unbeaten(data, r, tried[i] - dictLimit, longer) {
      UnbeatenByMore(data, r, tried[i] - dictLimit, longest, longer);
    }
  }

  /** Chooses the next candidate: a better chain, a jump inside a run, or the next link. */
  method NextCandidate(data: seq<byte>, r: Request, s: Search, matchLength: nat, chainTable: array<nat>,
                       dictLimit: nat, lowest: nat, ghost longest0: nat, ghost hash: seq<byte> -> nat)
    returns (stop: bool, s': Search, ghost promise: nat)
    requires chainTable.Length == CHAIN_SIZE && KB64 <= dictLimit && dictLimit + |data| <= INDEX_LIMIT
    requires forall k :: 0 <= k < CHAIN_SIZE ==> chainTable[k] <= MAX_DISTANCE
    requires RequestOk(data, r, s.longest) && Found(data, r, longest0, s) && SourceRun(data, r, s)
    requires dictLimit <= lowest == LowestMatchIndex(dictLimit, dictLimit + r.ip)
    requires lowest <= s.matchIndex < dictLimit + r.ip
    ensures Found(data, r, longest0, s') && SourceRun(data, r, s') && RequestOk(data, r, s'.longest)
    ensures s'.matchIndex < dictLimit + r.ip && s'.nbAttempts == s.nbAttempts && s'.longest >= s.longest
    ensures Plain(r) ==> !stop && s'.chainPos == s.chainPos
                         && s'.matchIndex == s.matchIndex - chainTable[(s.matchIndex + s.chainPos) % CHAIN_SIZE]
    ensures Forward(r) && LinksOk(hash, data, r, dictLimit, chainTable[..]) && Behind(hash, data, r, dictLimit, s, matchLength) ==>
      !stop && Ahead(hash, data, r, dictLimit, s', promise) && s'.matchIndex < s.matchIndex
  {
    hide Covers, SourceRun, LinksOk, Behind, Ahead;
    ghost var thorough := Forward(r) && LinksOk(hash, data, r, dictLimit, chainTable[..]) && Behind(hash, data, r, dictLimit, s, matchLength);
    stop, s', promise := false, s, 0;
    if r.chainSwap && matchLength == s.longest && s.matchIndex + s.longest <= dictLimit + r.ip {
      var distance, chainPos := BestChain(chainTable, s.matchIndex, s.longest, s.chainPos);
      if distance > 1 {
        s' := s.(chainPos := chainPos);
        SourceRunSame(data, r, s, s');
        if distance > s.matchIndex {
          stop := true;
        } else {
          s' := s'.(matchIndex := s.matchIndex - distance);
          SourceRunSame(data, r, s, s');
          if thorough { SwapAhead(hash, data, r, dictLimit, chainTable[..], s, matchLength, s'); }
        }
        return;
      }
    }
    if r.patternAnalysis && chainTable[s.matchIndex % CHAIN_SIZE] == 1 && s.chainPos == 0 {
      var step;
      step, s', promise := PatternStep(data, r, s, chainTable, dictLimit, lowest, longest0, hash, matchLength);
      if !step.NotHandled? {
        stop := step.Stop?;
        return;
      }
    }
    ghost var before := s';
    s' := s'.(matchIndex := s'.matchIndex - chainTable[(s'.matchIndex + s'.chainPos) % CHAIN_SIZE]);
    SourceRunSame(data, r, before, s');
    promise := 0;
    if thorough { NextLinkAhead(hash, data, r, dictLimit, chainTable[..], s, matchLength, s'); }
  }

  lemma SourceRunSame(data: seq<byte>, r: Request, s: Search, s': Search)
    requires SourceRun(data, r, s) && s'.repeat == s.repeat && s'.srcPatternLength == s.srcPatternLength
    ensures SourceRun(data, r, s')
  {
  }

  /** What has been tried of a chain, and what is left of it: a link of 0 leads nowhere. */
  ghost predicate Followed(chain: seq<int>, tried: seq<int>, left: seq<int>, attempts: nat) {
    (chain == tried + left && |tried| == attempts) || (chain == tried && |tried| <= attempts)
  }

  /** One link more. */
  lemma FollowOne(table: seq<nat>, chain: seq<int>, tried: seq<int>, idx: nat, low: nat, attempts: nat)
    requires |table| == CHAIN_SIZE && idx >= low && table[idx % CHAIN_SIZE] <= idx
    requires Followed(chain, tried, Walk(table, idx, low), attempts)
    ensures var next := idx - table[idx % CHAIN_SIZE];
      Followed(chain, tried + [idx], Walk(table, next, low), attempts + 1) || Followed(chain, tried, Walk(table, next, low), attempts + 1)
  {
    var next := idx - table[idx % CHAIN_SIZE];
    if chain == tried + Walk(table, idx, low) && |tried| == attempts {
      if next < idx {
        assert chain == tried + [idx] + Walk(table, next, low);
      } else {
        assert chain == tried + [idx];
      }
    }
  }

  /** At the end, the first `attempts` of the chain have been tried. */
  lemma FollowedToEnd(chain: seq<int>, tried: seq<int>, left: seq<int>, attempts: nat, max: nat)
    requires Followed(chain, tried, left, attempts) && (attempts == max || left == []) && attempts <= max
    ensures First(chain, max) <= tried
  {
  }

  function First(chain: seq<int>, n: nat): seq<int> {
    if |chain| <= n then chain else chain[..n]
  }

  lemma NoneOfFewer(data: seq<byte>, r: Request, dictLimit: nat, tried: seq<int>, some: seq<int>, longest: int)
    requires NoneBeats(data, r, dictLimit, tried, longest) && some <= tried
    ensures NoneBeats(data, r, dictLimit, some, longest)
  {
    hide Unbeaten;
    forall i | 0 <= i < |some| && !Passed(r, some[i] - dictLimit) ensures Unbeaten(data, r, some[i] - dictLimit, longest) {
      assert some[i] == tried[i];
    }
  }

  lemma NoneOfOneMore(data: seq<byte>, r: Request, dictLimit: nat, tried: seq<int>, idx: int, longest: int)
    requires NoneBeats(data, r, dictLimit, tried, longest)
    requires !Passed(r, idx - dictLimit) ==> Unbeaten(data, r, idx - dictLimit, longest)
    ensures NoneBeats(data, r, dictLimit, tried + [idx], longest)
  {
    hide Unbeaten;
  }

  /** The loop over candidates, newest first, for at most `nbAttempts` of them. */
  method SearchChain(data: seq<byte>, r: Request, matchIndex: nat, longest0: nat, maxNbAttempts: nat,
                     chainTable: array<nat>, dictLimit: nat, ghost hash: seq<byte> -> nat)
    returns (longest: nat, matchPos: int, startPos: int)
    requires chainTable.Length == CHAIN_SIZE && KB64 <= dictLimit && dictLimit + |data| <= INDEX_LIMIT
    requires forall k :: 0 <= k < CHAIN_SIZE ==> chainTable[k] <= MAX_DISTANCE
    requires RequestOk(data, r, longest0) && matchIndex < dictLimit + r.ip
    ensures longest >= longest0
    ensures longest > longest0 ==> Covers(data, r, startPos, matchPos, longest)
    ensures maxNbAttempts >= 1 && matchIndex >= LowestMatchIndex(dictLimit, dictLimit + r.ip) && !Passed(r, matchIndex - dictLimit) ==>
      Unbeaten(data, r, matchIndex - dictLimit, longest)
    ensures Plain(r) ==> NoneBeats(data, r, dictLimit, First(Chain(data, r, matchIndex, chainTable, dictLimit), maxNbAttempts), longest)
    ensures Thorough(hash, data, r, dictLimit, chainTable[..], Begin(r, matchIndex, longest0, maxNbAttempts)) ==>
      LongestOfAll(data, r, longest)
  {
    assert r.ip + 4 <= |data|;
    hide Covers, RequestOk, SourceRun, Unbeaten, NoneBeats, PlainSoFar, Walk, LinksOk, Ahead, Behind;
    var lowest := LowestMatchIndex(dictLimit, dictLimit + r.ip);
    var s := Begin(r, matchIndex, longest0, maxNbAttempts);
    ghost var promise := 0;
    ghost var thorough := Thorough(hash, data, r, dictLimit, chainTable[..], s);
    SourceRunUntested(data, r, s, longest0);
    ghost var chain := Chain(data, r, matchIndex, chainTable, dictLimit);
    ghost var tried: seq<int> := [];
    PlainBegins(data, r, dictLimit, chainTable[..], s);
    while s.matchIndex >= lowest && s.nbAttempts > 0
      invariant RequestOk(data, r, s.longest) && Found(data, r, longest0, s) && SourceRun(data, r, s)
      invariant s.matchIndex < dictLimit + r.ip && s.nbAttempts <= maxNbAttempts
      invariant s.nbAttempts == maxNbAttempts ==> s.matchIndex == matchIndex
      invariant s.nbAttempts < maxNbAttempts && !Passed(r, matchIndex - dictLimit) ==> Unbeaten(data, r, matchIndex - dictLimit, s.longest)
      invariant Plain(r) ==> PlainSoFar(data, r, dictLimit, chainTable[..], chain, tried, s, maxNbAttempts)
      invariant thorough ==> Ahead(hash, data, r, dictLimit, s, promise) && s.nbAttempts > s.matchIndex - lowest
      decreases s.nbAttempts
    {
      ghost var before := s;
      var stop;
      stop, s, promise := Turn(data, r, s, chainTable, dictLimit, lowest, longest0, hash, promise);
      if Unbeaten(data, r, matchIndex - dictLimit, before.longest) {
        UnbeatenByMore(data, r, matchIndex - dictLimit, before.longest, s.longest);
      }
      if Plain(r) { tried := PlainTurn(data, r, dictLimit, chainTable[..], chain, tried, before, s, maxNbAttempts); }
      if stop {
        break;
      }
    }
    if Plain(r) { PlainEnd(data, r, dictLimit, chainTable[..], chain, tried, s, maxNbAttempts); }
    if thorough { NoneLeft(hash, data, r, dictLimit, s, promise); }
    return s.longest, s.matchPos, s.startPos;
  }

  /** One turn of the loop: the candidate is compared, and the next one chosen. */
  method Turn(data: seq<byte>, r: Request, s: Search, chainTable: array<nat>, dictLimit: nat, lowest: nat, ghost longest0: nat,
              ghost hash: seq<byte> -> nat, ghost promise: nat) returns (stop: bool, s': Search, ghost promise': nat)
    requires chainTable.Length == CHAIN_SIZE && KB64 <= dictLimit && dictLimit + |data| <= INDEX_LIMIT
    requires forall k :: 0 <= k < CHAIN_SIZE ==> chainTable[k] <= MAX_DISTANCE
    requires RequestOk(data, r, s.longest) && Found(data, r, longest0, s) && SourceRun(data, r, s)
    requires lowest == LowestMatchIndex(dictLimit, dictLimit + r.ip) <= s.matchIndex < dictLimit + r.ip && s.nbAttempts > 0
    ensures RequestOk(data, r, s'.longest) && Found(data, r, longest0, s') && SourceRun(data, r, s')
    ensures s'.matchIndex < dictLimit + r.ip && s'.nbAttempts == s.nbAttempts - 1 && s'.longest >= s.longest
    ensures !Passed(r, s.matchIndex - dictLimit) ==> Unbeaten(data, r, s.matchIndex - dictLimit, s'.longest)
    ensures Plain(r) ==> !stop && s'.chainPos == s.chainPos
                         && s'.matchIndex == s.matchIndex - chainTable[(s.matchIndex + s.chainPos) % CHAIN_SIZE]
    ensures r.ip + 4 <= |data|
    ensures Forward(r) && LinksOk(hash, data, r, dictLimit, chainTable[..]) && Ahead(hash, data, r, dictLimit, s, promise) ==>
      !stop && Ahead(hash, data, r, dictLimit, s', promise') && s'.matchIndex < s.matchIndex
  {
    assert r.ip + 4 <= |data|;
    hide Covers, RequestOk, SourceRun, Unbeaten, LinksOk, Ahead, Behind;
    var matchLength;
    matchLength, s' := TryCandidate(data, r, s.(nbAttempts := s.nbAttempts - 1), dictLimit, longest0);
    SourceRunSame(data, r, s, s');
    ghost var compared := s'.longest;
    if Forward(r) && LinksOk(hash, data, r, dictLimit, chainTable[..]) && Ahead(hash, data, r, dictLimit, s, promise) {
      Compared(hash, data, r, dictLimit, s, promise, s', matchLength);
    }
    stop, s', promise' := NextCandidate(data, r, s', matchLength, chainTable, dictLimit, lowest, longest0, hash);
    if !Passed(r, s.matchIndex - dictLimit) { UnbeatenByMore(data, r, s.matchIndex - dictLimit, compared, s'.longest); }
  }

  /** The search before its first turn. */
  function Begin(r: Request, matchIndex: nat, longest: nat, maxNbAttempts: nat): Search {
    Search(matchIndex, maxNbAttempts, longest, -1, r.ip, 0, Untested, 0)
  }

  /** With exact tables and an attempt for every earlier position of the window. */
  ghost predicate Thorough(hash: seq<byte> -> nat, data: seq<byte>, r: Request, dictLimit: nat, table: seq<nat>, s: Search)
    requires r.ip + 4 <= |data|
  {
    Forward(r) && s.nbAttempts >= Min(r.ip, MAX_DISTANCE) && LinksOk(hash, data, r, dictLimit, table) && Ahead(hash, data, r, dictLimit, s, 0)
  }

  /** No match of `ip` at all is longer. */
  ghost predicate LongestOfAll(data: seq<byte>, r: Request, longest: int) {
    forall startPos, matchPos, length :: Covers(data, r, startPos, matchPos, length) ==> length <= longest
  }

  lemma Compared(hash: seq<byte> -> nat, data: seq<byte>, r: Request, dictLimit: nat, s: Search, promise: nat, s': Search, matchLength: nat)
    requires Ahead(hash, data, r, dictLimit, s, promise) && s.matchIndex >= LowestMatchIndex(dictLimit, dictLimit + r.ip)
    requires Forward(r) && s'.longest >= s.longest
    requires s' == s.(nbAttempts := s'.nbAttempts, longest := s'.longest, matchPos := s'.matchPos, startPos := s'.startPos)
    requires !Passed(r, s.matchIndex - dictLimit) ==> Unbeaten(data, r, s.matchIndex - dictLimit, s'.longest)
    requires matchLength > 0 && r.iLow == r.ip ==> IsMatch(data, r.ip, s.matchIndex - dictLimit, matchLength)
    ensures Behind(hash, data, r, dictLimit, s', matchLength)
  {
    hide SameHash, LeftBelow, Covers, Unbeaten;
    ComparedHere(hash, data, r, dictLimit, s.(nbAttempts := s'.nbAttempts), promise, s', matchLength);
  }

  /** Below the window nothing is left. */
  lemma NoneLeft(hash: seq<byte> -> nat, data: seq<byte>, r: Request, dictLimit: nat, s: Search, promise: nat)
    requires Ahead(hash, data, r, dictLimit, s, promise) && s.matchIndex < LowestMatchIndex(dictLimit, dictLimit + r.ip)
    requires r.iLow == r.ip
    ensures LongestOfAll(data, r, s.longest)
  {
    hide SameHash;
    forall startPos, matchPos, length | Covers(data, r, startPos, matchPos, length) ensures length <= s.longest {
      assert Covers(data, r, r.ip, matchPos, length);
    }
  }

  /** A search without heuristics: what has been tried of the chain, with nothing longer in it, and what is left. */
  ghost predicate PlainSoFar(data: seq<byte>, r: Request, dictLimit: nat, table: seq<nat>, chain: seq<int>, tried: seq<int>, s: Search, max: nat)
    requires |table| == CHAIN_SIZE
  {
    && s.chainPos == 0 && s.nbAttempts <= max && NoneBeats(data, r, dictLimit, tried, s.longest)
    && Followed(chain, tried, Walk(table, s.matchIndex, LowestMatchIndex(dictLimit, dictLimit + r.ip)), max - s.nbAttempts)
  }

  lemma PlainBegins(data: seq<byte>, r: Request, dictLimit: nat, table: seq<nat>, s: Search)
    requires |table| == CHAIN_SIZE && s.chainPos == 0
    ensures PlainSoFar(data, r, dictLimit, table, Walk(table, s.matchIndex, LowestMatchIndex(dictLimit, dictLimit + r.ip)), [], s, s.nbAttempts)
  {
    hide Walk, NoneBeats, Followed;
    TriedNone(data, r, dictLimit, Walk(table, s.matchIndex, LowestMatchIndex(dictLimit, dictLimit + r.ip)), s.longest);
  }

  lemma TriedNone(data: seq<byte>, r: Request, dictLimit: nat, chain: seq<int>, longest: int)
    ensures NoneBeats(data, r, dictLimit, [], longest) && Followed(chain, [], chain, 0)
  {
    hide Unbeaten;
    assert [] + chain == chain;
  }

  /** The candidate of this turn has been compared, and what was found stays at least as long. */
  lemma PlainTurn(data: seq<byte>, r: Request, dictLimit: nat, table: seq<nat>, chain: seq<int>, tried: seq<int>, s: Search, s': Search, max: nat)
    returns (tried': seq<int>)
    requires |table| == CHAIN_SIZE && PlainSoFar(data, r, dictLimit, table, chain, tried, s, max)
    requires s.matchIndex >= LowestMatchIndex(dictLimit, dictLimit + r.ip) && table[s.matchIndex % CHAIN_SIZE] <= s.matchIndex
    requires s'.matchIndex == s.matchIndex - table[s.matchIndex % CHAIN_SIZE] && s'.chainPos == 0
    requires s.nbAttempts > 0 && s'.nbAttempts == s.nbAttempts - 1 && s.longest <= s'.longest
    requires !Passed(r, s.matchIndex - dictLimit) ==> Unbeaten(data, r, s.matchIndex - dictLimit, s'.longest)
    ensures PlainSoFar(data, r, dictLimit, table, chain, tried', s', max)
  {
    hide Unbeaten, NoneBeats, Walk, Followed;
    var low := LowestMatchIndex(dictLimit, dictLimit + r.ip);
    NoneBeatsMore(data, r, dictLimit, tried, s.longest, s'.longest);
    NoneOfOneMore(data, r, dictLimit, tried, s.matchIndex, s'.longest);
    FollowOne(table, chain, tried, s.matchIndex, low, max - s.nbAttempts);
    tried' := if Followed(chain, tried + [s.matchIndex], Walk(table, s'.matchIndex, low), max - s'.nbAttempts) then tried + [s.matchIndex]
              else tried;
  }

  lemma PlainEnd(data: seq<byte>, r: Request, dictLimit: nat, table: seq<nat>, chain: seq<int>, tried: seq<int>, s: Search, max: nat)
    requires |table| == CHAIN_SIZE && PlainSoFar(data, r, dictLimit, table, chain, tried, s, max)
    requires s.matchIndex < LowestMatchIndex(dictLimit, dictLimit + r.ip) || s.nbAttempts == 0
    ensures NoneBeats(data, r, dictLimit, First(chain, max), s.longest)
  {
    hide Unbeaten, NoneBeats;
    var low := LowestMatchIndex(dictLimit, dictLimit + r.ip);
    FollowedToEnd(chain, tried, Walk(table, s.matchIndex, low), max - s.nbAttempts, max);
    NoneOfFewer(data, r, dictLimit, tried, First(chain, max), s.longest);
  }

  lemma SourceRunUntested(data: seq<byte>, r: Request, s: Search, longest: nat)
    requires RequestOk(data, r, longest) && s.repeat.Untested?
    ensures SourceRun(data, r, s)
  {
  }

  /** The newest earlier position whose word has the hash of the one at `ip`, or a negative number. */
  ghost function Newest(hash: seq<byte> -> nat, data: seq<byte>, dictLimit: nat, ip: nat): (m: int)
    requires ip + 4 <= |data|
    ensures m < ip
  {
    Latest(hash, data, dictLimit, SlotOf(hash, data[ip..ip + 4]), dictLimit + ip) - dictLimit
  }

  /** All of them in the window, newest first, as indices. */
  ghost function Earlier(hash: seq<byte> -> nat, data: seq<byte>, dictLimit: nat, ip: nat): seq<int>
    requires ip + 4 <= |data|
  {
    Candidates(hash, data, dictLimit, SlotOf(hash, data[ip..ip + 4]), dictLimit + ip, LowestMatchIndex(dictLimit, dictLimit + ip))
  }

  /**
    No match of `ip` is longer than `longest` with the newest earlier position of
    the same hash; nor, without heuristics, with any of the newest
    `maxNbAttempts` of them; nor, for a search forward with any heuristics and an
    attempt for every earlier position of the window, with any position at all.
  */
  ghost predicate Searched(hash: seq<byte> -> nat, data: seq<byte>, dictLimit: nat, r: Request, maxNbAttempts: nat, longest: int)
    requires r.ip + 4 <= |data|
  {
    var m := Newest(hash, data, dictLimit, r.ip);
    && (maxNbAttempts >= 1 && 0 <= m && r.ip - m <= MAX_DISTANCE && !Passed(r, m) ==> Unbeaten(data, r, m, longest))
    && (Plain(r) ==> NoneBeats(data, r, dictLimit, First(Earlier(hash, data, dictLimit, r.ip), maxNbAttempts), longest))
    && (Forward(r) && maxNbAttempts >= Min(r.ip, MAX_DISTANCE) ==> LongestOfAll(data, r, longest))
  }

  lemma SearchedMore(hash: seq<byte> -> nat, data: seq<byte>, dictLimit: nat, r: Request, maxNbAttempts: nat, longest: int, longer: int)
    requires r.ip + 4 <= |data| && longest <= longer && Searched(hash, data, dictLimit, r, maxNbAttempts, longest)
    ensures Searched(hash, data, dictLimit, r, maxNbAttempts, longer)
  {
    hide Unbeaten, NoneBeats, Newest, Earlier;
    var m := Newest(hash, data, dictLimit, r.ip);
    if Unbeaten(data, r, m, longest) { UnbeatenByMore(data, r, m, longest, longer); }
    if Plain(r) { NoneBeatsMore(data, r, dictLimit, First(Earlier(hash, data, dictLimit, r.ip), maxNbAttempts), longest, longer); }
  }

  /**
    LZ4HC_InsertAndGetWiderMatch: positions before `ip` enter the tables, then
    the chain of `ip` is searched. A result longer than the length asked for is
    a match that covers `ip` within the limits, at a distance the format can
    express. Whatever heuristics are on, no match with the newest earlier
    position of the same hash is longer; without them, none with any of the
    first `maxNbAttempts` such positions of the window; and if there are no
    more than that, no match at all. And whatever heuristics are on, a
    search forward with as many attempts as there are earlier positions in the
    window finds the longest match there is: they lose nothing.
  */
  method InsertAndGetWiderMatch(ctx: Context, data: seq<byte>, r: Request, longest0: nat, maxNbAttempts: nat)
    returns (longest: nat, matchPos: int, startPos: int)
    requires ctx.Session(data) && ctx.Exact(data) && ctx.nextToUpdate <= ctx.dictLimit + r.ip
    requires RequestOk(data, r, longest0)
    modifies ctx`nextToUpdate, ctx.hashTable, ctx.chainTable
    ensures ctx.Session(data) && ctx.Exact(data) && ctx.nextToUpdate == ctx.dictLimit + r.ip
    ensures longest >= longest0
    ensures longest > longest0 ==> Covers(data, r, startPos, matchPos, longest)
    ensures Searched(ctx.hash, data, ctx.dictLimit, r, maxNbAttempts, longest)
    ensures Plain(r) && !r.favorDecSpeed && |Earlier(ctx.hash, data, ctx.dictLimit, r.ip)| <= maxNbAttempts ==>
      LongestOfAll(data, r, longest)
  {
    ctx.Insert(data, r.ip);
    var slot := SlotOf(ctx.hash, data[r.ip..r.ip + 4]);
    SlotInTable(ctx.hash, data[r.ip..r.ip + 4]);
    hide Covers, NoneBeats, Unbeaten, Newest, Earlier, Chain, LongestOfAll, LinksOk, Ahead, HashChain.Context.Exact;
    TablesSay(ctx, data, r);
    SearchBegins(ctx, data, r, longest0, maxNbAttempts);
    longest, matchPos, startPos :=
      SearchChain(data, r, ctx.hashTable[slot], longest0, maxNbAttempts, ctx.chainTable, ctx.dictLimit, ctx.hash);
    if Plain(r) && !r.favorDecSpeed && |Earlier(ctx.hash, data, ctx.dictLimit, r.ip)| <= maxNbAttempts {
      NoneAtAll(ctx.hash, data, r, ctx.dictLimit, longest);
    }
  }

  /** Exact tables make the search thorough. */
  lemma SearchBegins(ctx: Context, data: seq<byte>, r: Request, longest0: nat, maxNbAttempts: nat)
    requires ctx.Session(data) && ctx.Exact(data) && ctx.nextToUpdate == ctx.dictLimit + r.ip && r.ip + 4 <= r.iHigh < |data|
    ensures var slot := SlotOf(ctx.hash, data[r.ip..r.ip + 4]);
      && slot < ctx.hashTable.Length && ctx.chainTable.Length == CHAIN_SIZE
      && LinksOk(ctx.hash, data, r, ctx.dictLimit, ctx.chainTable[..])
      && Ahead(ctx.hash, data, r, ctx.dictLimit, Begin(r, ctx.hashTable[slot], longest0, maxNbAttempts), 0)
  {
    hide Latest, LinkExact;
    var slot := SlotOf(ctx.hash, data[r.ip..r.ip + 4]);
    SlotInTable(ctx.hash, data[r.ip..r.ip + 4]);
    assert HeadExact(ctx.hash, data, ctx.dictLimit, slot, ctx.nextToUpdate, ctx.hashTable[slot]);
    HeadLosesNothing(ctx.hash, data, r, ctx.dictLimit, ctx.hashTable[slot], longest0);
  }

  /** All matches are with positions up to the head. */
  lemma HeadLosesNothing(hash: seq<byte> -> nat, data: seq<byte>, r: Request, dictLimit: nat, head: nat, longest0: nat)
    requires r.ip + 4 <= r.iHigh < |data|
    requires HeadExact(hash, data, dictLimit, SlotOf(hash, data[r.ip..r.ip + 4]), dictLimit + r.ip, head)
    ensures LeftBelow(data, r, dictLimit, longest0, head) && head < dictLimit + r.ip
    ensures head >= LowestMatchIndex(dictLimit, dictLimit + r.ip) ==> SameHash(hash, data, r, dictLimit, head, 0)
  {
    var latest := Latest(hash, data, dictLimit, SlotOf(hash, data[r.ip..r.ip + 4]), dictLimit + r.ip);
    forall m, length | Covers(data, r, r.ip, m, length) && length > longest0 ensures m + dictLimit <= head {
      MatchHasWord(hash, data, r, dictLimit, m, length, 0);
      assert latest >= m + dictLimit;
    }
  }

  /** The head of the chain is the newest position of the hash, and the chain leads to all of them in the window. */
  lemma TablesSay(ctx: Context, data: seq<byte>, r: Request)
    requires ctx.Session(data) && ctx.Exact(data) && ctx.nextToUpdate == ctx.dictLimit + r.ip && r.ip + 4 <= |data|
    ensures var slot := SlotOf(ctx.hash, data[r.ip..r.ip + 4]);
      && slot < ctx.hashTable.Length && ctx.chainTable.Length == CHAIN_SIZE
      && (0 <= Newest(ctx.hash, data, ctx.dictLimit, r.ip) ==>
            ctx.hashTable[slot] == ctx.dictLimit + Newest(ctx.hash, data, ctx.dictLimit, r.ip))
      && Chain(data, r, ctx.hashTable[slot], ctx.chainTable, ctx.dictLimit) == Earlier(ctx.hash, data, ctx.dictLimit, r.ip)
  {
    hide Latest, Candidates, Walk;
    var slot := SlotOf(ctx.hash, data[r.ip..r.ip + 4]);
    SlotInTable(ctx.hash, data[r.ip..r.ip + 4]);
    ctx.ChainIsExact(data, slot, LowestMatchIndex(ctx.dictLimit, ctx.dictLimit + r.ip));
    assert HeadExact(ctx.hash, data, ctx.dictLimit, slot, ctx.nextToUpdate, ctx.hashTable[slot]);
  }

  /** A match of `ip` is one with an earlier position of the window that has the same word, hence the same hash. */
  lemma NoneAtAll(hash: seq<byte> -> nat, data: seq<byte>, r: Request, dictLimit: nat, longest: nat)
    requires r.ip + 4 <= r.iHigh < |data| && !r.favorDecSpeed
    requires NoneBeats(data, r, dictLimit, Earlier(hash, data, dictLimit, r.ip), longest)
    ensures LongestOfAll(data, r, longest)
  {
    hide Candidates;
    var low := LowestMatchIndex(dictLimit, dictLimit + r.ip);
    forall startPos, matchPos, length | Covers(data, r, startPos, matchPos, length) ensures length <= longest {
      var idx := dictLimit + r.ip - (startPos - matchPos);
      SameWordRepeats(data, r.ip, idx - dictLimit, 4);
      IsCandidate(hash, data, dictLimit, SlotOf(hash, data[r.ip..r.ip + 4]), dictLimit + r.ip, low, idx);
      var i :| 0 <= i < |Earlier(hash, data, dictLimit, r.ip)| && Earlier(hash, data, dictLimit, r.ip)[i] == idx;
    }
  }

  lemma {:induction false} IsCandidate(hash: seq<byte> -> nat, data: seq<byte>, dictLimit: nat, slot: nat, n: nat, low: nat, idx: nat)
    requires dictLimit <= low <= idx < n && n - dictLimit + 3 <= |data|
    requires SlotOf(hash, WordAt(data, dictLimit, idx)) == slot
    ensures idx in Candidates(hash, data, dictLimit, slot, n, low)
    decreases n
  {
    if idx < n - 1 {
      IsCandidate(hash, data, dictLimit, slot, n - 1, low, idx);
    }
  }

  // ----- Searching a run of one byte -----

  /** What a search forward from `ip` finds in a run: nothing at its first byte; and then all that is left up to `iHigh`. */
  lemma RunIsFound(hash: seq<byte> -> nat, data: seq<byte>, dictLimit: nat, r: Request, maxNbAttempts: nat,
                   longest0: nat, longest: nat, matchPos: int, startPos: int)
    requires OneByte(data) && RequestOk(data, r, longest0) && r.iLow == r.ip && !r.favorDecSpeed && longest >= longest0
    requires longest > longest0 ==> Covers(data, r, startPos, matchPos, longest)
    requires maxNbAttempts >= 1 && Searched(hash, data, dictLimit, r, maxNbAttempts, longest)
    ensures longest == if r.ip == 0 then longest0 else Max(longest0, r.iHigh - r.ip)
    ensures longest > longest0 ==> startPos == r.ip
  {
    hide NoneBeats;
    if r.ip > 0 {
      assert SlotOf(hash, WordAt(data, dictLimit, dictLimit + r.ip - 1)) == SlotOf(hash, data[r.ip..r.ip + 4]) by {
        assert WordAt(data, dictLimit, dictLimit + r.ip - 1) == data[r.ip..r.ip + 4];
      }
      assert Newest(hash, data, dictLimit, r.ip) == r.ip - 1;
      assert Covers(data, r, r.ip, r.ip - 1, r.iHigh - r.ip);
    }
  }
}
