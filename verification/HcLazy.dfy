/**
  LZ4HC_compress_hashChain (lz4hc.c): the lazy parser, which holds up to three
  overlapping matches before it writes the first. Its jumps between _Search2 and
  _Search3 are the transitions of a small state machine.
*/
module HcLazy {
  import opened BlockFormat
  import opened Matching
  import opened HashChain
  import opened MatchFinder
  import opened Encoding
  import opened Sizes

  const OPTIMAL_ML := 18
  const MIN_LENGTH := 13

  /** A match under consideration: where it starts, what it repeats, and how long it is. */
  datatype Cand = Cand(start: nat, ref: nat, len: nat) {
    function End(): nat { start + len }

    /** The same match without its first `n` bytes. */
    function Skip(n: nat): Cand
      requires n <= len
    {
      Cand(start + n, ref + n, len - n)
    }
  }

  /** The labels of the C function, with the matches held at each. */
  datatype State = Main(ip: nat) | Search2(m1: Cand, m0: Cand) | Search3(m1: Cand, m2: Cand)

  ghost predicate CandOk(data: seq<byte>, m: Cand) {
    Usable(data, m.start, m.start - m.ref, m.len)
  }

  /** A match that ends by mflimit: the search for a better one looks at its last bytes. */
  ghost predicate Early(data: seq<byte>, m: Cand) {
    m.End() + MF_LIMIT <= |data|
  }

  /**
    What holds at each label. At _Search2, `m0` is the match that may be
    restored, at most two bytes before `m1`. At _Search3, `m2` starts no later
    than the end of `m1`, or one byte after it when `m1` has been restored; and
    together they are long enough for both to keep four bytes.
  */
  ghost predicate StateOk(data: seq<byte>, anchor: nat, s: State) {
    match s
    case Main(ip) => anchor <= ip <= |data|
    case Search2(m1, m0) =>
      && CandOk(data, m1) && CandOk(data, m0)
      && anchor <= m0.start <= m1.start <= m0.start + 2
      && (Early(data, m0) || (m0.start == m1.start && m0.len == m1.len))
      && (m0.start < m1.start ==> m1.len >= 5)
    case Search3(m1, m2) =>
      && CandOk(data, m1) && CandOk(data, m2) && Early(data, m1)
      && anchor <= m1.start <= m2.start
      && m2.start - m1.start + m2.len >= 8
      && (m2.start <= m1.End() || (m2.start <= m1.End() + 1 && m2.len >= 6))
  }

  /** The index from which on the next search may look. */
  function Frontier(s: State): int {
    match s
    case Main(ip) => ip
    case Search2(m1, _) => m1.End() - 2
    case Search3(_, m2) => m2.End() - 3
  }

  /** Decreases with every transition: the end of the furthest match held grows, or the label falls back to the main loop. */
  function Reach(s: State): nat {
    match s
    case Main(ip) => ip
    case Search2(m1, _) => m1.End()
    case Search3(_, m2) => m2.End()
  }

  function Rank(s: State): nat {
    if s.Main? then 0 else 1
  }

  ghost predicate TablesOk(ctx: Context, data: seq<byte>, frontier: int)
    reads ctx`nextToUpdate, ctx`dictLimit, ctx.hashTable, ctx.chainTable
  {
    ctx.Session(data) && ctx.Exact(data) && ctx.nextToUpdate <= ctx.dictLimit + frontier
  }

  lemma SkipOk(data: seq<byte>, m: Cand, n: nat)
    requires CandOk(data, m) && n + MIN_MATCH <= m.len && m.start + n + MF_LIMIT <= |data|
    ensures CandOk(data, m.Skip(n))
  {
  }

  lemma ShorterOk(data: seq<byte>, m: Cand, len: nat)
    requires CandOk(data, m) && MIN_MATCH <= len <= m.len
    ensures CandOk(data, m.(len := len))
  {
  }

  // ----- Searching -----

  /** A search at `pos` for matches from `iLow` on has been made, and found no more than `longest`. */
  ghost predicate SearchedAt(ctx: Context, data: seq<byte>, pos: nat, iLow: nat, maxNbAttempts: nat, longest: int)
    requires pos + MF_LIMIT <= |data|
    reads ctx`dictLimit
  {
    Searched(ctx.hash, data, ctx.dictLimit, Request(pos, iLow, |data| - 5, maxNbAttempts > 128, false, false), maxNbAttempts, longest)
  }

  /** A search at `pos` for a match longer than `len` that starts at or after `iLow`; the same length back means none. */
  method Wider(ctx: Context, data: seq<byte>, pos: nat, iLow: nat, len: nat, maxNbAttempts: nat) returns (m: Cand)
    requires TablesOk(ctx, data, pos)
    requires iLow <= pos && pos - iLow < len && pos + MF_LIMIT <= |data| && iLow + len < |data|
    modifies ctx`nextToUpdate, ctx.hashTable, ctx.chainTable
    ensures TablesOk(ctx, data, pos)
    ensures m.len >= len && SearchedAt(ctx, data, pos, iLow, maxNbAttempts, m.len)
    ensures m.len > len ==> CandOk(data, m) && iLow <= m.start <= pos
    ensures OneByte(data) && maxNbAttempts >= 1 && iLow == pos ==>
      m.len == (if pos == 0 then len else Max(len, |data| - 5 - pos)) && (m.len > len ==> m.start == pos)
  {
    hide HashChain.Context.Session, HashChain.Context.Exact, OneByte, Searched;
    var r := Request(pos, iLow, |data| - LAST_LITERALS, maxNbAttempts > 128, false, false);
    var longest, matchPos, startPos := InsertAndGetWiderMatch(ctx, data, r, len, maxNbAttempts);
    if OneByte(data) && maxNbAttempts >= 1 && iLow == pos {
      RunIsFound(ctx.hash, data, ctx.dictLimit, r, maxNbAttempts, len, longest, matchPos, startPos);
    }
    m := if longest > len then Cand(startPos, matchPos, longest) else Cand(0, 0, len);
  }

  /** Writes one match; on overflow the last complete sequence stands. */
  method Write(r: Run, op: nat, anchor: nat, m: Cand) returns (overflow: bool, op': nat, anchor': nat)
    requires EncoderOk(r, op, anchor, m.start) && WrittenOk(r, op, anchor) && CandOk(r.data, m)
    modifies r.dst
    ensures WrittenOk(r, op', anchor') && EncoderOk(r, op', anchor', anchor')
    ensures overflow ==> !r.limit.NotLimited? && r.oend < CompressBound(|r.data| - r.start)
    ensures !overflow ==> anchor' == m.End()
    ensures if overflow then r.oend < RoomNeeded(op, m.start - anchor, m.len) else op' == op + SequenceSize(m.start - anchor, m.len)
  {
    hide RoomNeeded, SequenceSize;
    hide Budget, Encoded, EncodedWithin, CompressBound;
    overflow, op' := EmitMatch(r, op, anchor, m.start, m.len, m.ref);
    if overflow {
      op', anchor' := op, anchor;
    } else {
      anchor' := m.End();
    }
  }

  // ----- The transitions -----

  method StepMain(ctx: Context, data: seq<byte>, anchor: nat, ip: nat, maxNbAttempts: nat) returns (s: State)
    requires StateOk(data, anchor, Main(ip)) && ip + MF_LIMIT <= |data| && TablesOk(ctx, data, ip)
    modifies ctx`nextToUpdate, ctx.hashTable, ctx.chainTable
    ensures StateOk(data, anchor, s) && TablesOk(ctx, data, Frontier(s))
    ensures Reach(s) > ip
    ensures if s.Main? then s == Main(ip + 1) && SearchedAt(ctx, data, ip, ip, maxNbAttempts, 3)
            else s.Search2? && s.m1 == s.m0 && s.m1.start == ip && SearchedAt(ctx, data, ip, ip, maxNbAttempts, s.m1.len)
    ensures OneByte(data) && maxNbAttempts >= 1 ==>
      if ip == 0 then s == Main(1) else s.Search2? && s.m1 == s.m0 && s.m1.start == ip && s.m1.End() == |data| - 5
  {
    hide OneByte, SearchedAt;
    hide HashChain.Context.Session, HashChain.Context.Exact;
    var m := Wider(ctx, data, ip, ip, MIN_MATCH - 1, maxNbAttempts);
    s := if m.len < MIN_MATCH then Main(ip + 1) else Search2(m, m);
  }

  /** The state has a longer match than `m1`, which starts later and reaches further. */
  ghost predicate Longer(s: State, m1: Cand) {
    match s
    case Main(_) => false
    case Search2(n1, _) => n1.len > m1.len && n1.start >= m1.start
    case Search3(_, n2) => n2.len > m1.len && n2.start >= m1.start
  }

  /** _Search2: look for a longer match near the end of the first; otherwise write the first. */
  method StepSearch2(ctx: Context, r: Run, op: nat, anchor: nat, m1: Cand, m0: Cand, maxNbAttempts: nat)
    returns (overflow: bool, op': nat, anchor': nat, s: State)
    requires StateOk(r.data, anchor, Search2(m1, m0)) && TablesOk(ctx, r.data, Frontier(Search2(m1, m0)))
    requires EncoderOk(r, op, anchor, m1.start) && WrittenOk(r, op, anchor)
    modifies r.dst, ctx`nextToUpdate, ctx.hashTable, ctx.chainTable
    ensures WrittenOk(r, op', anchor') && EncoderOk(r, op', anchor', anchor')
    ensures overflow ==> !r.limit.NotLimited? && r.oend < CompressBound(|r.data| - r.start)
    ensures ctx.Session(r.data) && ctx.Exact(r.data)
    ensures !overflow ==> StateOk(r.data, anchor', s) && TablesOk(ctx, r.data, Frontier(s))
    ensures !overflow ==> Reach(s) > m1.End() || (Reach(s) == m1.End() && s.Main?)
    ensures m1.End() + 12 > |r.data| ==> overflow || s.Main?
    ensures if overflow then r.oend < RoomNeeded(op, m1.start - anchor, m1.len)
            else if s.Main? then
              && s == Main(m1.End()) && anchor' == m1.End() && op' == op + SequenceSize(m1.start - anchor, m1.len)
              && (m1.End() + 12 <= |r.data| ==> SearchedAt(ctx, r.data, m1.End() - 2, m1.start, maxNbAttempts, m1.len))
            else op' == op && anchor' == anchor && Longer(s, m1)
  {
    hide RoomNeeded, SequenceSize, SearchedAt;
    hide HashChain.Context.Session, HashChain.Context.Exact, Budget, Encoded, EncodedWithin, CompressBound;
    op', anchor' := op, anchor;
    var m2 := Cand(0, 0, m1.len);
    if m1.End() + MF_LIMIT <= |r.data| {
      m2 := Wider(ctx, r.data, m1.End() - 2, m1.start, m1.len, maxNbAttempts);
    }
    if m2.len == m1.len {
      overflow, op', anchor' := Write(r, op, anchor, m1);
      s := Main(m1.End());
      return;
    }
    overflow := false;
    s := AfterSearch2(r.data, anchor, m1, m0, m2);
  }

  /** Restores the skipped match when it fits, and drops a first match that leaves fewer than three bytes before the second. */
  method AfterSearch2(data: seq<byte>, ghost anchor: nat, m1: Cand, m0: Cand, m2: Cand) returns (s: State)
    requires StateOk(data, anchor, Search2(m1, m0)) && Early(data, m1)
    requires CandOk(data, m2) && m1.start <= m2.start <= m1.End() - 2 && m2.len > m1.len
    ensures StateOk(data, anchor, s) && Reach(s) == m2.End() && !s.Main?
    ensures s == Search2(m2, m0) || s == Search3(m1, m2) || s == Search3(m0, m2)
  {
    hide CandOk;
    MinimalCand(data, m1);
    MinimalCand(data, m0);
    var first := m1;
    if m0.start < m1.start && m2.start < m1.start + m0.len {
      first := m0;
    }
    if m2.start - first.start < 3 {
      s := Search2(m2, m0);
    } else {
      s := Search3(first, m2);
    }
  }

  lemma MinimalCand(data: seq<byte>, m: Cand)
    requires CandOk(data, m)
    ensures m.len >= MIN_MATCH && m.start + MF_LIMIT <= |data| && m.End() + LAST_LITERALS <= |data|
  {
  }

  /** The two matches of _Search3 after they have been fitted to each other: the first keeps at least four bytes. */
  ghost predicate Fitted(data: seq<byte>, anchor: nat, m1: Cand, m2: Cand) {
    StateOk(data, anchor, Search3(m1, m2)) && m2.start >= m1.start + MIN_MATCH
  }

  /** How much of the first match is kept before the second: at most OPTIMAL_ML, and at least four bytes go to the second. */
  function KeptLength(m1: Cand, m2: Cand): int {
    var newMl := Min(m1.len, OPTIMAL_ML);
    if m1.start + newMl > m2.End() - MIN_MATCH then m2.End() - MIN_MATCH - m1.start else newMl
  }

  /** At _Search3: a second match that starts too early gives up its first bytes. */
  function Fit(m1: Cand, m2: Cand): Cand
    requires m2.len >= MIN_MATCH && m1.start <= m2.start
  {
    if m2.start - m1.start < OPTIMAL_ML then
      var correction := KeptLength(m1, m2) - (m2.start - m1.start);
      if correction > 0 then m2.Skip(correction) else m2
    else m2
  }

  lemma FitOk(data: seq<byte>, anchor: nat, m1: Cand, m2: Cand)
    requires StateOk(data, anchor, Search3(m1, m2)) && m2.len >= MIN_MATCH
    ensures Fitted(data, anchor, m1, Fit(m1, m2)) && Fit(m1, m2).End() == m2.End()
  {
    hide CandOk;
    MinimalCand(data, m1);
    MinimalCand(data, m2);
    var m := Fit(m1, m2);
    if m != m2 {
      SkipOk(data, m2, m.start - m2.start);
    }
  }

  /** _Search3: look for a third match near the end of the second. */
  method StepSearch3(ctx: Context, r: Run, op: nat, anchor: nat, m1: Cand, m2: Cand, maxNbAttempts: nat)
    returns (overflow: bool, op': nat, anchor': nat, s: State)
    requires StateOk(r.data, anchor, Search3(m1, m2)) && TablesOk(ctx, r.data, Frontier(Search3(m1, m2)))
    requires EncoderOk(r, op, anchor, m1.start) && WrittenOk(r, op, anchor)
    modifies r.dst, ctx`nextToUpdate, ctx.hashTable, ctx.chainTable
    ensures WrittenOk(r, op', anchor') && EncoderOk(r, op', anchor', anchor')
    ensures overflow ==> !r.limit.NotLimited? && r.oend < CompressBound(|r.data| - r.start)
    ensures ctx.Session(r.data) && ctx.Exact(r.data)
    ensures !overflow ==> StateOk(r.data, anchor', s) && TablesOk(ctx, r.data, Frontier(s))
    ensures !overflow ==> Reach(s) > m2.End() || (Reach(s) == m2.End() && s.Main?)
    ensures m2.len >= MIN_MATCH
    ensures !overflow ==>
      var n2 := Fit(m1, m2);
      if s.Main? then
        && s == Main(n2.End()) && BothWritten(op, anchor, m1, n2, op', anchor')
        && (n2.End() + 12 <= |r.data| ==> SearchedAt(ctx, r.data, n2.End() - 3, n2.start, maxNbAttempts, n2.len))
      else Longer(s, n2) && ((op' == op && anchor' == anchor) || FirstWritten(op, anchor, m1, op', anchor'))
  {
    hide BothWritten, FirstWritten, SearchedAt;
    hide HashChain.Context.Session, HashChain.Context.Exact, Budget, Encoded, EncodedWithin, CompressBound, CandOk;
    MinimalCand(r.data, m1);
    MinimalCand(r.data, m2);
    var n2 := Fit(m1, m2);
    FitOk(r.data, anchor, m1, m2);
    hide Fit;
    MinimalCand(r.data, n2);
    var m3 := Cand(0, 0, n2.len);
    if n2.End() + MF_LIMIT <= |r.data| {
      m3 := Wider(ctx, r.data, n2.End() - 3, n2.start, n2.len, maxNbAttempts);
    }
    if m3.len == n2.len {
      overflow, op', anchor' := WriteBoth(r, op, anchor, m1, n2);
      s := Main(n2.End());
    } else if m3.start < m1.End() + 3 {
      if m3.start >= m1.End() {
        overflow, op', anchor', s := DropSecond(r, op, anchor, m1, n2, m3);
      } else {
        overflow, op', anchor', s := false, op, anchor, Search3(m1, m3);
        MinimalCand(r.data, m3);
      }
    } else {
      overflow, op', anchor', s := WriteFirst(r, op, anchor, m1, n2, m3);
    }
  }

  /** The first match has been written, or a first part of it. */
  ghost predicate FirstWritten(op: nat, anchor: nat, m1: Cand, op': nat, anchor': nat) {
    var k := anchor' - m1.start;
    MIN_MATCH <= k <= m1.len && anchor <= m1.start && op' == op + SequenceSize(m1.start - anchor, k)
  }

  /** Two matches have been written, the first up to where the second starts. */
  ghost predicate BothWritten(op: nat, anchor: nat, m1: Cand, m2: Cand, op': nat, anchor': nat) {
    m1.start <= m2.start &&
    var k := Min(m1.len, m2.start - m1.start);
    && k >= MIN_MATCH && m2.len >= MIN_MATCH && anchor <= m1.start && m1.start + k <= m2.start
    && anchor' == m2.End()
    && op' == op + SequenceSize(m1.start - anchor, k) + SequenceSize(m2.start - (m1.start + k), m2.len)
  }

  /** No better match: the first, cut where the second starts, and the second. */
  method WriteBoth(r: Run, op: nat, anchor: nat, m1: Cand, m2: Cand) returns (overflow: bool, op': nat, anchor': nat)
    requires Fitted(r.data, anchor, m1, m2)
    requires EncoderOk(r, op, anchor, m1.start) && WrittenOk(r, op, anchor)
    modifies r.dst
    ensures WrittenOk(r, op', anchor') && EncoderOk(r, op', anchor', anchor')
    ensures overflow ==> !r.limit.NotLimited? && r.oend < CompressBound(|r.data| - r.start)
    ensures !overflow ==> anchor' == m2.End() && BothWritten(op, anchor, m1, m2, op', anchor')
  {
    hide SequenceSize, RoomNeeded;
    hide Budget, Encoded, EncodedWithin, CompressBound, CandOk;
    MinimalCand(r.data, m1);
    MinimalCand(r.data, m2);
    var n1 := if m2.start < m1.End() then m1.(len := m2.start - m1.start) else m1;
    ShorterOk(r.data, m1, n1.len);
    overflow, op', anchor' := Write(r, op, anchor, n1);
    if !overflow {
      overflow, op', anchor' := Write(r, op', anchor', m2);
    }
  }

  /** Not enough room for the second match: the first is written, and the third takes its place. */
  method DropSecond(r: Run, op: nat, anchor: nat, m1: Cand, m2: Cand, m3: Cand)
    returns (overflow: bool, op': nat, anchor': nat, s: State)
    requires Fitted(r.data, anchor, m1, m2) && Early(r.data, m2)
    requires CandOk(r.data, m3) && m3.len > m2.len && m2.start <= m3.start
    requires m1.End() <= m3.start < m1.End() + 3
    requires EncoderOk(r, op, anchor, m1.start) && WrittenOk(r, op, anchor)
    modifies r.dst
    ensures WrittenOk(r, op', anchor') && EncoderOk(r, op', anchor', anchor')
    ensures overflow ==> !r.limit.NotLimited? && r.oend < CompressBound(|r.data| - r.start)
    ensures !overflow ==> StateOk(r.data, anchor', s) && s.Search2? && s.m1 == m3
    ensures !overflow ==> FirstWritten(op, anchor, m1, op', anchor')
  {
    hide SequenceSize, RoomNeeded;
    MinimalCand(r.data, m1);
    hide Budget, Encoded, EncodedWithin, CompressBound, CandOk;
    MinimalCand(r.data, m2);
    var n2 := m2;
    if m2.start < m1.End() {
      var correction := m1.End() - m2.start;
      if m2.len - correction < MIN_MATCH {
        n2 := m3;
      } else {
        SkipOk(r.data, m2, correction);
        n2 := m2.Skip(correction);
      }
    }
    overflow, op', anchor' := Write(r, op, anchor, m1);
    s := Search2(m3, n2);
  }

  /** Three ascending matches: the first is written, and the others move up. */
  method WriteFirst(r: Run, op: nat, anchor: nat, m1: Cand, m2: Cand, m3: Cand)
    returns (overflow: bool, op': nat, anchor': nat, s: State)
    requires Fitted(r.data, anchor, m1, m2) && Early(r.data, m2)
    requires CandOk(r.data, m3) && m3.len > m2.len && m2.start <= m3.start <= m2.End() - 3
    requires m1.End() + 3 <= m3.start
    requires EncoderOk(r, op, anchor, m1.start) && WrittenOk(r, op, anchor)
    modifies r.dst
    ensures WrittenOk(r, op', anchor') && EncoderOk(r, op', anchor', anchor')
    ensures overflow ==> !r.limit.NotLimited? && r.oend < CompressBound(|r.data| - r.start)
    ensures !overflow ==> StateOk(r.data, anchor', s) && s.Search3? && s.m2 == m3
    ensures !overflow ==> FirstWritten(op, anchor, m1, op', anchor')
  {
    hide SequenceSize, RoomNeeded;
    hide Budget, Encoded, EncodedWithin, CompressBound, CandOk;
    MinimalCand(r.data, m1);
    MinimalCand(r.data, m2);
    var n1, n2 := m1, m2;
    if m2.start < m1.End() {
      if m2.start - m1.start < OPTIMAL_ML {
        n1 := m1.(len := KeptLength(m1, m2));
        var correction := n1.len - (m2.start - m1.start);
        if correction > 0 {
          SkipOk(r.data, m2, correction);
          n2 := m2.Skip(correction);
        }
      } else {
        n1 := m1.(len := m2.start - m1.start);
      }
    }
    ShorterOk(r.data, m1, n1.len);
    overflow, op', anchor' := Write(r, op, anchor, n1);
    MinimalCand(r.data, n2);
    s := Search3(n2, m3);
  }

  // ----- The whole parser -----

  /**
    LZ4HC_compress_hashChain. Whatever the search budget, the output of a
    successful run decodes to the input (in fillOutput mode: to its first `end`
    bytes), respects the end-of-block restrictions and fits the budget; a run
    fails only in limitedOutput mode with less than the worst-case capacity.
  */
  method CompressHashChain(ctx: Context, r: Run, maxNbAttempts: nat) returns (ok: bool, op: nat, end: nat)
    requires r.Valid() && (r.limit.FillOutput? ==> r.oend >= 1)
    requires TablesOk(ctx, r.data, r.start)
    modifies r.dst, ctx`nextToUpdate, ctx.hashTable, ctx.chainTable
    ensures ok ==> op <= r.dst.Length && Block(r.data, r.start, r.dst[..op], end)
    ensures ok ==> (if r.limit.NotLimited? then op <= CompressBound(|r.data| - r.start) else op <= r.oend)
    ensures ok && !r.limit.FillOutput? ==> end == |r.data|
    ensures ok ==> end == |r.data| || op + Unused(r.oend) >= r.oend
    ensures ctx.Session(r.data) && ctx.Exact(r.data)
    ensures !ok ==> r.limit.LimitedOutput? && r.oend < CompressBound(|r.data| - r.start)
    ensures EasyRun(r) && maxNbAttempts >= 1 ==> ok && op <= |r.data| / 255 + 16
  {
    hide EasyRun, RunWritten;
    hide EncodedWithin, CompressBound, HashChain.Context.Session, HashChain.Context.Exact, Block, CandOk, Usable;
    var inner := KeepBack(r);
    var anchor := r.start;
    op := 0;
    EncodedNothing(r.data, r.start);
    assert r.dst[..0] == [];
    var overflow := false;
    if EasyRun(r) { RunShort(r); }
    if |r.data| - r.start >= MIN_LENGTH {
      overflow, op, anchor := MainLoop(ctx, inner, maxNbAttempts);
    }
    if overflow && !r.limit.FillOutput? {
      return false, op, anchor;
    }
    hide LastSize;
    if EasyRun(r) && maxNbAttempts >= 1 {
      RunShort(r);
      RunEnds(r, op, anchor);
    }
    ok, op, end := LastLiterals(r, op, anchor);
  }

  /** What is written of a run, before its last literals: one literal and one match, if it is long enough. */
  ghost predicate RunWritten(n: nat, op: nat, anchor: nat) {
    if n < MIN_LENGTH then op == 0 && anchor == 0 else op == SequenceSize(1, n - 6) && anchor == n - 5
  }

  lemma RunShort(r: Run)
    requires EasyRun(r)
    ensures r.start == 0 && !r.limit.FillOutput? && (|r.data| < MIN_LENGTH ==> RunWritten(|r.data|, 0, 0))
  {
  }

  lemma RunEnds(r: Run, op: nat, anchor: nat)
    requires EasyRun(r)
    requires RunWritten(|r.data|, op, anchor)
    ensures anchor <= |r.data| && op + LastSize(|r.data| - anchor) <= |r.data| / 255 + 16
    ensures r.limit.NotLimited? || op + LastSize(|r.data| - anchor) <= r.oend
  {
  }

  /** How a run is parsed. */
  ghost predicate RunState(n: nat, op: nat, anchor: nat, s: State) {
    match s
    case Main(ip) => (ip <= 1 && op == 0 && anchor == 0) || (ip == n - 5 && RunWritten(n, op, anchor))
    case Search2(m1, m0) => m1 == m0 && m1.start == 1 && m1.len == n - 6 && op == 0 && anchor == 0
    case Search3(_, _) => false
  }

  lemma RunFits(r: Run)
    requires EasyRun(r) && |r.data| >= MIN_LENGTH
    ensures !r.limit.NotLimited? ==> r.oend >= RoomNeeded(0, 1, |r.data| - 6)
  {
  }

  /** Where the encoder stands: the anchor lies at or before whatever is held. */
  function At(s: State): nat {
    match s
    case Main(ip) => ip
    case Search2(m1, m0) => m0.start
    case Search3(m1, m2) => m1.start
  }

  method MainLoop(ctx: Context, r: Run, maxNbAttempts: nat) returns (overflow: bool, op: nat, anchor: nat)
    requires r.Valid() && TablesOk(ctx, r.data, r.start)
    modifies r.dst, ctx`nextToUpdate, ctx.hashTable, ctx.chainTable
    ensures WrittenOk(r, op, anchor) && EncoderOk(r, op, anchor, anchor)
    ensures overflow ==> !r.limit.NotLimited? && r.oend < CompressBound(|r.data| - r.start)
    ensures ctx.Session(r.data) && ctx.Exact(r.data)
    ensures EasyRun(r) && |r.data| >= MIN_LENGTH && maxNbAttempts >= 1 ==> !overflow && RunWritten(|r.data|, op, anchor)
  {
    hide EasyRun, OneByte, RunState, RunWritten, RoomNeeded, SequenceSize;
    hide EncodedWithin, CompressBound, HashChain.Context.Session, HashChain.Context.Exact, CandOk, Usable;
    ghost var easy := EasyRun(r) && |r.data| >= MIN_LENGTH && maxNbAttempts >= 1;
    if easy { RunStarts(r); }
    op, anchor := 0, r.start;
    EncodedNothing(r.data, r.start);
    assert r.dst[..0] == [];
    overflow := false;
    var s := Main(r.start);
    while !s.Main? || s.ip + MF_LIMIT <= |r.data|
      invariant WrittenOk(r, op, anchor) && EncoderOk(r, op, anchor, anchor)
      invariant StateOk(r.data, anchor, s) && TablesOk(ctx, r.data, Frontier(s))
      invariant easy ==> RunState(|r.data|, op, anchor, s)
      decreases |r.data| - Reach(s), Rank(s)
    {
      StateReach(r.data, anchor, s);
      ghost var before, op0, anchor0 := s, op, anchor;
      match s {
        case Main(ip) => s := StepMain(ctx, r.data, anchor, ip, maxNbAttempts);
        case Search2(m1, m0) =>
          overflow, op, anchor, s := StepSearch2(ctx, r, op, anchor, m1, m0, maxNbAttempts);
        case Search3(m1, m2) =>
          overflow, op, anchor, s := StepSearch3(ctx, r, op, anchor, m1, m2, maxNbAttempts);
      }
      if easy { RunGoesOn(r, op0, anchor0, before, overflow, op, anchor, s); }
      if overflow {
        return;
      }
    }
    if easy { RunDone(|r.data|, op, anchor, s); }
  }

  lemma RunStarts(r: Run)
    requires EasyRun(r) && |r.data| >= MIN_LENGTH
    ensures OneByte(r.data) && r.start == 0 && RunState(|r.data|, 0, 0, Main(0))
  {
  }

  /** The transitions, in a run. */
  lemma RunGoesOn(r: Run, op0: nat, anchor0: nat, s0: State, overflow: bool, op: nat, anchor: nat, s: State)
    requires EasyRun(r) && |r.data| >= MIN_LENGTH && RunState(|r.data|, op0, anchor0, s0)
    requires s0.Main? ==> !overflow && op == op0 && anchor == anchor0 && s0.ip + MF_LIMIT <= |r.data|
    requires s0.Main? ==>
      if s0.ip == 0 then s == Main(1) else s.Search2? && s.m1 == s.m0 && s.m1.start == s0.ip && s.m1.End() == |r.data| - 5
    requires overflow ==> !r.limit.NotLimited?
    requires s0.Search2? && s0.m1.End() + 12 > |r.data| && anchor0 <= s0.m1.start && s0.m1.len >= MIN_MATCH ==>
      if overflow then r.oend < RoomNeeded(op0, s0.m1.start - anchor0, s0.m1.len)
      else s == Main(s0.m1.End()) && anchor == s0.m1.End() && op == op0 + SequenceSize(s0.m1.start - anchor0, s0.m1.len)
    ensures !overflow && RunState(|r.data|, op, anchor, s)
  {
    RunFits(r);
    hide SequenceSize, RoomNeeded, EasyRun;
  }

  lemma RunDone(n: nat, op: nat, anchor: nat, s: State)
    requires n >= MIN_LENGTH && RunState(n, op, anchor, s) && s.Main? && s.ip + MF_LIMIT > n
    ensures RunWritten(n, op, anchor)
  {
  }

  lemma StateReach(data: seq<byte>, anchor: nat, s: State)
    requires StateOk(data, anchor, s)
    ensures Reach(s) <= |data| && anchor <= At(s)
  {
  }
}
