/**
  Writing a block: LZ4HC_encodeSequence (lz4hc.c) and the last-literals
  sections that end every LZ4 block encoder, with their output budgets.
*/
module Encoding {
  import opened BlockFormat
  import opened Memory
  import opened Matching
  import opened Sizes

  const MAX_INPUT_SIZE := 0x7E00_0000

  datatype Limit = NotLimited | LimitedOutput | FillOutput

  /** LZ4_COMPRESSBOUND. */
  function CompressBound(n: nat): nat {
    n + n / 255 + 16
  }

  // ----- Length fields -----

  /** The number of extension bytes of a length. */
  function ExtSize(v: nat): (n: nat)
    ensures n == |Extension(v)|
  {
    if v < 15 then 0 else (v - 15) / 255 + 1
  }

  function SequenceSize(litLength: nat, matchLength: nat): nat
    requires matchLength >= MIN_MATCH
  {
    1 + ExtSize(litLength) + litLength + 2 + ExtSize(matchLength - MIN_MATCH)
  }

  lemma SequenceSizeIs(lits: seq<byte>, offset: nat, matchLength: nat)
    requires offset <= MAX_DISTANCE && matchLength >= MIN_MATCH
    ensures |SequenceBytes(lits, offset, matchLength)| == SequenceSize(|lits|, matchLength)
  {
    hide Extension, ExtSize;
  }

  /** Writes the length bytes of `v` at `op`. */
  method PutLength(dst: array<byte>, op: nat, v: nat) returns (op': nat)
    requires op + v / 255 + 1 <= dst.Length
    modifies dst
    ensures op' == op + v / 255 + 1
    ensures dst[..op'] == old(dst[..op]) + LengthBytes(v)
  {
    var len := v;
    op' := op;
    while len >= 255
      invariant op <= op' && op' + len / 255 + 1 == op + v / 255 + 1
      invariant dst[..op'] + LengthBytes(len) == old(dst[..op]) + LengthBytes(v)
      decreases len
    {
      assert LengthBytes(len) == [255] + LengthBytes(len - 255);
      ghost var before := dst[..op'];
      dst[op'] := 255;
      op' := op' + 1;
      assert dst[..op'] == before + [255];
      len := len - 255;
    }
    ghost var before := dst[..op'];
    dst[op'] := len;
    op' := op' + 1;
    assert dst[..op'] == before + [len];
  }

  /** The match-length loop of LZ4HC_encodeSequence: two bytes a turn. */
  method PutLengthByPairs(dst: array<byte>, op: nat, v: nat) returns (op': nat)
    requires op + v / 255 + 1 <= dst.Length
    modifies dst
    ensures op' == op + v / 255 + 1
    ensures dst[..op'] == old(dst[..op]) + LengthBytes(v)
  {
    var len := v;
    op' := op;
    while len >= 510
      invariant op <= op' && op' + len / 255 + 1 == op + v / 255 + 1
      invariant dst[..op'] + LengthBytes(len) == old(dst[..op]) + LengthBytes(v)
      decreases len
    {
      TwoLengthBytes(len);
      ghost var before := dst[..op'];
      dst[op'], dst[op' + 1] := 255, 255;
      op' := op' + 2;
      assert dst[..op'] == before + [255, 255];
      len := len - 510;
    }
    op' := PutLength(dst, op', len);
  }

  lemma TwoLengthBytes(v: nat)
    requires v >= 510
    ensures LengthBytes(v) == [255, 255] + LengthBytes(v - 510)
  {
    assert LengthBytes(v) == [255] + LengthBytes(v - 255);
    assert LengthBytes(v - 255) == [255] + LengthBytes(v - 510);
  }

  // ----- One sequence -----

  /** The fixed part of a run of the encoder: input, output buffer, and output budget. */
  datatype Run = Run(data: seq<byte>, start: nat, dst: array<byte>, limit: Limit, oend: nat) {
    ghost predicate Valid() {
      && start <= |data|
      && (if limit.NotLimited? then CompressBound(|data| - start) <= dst.Length else oend <= dst.Length)
    }
  }

  /** An unlimited encoder stays within the worst-case size: 255 bytes of input never cost more than 256 of output. */
  ghost predicate Budget(r: Run, op: nat, anchor: nat) {
    r.start <= anchor && 255 * op <= 256 * (anchor - r.start)
  }

  /** Where the literals of a sequence come to lie, and that there is room to over-copy. */
  lemma LiteralRoom(r: Run, op: nat, anchor: nat, ip: nat)
    requires r.Valid() && Budget(r, op, anchor) && anchor <= ip && ip + MF_LIMIT <= |r.data|
    ensures op + 1 + (ip - anchor) / 255 + (ip - anchor) + 8 <= CompressBound(|r.data| - r.start)
  {
  }

  /** The budget is kept by every sequence, whatever its lengths. */
  lemma SequenceBudget(r: Run, op: nat, anchor: nat, ip: nat, ml: nat)
    requires Budget(r, op, anchor) && anchor <= ip && ml >= MIN_MATCH
    ensures Budget(r, op + SequenceSize(ip - anchor, ml), ip + ml)
  {
    var l := ip - anchor;
    assert 255 * ExtSize(l) <= l + 240;
    assert ml < 19 ==> ExtSize(ml - MIN_MATCH) == 0;
    assert ml >= 19 ==> 255 * ExtSize(ml - MIN_MATCH) <= ml + 236;
  }

  /** Token and literal length. The low half of the token stays 0 for now. */
  method PutToken(dst: array<byte>, op: nat, length: nat) returns (op': nat)
    requires op + 1 + ExtSize(length) <= dst.Length
    modifies dst
    ensures op' == op + 1 + ExtSize(length)
    ensures dst[..op'] == old(dst[..op]) + ([16 * Nibble(length)] + Extension(length))
  {
    ghost var was := dst[..op];
    op' := op + 1;
    dst[op] := 16 * Nibble(length);
    assert dst[..op'] == was + [16 * Nibble(length)];
    if length >= 15 {
      op' := PutLength(dst, op', length - 15);
    }
  }

  lemma ExtSmall(length: nat)
    ensures ExtSize(length) == (length + 240) / 255 <= length / 255 + 1 && (length == 0 ==> ExtSize(length) == 0)
  {
  }

  /** Token, literal length and literals. */
  method PutLiterals(r: Run, op: nat, anchor: nat, ip: nat) returns (op': nat)
    requires anchor <= ip && ip + 8 <= |r.data|
    requires op + 1 + (ip - anchor) / 255 + (ip - anchor) + 8 <= r.dst.Length
    modifies r.dst
    ensures op' == op + 1 + ExtSize(ip - anchor) + (ip - anchor)
    ensures r.dst[..op'] == old(r.dst[..op]) + ([16 * Nibble(ip - anchor)] + Extension(ip - anchor) + r.data[anchor..ip])
  {
    hide Extension, Nibble, ExtSize;
    ExtSmall(ip - anchor);
    op' := PutToken(r.dst, op, ip - anchor);
    ghost var filled := r.dst[..op'];
    WildCopy8From(r.dst, op', r.data, anchor, op' + (ip - anchor));
    assert r.dst[..op' + (ip - anchor)] == filled + r.data[anchor..ip];
    op' := op' + (ip - anchor);
  }

  lemma TokenUpdate(buf: seq<byte>, pre: seq<byte>, token: byte, rest: seq<byte>, token': byte)
    requires buf == pre + ([token] + rest)
    ensures buf[|pre| := token'] == pre + ([token'] + rest)
  {
  }

  /** The two offset bytes. */
  method PutOffset(dst: array<byte>, op: nat, offset: nat) returns (op': nat)
    requires offset <= MAX_DISTANCE && op + 2 <= dst.Length
    modifies dst
    ensures op' == op + 2
    ensures dst[..op'] == old(dst[..op]) + [offset % 256, offset / 256]
  {
    ghost var was := dst[..op];
    dst[op] := offset % 256;
    dst[op + 1] := offset / 256;
    op' := op + 2;
    assert dst[..op'] == was + [offset % 256, offset / 256];
  }

  /** The low part of a match length is added to the token. */
  method AddToToken(dst: array<byte>, op: nat, token: nat, ghost pre: seq<byte>, ghost rest: seq<byte>, litLength: nat, length: nat)
    requires token < op <= dst.Length
    requires |pre| == token && dst[..op] == pre + ([16 * Nibble(litLength)] + rest)
    modifies dst
    ensures dst[..op] == pre + ([16 * Nibble(litLength) + Nibble(length)] + rest)
  {
    ghost var was := dst[..op];
    assert dst[token] == was[token] == 16 * Nibble(litLength);
    TokenUpdate(was, pre, 16 * Nibble(litLength), rest, 16 * Nibble(litLength) + Nibble(length));
    dst[token] := dst[token] + Nibble(length);
    assert dst[..op] == was[token := 16 * Nibble(litLength) + Nibble(length)];
  }

  /** The match-length loop of LZ4_compress_generic: four bytes a turn, over-writing up to three. */
  method PutLengthByWords(dst: array<byte>, op: nat, v: nat) returns (op': nat)
    requires op + v / 255 + 4 <= dst.Length
    modifies dst
    ensures op' == op + v / 255 + 1
    ensures dst[..op'] == old(dst[..op]) + LengthBytes(v)
  {
    hide LengthBytes;
    var len := v;
    op' := op;
    Fill4(dst, op');
    while len >= 4 * 255
      invariant op <= op' && op' + len / 255 == op + v / 255
      invariant dst[..op'] + LengthBytes(len) == old(dst[..op]) + LengthBytes(v)
      invariant forall k :: op' <= k < op' + 4 ==> dst[k] == 255
      decreases len
    {
      FourLengthBytes(old(dst[..op]), v, dst[..op'], len);
      ghost var before := dst[..op'];
      assert dst[..op' + 4] == before + [255, 255, 255, 255];
      op' := op' + 4;
      Fill4(dst, op');
      len := len - 4 * 255;
    }
    FewLengthBytes(len);
    ghost var before := dst[..op'];
    op' := op' + len / 255;
    assert dst[..op'] == before + FullBytes(len / 255);
    ghost var last := dst[..op'];
    dst[op'] := len % 255;
    op' := op' + 1;
    assert dst[..op'] == last + [len % 255];
  }

  lemma FourLengthBytes(was: seq<byte>, v: nat, now: seq<byte>, len: nat)
    requires len >= 4 * 255 && now + LengthBytes(len) == was + LengthBytes(v)
    ensures now + [255, 255, 255, 255] + LengthBytes(len - 4 * 255) == was + LengthBytes(v)
  {
    TwoLengthBytes(len);
    TwoLengthBytes(len - 510);
    hide LengthBytes;
    assert LengthBytes(len) == [255, 255, 255, 255] + LengthBytes(len - 4 * 255);
    assert now + [255, 255, 255, 255] + LengthBytes(len - 4 * 255) == now + LengthBytes(len);
  }

  /** LZ4_write32(p, 0xFFFFFFFF). */
  method Fill4(dst: array<byte>, p: nat)
    requires p + 4 <= dst.Length
    modifies dst
    ensures forall k :: p <= k < p + 4 ==> dst[k] == 255
    ensures dst[..p] == old(dst[..p])
  {
    forall k | p <= k < p + 4 {
      dst[k] := 255;
    }
  }

  function FullBytes(n: nat): (s: seq<byte>)
    ensures |s| == n && forall k :: 0 <= k < n ==> s[k] == 255
  {
    seq(n, _ => 255)
  }

  lemma FewLengthBytes(v: nat)
    requires v < 4 * 255
    ensures LengthBytes(v) == FullBytes(v / 255) + [v % 255]
    decreases v
  {
    if v >= 255 {
      FewLengthBytes(v - 255);
      assert FullBytes(v / 255) == [255] + FullBytes((v - 255) / 255);
    }
  }

  /** The match length: its low part is added to the token, the rest follows, in the loop of either compressor. */
  method PutMatchLength(dst: array<byte>, op: nat, token: nat, ghost pre: seq<byte>, ghost rest: seq<byte>,
                        litLength: nat, length: nat, byWords: bool) returns (op': nat)
    requires token < op && op + ExtSize(length) <= dst.Length
    requires byWords && length >= 15 ==> op + ExtSize(length) + 3 <= dst.Length
    requires |pre| == token && dst[..op] == pre + ([16 * Nibble(litLength)] + rest)
    modifies dst
    ensures op' == op + ExtSize(length)
    ensures dst[..op'] == pre + ([16 * Nibble(litLength) + Nibble(length)] + rest) + Extension(length)
  {
    hide Nibble;
    AddToToken(dst, op, token, pre, rest, litLength, length);
    op' := op;
    if length >= 15 {
      if byWords {
        op' := PutLengthByWords(dst, op, length - 15);
      } else {
        op' := PutLengthByPairs(dst, op, length - 15);
      }
    }
  }

  /** The capacity with which LZ4HC_encodeSequence does not give up. */
  function RoomNeeded(op: nat, litLength: nat, ml: nat): nat
    requires ml >= MIN_MATCH
  {
    Max(op + 1 + litLength / 255 + litLength + 8, op + 1 + ExtSize(litLength) + litLength + 2 + (ml - MIN_MATCH) / 255 + 6)
  }

  /**
    LZ4HC_encodeSequence. Without a limit it always succeeds; with one it gives
    up before anything is written out of bounds, and only when the capacity is
    below the worst-case size.
  */
  method EncodeSequence(r: Run, op: nat, anchor: nat, ip: nat, ml: nat, m: nat) returns (overflow: bool, op': nat)
    requires r.Valid() && Budget(r, op, anchor) && op <= r.dst.Length
    requires anchor <= ip && ip + MF_LIMIT <= |r.data| && ip + ml + LAST_LITERALS <= |r.data| && ml >= MIN_MATCH
    requires m < ip && ip - m <= MAX_DISTANCE
    modifies r.dst
    ensures !overflow ==> op' == op + SequenceSize(ip - anchor, ml) && op' <= r.dst.Length
    ensures !overflow ==> r.dst[..op'] == old(r.dst[..op]) + SequenceBytes(r.data[anchor..ip], ip - m, ml)
    ensures overflow ==> !r.limit.NotLimited? && r.dst[..op] == old(r.dst[..op])
    ensures overflow ==> r.oend < CompressBound(|r.data| - r.start) && r.oend < RoomNeeded(op, ip - anchor, ml)
    ensures !overflow && !r.limit.NotLimited? ==> op' + LAST_LITERALS <= r.oend
  {
    hide Extension, ExtSize, SequenceBytes, Budget, CompressBound, Nibble, LengthBytes;
    LiteralRoom(r, op, anchor, ip);
    var length := ip - anchor;
    op' := op + 1;
    if !r.limit.NotLimited? && op' + length / 255 + length + (2 + 1 + LAST_LITERALS) > r.oend {
      return true, op';
    }
    ghost var pre := r.dst[..op];
    ghost var lits := r.data[anchor..ip];
    op' := PutLiterals(r, op, anchor, ip);
    MatchRoom(r, op, anchor, ip, ml);
    op' := PutOffset(r.dst, op', ip - m);
    BeforeMatchLength(pre, 16 * Nibble(length), Extension(length), lits, [(ip - m) % 256, (ip - m) / 256], r.dst[..op']);
    assert r.dst[..op] == pre;
    var mlength := ml - MIN_MATCH;
    if !r.limit.NotLimited? && op' + mlength / 255 + (1 + LAST_LITERALS) > r.oend {
      return true, op';
    }
    ghost var rest := Extension(length) + lits + [(ip - m) % 256, (ip - m) / 256];
    op' := PutMatchLength(r.dst, op', op, pre, rest, length, mlength, false);
    AfterMatchLength(pre, lits, ip - m, ml, r.dst[..op']);
    overflow := false;
  }

  /** After the literals there is room for the offset, and a match length that breaks the limit is one that breaks the worst case. */
  lemma MatchRoom(r: Run, op: nat, anchor: nat, ip: nat, ml: nat)
    requires r.Valid() && Budget(r, op, anchor) && anchor <= ip && ip + MF_LIMIT <= |r.data|
    requires ml >= MIN_MATCH && ip + ml + LAST_LITERALS <= |r.data|
    ensures var op2 := op + 1 + ExtSize(ip - anchor) + (ip - anchor) + 2;
            && op2 <= op + 1 + (ip - anchor) / 255 + (ip - anchor) + (2 + 1 + LAST_LITERALS)
            && op2 + (ml - MIN_MATCH) / 255 + 3 + LAST_LITERALS <= CompressBound(|r.data| - r.start)
            && ExtSize(ml - MIN_MATCH) <= (ml - MIN_MATCH) / 255 + 1
  {
    var l := ip - anchor;
    assert 255 * ExtSize(l) <= l + 240;
    assert 255 * ((ml - MIN_MATCH) / 255) <= ml - MIN_MATCH;
  }

  lemma BeforeMatchLength<T>(pre: seq<T>, token: T, ext: seq<T>, lits: seq<T>, off: seq<T>, buf: seq<T>)
    requires buf == pre + ([token] + ext + lits) + off
    ensures buf == pre + ([token] + (ext + lits + off))
  {
  }

  lemma AfterMatchLength(pre: seq<byte>, lits: seq<byte>, offset: nat, ml: nat, buf: seq<byte>)
    requires offset <= MAX_DISTANCE && ml >= MIN_MATCH
    requires buf == pre + ([16 * Nibble(|lits|) + Nibble(ml - MIN_MATCH)] + (Extension(|lits|) + lits + [offset % 256, offset / 256]))
                    + Extension(ml - MIN_MATCH)
    ensures buf == pre + SequenceBytes(lits, offset, ml)
  {
    hide Extension;
  }

  // ----- What has been written so far -----

  /** The least total output a finished block may have, when at least `slack` literals follow the last match. */
  function EndNeeded(written: seq<byte>, data: seq<byte>, anchor: nat, slack: nat): nat {
    if written == [] then 0 else if anchor + slack < |data| then anchor + slack else |data|
  }

  /**
    `written` decodes to the input up to `anchor`, whatever follows it; a block
    that ends there must still hold `slack` literals, or all that is left.
  */
  ghost predicate EncodedWithin(data: seq<byte>, start: nat, written: seq<byte>, anchor: nat, slack: nat) {
    && start <= anchor <= |data|
    && Produces(written, data[..start], data[..anchor], EndNeeded(written, data, anchor, slack))
  }

  /** Eight literals are enough after any match. */
  ghost predicate Encoded(data: seq<byte>, start: nat, written: seq<byte>, anchor: nat) {
    EncodedWithin(data, start, written, anchor, MF_LIMIT - MIN_MATCH)
  }

  lemma EncodedNothing(data: seq<byte>, start: nat, slack: nat := MF_LIMIT - MIN_MATCH)
    requires start <= |data|
    ensures EncodedWithin(data, start, [], start, slack)
  {
    ProducesNothing(data[..start]);
  }

  lemma ProducesWeaker(written: seq<byte>, before: seq<byte>, after: seq<byte>, minEnd: nat, minEnd': nat)
    requires Produces(written, before, after, minEnd) && minEnd <= minEnd'
    ensures Produces(written, before, after, minEnd')
  {
  }

  /** A match that an encoder may use: it starts and ends early enough for the end of the block. */
  ghost predicate Usable(data: seq<byte>, s: int, off: int, mlen: int) {
    && mlen >= MIN_MATCH && IsMatch(data, s, s - off, mlen)
    && s + MF_LIMIT <= |data| && s + mlen + LAST_LITERALS <= |data|
  }

  /** One more encoded match. Matches of seven bytes or more leave only the last-literals rule to respect. */
  lemma EncodedMore(data: seq<byte>, start: nat, written: seq<byte>, anchor: nat, slack: nat, s: nat, m: nat, ml: nat, slack': nat)
    requires EncodedWithin(data, start, written, anchor, slack) && slack <= MF_LIMIT - MIN_MATCH
    requires anchor <= s && Usable(data, s, s - m, ml)
    requires slack' == MF_LIMIT - MIN_MATCH || (slack' == LAST_LITERALS && ml >= MF_LIMIT)
    ensures EncodedWithin(data, start, written + SequenceBytes(data[anchor..s], s - m, ml), s + ml, slack')
  {
    hide SequenceBytes, Produces, CopyMatch, Extension, LengthBytes, EndNeeded, Repeats, RoomAfter;
    var lits := data[anchor..s];
    var more := SequenceBytes(lits, s - m, ml);
    assert data[..anchor] + lits == data[..s];
    var needed := EndNeeded(written, data, anchor, slack);
    ProducesMore(written, data[..start], data[..anchor], needed, lits, s - m, ml);
    CopyMatchInData(data, s, s - m, ml);
    SequenceSizeIs(lits, s - m, ml);
    RoomIsSlack(data, written, anchor, slack, s, ml, written + more, slack');
    ProducesWeaker(written + more, data[..start], data[..s + ml], Max(needed, RoomAfter(s, ml)),
                   EndNeeded(written + more, data, s + ml, slack'));
  }

  /** The slack after a match accounts for the end-of-block restrictions of all matches up to it. */
  lemma RoomIsSlack(data: seq<byte>, written: seq<byte>, anchor: nat, slack: nat, s: nat, ml: nat, written': seq<byte>, slack': nat)
    requires slack <= MF_LIMIT - MIN_MATCH && anchor <= s && ml >= MIN_MATCH && |written'| > 0
    requires s + MF_LIMIT <= |data| && s + ml + LAST_LITERALS <= |data|
    requires slack' == MF_LIMIT - MIN_MATCH || (slack' == LAST_LITERALS && ml >= MF_LIMIT)
    ensures Max(EndNeeded(written, data, anchor, slack), RoomAfter(s, ml)) <= EndNeeded(written', data, s + ml, slack')
  {
  }

  /** EncodeSequence, stated on what has been written so far. */
  method EmitMatch(r: Run, op: nat, anchor: nat, ip: nat, ml: nat, m: nat) returns (overflow: bool, op': nat)
    requires r.Valid() && Budget(r, op, anchor) && op <= r.dst.Length
    requires Encoded(r.data, r.start, r.dst[..op], anchor)
    requires anchor <= ip && Usable(r.data, ip, ip - m, ml)
    modifies r.dst
    ensures overflow ==> !r.limit.NotLimited? && r.dst[..op] == old(r.dst[..op]) && r.oend < CompressBound(|r.data| - r.start)
    ensures overflow ==> r.oend < RoomNeeded(op, ip - anchor, ml)
    ensures !overflow ==> op < op' <= r.dst.Length && Budget(r, op', ip + ml) && op' == op + SequenceSize(ip - anchor, ml)
    ensures !overflow ==> Encoded(r.data, r.start, r.dst[..op'], ip + ml)
    ensures !overflow && !r.limit.NotLimited? ==> op' + LAST_LITERALS <= r.oend
  {
    hide EncodedWithin, Budget, CompressBound;
    ghost var written := r.dst[..op];
    overflow, op' := EncodeSequence(r, op, anchor, ip, ml, m);
    if !overflow {
      EncodedMore(r.data, r.start, written, anchor, MF_LIMIT - MIN_MATCH, ip, m, ml, MF_LIMIT - MIN_MATCH);
      SequenceBudget(r, op, anchor, ip, ml);
    }
  }

  // ----- The last literals -----

  /** A finished block: it decodes to the input up to `end`, and respects the end-of-block restrictions. */
  ghost predicate Block(data: seq<byte>, start: nat, block: seq<byte>, end: nat) {
    && start <= end <= |data|
    && Meaning(block, 0, data[..start]) == Decoded(data[..end])
    && MeetsEndRules(block, 0, start, end)
  }

  lemma BlockDone(data: seq<byte>, start: nat, written: seq<byte>, anchor: nat, slack: nat, end: nat)
    requires EncodedWithin(data, start, written, anchor, slack) && anchor <= end <= |data|
    requires written == [] || end == |data| || anchor + slack <= end
    ensures Block(data, start, written + FinalBytes(data[anchor..end]), end)
  {
    hide FinalBytes, Produces;
    var lits := data[anchor..end];
    assert data[..anchor] + lits == data[..end];
    ProducesBlock(written, data[..start], data[..anchor], EndNeeded(written, data, anchor, slack), lits);
  }

  /** How many literals fit, with their token and length bytes, in `room` bytes. */
  function Fitting(room: nat): int
    requires room >= 1
  {
    room - 1 - (room - 1 + 240) / 255
  }

  /** What the last literals may leave of a budget: their length bytes are reckoned for more literals than then fit. */
  function Unused(room: nat): nat {
    1 + room / 65025
  }

  lemma FittingFills(room: nat)
    requires room >= 1
    ensures Fitting(room) >= 0 ==> 1 + ExtSize(Fitting(room)) + Fitting(room) + Unused(room) >= room
  {
    var e := (room - 1 + 240) / 255;
    if Fitting(room) >= 0 {
      ExtSmall(Fitting(room));
      hide ExtSize;
      assert room - 1 + 240 >= 255 * e;
      assert ExtSize(Fitting(room)) >= (254 * e) / 255;
      assert (254 * e) / 255 >= e - (e + 254) / 255;
    }
  }

  lemma UnusedGrows(room: nat, more: nat)
    requires room <= more
    ensures Unused(room) <= Unused(more)
  {
  }

  lemma FittingFits(room: nat, lastRun: nat, slack: nat)
    requires room >= 1 && 1 + (lastRun + 240) / 255 + lastRun > room
    ensures 0 <= Fitting(room) <= lastRun && 1 + ExtSize(Fitting(room)) + Fitting(room) <= room
    ensures room > slack && slack <= 8 ==> Fitting(room) >= slack
    ensures 1 + ExtSize(Fitting(room)) + Fitting(room) + Unused(room) >= room
  {
    FittingFills(room);
    var f := Fitting(room);
    assert f >= 15 ==> (f - 15) / 255 + 1 == (f + 240) / 255;
  }

  /** The size of the literals that end a block. */
  function LastSize(litLength: nat): nat {
    1 + ExtSize(litLength) + litLength
  }

  /** The `_last_literals` section. Fails only in limitedOutput mode, and then only below the worst-case size. */
  method LastLiterals(r: Run, op: nat, anchor: nat, ghost slack: nat := MF_LIMIT - MIN_MATCH)
    returns (ok: bool, op': nat, end: nat)
    requires r.Valid() && Budget(r, op, anchor) && op <= r.dst.Length
    requires EncodedWithin(r.data, r.start, r.dst[..op], anchor, slack) && slack <= MF_LIMIT - MIN_MATCH
    requires !r.limit.NotLimited? ==> op <= r.oend
    requires r.limit.FillOutput? ==> op + 1 <= r.oend && (op == 0 || op + slack + 1 <= r.oend)
    modifies r.dst
    ensures ok ==> op' <= r.dst.Length && Block(r.data, r.start, r.dst[..op'], end)
    ensures ok ==> (if r.limit.NotLimited? then op' <= CompressBound(|r.data| - r.start) else op' <= r.oend)
    ensures ok && !r.limit.FillOutput? ==> end == |r.data|
    ensures ok ==> end == |r.data| || op' + Unused(r.oend) >= r.oend
    ensures ok && !r.limit.FillOutput? ==> op' == op + LastSize(|r.data| - anchor)
    ensures !ok ==> r.limit.LimitedOutput? && r.oend < CompressBound(|r.data| - r.start) && r.oend < op + LastSize(|r.data| - anchor)
  {
    ExtSmall(|r.data| - anchor);
    var lastRun := |r.data| - anchor;
    if !r.limit.NotLimited? && op + 1 + (lastRun + 240) / 255 + lastRun > r.oend {
      if r.limit.LimitedOutput? {
        return false, op, anchor;
      }
      FittingFits(r.oend - op, lastRun, slack);
      UnusedGrows(r.oend - op, r.oend);
      lastRun := r.oend - op - 1;
      lastRun := lastRun - (lastRun + 240) / 255;
    }
    end := anchor + lastRun;
    op' := PutLast(r, op, anchor, slack, end);
    ok := true;
  }

  method PutLast(r: Run, op: nat, anchor: nat, ghost slack: nat, end: nat) returns (op': nat)
    requires anchor <= end <= |r.data| && op + 1 + ExtSize(end - anchor) + (end - anchor) <= r.dst.Length
    requires EncodedWithin(r.data, r.start, r.dst[..op], anchor, slack)
    requires op == 0 || end == |r.data| || anchor + slack <= end
    modifies r.dst
    ensures op' == op + 1 + ExtSize(end - anchor) + (end - anchor)
    ensures Block(r.data, r.start, r.dst[..op'], end)
  {
    hide EncodedWithin, Extension, Block, ExtSize, Nibble;
    ghost var written := r.dst[..op];
    BlockDone(r.data, r.start, written, anchor, slack, end);
    op' := PutToken(r.dst, op, end - anchor);
    ghost var filled := r.dst[..op'];
    CopyFrom(r.dst, op', r.data, anchor, end - anchor);
    op' := op' + (end - anchor);
    assert r.dst[..op'] == filled + r.data[anchor..end];
    assert r.dst[..op'] == written + FinalBytes(r.data[anchor..end]);
  }

  // ----- Between sequences -----

  /** The state of the encoder between sequences. */
  ghost predicate EncoderOk(r: Run, op: nat, anchor: nat, ip: nat) {
    && r.Valid() && Budget(r, op, anchor) && anchor <= ip
  }

  ghost predicate WrittenOk(r: Run, op: nat, anchor: nat)
    reads r.dst
  {
    op <= r.dst.Length && Encoded(r.data, r.start, r.dst[..op], anchor)
    && (!r.limit.NotLimited? && op > 0 ==> op + LAST_LITERALS <= r.oend)
  }

  /** While sequences are written in fillOutput mode, the last five bytes are kept back for the last literals. */
  function KeepBack(r: Run): Run {
    if r.limit.FillOutput? then r.(oend := if r.oend >= LAST_LITERALS then r.oend - LAST_LITERALS else 0) else r
  }

  // ----- Runs -----

  /** An input of one byte repeated, and a little room for the output. */
  ghost predicate EasyRun(r: Run) {
    && OneByte(r.data) && r.start == 0 && !r.limit.FillOutput?
    && (r.limit.NotLimited? || r.oend >= |r.data| / 255 + 16)
  }

  // ----- Blocks that stand alone -----

  /** A block that stands for the first `n` bytes of `src`, whatever conforming decoder reads it. */
  ghost predicate Encodes(block: seq<byte>, src: seq<byte>, n: nat) {
    n <= |src| && Meaning(block, 0, []) == Decoded(src[..n]) && MeetsEndRules(block, 0, 0, n)
  }

  lemma BoundIsPositive(n: nat)
    ensures CompressBound(n) >= 1
  {
  }

  lemma BlockEncodes(src: seq<byte>, block: seq<byte>, n: nat)
    requires Block(src, 0, block, n)
    ensures Encodes(block, src, n) && |block| > 0
  {
    assert src[..0] == [];
  }
}
