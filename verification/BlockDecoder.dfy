/**
  LZ4_decompress_generic (lz4.c), for endOnInputSize and decode_full_block, in
  the modes noDict and withPrefix64k. The buffer holds the history, then the
  output: positions below `start` were decoded before this block.
*/
module BlockDecoder {
  import opened BlockFormat
  import opened Memory
  import opened Encoding
  import opened Sizes

  const RUN_MASK := 15
  const ML_MASK := 15
  const FASTLOOP_SAFE_DISTANCE := 64
  const MATCH_SAFEGUARD_DISTANCE := 12
  const WILDCOPY_LENGTH := 8

  /** The largest size up to which 32-bit length sums make no difference to any block. */
  const SUM_SAFE_SIZE := 16843013

  datatype DictMode = NoDict | WithPrefix64k

  datatype Job = Job(src: seq<byte>, dst: array<byte>, start: nat, oend: nat, dict: DictMode, lowPrefix: int) {
    ghost predicate Valid() {
      && start <= oend <= dst.Length
      && oend - start < 0x8000_0000 && |src| < 0x8000_0000
      && match dict
         case NoDict => lowPrefix == 0
         case WithPrefix64k => lowPrefix == start - 0x1_0000 && start >= 0xFFFF
    }
  }

  // ----- What remains to be decoded, at each point of a sequence -----

  /**
    What a run of the decoder is measured against: the outcome of the block, as
    a decoder with 32-bit length sums reads it; and whether the block is legal,
    that is, decodes within the capacity and meets the end-of-block restrictions
    for `end` bytes. A block with a zero offset has no meaning to be measured against.
  */
  datatype Target = Target(goal: Outcome, legal: bool, end: nat)

  ghost predicate TargetOk(j: Job, t: Target) {
    t.legal ==> t.goal.Decoded? && t.end <= j.oend
  }

  ghost function OffsetAt(src: seq<byte>, j: nat): nat
    requires j + 2 <= |src|
  {
    src[j] as int + 256 * src[j + 1] as int
  }

  ghost function RestMatch(src: seq<byte>, next: nat, out: seq<byte>, offset: nat, ml: nat): Outcome {
    if offset == 0 then ZeroOffset
    else if offset > |out| then Malformed
    else Meaning(src, next, CopyMatch(out, offset, ml), U32)
  }

  ghost predicate LegalMatch(src: seq<byte>, next: nat, produced: nat, ml: nat, end: nat) {
    && produced + MF_LIMIT <= end
    && produced + ml + LAST_LITERALS <= end
    && MeetsEndRules(src, next, produced + ml, end, U32)
  }

  ghost function RestOffset(src: seq<byte>, nibble: nat, j: nat, out: seq<byte>): Outcome
    requires nibble <= 15
  {
    if j + 2 > |src| then Malformed
    else
      match FieldLength(nibble, src, j + 2, U32)
      case Truncated => Malformed
      case Length(v, n) => RestMatch(src, n, out, OffsetAt(src, j), MIN_MATCH + v)
  }

  ghost predicate LegalOffset(src: seq<byte>, nibble: nat, j: nat, produced: nat, end: nat)
    requires nibble <= 15
  {
    && j + 2 <= |src|
    && var m := FieldLength(nibble, src, j + 2, U32);
       m.Length? && LegalMatch(src, m.next, produced, MIN_MATCH + m.value, end)
  }

  ghost predicate HeadOk(t: Target, src: seq<byte>, i: nat, out: seq<byte>) {
    t.goal.ZeroOffset? || (Meaning(src, i, out, U32) == t.goal && (t.legal ==> MeetsEndRules(src, i, |out|, t.end, U32)))
  }

  ghost predicate OffsetOk(t: Target, src: seq<byte>, nibble: nat, j: nat, out: seq<byte>)
    requires nibble <= 15
  {
    t.goal.ZeroOffset? || (RestOffset(src, nibble, j, out) == t.goal && (t.legal ==> LegalOffset(src, nibble, j, |out|, t.end)))
  }

  ghost predicate MatchOk(t: Target, src: seq<byte>, next: nat, out: seq<byte>, offset: nat, ml: nat) {
    t.goal.ZeroOffset? || (RestMatch(src, next, out, offset, ml) == t.goal && (t.legal ==> LegalMatch(src, next, |out|, ml, t.end)))
  }

  ghost predicate DoneOk(t: Target, out: seq<byte>) {
    t.goal.ZeroOffset? || t.goal == Decoded(out)
  }

  /** The literal length of the sequence at `i` has been read, or is known to run past the end of the block. */
  ghost predicate LiteralsKnown(t: Target, src: seq<byte>, i: nat, ip: nat, length: nat) {
    && i < ip <= |src|
    && (t.goal.ZeroOffset?
        || FieldLength(src[i] / 16, src, i + 1, U32) == Length(length, ip)
        || (ip + length > |src| && SequenceAt(src, i, U32).Broken?))
  }

  // ----- Facts about what remains -----

  /** The sequence at `i`, once its literal length is known. */
  lemma SequenceWithLiterals(src: seq<byte>, i: nat, ls: nat, ll: nat)
    requires i < |src| && FieldLength(src[i] / 16, src, i + 1, U32) == Length(ll, ls) && ls + ll <= |src|
    ensures SequenceAt(src, i, U32)
            == var j := ls + ll;
               if j == |src| then Final(ls, ll)
               else if j + 2 > |src| then Broken
               else
                 match FieldLength(src[i] % 16, src, j + 2, U32)
                 case Truncated => Broken
                 case Length(v, n) => Inner(ls, ll, OffsetAt(src, j), MIN_MATCH + v, n)
  {
    hide FieldLength;
  }

  lemma HeadToLiterals(t: Target, src: seq<byte>, i: nat, ls: nat, ll: nat, out: seq<byte>)
    requires i < |src| && FieldLength(src[i] / 16, src, i + 1, U32) == Length(ll, ls) && ls + ll <= |src|
    requires HeadOk(t, src, i, out)
    ensures ls + ll == |src| ==> DoneOk(t, out + src[ls..ls + ll])
    ensures ls + ll == |src| && t.legal && !t.goal.ZeroOffset? ==> |out| + ll == t.end
    ensures ls + ll < |src| ==> OffsetOk(t, src, src[i] % 16, ls + ll, out + src[ls..ls + ll])
  {
    SequenceWithLiterals(src, i, ls, ll);
    hide SequenceAt, FieldLength;
  }

  /** Five bytes of output cannot come from five bytes of block or fewer. */
  lemma {:induction false} TooShort(src: seq<byte>, i: nat, produced: nat, end: nat)
    requires |src| - i <= LAST_LITERALS && produced + LAST_LITERALS <= end
    ensures !MeetsEndRules(src, i, produced, end, U32)
    decreases |src| - i
  {
    hide SequenceAt;
    var s := SequenceAt(src, i, U32);
    if s.Inner? && produced + s.litLength + s.matchLength + LAST_LITERALS <= end {
      TooShort(src, s.next, produced + s.litLength + s.matchLength, end);
    }
  }

  /** In a legal block, whatever follows a match needs at least six bytes. */
  lemma LegalOffsetRoom(src: seq<byte>, nibble: nat, j: nat, produced: nat, end: nat)
    requires nibble <= 15 && LegalOffset(src, nibble, j, produced, end)
    ensures j + 2 + 6 <= |src| && produced + MF_LIMIT <= end
    ensures FieldLength(nibble, src, j + 2, U32).next + 6 <= |src|
  {
    hide MeetsEndRules;
    var m := FieldLength(nibble, src, j + 2, U32);
    if |src| - m.next <= LAST_LITERALS {
      TooShort(src, m.next, produced + MIN_MATCH + m.value, end);
    }
  }

  // ----- Variable lengths -----

  datatype LengthError = NoError | LoopError | InitialError

  function AddLength(sum: nat, r: LengthRead): LengthRead {
    match r
    case Truncated => Truncated
    case Length(v, n) => Length(sum + v, n)
  }

  lemma AddNothing(r: LengthRead)
    ensures AddLength(0, r) == r
  {
  }

  /** One more length byte: in 32 bits, and in the format. */
  lemma SumStep(src: seq<byte>, ip: nat, next: nat, sum: nat)
    requires next < |src| && ReadLength(src, ip) == AddLength(sum, ReadLength(src, next))
    ensures (sum % U32 + src[next]) % U32 == (sum + src[next]) % U32
    ensures src[next] == 255 ==> ReadLength(src, ip) == AddLength(sum + 255, ReadLength(src, next + 1))
    ensures src[next] != 255 ==> ReadLength(src, ip) == Length(sum + src[next], next + 1)
  {
  }

  /**
    read_variable_length with loop_check set: stops with an error as soon as
    the cursor reaches `lencheck`. The sum is kept in 32 bits; `sum` is its exact value.
  */
  method ReadVariableLength(src: seq<byte>, ip: nat, lencheck: int, initialCheck: bool)
    returns (length: nat, next: nat, error: LengthError, ghost sum: nat)
    requires lencheck <= |src| && ip <= |src|
    requires !initialCheck ==> ip < |src|
    ensures error.InitialError? <==> initialCheck && ip >= lencheck
    ensures length == sum % U32 && ip <= next <= |src| && sum <= 255 * (next - ip)
    ensures error.NoError? ==> next < lencheck && ReadLength(src, ip) == Length(sum, next)
    ensures error.LoopError? ==> next >= lencheck && ip < next
    ensures error.LoopError? ==> ReadLength(src, ip) == Length(sum, next)
                                 || (sum == 255 * (next - ip) && ReadLength(src, ip) == AddLength(sum, ReadLength(src, next)))
  {
    hide AddLength;
    length, next, error, sum := 0, ip, NoError, 0;
    AddNothing(ReadLength(src, ip));
    if initialCheck && ip >= lencheck {
      return 0, ip, InitialError, 0;
    }
    while true
      invariant ip <= next < |src|
      invariant length == sum % U32 && sum == 255 * (next - ip)
      invariant ReadLength(src, ip) == AddLength(sum, ReadLength(src, next))
      decreases |src| - next
    {
      var s := src[next];
      SumStep(src, ip, next, sum);
      next := next + 1;
      length, sum := (length + s) % U32, sum + s;
      if next >= lencheck {
        error := LoopError;
        return;
      }
      if s != 255 {
        return;
      }
    }
  }

  /** Reads the token at `i` and its literal length. */
  method LiteralLength(src: seq<byte>, i: nat, ghost t: Target, ghost out: seq<byte>)
    returns (ok: bool, length: nat, ip: nat)
    requires i < |src| && HeadOk(t, src, i, out)
    requires |src| < 0x8000_0000
    ensures !ok ==> t.goal.ZeroOffset? || SequenceAt(src, i, U32).Broken?
    ensures ok ==> LiteralsKnown(t, src, i, ip, length)
    ensures ok && src[i] / 16 < RUN_MASK ==> length == src[i] / 16 && ip == i + 1
  {
    length := src[i] / 16;
    ip := i + 1;
    if length == RUN_MASK {
      var more, next, error, sum := ReadVariableLength(src, ip, |src| - RUN_MASK, true);
      LongLiterals(src, i, t, out, sum, next);
      if error.InitialError? {
        return false, length, ip;
      }
      length := length + more;
      ip := next;
    }
    ok := true;
  }

  /** What the literal length reader learnt is enough: an exact length, or one that runs past the end. */
  lemma LongLiterals(src: seq<byte>, i: nat, t: Target, out: seq<byte>, sum: nat, next: nat)
    requires i < |src| && src[i] / 16 == RUN_MASK && HeadOk(t, src, i, out)
    requires |src| < 0x8000_0000
    requires i + 1 <= next <= |src|
    ensures i + 1 >= |src| - RUN_MASK ==> SequenceAt(src, i, U32).Broken?
    ensures ReadLength(src, i + 1) == Length(sum, next) ==> LiteralsKnown(t, src, i, next, RUN_MASK + sum % U32)
    ensures next > i + 1 && next >= |src| - RUN_MASK && sum == 255 * (next - (i + 1))
              && ReadLength(src, i + 1) == AddLength(sum, ReadLength(src, next)) ==>
              LiteralsKnown(t, src, i, next, RUN_MASK + sum % U32)
  {
    hide ReadLength;
    if next > i + 1 {
      FullBytesNeverWrapToZero(next - (i + 1));
    }
  }

  /** A run of bytes 255 that an `int` can count never adds up to a multiple of 2^32. */
  lemma FullBytesNeverWrapToZero(n: nat)
    requires 0 < n < 0x8000_0000
    ensures (255 * n) % U32 >= 1
  {
    var m := 255 * n / U32;
    assert 255 * n == m * U32 + (255 * n) % U32;
    assert U32 == 255 * 16843009 + 1;
    assert m <= 127;
  }

  /** Reads the match length whose extension bytes, if any, are at `ip`, just after the offset. */
  method MatchLength(j: Job, i: nat, ip: nat, ghost t: Target, ghost out: seq<byte>)
    returns (ok: bool, length: nat, next: nat)
    requires TargetOk(j, t) && |out| >= j.start && i < |j.src| && 2 <= ip < |j.src|
    requires OffsetOk(t, j.src, j.src[i] % 16, ip - 2, out)
    ensures !ok ==> !t.legal
    ensures ok ==> ip <= next < |j.src| && length >= MIN_MATCH
    ensures ok ==> MatchOk(t, j.src, next, out, OffsetAt(j.src, ip - 2), length)
    ensures j.src[i] % 16 != ML_MASK ==> ok && length == j.src[i] % 16 + MIN_MATCH && next == ip
  {
    hide MatchOk, SequenceAt;
    length := j.src[i] % 16;
    next := ip;
    if t.legal {
      LegalOffsetRoom(j.src, j.src[i] % 16, ip - 2, |out|, t.end);
    }
    if length == ML_MASK {
      var more, n, error, sum := ReadVariableLength(j.src, ip, |j.src| - LAST_LITERALS + 1, false);
      if !error.NoError? {
        return false, length, next;
      }
      length := length + more;
      next := n;
    }
    length := length + MIN_MATCH;
    ok := true;
    MatchLengthRead(j, i, ip, t, out, length, next);
  }

  lemma MatchLengthRead(j: Job, i: nat, ip: nat, t: Target, out: seq<byte>, length: nat, next: nat)
    requires i < |j.src| && 2 <= ip <= |j.src| && length >= MIN_MATCH
    requires OffsetOk(t, j.src, j.src[i] % 16, ip - 2, out)
    requires FieldLength(j.src[i] % 16, j.src, ip, U32) == Length(length - MIN_MATCH, next)
    ensures MatchOk(t, j.src, next, out, OffsetAt(j.src, ip - 2), length)
  {
    hide FieldLength, MeetsEndRules, Meaning;
  }

  /** The offset check accepts every offset of a legal block, and nothing that reaches before the history. */
  lemma OffsetCheck(j: Job, t: Target, next: nat, out: seq<byte>, offset: nat, ml: nat)
    requires j.Valid() && TargetOk(j, t) && |out| >= j.start && offset <= MAX_DISTANCE
    requires MatchOk(t, j.src, next, out, offset, ml)
    ensures |out| - offset < j.lowPrefix ==> !t.legal
    ensures |out| - offset >= j.lowPrefix ==> offset <= |out|
  {
    hide Meaning, MeetsEndRules;
  }

  /** Bytes that repeat at the offset are the match. */
  lemma MatchDone(j: Job, t: Target, next: nat, was: seq<byte>, now: seq<byte>, offset: nat, ml: nat)
    requires TargetOk(j, t) && MatchOk(t, j.src, next, was, offset, ml)
    requires offset <= |was| && |now| == |was| + ml && now[..|was|] == was
    requires offset >= 1 ==> Repeats(now, |was|, |now|, offset)
    ensures HeadOk(t, j.src, next, now)
  {
    hide Meaning, MeetsEndRules;
    if offset >= 1 {
      CopyMatchUnique(was, offset, ml, now);
    }
  }

  // ----- Points of the decoding loops -----

  /**
    Where the decoder stands between two steps: the labels of the C function.
    `i` is the position of the current token.
  */
  datatype Point =
    | Head(ip: nat, op: nat)                                    // start of a sequence
    | Literals(i: nat, ip: nat, op: nat, length: nat)           // safe_literal_copy
    | AtOffset(i: nat, ip: nat, op: nat)                        // "get offset"
    | AtLength(i: nat, ip: nat, op: nat, offset: nat)           // _copy_match
    | AtCopy(ip: nat, op: nat, offset: nat, length: nat)        // safe_match_copy
    | Done(op: nat)
    | Error

  ghost predicate PointOk(j: Job, t: Target, p: Point)
    requires j.Valid()
    reads j.dst
  {
    match p
    case Error => !t.legal
    case Done(op) => j.start <= op <= j.oend && DoneOk(t, j.dst[..op])
    case Head(ip, op) => ip < |j.src| && j.start <= op <= j.oend && HeadOk(t, j.src, ip, j.dst[..op])
    case Literals(i, ip, op, length) =>
      && i < ip <= |j.src| && j.start <= op <= j.oend
      && LiteralsKnown(t, j.src, i, ip, length) && HeadOk(t, j.src, i, j.dst[..op])
    case AtOffset(i, ip, op) =>
      && i < |j.src| && ip + 2 < |j.src| && j.start <= op && op + MF_LIMIT <= j.oend
      && OffsetOk(t, j.src, j.src[i] % 16, ip, j.dst[..op])
    case AtLength(i, ip, op, offset) =>
      && i < |j.src| && 2 <= ip < |j.src| && j.start <= op && op + MF_LIMIT <= j.oend
      && offset == OffsetAt(j.src, ip - 2)
      && OffsetOk(t, j.src, j.src[i] % 16, ip - 2, j.dst[..op])
    case AtCopy(ip, op, offset, length) =>
      && ip < |j.src| && j.start <= op && op + MF_LIMIT <= j.oend
      && offset <= MAX_DISTANCE && length >= MIN_MATCH
      && MatchOk(t, j.src, ip, j.dst[..op], offset, length)
  }

  /** Nothing outside [start, oend) has been written. */
  ghost predicate Untouched(was: seq<byte>, now: seq<byte>, start: nat, oend: nat) {
    && |was| == |now| && start <= oend <= |was|
    && (forall k :: 0 <= k < start || oend <= k < |was| ==> now[k] == was[k])
  }

  // ----- The fast loop -----

  /** Token, literal length and literals, while 64 bytes of output remain. */
  method FastLiterals(j: Job, ghost t: Target, ip: nat, op: nat) returns (p: Point)
    requires j.Valid() && TargetOk(j, t) && PointOk(j, t, Head(ip, op))
    requires op + FASTLOOP_SAFE_DISTANCE <= j.oend
    modifies j.dst
    ensures PointOk(j, t, p) && (p.Error? || p.Literals? || p.AtOffset?)
    ensures p.Literals? ==> p.ip > ip && p.op == op
    ensures p.AtOffset? ==> p.ip > ip && p.op >= op && p.op + 32 <= j.oend
    ensures forall k :: 0 <= k < op || j.oend <= k < j.dst.Length ==> j.dst[k] == old(j.dst[k])
  {
    hide MeetsEndRules, Meaning, SequenceAt, FieldLength, OffsetOk, HeadOk, DoneOk;
    ghost var out := j.dst[..op];
    var ok, length, next := LiteralLength(j.src, ip, t, out);
    if !ok {
      BrokenIsIllegal(t, j.src, ip, out);
      return Error;
    }
    var cpy := op + length;
    if j.src[ip] / 16 == RUN_MASK {
      if cpy > j.oend - 32 || next + length > |j.src| - 32 {
        return Literals(ip, next, op, length);
      }
      WildCopy32From(j.dst, op, j.src, next, cpy);
    } else {
      if next > |j.src| - 17 {
        return Literals(ip, next, op, length);
      }
      CopyFrom(j.dst, op, j.src, next, 16);
    }
    p := AtOffset(ip, next + length, cpy);
    assert j.dst[..op] == out;
    LiteralsCopied(j, t, ip, next, length, out, j.dst[..cpy]);
  }

  lemma BrokenIsIllegal(t: Target, src: seq<byte>, i: nat, out: seq<byte>)
    requires HeadOk(t, src, i, out) && (t.goal.ZeroOffset? || SequenceAt(src, i, U32).Broken?)
    requires (t.goal.ZeroOffset? ==> !t.legal) && (t.legal ==> t.goal.Decoded?)
    ensures !t.legal
  {
  }

  /** After the literals have been copied, the offset comes next unless the block ends here. */
  lemma LiteralsCopied(j: Job, t: Target, i: nat, ls: nat, ll: nat, was: seq<byte>, now: seq<byte>)
    requires TargetOk(j, t) && LiteralsKnown(t, j.src, i, ls, ll) && HeadOk(t, j.src, i, was)
    requires ls + ll <= |j.src|
    requires |now| == |was| + ll && now[..|was|] == was
    requires forall k :: |was| <= k < |now| ==> now[k] == j.src[ls + k - |was|]
    ensures ls + ll < |j.src| ==> OffsetOk(t, j.src, j.src[i] % 16, ls + ll, now)
    ensures ls + ll == |j.src| ==> DoneOk(t, now) && (t.legal ==> |now| == t.end)
  {
    hide Meaning, MeetsEndRules, SequenceAt, FieldLength;
    assert now == was + j.src[ls..ls + ll];
    if !t.goal.ZeroOffset? {
      HeadToLiterals(t, j.src, i, ls, ll, was);
    }
  }

  /** Offset, match length and match, while the match ends 64 bytes before the end of the output. */
  method FastMatch(j: Job, ghost t: Target, i: nat, ip: nat, op: nat) returns (p: Point)
    requires j.Valid() && TargetOk(j, t) && PointOk(j, t, AtOffset(i, ip, op)) && op + 32 <= j.oend
    modifies j.dst
    ensures PointOk(j, t, p) && (p.Error? || p.AtCopy? || p.Head?)
    ensures p.AtCopy? ==> p.ip > ip && p.op == op
    ensures p.Head? ==> p.ip > ip && p.op >= op && p.op + FASTLOOP_SAFE_DISTANCE <= j.oend
    ensures forall k :: 0 <= k < op || j.oend <= k < j.dst.Length ==> j.dst[k] == old(j.dst[k])
  {
    hide MeetsEndRules, Meaning, SequenceAt, FieldLength, OffsetOk, HeadOk, MatchOk;
    ghost var out := j.dst[..op];
    var offset: nat := j.src[ip] as int + 256 * j.src[ip + 1] as int;
    if j.src[i] % 16 == ML_MASK && op - offset < j.lowPrefix {
      OffsetCheckEarly(j, t, i, ip, out);
      return Error;
    }
    var ok, length, next := MatchLength(j, i, ip + 2, t, out);
    if !ok {
      return Error;
    }
    OffsetCheck(j, t, next, out, offset, length);
    if op + length >= j.oend - FASTLOOP_SAFE_DISTANCE {
      return AtCopy(next, op, offset, length);
    }
    var short := j.src[i] % 16 != ML_MASK && (j.dict.WithPrefix64k? || op - offset >= j.lowPrefix) && offset >= 8;
    if !short && op - offset < j.lowPrefix {
      return Error;
    }
    FastCopy(j.dst, op, offset, length, short);
    assert j.dst[..op] == out;
    RepeatsCut(j.dst[..], op, op + length, offset);
    MatchDone(j, t, next, out, j.dst[..op + length], offset, length);
    p := Head(next, op + length);
  }

  /** The match copies of the fast loop; `short` is the fast path for matches of at most 18 bytes. */
  method FastCopy(buf: array<byte>, op: nat, offset: nat, length: nat, short: bool)
    requires offset <= op && length >= MIN_MATCH && op + length + 32 <= buf.Length
    requires short ==> offset >= 8 && length <= 18
    modifies buf
    ensures offset >= 1 ==> Repeats(buf[..], op, op + length, offset)
    ensures forall k :: 0 <= k < op || op + length + 32 <= k < buf.Length ==> buf[k] == old(buf[k])
  {
    if short {
      CopyEighteen(buf, op, offset);
    } else if offset < 16 {
      CopyUsingOffset(buf, op, offset, op + length);
    } else {
      WildCopy32Within(buf, op, op - offset, op + length);
    }
  }

  /** The offset check made before the match length is read rejects no legal block. */
  lemma OffsetCheckEarly(j: Job, t: Target, i: nat, ip: nat, out: seq<byte>)
    requires j.Valid() && TargetOk(j, t) && |out| >= j.start && i < |j.src| && ip + 2 <= |j.src|
    requires OffsetOk(t, j.src, j.src[i] % 16, ip, out)
    ensures |out| - OffsetAt(j.src, ip) < j.lowPrefix ==> !t.legal
  {
    hide Meaning, MeetsEndRules, FieldLength;
  }

  lemma RepeatsCut(buf: seq<byte>, op: nat, e: nat, offset: nat)
    requires op <= e <= |buf|
    ensures offset >= 1 && Repeats(buf, op, e, offset) ==> Repeats(buf[..e], op, e, offset)
  {
  }

  /** The three fixed copies of a match of at most 18 bytes at a distance of 8 or more. */
  method CopyEighteen(buf: array<byte>, op: nat, offset: nat)
    requires 8 <= offset <= op && op + 18 <= buf.Length
    modifies buf
    ensures Repeats(buf[..], op, op + 18, offset)
    ensures forall k :: 0 <= k < op || op + 18 <= k < buf.Length ==> buf[k] == old(buf[k])
  {
    CopyWithin(buf, op, op - offset, 8);
    CopyWithin(buf, op + 8, op - offset + 8, 8);
    CopyWithin(buf, op + 16, op - offset + 16, 2);
  }

  // ----- The safe loop -----

  /** Token and literal length, or the two-stage shortcut for short literals and short matches. */
  method SafeHead(j: Job, ghost t: Target, ip: nat, op: nat) returns (p: Point)
    requires j.Valid() && TargetOk(j, t) && PointOk(j, t, Head(ip, op))
    modifies j.dst
    ensures PointOk(j, t, p) && (p.Error? || p.Literals? || p.AtLength? || p.Head?)
    ensures !p.Error? ==> p.ip > ip && p.op >= op
    ensures forall k :: 0 <= k < op || j.oend <= k < j.dst.Length ==> j.dst[k] == old(j.dst[k])
  {
    hide MeetsEndRules, Meaning, SequenceAt, FieldLength, OffsetOk, HeadOk, DoneOk, MatchOk;
    ghost var out := j.dst[..op];
    if j.src[ip] / 16 != RUN_MASK && ip + 1 < |j.src| - 16 && op <= j.oend - 32 {
      var length := j.src[ip] / 16;
      CopyFrom(j.dst, op, j.src, ip + 1, 16);
      assert j.dst[..op] == out;
      ShortLiterals(t, j.src, ip);
      LiteralsCopied(j, t, ip, ip + 1, length, out, j.dst[..op + length]);
      p := Shortcut(j, t, ip, ip + 1 + length, op + length);
    } else {
      var ok, length, next := LiteralLength(j.src, ip, t, out);
      if !ok {
        BrokenIsIllegal(t, j.src, ip, out);
        return Error;
      }
      p := Literals(ip, next, op, length);
    }
  }

  lemma ShortLiterals(t: Target, src: seq<byte>, i: nat)
    requires i < |src| && src[i] / 16 < 15
    ensures LiteralsKnown(t, src, i, i + 1, src[i] / 16)
  {
    hide SequenceAt;
  }

  /** Second stage of the shortcut: a short match at a distance of 8 or more, or on to _copy_match. */
  method Shortcut(j: Job, ghost t: Target, i: nat, ip: nat, op: nat) returns (p: Point)
    requires j.Valid() && TargetOk(j, t) && PointOk(j, t, AtOffset(i, ip, op)) && op + 18 <= j.oend
    modifies j.dst
    ensures PointOk(j, t, p) && (p.AtLength? || p.Head?)
    ensures p.ip > ip && p.op >= op
    ensures forall k :: 0 <= k < op || j.oend <= k < j.dst.Length ==> j.dst[k] == old(j.dst[k])
  {
    hide MeetsEndRules, Meaning, SequenceAt, FieldLength, OffsetOk, HeadOk, DoneOk, MatchOk;
    ghost var out := j.dst[..op];
    var length := j.src[i] % 16;
    var offset: nat := j.src[ip] as int + 256 * j.src[ip + 1] as int;
    if length != ML_MASK && offset >= 8 && (j.dict.WithPrefix64k? || op - offset >= j.lowPrefix) {
      var ok, total, next := MatchLength(j, i, ip + 2, t, out);
      CopyEighteen(j.dst, op, offset);
      assert j.dst[..op] == out;
      RepeatsCut(j.dst[..], op, op + total, offset);
      MatchDone(j, t, next, out, j.dst[..op + total], offset, total);
      p := Head(ip + 2, op + length + MIN_MATCH);
    } else {
      p := AtLength(i, ip + 2, op, offset);
    }
  }

  /** Literals copied with every check; a sequence near either end must be the last one. */
  method SafeLiterals(j: Job, ghost t: Target, i: nat, ip: nat, op: nat, length: nat) returns (p: Point)
    requires j.Valid() && TargetOk(j, t) && PointOk(j, t, Literals(i, ip, op, length))
    modifies j.dst
    ensures PointOk(j, t, p) && (p.Error? || p.Done? || p.AtLength?)
    ensures p.AtLength? ==> p.ip > ip && p.op >= op
    ensures p.Done? ==> p.op >= op
    ensures forall k :: 0 <= k < op || j.oend <= k < j.dst.Length ==> j.dst[k] == old(j.dst[k])
  {
    hide MeetsEndRules, Meaning, SequenceAt, FieldLength, OffsetOk, HeadOk, DoneOk, MatchOk, LiteralsKnown;
    ghost var out := j.dst[..op];
    var cpy := op + length;
    if cpy > j.oend - MF_LIMIT || ip + length > |j.src| - (2 + 1 + LAST_LITERALS) {
      if ip + length != |j.src| || cpy > j.oend {
        MustBeLast(j, t, i, ip, op, length, out);
        return Error;
      }
      CopyFrom(j.dst, op, j.src, ip, length);
      assert j.dst[..op] == out;
      LiteralsCopied(j, t, i, ip, length, out, j.dst[..cpy]);
      p := Done(cpy);
    } else {
      WildCopy8From(j.dst, op, j.src, ip, cpy);
      assert j.dst[..op] == out;
      LiteralsCopied(j, t, i, ip, length, out, j.dst[..cpy]);
      var offset: nat := j.src[ip + length] as int + 256 * j.src[ip + length + 1] as int;
      p := AtLength(i, ip + length + 2, cpy, offset);
    }
  }

  /** In a legal block, only the last sequence comes so near to the end of the input or of the output. */
  lemma MustBeLast(j: Job, t: Target, i: nat, ls: nat, op: nat, ll: nat, out: seq<byte>)
    requires TargetOk(j, t) && |out| == op && i < |j.src| && LiteralsKnown(t, j.src, i, ls, ll) && HeadOk(t, j.src, i, out)
    requires op + ll > j.oend - MF_LIMIT || ls + ll > |j.src| - (2 + 1 + LAST_LITERALS)
    requires ls + ll != |j.src| || op + ll > j.oend
    ensures !t.legal
  {
    hide FieldLength, Meaning, MeetsEndRules, SequenceAt, OffsetOk, HeadOk, DoneOk;
    if t.legal && !t.goal.ZeroOffset? {
      LegalLiterals(t, j.src, i, ls, ll, out);
      HeadToLiterals(t, j.src, i, ls, ll, out);
      if ls + ll < |j.src| {
        NotLast(j, t, j.src[i] % 16, ls + ll, out + j.src[ls..ls + ll]);
      }
    }
  }

  lemma LegalLiterals(t: Target, src: seq<byte>, i: nat, ls: nat, ll: nat, out: seq<byte>)
    requires t.legal && !t.goal.ZeroOffset? && HeadOk(t, src, i, out) && i < |src| && LiteralsKnown(t, src, i, ls, ll)
    ensures FieldLength(src[i] / 16, src, i + 1, U32) == Length(ll, ls) && ls + ll <= |src|
  {
    hide Meaning, FieldLength;
  }

  lemma NotLast(j: Job, t: Target, nibble: nat, at: nat, now: seq<byte>)
    requires TargetOk(j, t) && t.legal && !t.goal.ZeroOffset? && nibble <= 15 && OffsetOk(t, j.src, nibble, at, now)
    ensures |now| <= j.oend - MF_LIMIT && at <= |j.src| - (2 + 1 + LAST_LITERALS)
  {
    hide LegalOffset, RestOffset;
    LegalOffsetRoom(j.src, nibble, at, |now|, t.end);
  }

  /** _copy_match: the match length, then on to the copy. */
  method SafeLength(j: Job, ghost t: Target, i: nat, ip: nat, op: nat, offset: nat) returns (p: Point)
    requires j.Valid() && TargetOk(j, t) && PointOk(j, t, AtLength(i, ip, op, offset))
    ensures PointOk(j, t, p) && (p.Error? || p.AtCopy?)
    ensures p.AtCopy? ==> p.ip >= ip && p.op == op
  {
    hide MeetsEndRules, Meaning, SequenceAt, FieldLength, OffsetOk, HeadOk, DoneOk, MatchOk;
    var ok, length, next := MatchLength(j, i, ip, t, j.dst[..op]);
    p := if ok then AtCopy(next, op, offset, length) else Error;
  }

  /** safe_match_copy: the match, copied with every check. */
  method SafeCopy(j: Job, ghost t: Target, ip: nat, op: nat, offset: nat, length: nat) returns (p: Point)
    requires j.Valid() && TargetOk(j, t) && PointOk(j, t, AtCopy(ip, op, offset, length))
    modifies j.dst
    ensures PointOk(j, t, p) && (p.Error? || p.Head?)
    ensures p.Head? ==> p.ip == ip && p.op >= op
    ensures forall k :: 0 <= k < op || j.oend <= k < j.dst.Length ==> j.dst[k] == old(j.dst[k])
  {
    hide MeetsEndRules, Meaning, SequenceAt, FieldLength, OffsetOk, HeadOk, DoneOk, MatchOk;
    ghost var out := j.dst[..op];
    OffsetCheck(j, t, ip, out, offset, length);
    if op - offset < j.lowPrefix {
      return Error;
    }
    var cpy := op + length;
    var from := FirstEight(j.dst, op, offset);
    if cpy > j.oend - MATCH_SAFEGUARD_DISTANCE {
      if cpy > j.oend - LAST_LITERALS {
        TooFar(j, t, ip, out, offset, length);
        return Error;
      }
      CopyTail(j.dst, op, from, cpy, offset, j.oend);
    } else {
      CopyBody(j.dst, op, from, cpy, offset);
    }
    assert j.dst[..op] == out;
    RepeatsCut(j.dst[..], op, cpy, offset);
    MatchDone(j, t, ip, out, j.dst[..cpy], offset, length);
    p := Head(ip, cpy);
  }

  /** No match of a legal block touches the last five bytes. */
  lemma TooFar(j: Job, t: Target, ip: nat, out: seq<byte>, offset: nat, length: nat)
    requires TargetOk(j, t) && MatchOk(t, j.src, ip, out, offset, length)
    requires |out| + length > j.oend - LAST_LITERALS
    ensures !t.legal
  {
    hide MeetsEndRules, Meaning;
  }

  /** The rest of a match after its first eight bytes, with room to over-copy. */
  method CopyBody(buf: array<byte>, op: nat, from: nat, cpy: nat, offset: nat)
    requires op + MIN_MATCH <= cpy && cpy + MATCH_SAFEGUARD_DISTANCE <= buf.Length
    requires from + WideDistance(offset) == op + 8 && WideDistance(offset) >= 8
    requires offset >= 1 ==> Repeats(buf[..], op, op + 8, offset)
    modifies buf
    ensures offset >= 1 ==> Repeats(buf[..], op, cpy, offset)
    ensures forall k :: 0 <= k < op || cpy + MATCH_SAFEGUARD_DISTANCE <= k < buf.Length ==> buf[k] == old(buf[k])
  {
    ghost var eight := buf[..];
    CopyWithin(buf, op + 8, from, 8);
    if cpy > op + 16 {
      WildCopy8Within(buf, op + 16, from + 8, cpy);
    }
    if offset >= 1 {
      RepeatsKept(eight, buf[..], op, op + 8, offset);
      EightThenRest(buf[..], op, Max(op + 16, cpy), offset);
    }
  }

  /** The rest of a match that ends near the end of the output: whole words, then single bytes. */
  method CopyTail(buf: array<byte>, op: nat, from0: nat, cpy: nat, offset: nat, oend: nat)
    requires op + MF_LIMIT <= oend <= buf.Length && op + MIN_MATCH <= cpy <= oend - LAST_LITERALS
    requires from0 + WideDistance(offset) == op + 8 && WideDistance(offset) >= 8
    requires offset >= 1 ==> Repeats(buf[..], op, op + 8, offset)
    modifies buf
    ensures offset >= 1 ==> Repeats(buf[..], op, cpy, offset)
    ensures forall k :: 0 <= k < op || oend <= k < buf.Length ==> buf[k] == old(buf[k])
  {
    ghost var eight := buf[..];
    var x, from := op + 8, from0;
    var oCopyLimit := oend - (WILDCOPY_LENGTH - 1);
    if x < oCopyLimit {
      WildCopy8Within(buf, x, from, oCopyLimit);
      from := from + (oCopyLimit - x);
      x := oCopyLimit;
    }
    while x < cpy
      invariant op + 8 <= x && from + WideDistance(offset) == x
      invariant x <= Max(op + 8, oend)
      invariant forall k :: op + 8 <= k < x ==> buf[k] == buf[k - WideDistance(offset)]
      invariant forall k :: 0 <= k < op + 8 || oend <= k < buf.Length ==> buf[k] == eight[k]
    {
      buf[x] := buf[from];
      x, from := x + 1, from + 1;
    }
    if offset >= 1 {
      RepeatsKept(eight, buf[..], op, op + 8, offset);
      EightThenRest(buf[..], op, x, offset);
    }
  }

  // ----- The whole decoder -----

  /** Decreases with every step: the input position, then the order of the labels inside a sequence. */
  function Left(srcSize: nat, p: Point): int {
    match p
    case Head(ip, _) => 5 * (srcSize - ip)
    case AtCopy(ip, _, _, _) => 5 * (srcSize - ip) + 1
    case AtLength(_, ip, _, _) => 5 * (srcSize - ip) + 2
    case AtOffset(_, ip, _) => 5 * (srcSize - ip) + 3
    case Literals(_, ip, _, _) => 5 * (srcSize - ip) + 4
    case Done(_) => 0
    case Error => 0
  }

  function OutputOf(p: Point): nat {
    match p
    case Head(_, op) => op
    case AtCopy(_, op, _, _) => op
    case AtLength(_, _, op, _) => op
    case AtOffset(_, _, op) => op
    case Literals(_, _, op, _) => op
    case Done(op) => op
    case Error => 0
  }

  /** Decodes whole sequences while 64 bytes of output remain; says where the safe loop takes over. */
  method FastLoop(j: Job, ghost t: Target, ip: nat) returns (p: Point)
    requires j.Valid() && TargetOk(j, t) && PointOk(j, t, Head(ip, j.start))
    requires j.start + FASTLOOP_SAFE_DISTANCE <= j.oend
    modifies j.dst
    ensures PointOk(j, t, p) && (p.Error? || p.Literals? || p.AtCopy?)
    ensures !p.Error? ==> OutputOf(p) >= j.start
    ensures Untouched(old(j.dst[..]), j.dst[..], j.start, j.oend)
  {
    hide MeetsEndRules, Meaning, SequenceAt, FieldLength, OffsetOk, HeadOk, DoneOk, MatchOk, LiteralsKnown;
    p := Head(ip, j.start);
    while p.Head?
      invariant PointOk(j, t, p) && (p.Error? || p.Literals? || p.AtCopy? || p.Head?)
      invariant p.Head? ==> p.op + FASTLOOP_SAFE_DISTANCE <= j.oend
      invariant Untouched(old(j.dst[..]), j.dst[..], j.start, j.oend)
      decreases Left(|j.src|, p)
    {
      p := FastLiterals(j, t, p.ip, p.op);
      if p.AtOffset? {
        p := FastMatch(j, t, p.i, p.ip, p.op);
      }
    }
  }

  /** The safe loop, entered at any of its labels. */
  method SafeLoop(j: Job, ghost t: Target, p0: Point) returns (p: Point)
    requires j.Valid() && TargetOk(j, t) && PointOk(j, t, p0) && !p0.AtOffset?
    modifies j.dst
    ensures PointOk(j, t, p) && (p.Error? || p.Done?)
    ensures Untouched(old(j.dst[..]), j.dst[..], j.start, j.oend)
  {
    hide MeetsEndRules, Meaning, SequenceAt, FieldLength, OffsetOk, HeadOk, DoneOk, MatchOk, LiteralsKnown;
    p := p0;
    while !p.Done? && !p.Error?
      invariant PointOk(j, t, p) && !p.AtOffset?
      invariant Untouched(old(j.dst[..]), j.dst[..], j.start, j.oend)
      decreases Left(|j.src|, p)
    {
      match p
      case Head(ip, op) => p := SafeHead(j, t, ip, op);
      case Literals(i, ip, op, length) => p := SafeLiterals(j, t, i, ip, op, length);
      case AtLength(i, ip, op, offset) => p := SafeLength(j, t, i, ip, op, offset);
      case AtCopy(ip, op, offset, length) => p := SafeCopy(j, t, ip, op, offset, length);
    }
  }

  /** The block decodes within the capacity and respects the end-of-block restrictions. */
  ghost predicate LegalBlock(src: seq<byte>, history: seq<byte>, capacity: nat, modulus: nat := 0) {
    && var m := Meaning(src, 0, history, modulus);
       m.Decoded? && |m.out| <= |history| + capacity && MeetsEndRules(src, 0, |history|, |m.out|, modulus)
  }

  lemma MeaningExtends(src: seq<byte>, i: nat, out: seq<byte>)
    requires Meaning(src, i, out, U32).Decoded?
    ensures out <= Meaning(src, i, out, U32).out
    decreases |src| - i
  {
    hide SequenceAt;
    var s := SequenceAt(src, i, U32);
    if s.Inner? {
      var lits := src[s.litStart..s.litStart + s.litLength];
      CopyMatchShape(out + lits, s.offset, s.matchLength);
      MeaningExtends(src, s.next, CopyMatch(out + lits, s.offset, s.matchLength));
      assert out <= out + lits <= CopyMatch(out + lits, s.offset, s.matchLength);
    }
  }

  /**
    LZ4_decompress_generic, for every block: a negative result means that it was
    rejected. Read with 32-bit length sums, every legal block is accepted with
    exactly its meaning, and whatever is accepted decodes to its meaning, unless
    it holds a zero offset. No byte outside the output is written.
  */
  method DecompressGeneric(j: Job) returns (result: int)
    requires j.Valid()
    modifies j.dst
    ensures result <= j.oend - j.start
    ensures Untouched(old(j.dst[..]), j.dst[..], j.start, j.oend)
    ensures LegalBlock(j.src, old(j.dst[..j.start]), j.oend - j.start, U32) ==>
              result >= 0 && Meaning(j.src, 0, old(j.dst[..j.start]), U32) == Decoded(j.dst[..j.start + result])
    ensures result >= 0 && !Meaning(j.src, 0, old(j.dst[..j.start]), U32).ZeroOffset? ==>
              Meaning(j.src, 0, old(j.dst[..j.start]), U32) == Decoded(j.dst[..j.start + result])
  {
    ghost var history := j.dst[..j.start];
    ghost var t := TargetOf(j, history);
    TargetOfOk(j, history);
    hide MeetsEndRules, Meaning, SequenceAt, FieldLength, OffsetOk, MatchOk, LiteralsKnown;
    if j.oend == j.start {
      EmptyOutput(j, history);
      return if |j.src| == 1 && j.src[0] == 0 then 0 else -1;
    }
    if |j.src| == 0 {
      EmptyInput(j, history);
      return -1;
    }
    var p: Point;
    if j.oend - j.start < FASTLOOP_SAFE_DISTANCE {
      p := Head(0, j.start);
    } else {
      p := FastLoop(j, t, 0);
    }
    p := SafeLoop(j, t, p);
    result := if p.Done? then p.op - j.start else -1;
  }

  ghost function TargetOf(j: Job, history: seq<byte>): Target
    requires j.Valid()
  {
    var goal := Meaning(j.src, 0, history, U32);
    Target(goal, LegalBlock(j.src, history, j.oend - j.start, U32), if goal.Decoded? then |goal.out| else 0)
  }

  lemma TargetOfOk(j: Job, history: seq<byte>)
    requires j.Valid() && |history| == j.start
    ensures TargetOk(j, TargetOf(j, history))
    ensures HeadOk(TargetOf(j, history), j.src, 0, history)
  {
  }

  /** Only the one-byte block 0 is legal when nothing can be written. */
  lemma EmptyOutput(j: Job, history: seq<byte>)
    ensures LegalBlock(j.src, history, 0, U32) ==> |j.src| == 1 && j.src[0] == 0
    ensures |j.src| == 1 && j.src[0] == 0 ==> Meaning(j.src, 0, history, U32) == Decoded(history)
  {
    if LegalBlock(j.src, history, 0, U32) {
      MeaningExtends(j.src, 0, history);
    }
    if |j.src| == 1 && j.src[0] == 0 {
      assert SequenceAt(j.src, 0, U32) == Final(1, 0);
      assert history + j.src[1..1] == history;
    }
  }

  lemma EmptyInput(j: Job, history: seq<byte>)
    requires |j.src| == 0
    ensures Meaning(j.src, 0, history, U32).Malformed?
  {
  }

  // ----- 32-bit length sums -----

  lemma {:induction false} SumIsBounded(src: seq<byte>, i: nat)
    requires ReadLength(src, i).Length?
    ensures ReadLength(src, i).value <= 255 * (ReadLength(src, i).next - i)
    decreases |src| - i
  {
    if src[i] == 255 {
      SumIsBounded(src, i + 1);
    }
  }

  /** The length bytes of the field, if it has any, add up to less than 2^32. */
  predicate FieldFits(nibble: nat, src: seq<byte>, i: nat)
    requires nibble <= 15 && i <= |src|
  {
    var f := FieldLength(nibble, src, i);
    f.Length? ==> f.value < 15 + U32
  }

  /** That is exactly when the field is read the same with 32-bit sums; where it ends does not depend on them. */
  lemma FieldNoWrap(nibble: nat, src: seq<byte>, i: nat)
    requires nibble <= 15 && i <= |src|
    ensures FieldFits(nibble, src, i) <==> FieldLength(nibble, src, i, U32) == FieldLength(nibble, src, i)
    ensures FieldLength(nibble, src, i, U32).Length? <==> FieldLength(nibble, src, i).Length?
    ensures FieldLength(nibble, src, i).Length? ==> FieldLength(nibble, src, i, U32).next == FieldLength(nibble, src, i).next
  {
  }

  /** A sum of 2^32 takes 16843010 bytes. */
  lemma WrappingField(nibble: nat, src: seq<byte>, i: nat)
    requires nibble <= 15 && i <= |src| && !FieldFits(nibble, src, i)
    ensures FieldLength(nibble, src, i).next >= i + 16843010
  {
    SumIsBounded(src, i);
  }

  /**
    No length field on the way through the block, from `i` on, has a sum of 2^32
    or more. Reading the block once tells; nothing is decoded.
  */
  predicate SumsFit(src: seq<byte>, i: nat)
    decreases |src| - i
  {
    i < |src| ==>
      && FieldFits(src[i] / 16, src, i + 1)
      && match FieldLength(src[i] / 16, src, i + 1)
         case Truncated => true
         case Length(v, n) =>
           n + v + 2 <= |src| ==>
             && FieldFits(src[i] % 16, src, n + v + 2)
             && match FieldLength(src[i] % 16, src, n + v + 2)
                case Truncated => true
                case Length(w, next) => SumsFit(src, next)
  }

  /** One sequence of a block whose sums fit. */
  lemma SequenceFits(src: seq<byte>, i: nat)
    requires SumsFit(src, i)
    ensures SequenceAt(src, i, U32) == SequenceAt(src, i)
    ensures SequenceAt(src, i).Inner? ==> SumsFit(src, SequenceAt(src, i).next)
  {
    hide FieldLength;
    if i < |src| {
      FieldNoWrap(src[i] / 16, src, i + 1);
      match FieldLength(src[i] / 16, src, i + 1)
      case Truncated =>
      case Length(v, n) =>
        if n + v + 2 <= |src| {
          FieldNoWrap(src[i] % 16, src, n + v + 2);
        }
    }
  }

  /** A sequence with lengths below 2^32, in a block of which only the rest is in question. */
  lemma FitsFromSequence(src: seq<byte>, i: nat)
    requires |src| < U32 && !SequenceAt(src, i).Broken?
    requires SequenceAt(src, i).Inner? ==> SequenceAt(src, i).matchLength < U32 && SumsFit(src, SequenceAt(src, i).next)
    ensures SumsFit(src, i)
  {
    hide FieldLength;
  }

  /** Where the sums fit, 32 bits make no difference. */
  lemma {:induction false} MeaningFits(src: seq<byte>, i: nat, out: seq<byte>)
    requires SumsFit(src, i)
    ensures Meaning(src, i, out, U32) == Meaning(src, i, out)
    decreases |src| - i
  {
    hide SequenceAt, CopyMatch, SumsFit;
    SequenceFits(src, i);
    var s := SequenceAt(src, i);
    if s.Inner? && 1 <= s.offset <= |out| + s.litLength {
      MeaningFits(src, s.next, CopyMatch(out + src[s.litStart..s.litStart + s.litLength], s.offset, s.matchLength));
    }
  }

  lemma {:induction false} MeaningIsLonger(src: seq<byte>, i: nat, out: seq<byte>)
    requires Meaning(src, i, out).Decoded?
    ensures |out| <= |Meaning(src, i, out).out|
    decreases |src| - i
  {
    hide SequenceAt, CopyMatch;
    var s := SequenceAt(src, i);
    if s.Inner? {
      var lits := src[s.litStart..s.litStart + s.litLength];
      CopyMatchShape(out + lits, s.offset, s.matchLength);
      MeaningIsLonger(src, s.next, CopyMatch(out + lits, s.offset, s.matchLength));
    }
  }

  /** Where they do not fit, the block is malformed or means 4 GB and more. */
  lemma {:induction false} SumsFitOf(src: seq<byte>, i: nat, out: seq<byte>)
    requires |src| < U32 && Meaning(src, i, out).Decoded? && |Meaning(src, i, out).out| < |out| + U32
    ensures SumsFit(src, i)
    decreases |src| - i
  {
    hide SequenceAt, CopyMatch, SumsFit;
    var s := SequenceAt(src, i);
    if s.Inner? {
      var lits := src[s.litStart..s.litStart + s.litLength];
      var now := CopyMatch(out + lits, s.offset, s.matchLength);
      CopyMatchShape(out + lits, s.offset, s.matchLength);
      MeaningIsLonger(src, s.next, now);
      SumsFitOf(src, s.next, now);
    }
    FitsFromSequence(src, i);
  }

  lemma {:induction false} EndRulesFit(src: seq<byte>, i: nat, produced: nat, end: nat)
    requires SumsFit(src, i)
    ensures MeetsEndRules(src, i, produced, end, U32) == MeetsEndRules(src, i, produced, end)
    decreases |src| - i
  {
    hide SequenceAt, SumsFit;
    SequenceFits(src, i);
    var s := SequenceAt(src, i);
    if s.Inner? {
      EndRulesFit(src, s.next, produced + s.litLength + s.matchLength, end);
    }
  }

  /** In a block of at most SUM_SAFE_SIZE bytes a field can only wrap where nothing comes of it. */
  lemma SequenceShort(src: seq<byte>, i: nat)
    requires |src| <= SUM_SAFE_SIZE
    ensures var s, t := SequenceAt(src, i), SequenceAt(src, i, U32);
            s == t || (s.Inner? && t.Inner? && s.next == |src| && t == s.(matchLength := t.matchLength))
  {
    hide FieldLength;
    if i < |src| {
      FieldNoWrap(src[i] / 16, src, i + 1);
      if !FieldFits(src[i] / 16, src, i + 1) {
        WrappingField(src[i] / 16, src, i + 1);
        assert FieldLength(src[i] / 16, src, i + 1, U32).value >= 15 by { WrappedField(src[i] / 16, src, i + 1); }
      } else {
        match FieldLength(src[i] / 16, src, i + 1)
        case Truncated =>
        case Length(v, n) =>
          if n + v + 2 <= |src| {
            FieldNoWrap(src[i] % 16, src, n + v + 2);
            if !FieldFits(src[i] % 16, src, n + v + 2) {
              WrappingField(src[i] % 16, src, n + v + 2);
            }
          }
      }
    }
  }

  lemma WrappedField(nibble: nat, src: seq<byte>, i: nat)
    requires nibble <= 15 && i <= |src| && !FieldFits(nibble, src, i)
    ensures FieldLength(nibble, src, i, U32).Length? && FieldLength(nibble, src, i, U32).value >= 15
  {
  }

  /** Up to that size, the two readings agree on every block and every history, also on those that are no blocks. */
  lemma {:induction false} MeaningShort(src: seq<byte>, i: nat, out: seq<byte>)
    requires |src| <= SUM_SAFE_SIZE
    ensures Meaning(src, i, out, U32) == Meaning(src, i, out)
    decreases |src| - i
  {
    hide SequenceAt, CopyMatch;
    SequenceShort(src, i);
    var s, t := SequenceAt(src, i), SequenceAt(src, i, U32);
    if s.Inner? && 1 <= s.offset <= |out| + s.litLength {
      var lits := src[s.litStart..s.litStart + s.litLength];
      if s == t {
        MeaningShort(src, s.next, CopyMatch(out + lits, s.offset, s.matchLength));
      } else {
        NothingLeft(src, CopyMatch(out + lits, s.offset, s.matchLength), 0);
        NothingLeft(src, CopyMatch(out + lits, t.offset, t.matchLength), U32);
      }
    }
  }

  lemma NothingLeft(src: seq<byte>, out: seq<byte>, modulus: nat)
    ensures Meaning(src, |src|, out, modulus) == Malformed
  {
  }

  /**
    Exactly when 32-bit length sums make no difference to a block that decodes
    with them: if and only if all its length sums fit. So they do in every block
    that means less than 4 GB, in particular in every legal block.
  */
  lemma SumsMatter(src: seq<byte>, history: seq<byte>)
    requires |src| < U32
    ensures SumsFit(src, 0) ==> Meaning(src, 0, history, U32) == Meaning(src, 0, history)
    ensures var m := Meaning(src, 0, history, U32);
      m.Decoded? && |m.out| < |history| + U32 ==> (Meaning(src, 0, history) == m <==> SumsFit(src, 0))
    ensures var m := Meaning(src, 0, history); m.Decoded? && |m.out| < |history| + U32 ==> SumsFit(src, 0)
  {
    hide Meaning, SumsFit;
    if SumsFit(src, 0) {
      MeaningFits(src, 0, history);
    }
    if Meaning(src, 0, history).Decoded? && |Meaning(src, 0, history).out| < |history| + U32 {
      SumsFitOf(src, 0, history);
    }
  }

  /** A legal block is legal however its lengths are summed. */
  lemma LegalFits(src: seq<byte>, history: seq<byte>, capacity: nat)
    requires |src| < U32 && capacity < U32 && LegalBlock(src, history, capacity)
    ensures LegalBlock(src, history, capacity, U32) && Meaning(src, 0, history, U32) == Meaning(src, 0, history)
  {
    SumsMatter(src, history);
    hide Meaning, MeetsEndRules;
    EndRulesFit(src, 0, |history|, |Meaning(src, 0, history).out|);
  }

  lemma {:induction false} ReadFullBytes(src: seq<byte>, i: nat, n: nat)
    requires i + n < |src| && src[i + n] < 255
    requires forall k :: i <= k < i + n ==> src[k] == 255
    ensures ReadLength(src, i) == Length(255 * n + src[i + n], i + n + 1)
    decreases n
  {
    if n > 0 {
      ReadFullBytes(src, i + 1, n - 1);
    }
  }

  /** A block whose first match length is the shortest run of length bytes with the sum 2^32. */
  function LongMatch(head: seq<byte>, tail: seq<byte>): (s: seq<byte>)
    ensures |s| == |head| + 16843010 + |tail|
  {
    head + seq(16843009, _ => 255) + [1] + tail
  }

  /** It is read as a match of 19 bytes. */
  lemma LongMatchWraps(head: seq<byte>, tail: seq<byte>, lits: nat)
    requires |head| == lits + 3 && lits < 15 && head[0] == 16 * lits + 15 && head[lits + 1] == 1 && head[lits + 2] == 0
    ensures var src, next := LongMatch(head, tail), lits + 3 + 16843010;
      SequenceAt(src, 0) == Inner(1, lits, 1, 19 + U32, next) && SequenceAt(src, 0, U32) == Inner(1, lits, 1, 19, next)
  {
    var src := LongMatch(head, tail);
    ReadFullBytes(src, lits + 3, 16843009);
    assert ReadLength(src, lits + 3) == Length(U32, lits + 3 + 16843010);
    hide ReadLength, LongMatch;
    assert FieldLength(15, src, lits + 3) == Length(15 + U32, lits + 3 + 16843010);
    assert FieldLength(15, src, lits + 3, U32) == Length(15, lits + 3 + 16843010);
    assert FieldLength(lits, src, 1) == FieldLength(lits, src, 1, U32) == Length(lits, 1);
  }

  /**
    One byte more than SUM_SAFE_SIZE, and there is a block, behind one byte of
    history, that means more than 4 GB but is read as 20 bytes.
  */
  lemma SizeIsExact()
    ensures var src := LongMatch([15, 1, 0], [0]);
      && |src| == SUM_SAFE_SIZE + 1
      && Meaning(src, 0, [7]).Decoded? && |Meaning(src, 0, [7]).out| == 20 + U32
      && Meaning(src, 0, [7], U32).Decoded? && |Meaning(src, 0, [7], U32).out| == 20
  {
    var head: seq<byte> := [15, 1, 0];
    var tail: seq<byte> := [0];
    var src := LongMatch(head, tail);
    LongMatchWraps(head, tail, 0);
    var end := |src| - 1;
    assert src[end] == 0;
    assert SequenceAt(src, end) == SequenceAt(src, end, U32) == Final(|src|, 0);
    hide SequenceAt, CopyMatch, LongMatch;
    var history: seq<byte> := [7];
    assert history + src[1..1] == history && src[|src|..|src|] == [];
    CopyMatchShape(history, 1, 19 + U32);
    CopyMatchShape(history, 1, 19);
  }

  /** A legal block of 25 bytes, if lengths are summed in 32 bits. */
  function WrappingBlock(): (s: seq<byte>) {
    LongMatch([31, 7, 1, 0], [80, 0, 0, 0, 0, 0])
  }

  lemma WrappingParts()
    ensures var src := WrappingBlock();
      && |src| == 16843020 && src[1..2] == [7]
      && SequenceAt(src, 0) == Inner(1, 1, 1, 19 + U32, 16843014)
      && SequenceAt(src, 0, U32) == Inner(1, 1, 1, 19, 16843014)
      && SequenceAt(src, 16843014) == SequenceAt(src, 16843014, U32) == Final(16843015, 5) && src[16843014] == 80
  {
    var head: seq<byte> := [31, 7, 1, 0];
    var tail: seq<byte> := [80, 0, 0, 0, 0, 0];
    var src := WrappingBlock();
    LongMatchWraps(head, tail, 1);
    assert src[16843014] == tail[0];
    assert SequenceAt(src, 16843014) == SequenceAt(src, 16843014, U32) == Final(16843015, 5);
  }

  /** Its length sums do not fit: the format gives it another meaning, of more than 4 GB. */
  lemma LengthSumWraps()
    ensures |WrappingBlock()| == 16843020 && !SumsFit(WrappingBlock(), 0)
    ensures LegalBlock(WrappingBlock(), [], 25, U32) && |Meaning(WrappingBlock(), 0, [], U32).out| == 25
    ensures Meaning(WrappingBlock(), 0, [], U32) != Meaning(WrappingBlock(), 0, [])
  {
    hide SequenceAt, CopyMatch, LongMatch, WrappingBlock, SumsFit;
    var src := WrappingBlock();
    var lits: seq<byte> := [7];
    WrappingParts();
    SumsMatter(src, []);
    assert [] + lits == lits;
    CopyMatchShape(lits, 1, 19 + U32);
    CopyMatchShape(lits, 1, 19);
    assert Meaning(src, 0, []) == Meaning(src, 16843014, CopyMatch(lits, 1, 19 + U32));
    assert Meaning(src, 0, [], U32) == Meaning(src, 16843014, CopyMatch(lits, 1, 19), U32);
    assert MeetsEndRules(src, 16843014, 20, 25, U32);
  }

  // ----- Entry points -----

  /** LZ4_decompress_safe. */
  method DecompressSafe(src: seq<byte>, dst: array<byte>, capacity: nat) returns (result: int)
    requires capacity <= dst.Length && capacity < 0x8000_0000 && |src| < 0x8000_0000
    modifies dst
    ensures result <= capacity
    ensures forall k :: capacity <= k < dst.Length ==> dst[k] == old(dst[k])
    ensures LegalBlock(src, [], capacity) ==> result >= 0 && Meaning(src, 0, []) == Decoded(dst[..result])
    ensures result >= 0 ==>
      (Meaning(src, 0, []) == Decoded(dst[..result]) <==> SumsFit(src, 0) && !Meaning(src, 0, []).ZeroOffset?)
    ensures result >= 0 && |src| <= SUM_SAFE_SIZE && !Meaning(src, 0, []).ZeroOffset? ==>
      Meaning(src, 0, []) == Decoded(dst[..result])
    ensures LegalBlock(src, [], capacity, U32) ==> result >= 0 && Meaning(src, 0, [], U32) == Decoded(dst[..result])
  {
    hide Meaning, MeetsEndRules, SumsFit;
    assert dst[..0] == [];
    SumsMatter(src, []);
    if LegalBlock(src, [], capacity) { LegalFits(src, [], capacity); }
    if |src| <= SUM_SAFE_SIZE { MeaningShort(src, 0, []); }
    result := DecompressGeneric(Job(src, dst, 0, capacity, NoDict, 0));
  }

  /** A block of one match is legal exactly when 5 literals follow the match and it starts 12 bytes before the end. */
  lemma OneMatchLegal(lits: seq<byte>, offset: nat, matchLength: nat, tail: seq<byte>)
    requires 1 <= offset <= |lits| && offset < 0x1_0000 && matchLength >= 4
    ensures LegalBlock(SequenceBytes(lits, offset, matchLength) + FinalBytes(tail), [], |lits| + matchLength + |tail|)
            <==> |tail| >= 5 && matchLength + |tail| >= 12
  {
    hide Meaning, MeetsEndRules, SequenceBytes, FinalBytes, Repeated;
    OneMatchBlock(lits, offset, matchLength, tail);
    RepeatedSize(Meaning(SequenceBytes(lits, offset, matchLength) + FinalBytes(tail), 0, []).out,
                 lits, offset, matchLength, tail);
  }

  /** Every block of one match that keeps to the end-of-block restrictions is decoded, on a buffer of just the size. */
  method DecodeOneMatch(lits: seq<byte>, offset: nat, matchLength: nat, tail: seq<byte>, dst: array<byte>) returns (result: int)
    requires 1 <= offset <= |lits| && offset < 0x1_0000 && matchLength >= 4
    requires |tail| >= 5 && matchLength + |tail| >= 12
    requires dst.Length == |lits| + matchLength + |tail| < 0x8000_0000
    requires |SequenceBytes(lits, offset, matchLength) + FinalBytes(tail)| < 0x8000_0000
    modifies dst
    ensures result == |lits| + matchLength + |tail| && Repeated(dst[..], lits, offset, matchLength, tail)
  {
    OneMatchBlock(lits, offset, matchLength, tail);
    OneMatchLegal(lits, offset, matchLength, tail);
    hide Meaning, MeetsEndRules, SequenceBytes, FinalBytes, Repeated, LegalBlock;
    var block := SequenceBytes(lits, offset, matchLength) + FinalBytes(tail);
    result := DecompressSafe(block, dst, dst.Length);
    assert |dst[..result]| == |lits| + matchLength + |tail| by {
      RepeatedSize(Meaning(block, 0, []).out, lits, offset, matchLength, tail);
    }
    assert dst[..result] == dst[..];
  }

  /** The decoder accepts the block whose length sums do not fit. */
  method AcceptsWrappingBlock(dst: array<byte>, capacity: nat) returns (result: int)
    requires 25 <= capacity <= dst.Length && capacity < 0x8000_0000
    modifies dst
    ensures result == 25 && Meaning(WrappingBlock(), 0, []) != Decoded(dst[..result])
  {
    LengthSumWraps();
    hide Meaning, MeetsEndRules, SumsFit, WrappingBlock;
    result := DecompressSafe(WrappingBlock(), dst, capacity);
  }

  /** Whatever an encoder returns, LZ4_decompress_safe gives the input back, on any buffer that is large enough. */
  method DecodeBack(block: seq<byte>, ghost src: seq<byte>, ghost n: nat, out: array<byte>, capacity: nat) returns (result: int)
    requires Encodes(block, src, n) && |block| < 0x8000_0000 && n <= capacity <= out.Length && capacity < 0x8000_0000
    modifies out
    ensures result == n && out[..n] == src[..n]
  {
    hide Meaning, MeetsEndRules;
    assert |Meaning(block, 0, []).out| == n;
    assert LegalBlock(block, [], capacity);
    result := DecompressSafe(block, out, capacity);
    assert Decoded(out[..result]) == Decoded(src[..n]);
  }
}
