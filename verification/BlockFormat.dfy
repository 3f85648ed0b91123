/**
  The meaning of an LZ4 block, one byte at a time, as the LZ4 Block Format
  Description ("Compressed block format" and "End of block restrictions")
  states it. Every encoder and decoder of this project is proved against the
  functions of this module.
*/
module BlockFormat {
  import opened Sizes

  type byte = x: int | 0 <= x < 256

  const MIN_MATCH := 4
  const LAST_LITERALS := 5
  const MF_LIMIT := 12
  const MAX_DISTANCE := 65535

  /** Pieces, one after the other. */
  function Concat(pieces: seq<seq<byte>>): seq<byte> {
    if pieces == [] then [] else Concat(pieces[..|pieces| - 1]) + pieces[|pieces| - 1]
  }

  // ----- Length fields -----

  datatype LengthRead = Length(value: nat, next: nat) | Truncated

  /** Sum of a run of length bytes: 255 announces another byte. */
  function ReadLength(src: seq<byte>, i: nat): (r: LengthRead)
    ensures r.Length? ==> i < r.next <= |src|
    decreases |src| - i
  {
    if i >= |src| then Truncated
    else if src[i] < 255 then Length(src[i], i + 1)
    else
      match ReadLength(src, i + 1)
      case Truncated => Truncated
      case Length(v, n) => Length(255 + v, n)
  }

  /** A sum as the format means it, or, for a decoder that adds in a machine word, modulo `modulus`. */
  function Wrap(v: nat, modulus: nat): nat {
    if modulus == 0 then v else v % modulus
  }

  /**
    A 4-bit token field, with its extension bytes at `i` when it is 15. Here and
    below, `modulus` is 0 for the format itself; a decoder whose length sums
    wrap reads the same block with another modulus.
  */
  function FieldLength(nibble: nat, src: seq<byte>, i: nat, modulus: nat := 0): (r: LengthRead)
    requires nibble <= 15 && i <= |src|
    ensures r.Length? ==> i <= r.next <= |src|
  {
    if nibble < 15 then Length(nibble, i)
    else
      match ReadLength(src, i)
      case Truncated => Truncated
      case Length(v, n) => Length(15 + Wrap(v, modulus), n)
  }

  // ----- Sequences -----

  /** What stands at one sequence boundary of a block. */
  datatype Sequence =
    | Final(litStart: nat, litLength: nat)
    | Inner(litStart: nat, litLength: nat, offset: nat, matchLength: nat, next: nat)
    | Broken

  /** Reads the sequence that starts at `i`. It is final when its literals end the block. */
  function SequenceAt(src: seq<byte>, i: nat, modulus: nat := 0): (s: Sequence)
    ensures s.Final? ==> i < s.litStart && s.litStart + s.litLength == |src|
    ensures s.Inner? ==> i < s.litStart && s.litStart + s.litLength + 2 <= s.next <= |src|
                         && s.offset <= MAX_DISTANCE && s.matchLength >= MIN_MATCH
  {
    if i >= |src| then Broken
    else
      match FieldLength(src[i] / 16, src, i + 1, modulus)
      case Truncated => Broken
      case Length(v, n) => if n + v > |src| then Broken else Tail(src, i, n, v, modulus)
  }

  /** The rest of the sequence at `i`, once its literals are known to be `litLength` bytes at `litStart`. */
  function Tail(src: seq<byte>, i: nat, litStart: nat, litLength: nat, modulus: nat := 0): (s: Sequence)
    requires i < litStart && litStart + litLength <= |src|
    ensures s.Final? ==> s == Final(litStart, litLength) && litStart + litLength == |src|
    ensures s.Inner? ==> s.litStart == litStart && s.litLength == litLength
    ensures s.Inner? ==> litStart + litLength + 2 <= s.next <= |src|
                         && s.offset <= MAX_DISTANCE && s.matchLength >= MIN_MATCH
  {
    var j := litStart + litLength;
    if j == |src| then Final(litStart, litLength)
    else if j + 2 > |src| then Broken
    else
      var offset: nat := src[j] as int + 256 * src[j + 1] as int;
      match FieldLength(src[i] % 16, src, j + 2, modulus)
      case Truncated => Broken
      case Length(v, n) => Inner(litStart, litLength, offset, MIN_MATCH + v, n)
  }

  // ----- Meaning -----

  /** Copies `length` bytes from `offset` back, one at a time, so that a copy may read its own output. */
  function CopyMatch(out: seq<byte>, offset: nat, length: nat): seq<byte>
    requires 1 <= offset <= |out|
    decreases length
  {
    if length == 0 then out
    else CopyMatch(out + [out[|out| - offset]], offset, length - 1)
  }

  datatype Outcome = Decoded(out: seq<byte>) | Malformed | ZeroOffset

  /**
    The outcome of decoding `src` from position `i` on, when `out` is what has
    been decoded before (history included). A zero offset is outside the format.
  */
  function Meaning(src: seq<byte>, i: nat, out: seq<byte>, modulus: nat := 0): Outcome
    decreases |src| - i
  {
    match SequenceAt(src, i, modulus)
    case Broken => Malformed
    case Final(ls, ll) => Decoded(out + src[ls..ls + ll])
    case Inner(ls, ll, offset, ml, next) =>
      if offset == 0 then ZeroOffset
      else if offset > |out| + ll then Malformed
      else Meaning(src, next, CopyMatch(out + src[ls..ls + ll], offset, ml), modulus)
  }

  /**
    The end-of-block restrictions, for a block whose total output (history
    included) has `end` bytes: no match starts in the last 12 bytes or touches
    the last 5, and the last token carries no match length.
  */
  ghost predicate MeetsEndRules(src: seq<byte>, i: nat, produced: nat, end: nat, modulus: nat := 0)
    decreases |src| - i
  {
    match SequenceAt(src, i, modulus)
    case Broken => false
    case Final(ls, ll) => produced + ll == end && src[i] % 16 == 0
    case Inner(ls, ll, offset, ml, next) =>
      && produced + ll + MF_LIMIT <= end
      && produced + ll + ml + LAST_LITERALS <= end
      && MeetsEndRules(src, next, produced + ll + ml, end, modulus)
  }

  // ----- Writing -----

  function LengthBytes(v: nat): (s: seq<byte>)
    ensures |s| == v / 255 + 1
  {
    if v < 255 then [v] else [255] + LengthBytes(v - 255)
  }

  function Extension(v: nat): seq<byte>
  {
    if v < 15 then [] else LengthBytes(v - 15)
  }

  function Nibble(v: nat): nat {
    if v < 15 then v else 15
  }

  /** One complete sequence, as the format lays it out. */
  function SequenceBytes(lits: seq<byte>, offset: nat, matchLength: nat): seq<byte>
    requires offset <= MAX_DISTANCE && matchLength >= MIN_MATCH
  {
    [16 * Nibble(|lits|) + Nibble(matchLength - MIN_MATCH)] + Extension(|lits|) + lits
    + [offset % 256, offset / 256] + Extension(matchLength - MIN_MATCH)
  }

  /** The literals-only sequence that ends a block. */
  function FinalBytes(lits: seq<byte>): seq<byte> {
    [16 * Nibble(|lits|)] + Extension(|lits|) + lits
  }

  lemma {:induction false} ReadLengthBytes(src: seq<byte>, i: nat, v: nat)
    requires i + |LengthBytes(v)| <= |src|
    requires src[i..i + |LengthBytes(v)|] == LengthBytes(v)
    ensures ReadLength(src, i) == Length(v, i + |LengthBytes(v)|)
    decreases v
  {
    var b := src[i..i + |LengthBytes(v)|];
    assert src[i] == b[0];
    if v >= 255 {
      assert src[i + 1..i + 1 + |LengthBytes(v - 255)|] == b[1..] == LengthBytes(v - 255);
      ReadLengthBytes(src, i + 1, v - 255);
    }
  }

  lemma {:induction false} ReadField(src: seq<byte>, i: nat, v: nat)
    requires i + |Extension(v)| <= |src|
    requires src[i..i + |Extension(v)|] == Extension(v)
    ensures FieldLength(Nibble(v), src, i) == Length(v, i + |Extension(v)|)
  {
    if v >= 15 {
      ReadLengthBytes(src, i, v - 15);
    }
  }

  /** `part` stands in `whole` at position `i`. */
  ghost predicate At<T>(whole: seq<T>, i: nat, part: seq<T>) {
    i + |part| <= |whole| && whole[i..i + |part|] == part
  }

  lemma AtSplit<T>(whole: seq<T>, i: nat, a: seq<T>, b: seq<T>)
    requires At(whole, i, a + b)
    ensures At(whole, i, a) && At(whole, i + |a|, b)
  {
    var w := whole[i..i + |a| + |b|];
    assert whole[i..i + |a|] == w[..|a|] == a;
    assert whole[i + |a|..i + |a| + |b|] == w[|a|..] == b;
  }

  lemma AtMiddle<T>(a: seq<T>, b: seq<T>, c: seq<T>)
    ensures At(a + b + c, |a|, b)
  {
  }

  lemma AtEnd<T>(a: seq<T>, b: seq<T>)
    ensures At(a + b, |a|, b)
  {
  }

  /** A sequence is read from its parts: token, lengths, literals and offset. */
  lemma {:induction false} ReadParts(src: seq<byte>, i: nat, lits: seq<byte>, offset: nat, matchLength: nat)
    requires offset <= MAX_DISTANCE && matchLength >= MIN_MATCH
    requires var ls := i + 1 + |Extension(|lits|)|;
             var j := ls + |lits|;
             var n := j + 2 + |Extension(matchLength - MIN_MATCH)|;
             && n <= |src|
             && src[i] == 16 * Nibble(|lits|) + Nibble(matchLength - MIN_MATCH)
             && src[i + 1..ls] == Extension(|lits|)
             && src[j] == offset % 256 && src[j + 1] == offset / 256
             && src[j + 2..n] == Extension(matchLength - MIN_MATCH)
    ensures var ls := i + 1 + |Extension(|lits|)|;
            SequenceAt(src, i)
            == Inner(ls, |lits|, offset, matchLength, ls + |lits| + 2 + |Extension(matchLength - MIN_MATCH)|)
  {
    hide ReadLength, LengthBytes, Extension, FieldLength;
    var ls := i + 1 + |Extension(|lits|)|;
    ReadField(src, i + 1, |lits|);
    ReadField(src, ls + |lits| + 2, matchLength - MIN_MATCH);
    assert src[i] / 16 == Nibble(|lits|) && src[i] % 16 == Nibble(matchLength - MIN_MATCH);
    assert SequenceAt(src, i) == Tail(src, i, ls, |lits|);
  }

  /** Where the literals of a sequence start, relative to its token. */
  function LiteralsAt(litLength: nat): nat {
    1 + |Extension(litLength)|
  }

  /** A written sequence that stands at `i` is read back, wherever it stands. */
  lemma {:induction false} ReadSequence(src: seq<byte>, i: nat, lits: seq<byte>, offset: nat, matchLength: nat)
    requires offset <= MAX_DISTANCE && matchLength >= MIN_MATCH
    requires At(src, i, SequenceBytes(lits, offset, matchLength))
    ensures var ls := i + LiteralsAt(|lits|);
            && SequenceAt(src, i)
               == Inner(ls, |lits|, offset, matchLength, i + |SequenceBytes(lits, offset, matchLength)|)
            && At(src, ls, lits)
  {
    hide SequenceAt, LengthBytes, Extension;
    var token := [16 * Nibble(|lits|) + Nibble(matchLength - MIN_MATCH)];
    var le, me := Extension(|lits|), Extension(matchLength - MIN_MATCH);
    var off := [offset % 256, offset / 256];
    AtSplit(src, i, token + le + lits + off, me);
    AtSplit(src, i, token + le + lits, off);
    AtSplit(src, i, token + le, lits);
    AtSplit(src, i, token, le);
    var j := i + 1 + |le| + |lits|;
    assert src[i] == src[i..i + 1][0];
    assert src[j] == src[j..j + 2][0] && src[j + 1] == src[j..j + 2][1];
    ReadParts(src, i, lits, offset, matchLength);
  }

  lemma {:induction false} ReadFinal(src: seq<byte>, i: nat, lits: seq<byte>)
    requires At(src, i, FinalBytes(lits)) && i + |FinalBytes(lits)| == |src|
    ensures SequenceAt(src, i) == Final(|src| - |lits|, |lits|)
    ensures src[|src| - |lits|..] == lits
    ensures src[i] % 16 == 0
  {
    hide ReadLength, LengthBytes, Extension, FieldLength;
    var token := [16 * Nibble(|lits|)];
    var le := Extension(|lits|);
    AtSplit(src, i, token + le, lits);
    AtSplit(src, i, token, le);
    assert src[i] == src[i..i + 1][0];
    ReadField(src, i + 1, |lits|);
    assert SequenceAt(src, i) == Tail(src, i, i + 1 + |le|, |lits|);
  }

  // ----- Match copies -----

  /** Every byte of buf[from..upto] equals the one `distance` before it. */
  ghost predicate Repeats(buf: seq<byte>, from: int, upto: int, distance: int) {
    && 0 <= distance <= from <= upto <= |buf|
    && forall k :: from <= k < upto ==> buf[k] == buf[k - distance]
  }

  lemma {:induction false} CopyMatchShape(out: seq<byte>, offset: nat, length: nat)
    requires 1 <= offset <= |out|
    ensures var r := CopyMatch(out, offset, length);
            && |r| == |out| + length
            && r[..|out|] == out
            && forall k :: |out| <= k < |r| ==> r[k] == r[k - offset]
    decreases length
  {
    if length > 0 {
      var out1 := out + [out[|out| - offset]];
      CopyMatchShape(out1, offset, length - 1);
      var r := CopyMatch(out1, offset, length - 1);
      assert r[..|out|] == r[..|out1|][..|out|] == out;
      assert r[|out|] == r[..|out1|][|out|] == out[|out| - offset] == r[..|out|][|out| - offset];
    }
  }

  /** The shape determines the copy: whoever fills a region so that each byte equals the one `offset` before it has copied the match. */
  lemma {:induction false} CopyMatchUnique(out: seq<byte>, offset: nat, length: nat, r: seq<byte>)
    requires 1 <= offset <= |out|
    requires |r| == |out| + length && r[..|out|] == out
    requires forall k :: |out| <= k < |r| ==> r[k] == r[k - offset]
    ensures r == CopyMatch(out, offset, length)
    decreases length
  {
    if length > 0 {
      var out1 := out + [out[|out| - offset]];
      assert r[|out|] == r[..|out|][|out| - offset];
      assert r[..|out1|] == out1;
      CopyMatchUnique(out1, offset, length - 1, r);
    } else {
      assert r == r[..|out|];
    }
  }

  /** Copying a match that repeats earlier data extends a prefix of that data. */
  lemma {:induction false} CopyMatchInData(data: seq<byte>, s: nat, offset: nat, length: nat)
    requires 1 <= offset && Repeats(data, s, s + length, offset)
    ensures CopyMatch(data[..s], offset, length) == data[..s + length]
  {
    CopyMatchUnique(data[..s], offset, length, data[..s + length]);
  }

  // ----- What an encoder has written so far -----

  /**
    `written` is a run of complete sequences that takes a decoder from `before`
    to `after`, whatever follows it, and that respects the end-of-block
    restrictions of every block whose total output has at least `minEnd` bytes.
  */
  ghost predicate Produces(written: seq<byte>, before: seq<byte>, after: seq<byte>, minEnd: nat) {
    && (forall tail: seq<byte> {:trigger Meaning(written + tail, 0, before)} ::
          Meaning(written + tail, 0, before) == Meaning(written + tail, |written|, after))
    && (forall tail: seq<byte>, end: nat {:trigger MeetsEndRules(written + tail, 0, |before|, end)} ::
          end >= minEnd ==>
            MeetsEndRules(written + tail, 0, |before|, end) == MeetsEndRules(written + tail, |written|, |after|, end))
  }

  lemma ProducesNothing(before: seq<byte>)
    ensures Produces([], before, before, 0)
  {
  }

  /** The least total output that leaves room for the end of a block after a match at `s`. */
  function RoomAfter(s: nat, matchLength: nat): nat {
    Max(s + MF_LIMIT, s + matchLength + LAST_LITERALS)
  }

  /** Decoding one written sequence, wherever it stands. */
  lemma {:induction false} MeaningSequence(src: seq<byte>, i: nat, out: seq<byte>, lits: seq<byte>, offset: nat, matchLength: nat)
    requires 1 <= offset <= |out| + |lits| && offset <= MAX_DISTANCE && matchLength >= MIN_MATCH
    requires At(src, i, SequenceBytes(lits, offset, matchLength))
    ensures Meaning(src, i, out)
            == Meaning(src, i + |SequenceBytes(lits, offset, matchLength)|, CopyMatch(out + lits, offset, matchLength))
  {
    hide SequenceAt, LengthBytes, Extension, SequenceBytes, CopyMatch, MeetsEndRules;
    ReadSequence(src, i, lits, offset, matchLength);
  }

  lemma {:induction false} EndRulesSequence(src: seq<byte>, i: nat, produced: nat, lits: seq<byte>, offset: nat, matchLength: nat, end: nat)
    requires offset <= MAX_DISTANCE && matchLength >= MIN_MATCH
    requires At(src, i, SequenceBytes(lits, offset, matchLength))
    requires end >= RoomAfter(produced + |lits|, matchLength)
    ensures MeetsEndRules(src, i, produced, end)
            == MeetsEndRules(src, i + |SequenceBytes(lits, offset, matchLength)|, produced + |lits| + matchLength, end)
  {
    hide SequenceAt, LengthBytes, Extension, SequenceBytes, CopyMatch, Meaning;
    ReadSequence(src, i, lits, offset, matchLength);
  }

  /** Writing one more sequence is decoding one more sequence. */
  lemma {:induction false} ProducesMore(written: seq<byte>, before: seq<byte>, after: seq<byte>, minEnd: nat,
                                        lits: seq<byte>, offset: nat, matchLength: nat)
    requires Produces(written, before, after, minEnd)
    requires 1 <= offset <= |after| + |lits| && offset <= MAX_DISTANCE && matchLength >= MIN_MATCH
    ensures Produces(written + SequenceBytes(lits, offset, matchLength), before,
                     CopyMatch(after + lits, offset, matchLength),
                     Max(minEnd, RoomAfter(|after| + |lits|, matchLength)))
  {
    hide SequenceBytes, Meaning, MeetsEndRules, CopyMatch;
    CopyMatchShape(after + lits, offset, matchLength);
    var more := SequenceBytes(lits, offset, matchLength);
    var minEnd' := Max(minEnd, RoomAfter(|after| + |lits|, matchLength));
    forall tail: seq<byte>, end: nat | end >= minEnd'
      ensures MeetsEndRules(written + more + tail, 0, |before|, end)
              == MeetsEndRules(written + more + tail, |written + more|, |CopyMatch(after + lits, offset, matchLength)|, end)
    {
      assert written + more + tail == written + (more + tail);
      AtMiddle(written, more, tail);
      EndRulesSequence(written + more + tail, |written|, |after|, lits, offset, matchLength, end);
    }
    forall tail: seq<byte>
      ensures Meaning(written + more + tail, 0, before)
              == Meaning(written + more + tail, |written + more|, CopyMatch(after + lits, offset, matchLength))
    {
      assert written + more + tail == written + (more + tail);
      AtMiddle(written, more, tail);
      MeaningSequence(written + more + tail, |written|, after, lits, offset, matchLength);
    }
  }

  /** Writing the final sequence completes the block. */
  lemma {:induction false} ProducesBlock(written: seq<byte>, before: seq<byte>, after: seq<byte>, minEnd: nat, lits: seq<byte>)
    requires Produces(written, before, after, minEnd)
    ensures Meaning(written + FinalBytes(lits), 0, before) == Decoded(after + lits)
    ensures |after| + |lits| >= minEnd ==> MeetsEndRules(written + FinalBytes(lits), 0, |before|, |after| + |lits|)
  {
    hide FinalBytes, SequenceAt, CopyMatch, At;
    AtEnd(written, FinalBytes(lits));
    ReadFinal(written + FinalBytes(lits), |written|, lits);
    assert Meaning(written + FinalBytes(lits), |written|, after) == Decoded(after + lits);
    if |after| + |lits| >= minEnd {
      assert MeetsEndRules(written + FinalBytes(lits), |written|, |after|, |after| + |lits|);
    }
  }

  // ----- The layout in numbers -----

  /** The bytes after a token field of 15: as many 255 as fit, and what is left. */
  function LengthInNumbers(v: nat): seq<byte> {
    if v < 15 then [] else seq((v - 15) / 255, _ => 255) + [(v - 15) % 255]
  }

  lemma {:induction false} LengthBytesAre(v: nat)
    ensures LengthBytes(v) == seq(v / 255, _ => 255) + [v % 255]
  {
    if v >= 255 {
      LengthBytesAre(v - 255);
      assert seq(v / 255, _ => 255 ) == [255 ] + seq((v - 255) / 255, _ => 255 );
    }
  }

  /** A sequence: token, literals and their length, offset with the low byte first, match length less 4. */
  lemma SequenceInNumbers(lits: seq<byte>, offset: nat, matchLength: nat)
    requires offset < 0x1_0000 && matchLength >= 4
    ensures SequenceBytes(lits, offset, matchLength) ==
      [16 * (if |lits| < 15 then |lits| else 15) + (if matchLength < 19 then matchLength - 4 else 15)]
      + LengthInNumbers(|lits|) + lits + [offset % 256, offset / 256] + LengthInNumbers(matchLength - 4)
  {
    hide LengthBytes;
    if |lits| >= 15 { LengthBytesAre(|lits| - 15); }
    if matchLength >= 19 { LengthBytesAre(matchLength - 19); }
  }

  lemma FinalInNumbers(lits: seq<byte>)
    ensures FinalBytes(lits) == [16 * (if |lits| < 15 then |lits| else 15)] + LengthInNumbers(|lits|) + lits
  {
    hide LengthBytes;
    if |lits| >= 15 { LengthBytesAre(|lits| - 15); }
  }

  /** What a match adds to the output: each byte is the one `offset` before it. */
  ghost predicate Repeated(out: seq<byte>, lits: seq<byte>, offset: nat, matchLength: nat, tail: seq<byte>) {
    && |out| == |lits| + matchLength + |tail| && 0 < offset <= |lits|
    && (forall k :: 0 <= k < |lits| ==> out[k] == lits[k])
    && (forall k :: |lits| <= k < |lits| + matchLength ==> out[k] == out[k - offset])
    && (forall k :: 0 <= k < |tail| ==> out[|lits| + matchLength + k] == tail[k])
  }

  lemma RepeatedSize(out: seq<byte>, lits: seq<byte>, offset: nat, matchLength: nat, tail: seq<byte>)
    requires Repeated(out, lits, offset, matchLength, tail)
    ensures |out| == |lits| + matchLength + |tail|
  {
  }

  /** The block of one match is read as that match and the literals after it. */
  lemma OneMatchIsRead(lits: seq<byte>, offset: nat, matchLength: nat, tail: seq<byte>)
    requires offset < 0x1_0000 && matchLength >= 4
    ensures var one := SequenceBytes(lits, offset, matchLength);
            var block := one + FinalBytes(tail);
      && At(block, 0, one)
      && SequenceAt(block, 0) == Inner(LiteralsAt(|lits|), |lits|, offset, matchLength, |one|)
      && SequenceAt(block, |one|) == Final(|block| - |tail|, |tail|)
      && block[|block| - |tail|..] == tail
      && block[|one|] % 16 == 0
  {
    hide SequenceBytes, FinalBytes, SequenceAt;
    var one, last := SequenceBytes(lits, offset, matchLength), FinalBytes(tail);
    AtEnd(one, last);
    ReadSequence(one + last, 0, lits, offset, matchLength);
    ReadFinal(one + last, |one|, tail);
  }

  lemma OneMatchMeans(lits: seq<byte>, offset: nat, matchLength: nat, tail: seq<byte>)
    requires 1 <= offset <= |lits| && offset < 0x1_0000 && matchLength >= 4
    ensures var block := SequenceBytes(lits, offset, matchLength) + FinalBytes(tail);
      Meaning(block, 0, []) == Decoded(CopyMatch(lits, offset, matchLength) + tail)
  {
    hide SequenceBytes, FinalBytes, SequenceAt, CopyMatch, At;
    OneMatchIsRead(lits, offset, matchLength, tail);
    var one := SequenceBytes(lits, offset, matchLength);
    MeaningSequence(one + FinalBytes(tail), 0, [], lits, offset, matchLength);
    assert [] + lits == lits;
  }

  lemma OneMatchEnds(lits: seq<byte>, offset: nat, matchLength: nat, tail: seq<byte>)
    requires offset < 0x1_0000 && matchLength >= 4
    ensures var block := SequenceBytes(lits, offset, matchLength) + FinalBytes(tail);
      MeetsEndRules(block, 0, 0, |lits| + matchLength + |tail|) <==> |tail| >= 5 && matchLength + |tail| >= 12
  {
    hide SequenceBytes, FinalBytes, SequenceAt, At;
    OneMatchIsRead(lits, offset, matchLength, tail);
    var one := SequenceBytes(lits, offset, matchLength);
    var block := one + FinalBytes(tail);
    assert MeetsEndRules(block, |one|, |lits| + matchLength, |lits| + matchLength + |tail|);
  }

  /**
    A block of one match: what it means, and when it respects the end-of-block
    restrictions: at least 5 literals after the match, which starts at least 12
    bytes before the end.
  */
  lemma OneMatchBlock(lits: seq<byte>, offset: nat, matchLength: nat, tail: seq<byte>)
    requires 1 <= offset <= |lits| && offset < 0x1_0000 && matchLength >= 4
    ensures var block := SequenceBytes(lits, offset, matchLength) + FinalBytes(tail);
      && Meaning(block, 0, []).Decoded? && Repeated(Meaning(block, 0, []).out, lits, offset, matchLength, tail)
      && (MeetsEndRules(block, 0, 0, |lits| + matchLength + |tail|) <==> |tail| >= 5 && matchLength + |tail| >= 12)
  {
    hide SequenceBytes, FinalBytes, SequenceAt, CopyMatch, Meaning, MeetsEndRules;
    OneMatchMeans(lits, offset, matchLength, tail);
    OneMatchEnds(lits, offset, matchLength, tail);
    CopyMatchShape(lits, offset, matchLength);
    var out := CopyMatch(lits, offset, matchLength);
    assert forall k :: 0 <= k < |lits| ==> out[k] == out[..|lits|][k];
  }
}
