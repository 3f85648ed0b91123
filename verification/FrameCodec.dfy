/**
  What ties the frame layer to the block layer: the block decoder, as it is
  specified for legal blocks, is a codec the frame layer can be built on; and a
  frame that was written is read back, however both sides cut it up.
*/
module FrameCodec {
  import opened BlockFormat
  import opened FrameFormat
  import opened FrameHistory
  import opened Sizes
  import BlockDecoder
  import FrameDecoder
  import FrameEncoder

  /** What a legal block contains, given the history before it. */
  ghost function LegalContent(block: seq<byte>, history: seq<byte>, capacity: nat): (r: Option<seq<byte>>)
    ensures r.Some? ==> |r.value| <= capacity
  {
    if BlockDecoder.LegalBlock(block, history, capacity)
    then Some(Meaning(block, 0, history).out[|history|..])
    else None
  }

  // ----- Only the last 64 KB of a history matter -----

  lemma {:induction false} CopyBehind(pre: seq<byte>, out: seq<byte>, offset: nat, length: nat)
    requires 1 <= offset <= |out|
    ensures CopyMatch(pre + out, offset, length) == pre + CopyMatch(out, offset, length)
    ensures out <= CopyMatch(out, offset, length)
    decreases length
  {
    if length > 0 {
      var one := [out[|out| - offset]];
      assert pre + out + one == pre + (out + one);
      CopyBehind(pre, out + one, offset, length - 1);
    }
  }

  /**
    What a block means with some history, it means with more history before it;
    and in front of 64 KB of it, more history makes no block decode that did not.
  */
  lemma {:induction false} MeaningBehind(src: seq<byte>, i: nat, pre: seq<byte>, out: seq<byte>)
    ensures var a, b := Meaning(src, i, pre + out), Meaning(src, i, out);
      if b.Decoded? then a == Decoded(pre + b.out) && out <= b.out else |out| >= WINDOW ==> a == b
    decreases |src| - i
  {
    hide SequenceAt, CopyMatch;
    match SequenceAt(src, i) {
      case Broken =>
      case Final(ls, ll) =>
        assert pre + out + src[ls..ls + ll] == pre + (out + src[ls..ls + ll]);
      case Inner(ls, ll, offset, ml, next) =>
        var lits := src[ls..ls + ll];
        assert pre + out + lits == pre + (out + lits);
        if 0 < offset <= |out| + ll {
          CopyBehind(pre, out + lits, offset, ml);
          MeaningBehind(src, next, pre, CopyMatch(out + lits, offset, ml));
        }
    }
  }

  lemma {:induction false} EndRulesBehind(src: seq<byte>, i: nat, produced: nat, end: nat, shift: nat)
    ensures MeetsEndRules(src, i, produced + shift, end + shift) == MeetsEndRules(src, i, produced, end)
    decreases |src| - i
  {
    hide SequenceAt;
    var s := SequenceAt(src, i);
    if s.Inner? {
      EndRulesBehind(src, s.next, produced + s.litLength + s.matchLength, end, shift);
    }
  }

  lemma RecentIsEnough(block: seq<byte>, history: seq<byte>, capacity: nat)
    ensures LegalContent(block, history, capacity) == LegalContent(block, Recent(history), capacity)
  {
    hide Meaning, MeetsEndRules;
    if |history| > WINDOW {
      var pre, out := history[..|history| - WINDOW], Recent(history);
      assert history == pre + out;
      MeaningBehind(block, 0, pre, out);
      var m := Meaning(block, 0, out);
      if m.Decoded? {
        EndRulesBehind(block, 0, |out|, |m.out|, |pre|);
        assert (pre + m.out)[|history|..] == m.out[|out|..];
      }
    }
  }

  lemma MoreIsFine(block: seq<byte>, pre: seq<byte>, history: seq<byte>, capacity: nat)
    ensures LegalContent(block, history, capacity).Some? ==>
      LegalContent(block, pre + history, capacity) == LegalContent(block, history, capacity)
  {
    hide Meaning, MeetsEndRules;
    MeaningBehind(block, 0, pre, history);
    var m := Meaning(block, 0, history);
    if m.Decoded? {
      EndRulesBehind(block, 0, |history|, |m.out|, |pre|);
      assert (pre + m.out)[|pre + history|..] == m.out[|history|..];
    }
  }

  /** The block decoder meets what the frame layer needs. */
  lemma LegalIsSound(c: Codec)
    requires forall b, h, n :: c.decode(b, h, n) == LegalContent(b, h, n)
    ensures FrameDecoder.Sound(c) && FrameEncoder.LooksBack(c)
  {
    hide Meaning, MeetsEndRules;
    forall b, g, h, n | c.decode(b, h, n).Some? ensures c.decode(b, g + h, n) == c.decode(b, h, n) {
      MoreIsFine(b, g, h, n);
    }
    forall b, h, n ensures c.decode(b, h, n) == c.decode(b, Recent(h), n) {
      RecentIsEnough(b, h, n);
    }
    forall b, h, n ensures c.decode(b, h, n).Some? ==> |c.decode(b, h, n).value| <= n {
      assert c.decode(b, h, n) == LegalContent(b, h, n);
    }
  }

  /** A block that an encoder of this project wrote for `data[start..]` is an encoding for the frame layer. */
  lemma BlockIsEncoding(c: Codec, block: seq<byte>, data: seq<byte>, start: nat, capacity: nat)
    requires forall b, h, n :: c.decode(b, h, n) == LegalContent(b, h, n)
    requires start <= |data| && |block| <= capacity
    requires BlockDecoder.LegalBlock(block, data[..start], |data| - start) && Meaning(block, 0, data[..start]) == Decoded(data)
    ensures FrameEncoder.Encodes(c, block, data[start..], data[..start], capacity)
  {
    hide Meaning, MeetsEndRules;
    forall n: nat | n >= |data| - start ensures c.decode(block, data[..start], n) == Some(data[start..]) {
      assert c.decode(block, data[..start], n) == LegalContent(block, data[..start], n);
    }
  }

  // ----- Round trip -----

  /**
    A frame is written by any updates and flushes, and read by any sequence of
    calls: what comes out is what went in, and not a byte beyond the frame is
    taken.
  */
  method FrameRoundTrip(cctx: FrameEncoder.Cctx, dctx: FrameDecoder.Dctx, p: FrameEncoder.Prefs, ops: seq<FrameEncoder.Op>,
                        behind: seq<byte>, chunk: nat -> nat, room: nat -> nat)
    returns (output: seq<byte>, frame: seq<byte>, used: nat)
    requires cctx.codec == dctx.codec && FrameDecoder.Sound(cctx.codec) && FrameEncoder.Faithful(cctx.codec, cctx.compress)
    requires FrameEncoder.PrefsOk(p) && cctx.maxBufferSize <= cctx.tmpBuff.Length && dctx.Valid() && dctx.stage == FrameDecoder.GetFrameHeader && dctx.owed == 0
    requires cctx.tmpBuff != dctx.header && cctx.tmpBuff != dctx.tmpIn && cctx.tmpBuff != dctx.out.tmpOutBuffer
    requires forall op :: op in ops && op.Write? ==> |op.piece| <= FrameEncoder.ADDRESSABLE
    requires SizeOk(p.info, FrameEncoder.Written(ops)) && forall k :: chunk(k) > 0 && room(k) > 0
    modifies cctx, cctx.tmpBuff, dctx, dctx.header, dctx.tmpIn, dctx.out, dctx.out.tmpOutBuffer
    ensures output == FrameEncoder.Written(ops) && used == |frame|
  {
    hide ReadFrame, FrameDecoder.Sound, FrameEncoder.Faithful;
    frame := FrameEncoder.Session(cctx, p, ops);
    var ending;
    ending, output, used := FrameDecoder.DecodeFrame(dctx, frame + behind, chunk, room);
    assert ReadFrame(dctx.codec, frame + behind) == Frame(FrameEncoder.Written(ops), behind);
    assert |(frame + behind)[used..]| == |behind|;
  }

  // ----- A reset in the middle of a frame -----

  /** A header and an end mark are a frame without content. */
  lemma EmptyFrame(c: Codec, info: Info)
    requires info.contentSize == 0 && info.dictID < U32 && 4 <= info.blockSizeID <= 7 && !info.contentChecksum
    ensures ReadFrame(c, FrameEncoder.HeaderOf(c, info) + [0, 0, 0, 0]) == Frame([], [])
    ensures var s := FrameEncoder.HeaderOf(c, info) + [0, 0, 0, 0];
      |s| >= MIN_HEADER && LE32(s) == MAGIC && s[4] == FrameEncoder.FlagsByte(info)
  {
    hide FrameEncoder.FlagsByte;
    var end: seq<byte> := [0, 0, 0, 0];
    var h := FrameEncoder.HeaderOf(c, info);
    FrameEncoder.HeaderIsRead(c, info, h, end);
    assert LE32(end) == 0 && end[4..] == [];
    assert ReadBlocks(c, info, [], end) == ReadSuffix(c, info, [], []);
    MagicFirst(c, info, end);
  }

  lemma MagicFirst(c: Codec, info: Info, rest: seq<byte>)
    requires info.contentSize < U64 && info.dictID < U32 && 4 <= info.blockSizeID <= 7
    ensures var s := FrameEncoder.HeaderOf(c, info) + rest;
      |s| >= MIN_HEADER && LE32(s) == MAGIC && s[4] == FrameEncoder.FlagsByte(info)
  {
    hide LE32, FrameEncoder.FlagsByte, FrameEncoder.SizeField, FrameEncoder.DictField;
    FrameDecoder.FirstFour(FrameEncoder.HeaderOf(c, info) + rest, FrameEncoder.Bytes32(MAGIC));
  }

  /** A header that announces 5 bytes is decoded, the context is reset; then it refuses the empty frame that says no size. */
  method ResetExample(c: Codec) returns (ending: FrameDecoder.Ending)
    requires FrameDecoder.Sound(c)
    ensures ReadFrame(c, FrameEncoder.HeaderOf(c, Info(false, false, 0, false, 4, 0)) + [0, 0, 0, 0]) == Frame([], [])
    ensures ending == FrameDecoder.Rejected
  {
    hide ReadFrame, ReadBlocks, FrameDecoder.Sound, LE32, LE64, FrameEncoder.Descriptor, FrameEncoder.FlagsByte, FrameDecoder.RoomFor;
    var sized, unsized := Info(false, false, 5, false, 4, 0), Info(false, false, 0, false, 4, 0);
    var first, second := FrameEncoder.HeaderOf(c, sized), FrameEncoder.HeaderOf(c, unsized) + [0, 0, 0, 0];
    EmptyFrame(c, unsized);
    FrameEncoder.FlagsRead(sized);
    FrameEncoder.FlagsRead(unsized);
    FrameEncoder.HeaderIsRead(c, sized, first, []);
    FrameEncoder.FieldsAreRead(sized, first);
    MagicFirst(c, sized, []);
    assert first + [] == first && first[..|first|] == first;
    var dctx := new FrameDecoder.Dctx(c);
    var n := dctx.DecodeDescriptor(first, |first|, []);
    assert ReadFrame(c, first) == Short by { NoBlocks(c, sized); }
    assert dctx.frameRemainingSize == 5;
    var output, used;
    ending, output, used := FrameDecoder.DecodeAfterReset(dctx, second, k => 1, k => 1);
  }

  lemma NoBlocks(c: Codec, info: Info)
    ensures ReadBlocks(c, info, [], []) == Short
  {
  }
}
