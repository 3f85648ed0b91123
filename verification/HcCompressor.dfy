/** The one-shot entry points of lz4hc.c, over the two parsers. */
module HcCompressor {
  import opened BlockFormat
  import opened BlockDecoder
  import opened HashChain
  import opened Matching
  import opened Encoding
  import opened Sizes
  import HcLazy
  import HcOptimal

  const CLEVEL_DEFAULT := 9
  const CLEVEL_MAX := 12

  datatype Strategy = Lz4hc(nbSearches: nat) | Lz4opt(nbSearches: nat, targetLength: nat)

  /** clTable, for a level from 1 to 12. */
  function Parameters(cLevel: nat): Strategy {
    if cLevel <= 2 then Lz4hc(2)
    else if cLevel == 3 then Lz4hc(4)
    else if cLevel == 4 then Lz4hc(8)
    else if cLevel == 5 then Lz4hc(16)
    else if cLevel == 6 then Lz4hc(32)
    else if cLevel == 7 then Lz4hc(64)
    else if cLevel == 8 then Lz4hc(128)
    else if cLevel == 9 then Lz4hc(256)
    else if cLevel == 10 then Lz4opt(96, 64)
    else if cLevel == 11 then Lz4opt(512, 128)
    else Lz4opt(16384, HcOptimal.OPT_NUM)
  }

  /** LZ4HC_compress_generic_internal, on a session that holds exactly `src`. */
  method CompressGeneric(ctx: Context, src: seq<byte>, dst: array<byte>, dstCapacity: nat, cLevel0: int,
                         limit: Limit, favorDecSpeed: bool) returns (result: nat, consumed: nat)
    requires ctx.Session([]) && ctx.Exact([]) && ctx.nextToUpdate == ctx.dictLimit == ctx.end <= GB + KB64 && !ctx.dirty
    requires dstCapacity <= dst.Length && (limit.NotLimited? && |src| <= MAX_INPUT_SIZE ==> CompressBound(|src|) <= dstCapacity)
    modifies dst, ctx, ctx.hashTable, ctx.chainTable
    ensures ctx.Ready()
    ensures result > 0 ==> result <= dstCapacity && Encodes(dst[..result], src, consumed)
    ensures result > 0 && !limit.FillOutput? ==> consumed == |src|
    ensures result > 0 ==> consumed == |src| || result + Unused(dstCapacity) >= dstCapacity
    ensures |src| <= MAX_INPUT_SIZE && dstCapacity >= CompressBound(|src|) ==> result > 0
    ensures |src| <= MAX_INPUT_SIZE && limit.FillOutput? && dstCapacity >= 1 ==> result > 0
    ensures |src| <= MAX_INPUT_SIZE && !limit.FillOutput? && EasyRun(Run(src, 0, dst, limit, dstCapacity)) && (cLevel0 < 10 || !favorDecSpeed) ==>
      0 < result <= |src| / 255 + 16
  {
    hide EasyRun;
    hide HashChain.Context.Exact, Block, OneByte;
    if (limit.FillOutput? && dstCapacity < 1) || |src| > MAX_INPUT_SIZE {
      ctx.SessionIsValid([]);
      BoundIsPositive(|src|);
      return 0, 0;
    }
    ctx.DataGrows([], src);
    assert [] + src == src;
    ctx.end := ctx.end + |src|;
    var r := Run(src, 0, dst, limit, dstCapacity);
    var ok;
    ok, result, consumed := Parse(ctx, r, cLevel0, favorDecSpeed);
    if ok {
      BlockEncodes(src, dst[..result], consumed);
    } else {
      result, consumed := 0, 0;
    }
    ctx.SessionIsValid(src);
    if result == 0 {
      ctx.dirty := true;
    }
  }

  /** The parser of the level. */
  method Parse(ctx: Context, r: Run, cLevel0: int, favorDecSpeed: bool) returns (ok: bool, result: nat, consumed: nat)
    requires r.Valid() && (r.limit.FillOutput? ==> r.oend >= 1)
    requires ctx.Session(r.data) && ctx.Exact(r.data) && ctx.nextToUpdate <= ctx.dictLimit + r.start
    modifies r.dst, ctx`nextToUpdate, ctx.hashTable, ctx.chainTable
    ensures ok ==> result <= r.dst.Length && Block(r.data, r.start, r.dst[..result], consumed)
    ensures ok ==> (if r.limit.NotLimited? then result <= CompressBound(|r.data| - r.start) else result <= r.oend)
    ensures ok && !r.limit.FillOutput? ==> consumed == |r.data|
    ensures ok ==> consumed == |r.data| || result + Unused(r.oend) >= r.oend
    ensures ctx.Session(r.data) && ctx.Exact(r.data)
    ensures !ok ==> r.limit.LimitedOutput? && r.oend < CompressBound(|r.data| - r.start)
    ensures EasyRun(r) && (cLevel0 < 10 || !favorDecSpeed) ==> ok && result <= |r.data| / 255 + 16
  {
    hide HashChain.Context.Session, HashChain.Context.Exact, Block, EasyRun, CompressBound;
    var cLevel := if cLevel0 < 1 then CLEVEL_DEFAULT else if cLevel0 > CLEVEL_MAX then CLEVEL_MAX else cLevel0;
    match Parameters(cLevel) {
      case Lz4hc(nbSearches) =>
        ok, result, consumed := HcLazy.CompressHashChain(ctx, r, nbSearches);
      case Lz4opt(nbSearches, targetLength) =>
        ok, result, consumed :=
          HcOptimal.CompressOptimal(ctx, r, nbSearches, targetLength, cLevel == CLEVEL_MAX, favorDecSpeed);
    }
  }

  /**
    LZ4_compress_HC_extStateHC_fastReset, on a context that any number of
    earlier calls, successful or not, have used: the block never refers to
    their input, because it decodes on its own. Repetitions are found: at every
    level a run of n equal bytes takes at most n / 255 + 16.
  */
  method CompressFastReset(ctx: Context, src: seq<byte>, dst: array<byte>, dstCapacity: nat, cLevel: int, favorDecSpeed: bool)
    returns (result: nat)
    requires ctx.Ready() && dstCapacity <= dst.Length
    modifies dst, ctx, ctx.hashTable, ctx.chainTable
    ensures ctx.Ready()
    ensures result > 0 ==> result <= dstCapacity && Encodes(dst[..result], src, |src|)
    ensures |src| <= MAX_INPUT_SIZE && dstCapacity >= CompressBound(|src|) ==> result > 0
    ensures OneByte(src) && |src| <= MAX_INPUT_SIZE && dstCapacity >= |src| / 255 + 16 && (cLevel < 10 || !favorDecSpeed) ==>
      0 < result <= |src| / 255 + 16
  {
    hide OneByte;
    hide Encodes, HashChain.Context.Exact, HashChain.Context.Session, HashChain.Context.Valid;
    ctx.ResetFast();
    ctx.InitInternal();
    var limit := if |src| <= MAX_INPUT_SIZE && dstCapacity < CompressBound(|src|) then LimitedOutput else NotLimited;
    var consumed;
    result, consumed := CompressGeneric(ctx, src, dst, dstCapacity, cLevel, limit, favorDecSpeed);
  }

  /**
    LZ4_compress_HC_destSize, on any state, which it initialises: the block fits
    the target and stands for the first `consumed` bytes of the input; unless
    these are all, hardly anything of the target is left.
  */
  method CompressDestSize(ctx: Context, src: seq<byte>, dst: array<byte>, targetSize: nat, cLevel: int, favorDecSpeed: bool)
    returns (result: nat, consumed: nat)
    requires ctx.Shape() && targetSize <= dst.Length
    modifies dst, ctx, ctx.hashTable, ctx.chainTable
    ensures result > 0 ==> result <= targetSize && Encodes(dst[..result], src, consumed)
    ensures |src| <= MAX_INPUT_SIZE && targetSize >= 1 ==> result > 0
    ensures result > 0 ==> consumed == |src| || result + Unused(targetSize) >= targetSize
  {
    hide Encodes, HashChain.Context.Exact, HashChain.Context.Session, HashChain.Context.Valid;
    ctx.InitStream();
    ctx.InitInternal();
    result, consumed := CompressGeneric(ctx, src, dst, targetSize, cLevel, FillOutput, favorDecSpeed);
  }

  /** LZ4_compress_HC followed by LZ4_decompress_safe is the identity, for every input, level and hash function. */
  method RoundTrip(ctx: Context, src: seq<byte>, dst: array<byte>, cLevel: int, favorDecSpeed: bool, out: array<byte>)
    returns (result: int)
    requires ctx.Ready() && |src| <= MAX_INPUT_SIZE && CompressBound(|src|) <= dst.Length < 0x8000_0000
    requires |src| <= out.Length < 0x8000_0000 && out != dst
    modifies dst, out, ctx, ctx.hashTable, ctx.chainTable
    ensures result == |src| && out[..result] == src
  {
    hide Encodes, CompressBound, HashChain.Context.Valid;
    var size := CompressFastReset(ctx, src, dst, dst.Length, cLevel, favorDecSpeed);
    result := DecodeBack(dst[..size], src, |src|, out, out.Length);
    assert src[..|src|] == src;
  }
}
