/** What XXH32 computes: known values, and what single words of the input do to its state. */
module XxValues32 {
  import opened BlockFormat
  import opened XxStripes
  import opened XxHash32

  // ----- Known values -----

  lemma HashOfNothing()
    ensures Hash([], 0) == 0x2CC5D05
  {
    assert Avalanche(374761393) == 0x2CC5D05;
  }

  /** The hash of "abc". */
  lemma HashOfAbc()
    ensures Hash([0x61, 0x62, 0x63], 0) == 0x32D153FF
  {
    hide Process1, Avalanche;
    AbcSteps();
    var s: seq<byte> := [0x61, 0x62, 0x63];
    assert Rest(16, s) == s;
    assert AddLength(Short(0), 3) == 374761396;
    assert TailHash(1980374631, s, 3) == 0x32D153FF;
    assert TailHash(1333853501, s, 2) == 0x32D153FF;
    assert TailHash(3701595112, s, 1) == 0x32D153FF;
  }

  lemma AbcSteps()
    ensures Process1(374761396, 0x61) == 3701595112
    ensures Process1(3701595112, 0x62) == 1333853501
    ensures Process1(1333853501, 0x63) == 1980374631
    ensures Avalanche(1980374631) == 0x32D153FF
  {
  }

  /** A sentence that takes whole stripes, a word and single bytes. */
  // "Nobody inspects "
  const FIRST: seq<byte> := [78, 111, 98, 111, 100, 121, 32, 105, 110, 115, 112, 101, 99, 116, 115, 32]
  // "the spammish rep"
  const SECOND: seq<byte> := [116, 104, 101, 32, 115, 112, 97, 109, 109, 105, 115, 104, 32, 114, 101, 112]
  // "etition"
  const LAST: seq<byte> := [101, 116, 105, 116, 105, 111, 110]

  lemma HashOfSentence()
    ensures Hash(FIRST + SECOND + LAST, 0) == 0xE2293B2F
  {
    hide RoundStripe, Merge, Rest, TailHash, Process1, Process4, Avalanche, Init;
    var data := FIRST + SECOND + LAST;
    assert data[0..16] == FIRST;
    assert data[16..32] == SECOND;
    assert data[0..] == data && data[32..] == LAST;
    AbsorbOne(RoundStripe, 16, Init(0), data, 0);
    AbsorbOne(RoundStripe, 16, Acc(74084362, 3215849699, 1530049706, 327046485), data, 16);
    AbsorbNone(RoundStripe, 16, Acc(1905951598, 1363942888, 2549762978, 606771106), data, 32);
    StripesOfSentence();
    MergeOfSentence();
    LastOfSentence();
  }

  lemma StripesOfSentence()
    ensures RoundStripe(Init(0), FIRST) == Acc(74084362, 3215849699, 1530049706, 327046485)
    ensures RoundStripe(Acc(74084362, 3215849699, 1530049706, 327046485), SECOND) == Acc(1905951598, 1363942888, 2549762978, 606771106)
  {
    hide Round, Read32;
    FirstWords();
    FirstRounds();
    SecondWords();
    SecondRounds();
  }

  lemma FirstWords()
    ensures Read32(FIRST, 0) == 1868721998
    ensures Read32(FIRST, 4) == 1763735908
    ensures Read32(FIRST, 8) == 1701868398
    ensures Read32(FIRST, 12) == 544437347
  {
    hide Read32;
    ReadIs(FIRST, 0, 1868721998);
    ReadIs(FIRST, 4, 1763735908);
    ReadIs(FIRST, 8, 1701868398);
    ReadIs(FIRST, 12, 544437347);
  }

  lemma SecondWords()
    ensures Read32(SECOND, 0) == 543516788
    ensures Read32(SECOND, 4) == 1835102323
    ensures Read32(SECOND, 8) == 1752394093
    ensures Read32(SECOND, 12) == 1885696544
  {
    hide Read32;
    ReadIs(SECOND, 0, 543516788);
    ReadIs(SECOND, 4, 1835102323);
    ReadIs(SECOND, 8, 1752394093);
    ReadIs(SECOND, 12, 1885696544);
  }

  lemma FirstRounds()
    ensures Round(Init(0).v1, 1868721998) == 74084362
    ensures Round(Init(0).v2, 1763735908) == 3215849699
    ensures Round(Init(0).v3, 1701868398) == 1530049706
    ensures Round(Init(0).v4, 544437347) == 327046485
  {
    assert Init(0) == Acc(606290984, 2246822519, 0, 1640531535);
    assert (606290984 as bv32) + Times2(1868721998) == 1230146922;
    assert Rotl(1230146922, 13) == 1370310954;
    assert Times1(1370310954) == 74084362;
    assert (2246822519 as bv32) + Times2(1763735908) == 1721311219;
    assert Rotl(1721311219, 13) == 603876563;
    assert Times1(603876563) == 3215849699;
    assert (0 as bv32) + Times2(1701868398) == 4266947618;
    assert Rotl(4266947618, 13) == 2391039946;
    assert Times1(2391039946) == 1530049706;
    assert (1640531535 as bv32) + Times2(544437347) == 3609902676;
    assert Rotl(3609902676, 13) == 1472895717;
    assert Times1(1472895717) == 327046485;
  }

  lemma SecondRounds()
    ensures Round(74084362, 543516788) == 1905951598
    ensures Round(3215849699, 1835102323) == 1363942888
    ensures Round(1530049706, 1752394093) == 2549762978
    ensures Round(327046485, 1885696544) == 606771106
  {
    assert (74084362 as bv32) + Times2(543516788) == 1047889398;
    assert Rotl(1047889398, 13) == 2965293006;
    assert Times1(2965293006) == 1905951598;
    assert (3215849699 as bv32) + Times2(1835102323) == 1933900888;
    assert Rotl(1933900888, 13) == 2676690536;
    assert Times1(2676690536) == 1363942888;
    assert (1530049706 as bv32) + Times2(1752394093) == 1645721685;
    assert Rotl(1645721685, 13) == 4144671810;
    assert Times1(4144671810) == 2549762978;
    assert (327046485 as bv32) + Times2(1885696544) == 3256066613;
    assert Rotl(3256066613, 13) == 1950791746;
    assert Times1(1950791746) == 606771106;
  }

  lemma ReadIs(s: seq<byte>, p: nat, b: bv32)
    requires p + 4 <= |s|
    requires b as int == s[p] as int + 0x100 * s[p + 1] as int + 0x1_0000 * s[p + 2] as int + 0x100_0000 * s[p + 3] as int
    ensures Read32(s, p) == b
  {
    Back(b);
  }

  lemma Back(b: bv32)
    ensures (b as int) as bv32 == b
  {
  }

  lemma MergeOfSentence()
    ensures AddLength(Merge(Acc(1905951598, 1363942888, 2549762978, 606771106)), 39) == 2357638484
  {
    assert Rotl(1905951598, 1) == 3811903196;
    assert Rotl(1363942888, 7) == 2785997864;
    assert Rotl(2549762978, 12) == 2763663743;
    assert Rotl(606771106, 18) == 1586008234;
  }

  lemma LastOfSentence()
    ensures TailHash(2357638484, LAST, 0) == 0xE2293B2F
  {
    hide Process1, Process4, Avalanche;
    LastSteps();
    assert TailHash(3014066459, LAST, 7) == 0xE2293B2F;
    assert TailHash(944900219, LAST, 6) == 0xE2293B2F;
    assert TailHash(3455046601, LAST, 5) == 0xE2293B2F;
    assert TailHash(162862404, LAST, 4) == 0xE2293B2F;
  }

  lemma LastSteps()
    ensures Process4(2357638484, Read32(LAST, 0)) == 162862404
    ensures Process1(162862404, LAST[4]) == 3455046601
    ensures Process1(3455046601, LAST[5]) == 944900219
    ensures Process1(944900219, LAST[6]) == 3014066459
    ensures Avalanche(3014066459) == 0xE2293B2F
  {
    hide Process4, Process1, Avalanche, Read32;
    LastWord();
    assert LAST[4] == 105 && LAST[5] == 111 && LAST[6] == 110;
    ByteSteps();
  }

  lemma ByteSteps()
    ensures Process1(162862404, 105) == 3455046601
    ensures Process1(3455046601, 111) == 944900219
    ensures Process1(944900219, 110) == 3014066459
    ensures Avalanche(3014066459) == 0xE2293B2F
  {
  }

  lemma LastWord()
    ensures Process4(2357638484, Read32(LAST, 0)) == 162862404
  {
    assert Read32(LAST, 0) == 1953068133 by { hide Read32; ReadIs(LAST, 0, 1953068133); }
    hide Read32;
    assert (2357638484 as bv32) + (1953068133 as bv32) * PRIME_3 == 1862145893;
    assert Rotl(1862145893, 17) == 785047036;
  }

  // ----- What a round does -----

  function Undo1(x: bv32): bv32 {
    x * 244002641
  }

  function Undo2(x: bv32): bv32 {
    x * 3066638151
  }

  /** The primes have inverses. */
  lemma Undone1(x: bv32)
    ensures Undo1(Times1(x)) == x
  {
    hide Undo1;
    assert Undo1(x * 2654435761) == x by { Inverse1(x); }
  }

  lemma Inverse1(x: bv32)
    ensures Undo1(x * 2654435761) == x
  {
  }

  lemma Undone2(x: bv32)
    ensures Undo2(Times2(x)) == x
  {
    hide Undo2;
    assert Undo2(x * 2246822519) == x by { Inverse2(x); }
  }

  lemma Inverse2(x: bv32)
    ensures Undo2(x * 2246822519) == x
  {
  }

  lemma RotlBack(x: bv32)
    ensures Rotl(Rotl(x, 13), 19) == x
  {
    var y := (x << 13) | (x >> 19);
    assert Rotl(x, 13) == y;
    assert Rotl(y, 19) == (y << 19) | (y >> 13);
    BitsBack(x);
  }

  lemma BitsBack(x: bv32)
    ensures var y := (x << 13) | (x >> 19); (y << 19) | (y >> 13) == x
  {
  }

  lemma Cancel(a: bv32, b: bv32, t: bv32, u: bv32)
    ensures a + t == a + u ==> t == u
    ensures a + t == b + t ==> a == b
  {
  }

  lemma RoundSum(a: bv32, x: bv32, b: bv32, y: bv32)
    requires Round(a, x) == Round(b, y)
    ensures a + Times2(x) == b + Times2(y)
  {
    hide Times1, Times2, Rotl;
    Undone1(Rotl(a + Times2(x), 13));
    Undone1(Rotl(b + Times2(y), 13));
    RotlBack(a + Times2(x));
    RotlBack(b + Times2(y));
  }

  /** A round tells any two inputs apart, and any two accumulators. */
  lemma RoundTells(a: bv32, b: bv32, x: bv32, y: bv32)
    ensures x != y ==> Round(a, x) != Round(a, y)
    ensures a != b ==> Round(a, x) != Round(b, x)
  {
    hide Round, Times2, Undo2;
    if Round(a, x) == Round(a, y) {
      RoundSum(a, x, a, y);
      Cancel(a, a, Times2(x), Times2(y));
      Undone2(x);
      Undone2(y);
    }
    if Round(a, x) == Round(b, x) {
      RoundSum(a, x, b, x);
      Cancel(a, b, Times2(x), Times2(x));
    }
  }

  function Lane(a: Acc, j: nat): bv32 {
    if j == 0 then a.v1 else if j == 1 then a.v2 else if j == 2 then a.v3 else a.v4
  }

  /** One stripe in a lane. */
  lemma LaneOf(a: Acc, s: seq<byte>, j: nat)
    requires |s| == 16 && j < 4
    ensures Lane(RoundStripe(a, s), j) == Round(Lane(a, j), Read32(s, 4 * j))
  {
    hide Round, Read32;
  }

  /** Accumulators that differ in a lane go on to differ when the same follows. */
  lemma {:induction false} StaysApart(a: Acc, b: Acc, j: nat, data: seq<byte>)
    requires j < 4 && Lane(a, j) != Lane(b, j)
    ensures Lane(Absorb(RoundStripe, 16, a, data), j) != Lane(Absorb(RoundStripe, 16, b, data), j)
    decreases |data|
  {
    if |data| >= 16 {
      var s := data[..16];
      LaneOf(a, s, j);
      LaneOf(b, s, j);
      RoundTells(Lane(a, j), Lane(b, j), Read32(s, 4 * j), 0);
      hide RoundStripe, Read32, Lane, Round;
      StaysApart(RoundStripe(a, s), RoundStripe(b, s), j, data[16..]);
    }
  }

  /** The inputs are the same but for the word `k`, which lies in a whole stripe. */
  ghost predicate OneWordDiffers(data: seq<byte>, other: seq<byte>, k: nat) {
    && |data| == |other| && 4 * k < |data| - |data| % 16 && 4 * k + 4 <= |data|
    && data[..4 * k] == other[..4 * k] && data[4 * k + 4..] == other[4 * k + 4..]
    && Read32(data, 4 * k) != Read32(other, 4 * k)
  }

  /** Inputs that differ in one word of their stripes, and in nothing else, leave different accumulators. */
  lemma {:induction false} OneWordMatters(a: Acc, data: seq<byte>, other: seq<byte>, k: nat)
    requires OneWordDiffers(data, other, k)
    ensures Absorb(RoundStripe, 16, a, data) != Absorb(RoundStripe, 16, a, other)
    decreases |data|
  {
    hide RoundStripe, Read32, Lane, Round;
    var s, t := data[..16], other[..16];
    if k < 4 {
      FirstStripeDiffers(data, other, k);
      LaneOf(a, s, k);
      LaneOf(a, t, k);
      RoundTells(Lane(a, k), Lane(a, k), Read32(s, 4 * k), Read32(t, 4 * k));
      StaysApart(RoundStripe(a, s), RoundStripe(a, t), k, data[16..]);
    } else {
      LaterStripeDiffers(data, other, k);
      OneWordMatters(RoundStripe(a, s), data[16..], other[16..], k - 4);
    }
  }

  lemma ReadInSlice(s: seq<byte>, n: nat, p: nat)
    requires n <= |s|
    ensures p + 4 <= n ==> Read32(s[..n], p) == Read32(s, p)
    ensures n + p + 4 <= |s| ==> Read32(s[n..], p) == Read32(s, n + p)
  {
    hide Read32;
    if p + 4 <= n { SameBytes(s[..n], p, s, p); }
    if n + p + 4 <= |s| { SameBytes(s[n..], p, s, n + p); }
  }

  lemma SameBytes(s: seq<byte>, p: nat, t: seq<byte>, q: nat)
    requires p + 4 <= |s| && q + 4 <= |t|
    requires s[p] == t[q] && s[p + 1] == t[q + 1] && s[p + 2] == t[q + 2] && s[p + 3] == t[q + 3]
    ensures Read32(s, p) == Read32(t, q)
  {
  }

  lemma FirstStripeDiffers(data: seq<byte>, other: seq<byte>, k: nat)
    requires OneWordDiffers(data, other, k) && k < 4
    ensures data[16..] == other[16..] && Read32(data[..16], 4 * k) != Read32(other[..16], 4 * k)
  {
    hide Read32;
    ReadInSlice(data, 16, 4 * k);
    ReadInSlice(other, 16, 4 * k);
    assert data[16..] == data[4 * k + 4..][16 - 4 * k - 4..];
    assert other[16..] == other[4 * k + 4..][16 - 4 * k - 4..];
  }

  lemma LaterStripeDiffers(data: seq<byte>, other: seq<byte>, k: nat)
    requires OneWordDiffers(data, other, k) && k >= 4
    ensures data[..16] == other[..16] && OneWordDiffers(data[16..], other[16..], k - 4)
  {
    hide Read32;
    ReadInSlice(data, 16, 4 * (k - 4));
    ReadInSlice(other, 16, 4 * (k - 4));
    var d, o := data[16..], other[16..];
    assert data[..16] == data[..4 * k][..16] && other[..16] == other[..4 * k][..16];
    assert d[..4 * (k - 4)] == data[..4 * k][16..] && o[..4 * (k - 4)] == other[..4 * k][16..];
    assert d[4 * (k - 4) + 4..] == data[4 * k + 4..] && o[4 * (k - 4) + 4..] == other[4 * k + 4..];
  }
}

/** What XXH64 computes: known values, and what single words of the input do to its state. */
module XxValues64 {
  import opened BlockFormat
  import opened XxStripes
  import opened XxHash64

  // ----- Known values -----

  lemma HashOfNothing()
    ensures Hash([], 0) == 0xEF46DB3751D8E999
  {
    assert Avalanche(2870177450012600261) == 0xEF46DB3751D8E999;
  }

  /** The hash of "abc". */
  lemma HashOfAbc()
    ensures Hash([0x61, 0x62, 0x63], 0) == 0x44BC2CF5AD770999
  {
    hide Process1, Avalanche;
    AbcSteps();
    var s: seq<byte> := [0x61, 0x62, 0x63];
    assert Rest(32, s) == s;
    assert AddLength(Short(0), 3) == 2870177450012600264;
    assert TailHash(16751779798038397854, s, 3) == 0x44BC2CF5AD770999;
    assert TailHash(8726150792629743721, s, 2) == 0x44BC2CF5AD770999;
    assert TailHash(1039506595813196309, s, 1) == 0x44BC2CF5AD770999;
  }

  lemma AbcSteps()
    ensures Process1(2870177450012600264, 0x61) == 1039506595813196309
    ensures Process1(1039506595813196309, 0x62) == 8726150792629743721
    ensures Process1(8726150792629743721, 0x63) == 16751779798038397854
    ensures Avalanche(16751779798038397854) == 0x44BC2CF5AD770999
  {
  }

  /** A sentence that takes whole stripes, a word and single bytes. */
  // "Nobody inspects the spammish rep"
  const STRIPE: seq<byte> := [78, 111, 98, 111, 100, 121, 32, 105, 110, 115, 112, 101, 99, 116, 115, 32,
                              116, 104, 101, 32, 115, 112, 97, 109, 109, 105, 115, 104, 32, 114, 101, 112]
  // "etition"
  const LAST: seq<byte> := [101, 116, 105, 116, 105, 111, 110]

  lemma HashOfSentence()
    ensures Hash(STRIPE + LAST, 0) == 0xFBCEA83C8A378BF1
  {
    hide RoundStripe, Merge, Rest, TailHash, Process1, Process4, Avalanche, Init;
    var data := STRIPE + LAST;
    assert data[0..32] == STRIPE;
    assert data[0..] == data && data[32..] == LAST;
    AbsorbOne(RoundStripe, 32, Init(0), data, 0);
    AbsorbNone(RoundStripe, 32, Acc(3973390001945083467, 1959113162029503183, 14799629111262711754, 2024056041550129738), data, 32);
    StripesOfSentence();
    MergeOfSentence();
    LastOfSentence();
  }

  lemma StripesOfSentence()
    ensures RoundStripe(Init(0), STRIPE) == Acc(3973390001945083467, 1959113162029503183, 14799629111262711754, 2024056041550129738)
  {
    hide Round, Read64;
    StripeWords();
    StripeRounds();
  }

  lemma StripeWords()
    ensures Read64(STRIPE, 0) == 7575188045509586766
    ensures Read64(STRIPE, 8) == 2338340601787872110
    ensures Read64(STRIPE, 16) == 7881704462642145396
    ensures Read64(STRIPE, 24) == 8099004988412619117
  {
    hide Read64, Read32;
    StripeHalves();
    ReadIs(STRIPE, 0, 7575188045509586766);
    ReadIs(STRIPE, 8, 2338340601787872110);
    ReadIs(STRIPE, 16, 7881704462642145396);
    ReadIs(STRIPE, 24, 8099004988412619117);
  }

  lemma StripeHalves()
    ensures Read32(STRIPE, 0) == 1868721998
    ensures Read32(STRIPE, 4) == 1763735908
    ensures Read32(STRIPE, 8) == 1701868398
    ensures Read32(STRIPE, 12) == 544437347
    ensures Read32(STRIPE, 16) == 543516788
    ensures Read32(STRIPE, 20) == 1835102323
    ensures Read32(STRIPE, 24) == 1752394093
    ensures Read32(STRIPE, 28) == 1885696544
  {
    hide Read32;
    HalvesOfWord1();
    HalvesOfWord2();
    HalvesOfWord3();
    HalvesOfWord4();
  }

  lemma HalvesOfWord1()
    ensures Read32(STRIPE, 0) == 1868721998
    ensures Read32(STRIPE, 4) == 1763735908
  {
  }

  lemma HalvesOfWord2()
    ensures Read32(STRIPE, 8) == 1701868398
    ensures Read32(STRIPE, 12) == 544437347
  {
  }

  lemma HalvesOfWord3()
    ensures Read32(STRIPE, 16) == 543516788
    ensures Read32(STRIPE, 20) == 1835102323
  {
  }

  lemma HalvesOfWord4()
    ensures Read32(STRIPE, 24) == 1752394093
    ensures Read32(STRIPE, 28) == 1885696544
  {
  }

  lemma StripeRounds()
    ensures Round(Init(0).v1, 7575188045509586766) == 3973390001945083467
    ensures Round(Init(0).v2, 2338340601787872110) == 1959113162029503183
    ensures Round(Init(0).v3, 7881704462642145396) == 14799629111262711754
    ensures Round(Init(0).v4, 8099004988412619117) == 2024056041550129738
  {
    assert Init(0) == Acc(6983438078262162902, 14029467366897019727, 0, 7046029288634856825);
    assert (6983438078262162902 as bv64) + Times2(7575188045509586766) == 7483458912988276968;
    assert Rotl(7483458912988276968, 31) == 13543120625008986909;
    assert Times1(13543120625008986909) == 3973390001945083467;
    assert (14029467366897019727 as bv64) + Times2(2338340601787872110) == 9343631065452282945;
    assert Rotl(9343631065452282945, 31) == 9532785744701398905;
    assert Times1(9532785744701398905) == 1959113162029503183;
    assert (0 as bv64) + Times2(7881704462642145396) == 748271316544370636;
    assert Rotl(748271316544370636, 31) == 2386586633529012838;
    assert Times1(2386586633529012838) == 14799629111262711754;
    assert (7046029288634856825 as bv64) + Times2(8099004988412619117) == 16180527242650897692;
    assert Rotl(16180527242650897692, 31) == 5214718180496663526;
    assert Times1(5214718180496663526) == 2024056041550129738;
  }

  lemma ReadIs(s: seq<byte>, p: nat, b: bv64)
    requires p + 8 <= |s| && b as int == Read32(s, p) + 0x1_0000_0000 * Read32(s, p + 4)
    ensures Read64(s, p) == b
  {
    Back(b);
  }

  lemma Back(b: bv64)
    ensures (b as int) as bv64 == b
  {
  }

  lemma MergeOfSentence()
    ensures AddLength(Merge(Acc(3973390001945083467, 1959113162029503183, 14799629111262711754, 2024056041550129738)), 39) == 9579768019787294940
  {
    AccsOfSentence();
    hide Merge;
  }

  lemma AccsOfSentence()
    ensures Merge(Acc(3973390001945083467, 1959113162029503183, 14799629111262711754, 2024056041550129738)) == 9579768019787294901
  {
    hide Rotations, MergeRound;
    RotationsOfSentence();
    MergeStep1();
    MergeStep2();
    MergeStep3();
    MergeStep4();
  }

  lemma RotationsOfSentence()
    ensures Rotations(Acc(3973390001945083467, 1959113162029503183, 14799629111262711754, 2024056041550129738)) == 14185825243590525268
  {
    assert Rotl(3973390001945083467, 1) == 7946780003890166934;
    assert Rotl(1959113162029503183, 7) == 10958811781552236429;
    assert Rotl(14799629111262711754, 12) == 3279813522480737494;
    assert Rotl(2024056041550129738, 18) == 10447164009376936027;
  }

  lemma MergeStep1()
    ensures MergeRound(14185825243590525268, 3973390001945083467) == 3518452451733578052
  {
    assert (0 as bv64) + Times2(3973390001945083467) == 13767032690745004581;
    assert Rotl(13767032690745004581, 31) == 5442011992015972773;
    assert Times1(5442011992015972773) == 8615666597825751043;
  }

  lemma MergeStep2()
    ensures MergeRound(3518452451733578052, 1959113162029503183) == 16546771031885973144
  {
    assert (0 as bv64) + Times2(1959113162029503183) == 4664819655368397537;
    assert Rotl(4664819655368397537, 31) == 8196315410541208161;
    assert Times1(8196315410541208161) == 16055005844956343079;
  }

  lemma MergeStep3()
    ensures MergeRound(16546771031885973144, 14799629111262711754) == 18000578893446646125
  {
    assert (0 as bv64) + Times2(14799629111262711754) == 1808194859462511958;
    assert Rotl(1808194859462511958, 31) == 9041440980503101394;
    assert Times1(9041440980503101394) == 8072489817171401662;
  }

  lemma MergeStep4()
    ensures MergeRound(18000578893446646125, 2024056041550129738) == 9579768019787294901
  {
    assert (0 as bv64) + Times2(2024056041550129738) == 2925125803120458454;
    assert Rotl(2925125803120458454, 31) == 13918794022220730677;
    assert Times1(13918794022220730677) == 13964460562543273203;
  }

  lemma LastOfSentence()
    ensures TailHash(9579768019787294940, LAST, 0) == 0xFBCEA83C8A378BF1
  {
    hide Process1, Process4, Avalanche, Process8;
    LastSteps();
    assert TailHash(2092563352423746596, LAST, 7) == 0xFBCEA83C8A378BF1;
    assert TailHash(16927261076649234002, LAST, 6) == 0xFBCEA83C8A378BF1;
    assert TailHash(8545141950437767700, LAST, 5) == 0xFBCEA83C8A378BF1;
    assert TailHash(11514032289611387151, LAST, 4) == 0xFBCEA83C8A378BF1;
  }

  lemma LastSteps()
    ensures Process4(9579768019787294940, Read32(LAST, 0)) == 11514032289611387151
    ensures Process1(11514032289611387151, LAST[4]) == 8545141950437767700
    ensures Process1(8545141950437767700, LAST[5]) == 16927261076649234002
    ensures Process1(16927261076649234002, LAST[6]) == 2092563352423746596
    ensures Avalanche(2092563352423746596) == 0xFBCEA83C8A378BF1
  {
    hide Process4, Process1, Avalanche, Read32;
    LastWord();
    assert LAST[4] == 105 && LAST[5] == 111 && LAST[6] == 110;
    ByteSteps();
  }

  lemma ByteSteps()
    ensures Process1(11514032289611387151, 105) == 8545141950437767700
    ensures Process1(8545141950437767700, 111) == 16927261076649234002
    ensures Process1(16927261076649234002, 110) == 2092563352423746596
    ensures Avalanche(2092563352423746596) == 0xFBCEA83C8A378BF1
  {
  }

  lemma LastWord()
    ensures Process4(9579768019787294940, Read32(LAST, 0)) == 11514032289611387151
  {
    assert Read32(LAST, 0) == 1953068133;
    hide Read32;
    WordStep();
  }

  lemma WordStep()
    ensures Process4(9579768019787294940, 1953068133) == 11514032289611387151
  {
    assert Times1(1953068133) == 16827199952868021059;
    assert (9579768019787294940 as bv64) ^ 16827199952868021059 == 7886952426555227039;
    assert Rotl(7886952426555227039, 23) == 13328576123445361162;
  }

  // "repetition"
  const WORD: seq<byte> := [114, 101, 112, 101, 116, 105, 116, 105, 111, 110]

  /** Eight bytes at a time. */
  lemma HashOfWord()
    ensures Hash(WORD, 0) == 0xF1E1CFC19C6D1B97
  {
    hide Process8, Process1, Avalanche;
    StepsOfWord();
    hide Read64;
    assert WORD[8] == 111 && WORD[9] == 110;
    assert Rest(32, WORD) == WORD;
    assert AddLength(Short(0), 10) == 2870177450012600271;
    hide AddLength, Short;
    assert TailHash(17041702647446274864, WORD, 10) == 0xF1E1CFC19C6D1B97;
    assert TailHash(17827134556256291745, WORD, 9) == 0xF1E1CFC19C6D1B97;
    assert TailHash(1708630580510590676, WORD, 8) == 0xF1E1CFC19C6D1B97;
  }

  lemma StepsOfWord()
    ensures Process8(2870177450012600271, Read64(WORD, 0)) == 1708630580510590676
    ensures Process1(1708630580510590676, 111) == 17827134556256291745
    ensures Process1(17827134556256291745, 110) == 17041702647446274864
    ensures Avalanche(17041702647446274864) == 0xF1E1CFC19C6D1B97
  {
    hide Read64, Process8, Process1, Avalanche;
    ReadWord();
    EightOfWord();
    BytesOfWord();
  }

  lemma ReadWord()
    ensures Read64(WORD, 0) == 7598814419919857010
  {
    assert Read32(WORD, 0) == 1701864818 && Read32(WORD, 4) == 1769236852;
    hide Read64, Read32;
    ReadIs(WORD, 0, 7598814419919857010);
  }

  lemma EightOfWord()
    ensures Process8(2870177450012600271, 7598814419919857010) == 1708630580510590676
  {
    assert Times2(7598814419919857010) == 17695255071240418350;
    assert Rotl(17695255071240418350, 31) == 17121412649641907805;
    assert Times1(17121412649641907805) == 7368315357218417931;
    assert Rotl(4725798731018488516, 27) == 4797119024390253383;
  }

  lemma BytesOfWord()
    ensures Process1(1708630580510590676, 111) == 17827134556256291745
    ensures Process1(17827134556256291745, 110) == 17041702647446274864
    ensures Avalanche(17041702647446274864) == 0xF1E1CFC19C6D1B97
  {
  }

  // ----- What a round does -----

  function Undo1(x: bv64): bv64 {
    x * 614540362697595703
  }

  function Undo2(x: bv64): bv64 {
    x * 839798700976720815
  }

  /** The primes have inverses. */
  lemma Undone1(x: bv64)
    ensures Undo1(Times1(x)) == x
  {
    hide Undo1;
    assert Undo1(x * 11400714785074694791) == x by { Inverse1(x); }
  }

  lemma Inverse1(x: bv64)
    ensures Undo1(x * 11400714785074694791) == x
  {
  }

  lemma Undone2(x: bv64)
    ensures Undo2(Times2(x)) == x
  {
    hide Undo2;
    assert Undo2(x * 14029467366897019727) == x by { Inverse2(x); }
  }

  lemma Inverse2(x: bv64)
    ensures Undo2(x * 14029467366897019727) == x
  {
  }

  lemma RotlBack(x: bv64)
    ensures Rotl(Rotl(x, 31), 33) == x
  {
    var y := (x << 31) | (x >> 33);
    assert Rotl(x, 31) == y;
    assert Rotl(y, 33) == (y << 33) | (y >> 31);
    BitsBack(x);
  }

  lemma BitsBack(x: bv64)
    ensures var y := (x << 31) | (x >> 33); (y << 33) | (y >> 31) == x
  {
  }

  lemma Cancel(a: bv64, b: bv64, t: bv64, u: bv64)
    ensures a + t == a + u ==> t == u
    ensures a + t == b + t ==> a == b
  {
  }

  lemma RoundSum(a: bv64, x: bv64, b: bv64, y: bv64)
    requires Round(a, x) == Round(b, y)
    ensures a + Times2(x) == b + Times2(y)
  {
    hide Times1, Times2, Rotl;
    Undone1(Rotl(a + Times2(x), 31));
    Undone1(Rotl(b + Times2(y), 31));
    RotlBack(a + Times2(x));
    RotlBack(b + Times2(y));
  }

  /** A round tells any two inputs apart, and any two accumulators. */
  lemma RoundTells(a: bv64, b: bv64, x: bv64, y: bv64)
    ensures x != y ==> Round(a, x) != Round(a, y)
    ensures a != b ==> Round(a, x) != Round(b, x)
  {
    hide Round, Times2, Undo2;
    if Round(a, x) == Round(a, y) {
      RoundSum(a, x, a, y);
      Cancel(a, a, Times2(x), Times2(y));
      Undone2(x);
      Undone2(y);
    }
    if Round(a, x) == Round(b, x) {
      RoundSum(a, x, b, x);
      Cancel(a, b, Times2(x), Times2(x));
    }
  }

  function Lane(a: Acc, j: nat): bv64 {
    if j == 0 then a.v1 else if j == 1 then a.v2 else if j == 2 then a.v3 else a.v4
  }

  /** One stripe in a lane. */
  lemma LaneOf(a: Acc, s: seq<byte>, j: nat)
    requires |s| == 32 && j < 4
    ensures Lane(RoundStripe(a, s), j) == Round(Lane(a, j), Read64(s, 8 * j))
  {
    hide Round, Read64;
  }

  /** Accumulators that differ in a lane go on to differ when the same follows. */
  lemma {:induction false} StaysApart(a: Acc, b: Acc, j: nat, data: seq<byte>)
    requires j < 4 && Lane(a, j) != Lane(b, j)
    ensures Lane(Absorb(RoundStripe, 32, a, data), j) != Lane(Absorb(RoundStripe, 32, b, data), j)
    decreases |data|
  {
    if |data| >= 32 {
      var s := data[..32];
      LaneOf(a, s, j);
      LaneOf(b, s, j);
      RoundTells(Lane(a, j), Lane(b, j), Read64(s, 8 * j), 0);
      hide RoundStripe, Read64, Lane, Round;
      StaysApart(RoundStripe(a, s), RoundStripe(b, s), j, data[32..]);
    }
  }

  /** The inputs are the same but for the word `k`, which lies in a whole stripe. */
  ghost predicate OneWordDiffers(data: seq<byte>, other: seq<byte>, k: nat) {
    && |data| == |other| && 8 * k < |data| - |data| % 32 && 8 * k + 8 <= |data|
    && data[..8 * k] == other[..8 * k] && data[8 * k + 8..] == other[8 * k + 8..]
    && Read64(data, 8 * k) != Read64(other, 8 * k)
  }

  /** Inputs that differ in one word of their stripes, and in nothing else, leave different accumulators. */
  lemma {:induction false} OneWordMatters(a: Acc, data: seq<byte>, other: seq<byte>, k: nat)
    requires OneWordDiffers(data, other, k)
    ensures Absorb(RoundStripe, 32, a, data) != Absorb(RoundStripe, 32, a, other)
    decreases |data|
  {
    hide RoundStripe, Read64, Lane, Round;
    var s, t := data[..32], other[..32];
    if k < 4 {
      FirstStripeDiffers(data, other, k);
      LaneOf(a, s, k);
      LaneOf(a, t, k);
      RoundTells(Lane(a, k), Lane(a, k), Read64(s, 8 * k), Read64(t, 8 * k));
      StaysApart(RoundStripe(a, s), RoundStripe(a, t), k, data[32..]);
    } else {
      LaterStripeDiffers(data, other, k);
      OneWordMatters(RoundStripe(a, s), data[32..], other[32..], k - 4);
    }
  }

  lemma ReadInSlice(s: seq<byte>, n: nat, p: nat)
    requires n <= |s|
    ensures p + 8 <= n ==> Read64(s[..n], p) == Read64(s, p)
    ensures n + p + 8 <= |s| ==> Read64(s[n..], p) == Read64(s, n + p)
  {
    hide Read32, Read64;
    HalfInSlice(s, n, p);
    HalfInSlice(s, n, p + 4);
    if p + 8 <= n { SameHalves(s[..n], p, s, p); }
    if n + p + 8 <= |s| { SameHalves(s[n..], p, s, n + p); }
  }

  lemma SameHalves(s: seq<byte>, p: nat, t: seq<byte>, q: nat)
    requires p + 8 <= |s| && q + 8 <= |t|
    requires Read32(s, p) == Read32(t, q) && Read32(s, p + 4) == Read32(t, q + 4)
    ensures Read64(s, p) == Read64(t, q)
  {
    hide Read32;
  }

  lemma HalfInSlice(s: seq<byte>, n: nat, p: nat)
    requires n <= |s|
    ensures p + 4 <= n ==> Read32(s[..n], p) == Read32(s, p)
    ensures n + p + 4 <= |s| ==> Read32(s[n..], p) == Read32(s, n + p)
  {
  }

  lemma FirstStripeDiffers(data: seq<byte>, other: seq<byte>, k: nat)
    requires OneWordDiffers(data, other, k) && k < 4
    ensures data[32..] == other[32..] && Read64(data[..32], 8 * k) != Read64(other[..32], 8 * k)
  {
    hide Read64;
    ReadInSlice(data, 32, 8 * k);
    ReadInSlice(other, 32, 8 * k);
    assert data[32..] == data[8 * k + 8..][32 - 8 * k - 8..];
    assert other[32..] == other[8 * k + 8..][32 - 8 * k - 8..];
  }

  lemma LaterStripeDiffers(data: seq<byte>, other: seq<byte>, k: nat)
    requires OneWordDiffers(data, other, k) && k >= 4
    ensures data[..32] == other[..32] && OneWordDiffers(data[32..], other[32..], k - 4)
  {
    hide Read64;
    ReadInSlice(data, 32, 8 * (k - 4));
    ReadInSlice(other, 32, 8 * (k - 4));
    var d, o := data[32..], other[32..];
    assert data[..32] == data[..8 * k][..32] && other[..32] == other[..8 * k][..32];
    assert d[..8 * (k - 4)] == data[..8 * k][32..] && o[..8 * (k - 4)] == other[..8 * k][32..];
    assert d[8 * (k - 4) + 8..] == data[8 * k + 8..] && o[8 * (k - 4) + 8..] == other[8 * k + 8..];
  }
}
