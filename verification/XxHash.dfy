/** Whole stripes and what is left of them: what XXH32 and XXH64 (xxhash.c) have in common. */
module XxStripes {
  import opened BlockFormat

  /** Feeds the whole stripes of `data`, first to last, to the accumulators. */
  ghost function Absorb<A>(round: (A, seq<byte>) -> A, width: nat, acc: A, data: seq<byte>): A
    requires width >= 1
    decreases |data|
  {
    if |data| < width then acc else Absorb(round, width, round(acc, data[..width]), data[width..])
  }

  /** The bytes after the last whole stripe. */
  ghost function Rest(width: nat, data: seq<byte>): (r: seq<byte>)
    requires width >= 1
    ensures |r| < width && |r| <= |data|
    decreases |data|
  {
    if |data| < width then data else Rest(width, data[width..])
  }

  /** Data that comes in two parts: what is left of the first is put before the second. */
  lemma {:induction false} AbsorbInParts<A>(round: (A, seq<byte>) -> A, width: nat, acc: A, data: seq<byte>, more: seq<byte>)
    requires width >= 1
    ensures Absorb(round, width, acc, data + more)
            == Absorb(round, width, Absorb(round, width, acc, data), Rest(width, data) + more)
    ensures Rest(width, data + more) == Rest(width, Rest(width, data) + more)
    decreases |data|
  {
    if |data| >= width {
      assert (data + more)[..width] == data[..width];
      assert (data + more)[width..] == data[width..] + more;
      AbsorbInParts(round, width, round(acc, data[..width]), data[width..], more);
    }
  }

  /** One whole stripe at a time. */
  lemma AbsorbOne<A>(round: (A, seq<byte>) -> A, width: nat, acc: A, data: seq<byte>, p: nat)
    requires width >= 1 && p + width <= |data|
    ensures Absorb(round, width, acc, data[p..]) == Absorb(round, width, round(acc, data[p..p + width]), data[p + width..])
    ensures Rest(width, data[p..]) == Rest(width, data[p + width..])
  {
    assert data[p..][..width] == data[p..p + width];
    assert data[p..][width..] == data[p + width..];
  }

  /** The last, incomplete stripe. */
  lemma AbsorbNone<A>(round: (A, seq<byte>) -> A, width: nat, acc: A, data: seq<byte>, p: nat)
    requires width >= 1 && p <= |data| < p + width
    ensures Absorb(round, width, acc, data[p..]) == acc && Rest(width, data[p..]) == data[p..]
  {
  }

  lemma ConcatOne(pieces: seq<seq<byte>>, i: nat)
    requires i < |pieces|
    ensures Concat(pieces[..i + 1]) == Concat(pieces[..i]) + pieces[i]
  {
    assert pieces[..i + 1][..i] == pieces[..i];
  }

  lemma {:induction false} RestLength16(data: seq<byte>)
    ensures |Rest(16, data)| == |data| % 16
    decreases |data|
  {
    if |data| >= 16 {
      RestLength16(data[16..]);
    }
  }

  lemma {:induction false} RestLength32(data: seq<byte>)
    ensures |Rest(32, data)| == |data| % 32
    decreases |data|
  {
    if |data| >= 32 {
      RestLength32(data[32..]);
    }
  }
}

/** XXH32: the streaming interface gives the one-shot hash, however the data is cut. */
module XxHash32 {
  import opened BlockFormat
  import opened XxStripes
  import opened Sizes

  const PRIME_1: bv32 := 2654435761
  const PRIME_2: bv32 := 2246822519
  const PRIME_3: bv32 := 3266489917
  const PRIME_4: bv32 := 668265263
  const PRIME_5: bv32 := 374761393

  datatype Acc = Acc(v1: bv32, v2: bv32, v3: bv32, v4: bv32)

  function Rotl(x: bv32, r: nat): bv32
    requires 0 < r < 32
  {
    (x << r) | (x >> (32 - r))
  }

  function Read32(s: seq<byte>, p: nat): bv32
    requires p + 4 <= |s|
  {
    (s[p] as int + 0x100 * s[p + 1] as int + 0x1_0000 * s[p + 2] as int + 0x100_0000 * s[p + 3] as int) as bv32
  }

  /** Multiplication by the first prime. */
  function Times1(x: bv32): bv32 {
    x * 2654435761
  }

  /** Multiplication by the second prime. */
  function Times2(x: bv32): bv32 {
    x * 2246822519
  }

  function Round(seed: bv32, input: bv32): bv32 {
    Times1(Rotl(seed + Times2(input), 13))
  }

  function RoundStripe(a: Acc, s: seq<byte>): Acc {
    if |s| < 16 then a
    else Acc(Round(a.v1, Read32(s, 0)), Round(a.v2, Read32(s, 4)), Round(a.v3, Read32(s, 8)), Round(a.v4, Read32(s, 12)))
  }

  function Init(seed: bv32): Acc {
    Acc(seed + PRIME_1 + PRIME_2, seed + PRIME_2, seed, seed - PRIME_1)
  }

  function Merge(a: Acc): bv32 {
    Rotl(a.v1, 1) + Rotl(a.v2, 7) + Rotl(a.v3, 12) + Rotl(a.v4, 18)
  }

  function Avalanche(h: bv32): bv32 {
    var h1 := (h ^ (h >> 15)) * PRIME_2;
    var h2 := (h1 ^ (h1 >> 13)) * PRIME_3;
    h2 ^ (h2 >> 16)
  }

  function Process1(h: bv32, b: byte): bv32 {
    Rotl(h + (b as bv32) * PRIME_5, 11) * PRIME_1
  }

  function Process4(h: bv32, w: bv32): bv32 {
    Rotl(h + w * PRIME_3, 17) * PRIME_4
  }

  /** The meaning of the finalize switch: words of four bytes while there are any, then single bytes. */
  ghost function TailHash(h: bv32, s: seq<byte>, p: nat): bv32
    requires p <= |s|
    decreases |s| - p
  {
    if p + 4 <= |s| then TailHash(Process4(h, Read32(s, p)), s, p + 4)
    else if p < |s| then TailHash(Process1(h, s[p]), s, p + 1)
    else Avalanche(h)
  }

  function AddLength(h: bv32, n: nat): bv32
    requires n < U32
  {
    h + n as bv32
  }

  function Short(seed: bv32): bv32 {
    seed + PRIME_5
  }

  /** The hash of the whole data, seen at once. */
  ghost function Hash(data: seq<byte>, seed: bv32): bv32 {
    var h := if |data| >= 16 then Merge(Absorb(RoundStripe, 16, Init(seed), data)) else Short(seed);
    TailHash(AddLength(h, |data| % U32), Rest(16, data), 0)
  }

  // ----- Finalize -----

  datatype Op = P4 | P1

  /** The cases of the switch on len & 15, each with all that it falls through to. */
  const SWITCH: seq<seq<Op>> := [
    [],
    [P1],
    [P1, P1],
    [P1, P1, P1],
    [P4],
    [P4, P1],
    [P4, P1, P1],
    [P4, P1, P1, P1],
    [P4, P4],
    [P4, P4, P1],
    [P4, P4, P1, P1],
    [P4, P4, P1, P1, P1],
    [P4, P4, P4],
    [P4, P4, P4, P1],
    [P4, P4, P4, P1, P1],
    [P4, P4, P4, P1, P1, P1]
  ]

  /** The steps that consume `n` bytes: words first. */
  ghost function Steps(n: nat): seq<Op> {
    if n >= 4 then [P4] + Steps(n - 4) else if n >= 1 then [P1] + Steps(n - 1) else []
  }

  lemma SwitchIsSteps(n: nat)
    requires n < 16
    ensures SWITCH[n] == Steps(n)
    decreases n
  {
    if n >= 4 {
      SwitchIsSteps(n - 4);
      SwitchFalls(n);
    } else if n >= 1 {
      SwitchIsSteps(n - 1);
    }
  }

  lemma SwitchFalls(n: nat)
    requires 4 <= n < 16
    ensures SWITCH[n] == [P4] + SWITCH[n - 4]
  {
  }

  /** One step of the switch is one step of the loop. */
  lemma StepsRun(n: nat, op: Op, rest: seq<Op>)
    requires [op] + rest == Steps(n)
    ensures op.P4? ==> n >= 4 && rest == Steps(n - 4)
    ensures op.P1? ==> 1 <= n < 4 && rest == Steps(n - 1)
  {
    assert ([op] + rest)[0] == op && ([op] + rest)[1..] == rest;
    assert Steps(n)[1..] == if n >= 4 then Steps(n - 4) else Steps(n - 1);
  }

  method RunSteps(h0: bv32, s: seq<byte>, ops: seq<Op>) returns (h: bv32)
    requires ops == Steps(|s|)
    ensures h == TailHash(h0, s, 0)
  {
    hide Process1, Process4, Avalanche, Read32, Steps;
    h := h0;
    var p := 0;
    for i := 0 to |ops|
      invariant p <= |s| && ops[i..] == Steps(|s| - p)
      invariant TailHash(h, s, p) == TailHash(h0, s, 0)
    {
      assert ops[i..] == [ops[i]] + ops[i + 1..];
      StepsRun(|s| - p, ops[i], ops[i + 1..]);
      match ops[i]
      case P4 => h, p := Process4(h, Read32(s, p)), p + 4;
      case P1 => h, p := Process1(h, s[p]), p + 1;
    }
    StepsEnd(|s| - p, ops[|ops|..]);
    h := Avalanche(h);
  }

  lemma StepsEnd(n: nat, ops: seq<Op>)
    requires ops == [] && ops == Steps(n)
    ensures n == 0
  {
  }

  method Finalize(h0: bv32, s: seq<byte>, len: nat) returns (h: bv32)
    requires |s| == len % 16
    ensures h == TailHash(h0, s, 0)
  {
    hide Steps, TailHash;
    SwitchIsSteps(len % 16);
    h := RunSteps(h0, s, SWITCH[len % 16]);
  }

  // ----- One-shot -----

  /** The stripe loop: absorbs whole stripes of `input` from `p` on. */
  method Stripes(a0: Acc, input: seq<byte>, p0: nat) returns (a: Acc, p: nat)
    requires p0 <= |input|
    ensures p0 <= p <= |input| < p + 16
    ensures a == Absorb(RoundStripe, 16, a0, input[p0..]) && input[p..] == Rest(16, input[p0..])
  {
    hide RoundStripe, Absorb, Rest;
    a, p := a0, p0;
    while p + 16 <= |input|
      invariant p0 <= p <= |input|
      invariant Absorb(RoundStripe, 16, a, input[p..]) == Absorb(RoundStripe, 16, a0, input[p0..])
      invariant Rest(16, input[p..]) == Rest(16, input[p0..])
    {
      AbsorbOne(RoundStripe, 16, a, input, p);
      a, p := RoundStripe(a, input[p..p + 16]), p + 16;
    }
    AbsorbNone(RoundStripe, 16, a, input, p);
  }

  /** XXH32. */
  method OneShot(input: seq<byte>, seed: bv32) returns (h: bv32)
    ensures h == Hash(input, seed)
  {
    hide RoundStripe, Merge, TailHash, Absorb, Rest, Init, AddLength, Short;
    var p;
    RestLength16(input);
    assert input[0..] == input;
    if |input| >= 16 {
      var a;
      a, p := Stripes(Init(seed), input, 0);
      h := Merge(a);
    } else {
      p, h := 0, Short(seed);
      AbsorbNone(RoundStripe, 16, Init(seed), input, 0);
    }
    h := AddLength(h, |input| % U32);
    h := Finalize(h, input[p..], |input|);
  }

  // ----- Streaming -----

  class State {
    var v: Acc
    const mem: array<byte>
    var memsize: nat
    var totalLen: nat
    var largeLen: bool

    constructor ()
      ensures fresh(mem) && mem.Length == 16
    {
      mem := new byte[16](_ => 0);
      v, memsize, totalLen, largeLen := Acc(0, 0, 0, 0), 0, 0, false;
    }

    /** The state after hashing `data`: all whole stripes absorbed, the rest buffered. */
    ghost predicate Holds(data: seq<byte>, seed: bv32)
      reads this, mem
    {
      && mem.Length == 16 && memsize < 16
      && v == Absorb(RoundStripe, 16, Init(seed), data)
      && mem[..memsize] == Rest(16, data)
      && totalLen == |data| % U32
      && largeLen == (|data| >= 16)
    }

    /** XXH32_reset. */
    method Reset(seed: bv32)
      requires mem.Length == 16
      modifies this
      ensures Holds([], seed)
    {
      hide Init;
      v, memsize, totalLen, largeLen := Init(seed), 0, 0, false;
      assert mem[..0] == [];
    }

    /** XXH32_update. */
    method Update(input: seq<byte>, ghost data: seq<byte>, ghost seed: bv32)
      requires Holds(data, seed)
      modifies this, mem
      ensures Holds(data + input, seed)
    {
      hide RoundStripe, Init, Absorb, Rest;
      ghost var pending := Rest(16, data) + input;
      AbsorbInParts(RoundStripe, 16, Init(seed), data, input);
      LengthAdds(|data|, |input|);
      totalLen := (totalLen + |input|) % U32;
      largeLen := largeLen || |input| >= 16 || totalLen >= 16;
      Feed(input, Rest(16, data));
    }

    /** The buffer, then the stripes of the input, then the buffer again. */
    method Feed(input: seq<byte>, ghost rest: seq<byte>)
      requires mem.Length == 16 && memsize < 16 && mem[..memsize] == rest
      modifies this`v, this`memsize, mem
      ensures v == Absorb(RoundStripe, 16, old(v), rest + input)
      ensures memsize < 16 && mem[..memsize] == Rest(16, rest + input)
    {
      hide RoundStripe, Absorb, Rest;
      if memsize + |input| < 16 {
        Store(input, 0, |input|);
        AbsorbNone(RoundStripe, 16, v, rest + input, 0);
        assert (rest + input)[0..] == rest + input && input[0..|input|] == input;
        return;
      }
      var p := 0;
      assert input[0..] == input;
      if memsize > 0 {
        p := 16 - memsize;
        Store(input, 0, p);
        FirstStripe(v, rest, input, p, mem[..16]);
        v := RoundStripe(v, mem[..16]);
        memsize := 0;
      } else {
        assert rest + input == input;
      }
      v, p := Stripes(v, input, p);
      assert mem[..0] == [] && input[p..p + (|input| - p)] == input[p..];
      Store(input, p, |input| - p);
    }

    /** Appends input[p..p+n] to the buffer. */
    method Store(input: seq<byte>, p: nat, n: nat)
      requires mem.Length == 16 && memsize + n <= 16 && p + n <= |input|
      modifies this`memsize, mem
      ensures memsize == old(memsize) + n && mem[..memsize] == old(mem[..memsize]) + input[p..p + n]
    {
      forall k | 0 <= k < n {
        mem[memsize + k] := input[p + k];
      }
      memsize := memsize + n;
    }

    /** XXH32_digest. */
    method Digest(ghost data: seq<byte>, ghost seed: bv32) returns (h: bv32)
      requires Holds(data, seed)
      ensures h == Hash(data, seed)
    {
      hide RoundStripe, Merge, TailHash, Absorb, Rest, Init, AddLength, Short;
      SeedStays(data, seed);
      h := if largeLen then Merge(v) else Short(v.v3);
      h := AddLength(h, totalLen);
      h := Finalize(h, mem[..memsize], memsize);
    }
  }

  /** A filled buffer is the first stripe of what was pending. */
  lemma FirstStripe(a: Acc, rest: seq<byte>, input: seq<byte>, p: nat, stripe: seq<byte>)
    requires p <= |input| && |rest| + p == 16 && stripe == rest + input[0..p]
    ensures Absorb(RoundStripe, 16, a, rest + input) == Absorb(RoundStripe, 16, RoundStripe(a, stripe), input[p..])
    ensures Rest(16, rest + input) == Rest(16, input[p..])
  {
    hide RoundStripe, Absorb, Rest;
    var pending := rest + input;
    assert pending[0..16] == stripe && pending[16..] == input[p..] && pending[0..] == pending;
    AbsorbOne(RoundStripe, 16, a, pending, 0);
  }

  /** Before the first whole stripe the third accumulator is still the seed. */
  lemma SeedStays(data: seq<byte>, seed: bv32)
    ensures |data| < 16 ==> Absorb(RoundStripe, 16, Init(seed), data).v3 == seed
  {
  }

  /** The 32-bit length counts modulo 2^32; the sticky flag is set in time all the same. */
  lemma LengthAdds(n: nat, more: nat)
    ensures (n % U32 + more) % U32 == (n + more) % U32
    ensures n + more >= 16 ==> n >= 16 || more >= 16 || (n + more) % U32 >= 16
  {
  }

  /** Any cut of the data into pieces gives the one-shot hash. */
  method HashInPieces(pieces: seq<seq<byte>>, seed: bv32) returns (h: bv32)
    ensures h == Hash(Concat(pieces), seed)
  {
    hide Hash;
    var state := new State();
    state.Reset(seed);
    for i := 0 to |pieces|
      invariant state.mem.Length == 16 && fresh(state) && fresh(state.mem)
      invariant state.Holds(Concat(pieces[..i]), seed)
    {
      ConcatOne(pieces, i);
      state.Update(pieces[i], Concat(pieces[..i]), seed);
    }
    assert pieces[..|pieces|] == pieces;
    h := state.Digest(Concat(pieces), seed);
  }
}

/** XXH64: the streaming interface gives the one-shot hash, for any cut of fewer than 2^64 bytes. */
module XxHash64 {
  import opened BlockFormat
  import opened XxStripes
  import opened Sizes

  const PRIME_1: bv64 := 11400714785074694791
  const PRIME_2: bv64 := 14029467366897019727
  const PRIME_3: bv64 := 1609587929392839161
  const PRIME_4: bv64 := 9650029242287828579
  const PRIME_5: bv64 := 2870177450012600261

  datatype Acc = Acc(v1: bv64, v2: bv64, v3: bv64, v4: bv64)

  function Rotl(x: bv64, r: nat): bv64
    requires 0 < r < 64
  {
    (x << r) | (x >> (64 - r))
  }

  function Read32(s: seq<byte>, p: nat): nat
    requires p + 4 <= |s|
  {
    s[p] as int + 0x100 * s[p + 1] as int + 0x1_0000 * s[p + 2] as int + 0x100_0000 * s[p + 3] as int
  }

  function Read64(s: seq<byte>, p: nat): bv64
    requires p + 8 <= |s|
  {
    (Read32(s, p) + 0x1_0000_0000 * Read32(s, p + 4)) as bv64
  }

  /** Multiplication by the first prime. */
  function Times1(x: bv64): bv64 {
    x * 11400714785074694791
  }

  /** Multiplication by the second prime. */
  function Times2(x: bv64): bv64 {
    x * 14029467366897019727
  }

  function Round(acc: bv64, input: bv64): bv64 {
    Times1(Rotl(acc + Times2(input), 31))
  }

  function MergeRound(acc: bv64, val: bv64): bv64 {
    (acc ^ Round(0, val)) * PRIME_1 + PRIME_4
  }

  function RoundStripe(a: Acc, s: seq<byte>): Acc {
    if |s| < 32 then a
    else Acc(Round(a.v1, Read64(s, 0)), Round(a.v2, Read64(s, 8)), Round(a.v3, Read64(s, 16)), Round(a.v4, Read64(s, 24)))
  }

  function Init(seed: bv64): Acc {
    Acc(seed + PRIME_1 + PRIME_2, seed + PRIME_2, seed, seed - PRIME_1)
  }

  function Rotations(a: Acc): bv64 {
    Rotl(a.v1, 1) + Rotl(a.v2, 7) + Rotl(a.v3, 12) + Rotl(a.v4, 18)
  }

  function Merge(a: Acc): bv64 {
    var h := Rotations(a);
    MergeRound(MergeRound(MergeRound(MergeRound(h, a.v1), a.v2), a.v3), a.v4)
  }

  function Avalanche(h: bv64): bv64 {
    var h1 := (h ^ (h >> 33)) * PRIME_2;
    var h2 := (h1 ^ (h1 >> 29)) * PRIME_3;
    h2 ^ (h2 >> 32)
  }

  function Process1(h: bv64, b: byte): bv64 {
    Rotl(h ^ ((b as bv64) * PRIME_5), 11) * PRIME_1
  }

  function Process4(h: bv64, w: nat): bv64
    requires w < 0x1_0000_0000
  {
    Rotl(h ^ ((w as bv64) * PRIME_1), 23) * PRIME_2 + PRIME_3
  }

  function Process8(h: bv64, w: bv64): bv64 {
    Rotl(h ^ Round(0, w), 27) * PRIME_1 + PRIME_4
  }

  /** The meaning of the finalize switch: eight bytes at a time, then four, then single bytes. */
  ghost function TailHash(h: bv64, s: seq<byte>, p: nat): bv64
    requires p <= |s|
    decreases |s| - p
  {
    if p + 8 <= |s| then TailHash(Process8(h, Read64(s, p)), s, p + 8)
    else if p + 4 <= |s| then TailHash(Process4(h, Read32(s, p)), s, p + 4)
    else if p < |s| then TailHash(Process1(h, s[p]), s, p + 1)
    else Avalanche(h)
  }

  function AddLength(h: bv64, n: nat): bv64
    requires n < U64
  {
    h + n as bv64
  }

  function Short(seed: bv64): bv64 {
    seed + PRIME_5
  }

  /** The hash of the whole data, seen at once. */
  ghost function Hash(data: seq<byte>, seed: bv64): bv64 {
    var h := if |data| >= 32 then Merge(Absorb(RoundStripe, 32, Init(seed), data)) else Short(seed);
    TailHash(AddLength(h, |data| % U64), Rest(32, data), 0)
  }

  // ----- Finalize -----

  datatype Op = P8 | P4 | P1

  /** The cases of the switch on len & 31, each with all that it falls through to. */
  const SWITCH: seq<seq<Op>> := [
    [],
    [P1],
    [P1, P1],
    [P1, P1, P1],
    [P4],
    [P4, P1],
    [P4, P1, P1],
    [P4, P1, P1, P1],
    [P8],
    [P8, P1],
    [P8, P1, P1],
    [P8, P1, P1, P1],
    [P8, P4],
    [P8, P4, P1],
    [P8, P4, P1, P1],
    [P8, P4, P1, P1, P1],
    [P8, P8],
    [P8, P8, P1],
    [P8, P8, P1, P1],
    [P8, P8, P1, P1, P1],
    [P8, P8, P4],
    [P8, P8, P4, P1],
    [P8, P8, P4, P1, P1],
    [P8, P8, P4, P1, P1, P1],
    [P8, P8, P8],
    [P8, P8, P8, P1],
    [P8, P8, P8, P1, P1],
    [P8, P8, P8, P1, P1, P1],
    [P8, P8, P8, P4],
    [P8, P8, P8, P4, P1],
    [P8, P8, P8, P4, P1, P1],
    [P8, P8, P8, P4, P1, P1, P1]
  ]

  /** The steps that consume `n` bytes: the widest first. */
  ghost function Steps(n: nat): seq<Op> {
    if n >= 8 then [P8] + Steps(n - 8)
    else if n >= 4 then [P4] + Steps(n - 4)
    else if n >= 1 then [P1] + Steps(n - 1)
    else []
  }

  lemma SwitchIsSteps(n: nat)
    requires n < 32
    ensures SWITCH[n] == Steps(n)
    decreases n
  {
    SwitchFalls(n);
    if n >= 8 {
      SwitchIsSteps(n - 8);
    } else if n >= 4 {
      SwitchIsSteps(n - 4);
    } else if n >= 1 {
      SwitchIsSteps(n - 1);
    }
  }

  /** Each case does its own step and falls through to a case for fewer bytes. */
  lemma SwitchFalls(n: nat)
    requires n < 32
    ensures 8 <= n ==> SWITCH[n] == [P8] + SWITCH[n - 8]
    ensures 4 <= n < 8 ==> SWITCH[n] == [P4] + SWITCH[n - 4]
    ensures 1 <= n < 4 ==> SWITCH[n] == [P1] + SWITCH[n - 1]
    ensures n == 0 ==> SWITCH[n] == []
  {
  }

  /** One step of the switch is one step of the loop. */
  lemma StepsRun(n: nat, op: Op, rest: seq<Op>)
    requires [op] + rest == Steps(n)
    ensures op.P8? ==> n >= 8 && rest == Steps(n - 8)
    ensures op.P4? ==> 4 <= n < 8 && rest == Steps(n - 4)
    ensures op.P1? ==> 1 <= n < 4 && rest == Steps(n - 1)
  {
    assert ([op] + rest)[0] == op && ([op] + rest)[1..] == rest;
    assert Steps(n)[1..] == if n >= 8 then Steps(n - 8) else if n >= 4 then Steps(n - 4) else Steps(n - 1);
  }

  method RunSteps(h0: bv64, s: seq<byte>, ops: seq<Op>) returns (h: bv64)
    requires ops == Steps(|s|)
    ensures h == TailHash(h0, s, 0)
  {
    hide Process1, Process4, Process8, Avalanche, Read64, Steps;
    h := h0;
    var p := 0;
    for i := 0 to |ops|
      invariant p <= |s| && ops[i..] == Steps(|s| - p)
      invariant TailHash(h, s, p) == TailHash(h0, s, 0)
    {
      assert ops[i..] == [ops[i]] + ops[i + 1..];
      StepsRun(|s| - p, ops[i], ops[i + 1..]);
      match ops[i]
      case P8 => h, p := Process8(h, Read64(s, p)), p + 8;
      case P4 => h, p := Process4(h, Read32(s, p)), p + 4;
      case P1 => h, p := Process1(h, s[p]), p + 1;
    }
    StepsEnd(|s| - p, ops[|ops|..]);
    h := Avalanche(h);
  }

  lemma StepsEnd(n: nat, ops: seq<Op>)
    requires ops == [] && ops == Steps(n)
    ensures n == 0
  {
  }

  method Finalize(h0: bv64, s: seq<byte>, len: nat) returns (h: bv64)
    requires |s| == len % 32
    ensures h == TailHash(h0, s, 0)
  {
    hide Steps, TailHash;
    SwitchIsSteps(len % 32);
    h := RunSteps(h0, s, SWITCH[len % 32]);
  }

  // ----- One-shot -----

  /** The stripe loop: absorbs whole stripes of `input` from `p` on. */
  method Stripes(a0: Acc, input: seq<byte>, p0: nat) returns (a: Acc, p: nat)
    requires p0 <= |input|
    ensures p0 <= p <= |input| < p + 32
    ensures a == Absorb(RoundStripe, 32, a0, input[p0..]) && input[p..] == Rest(32, input[p0..])
  {
    hide RoundStripe, Absorb, Rest;
    a, p := a0, p0;
    while p + 32 <= |input|
      invariant p0 <= p <= |input|
      invariant Absorb(RoundStripe, 32, a, input[p..]) == Absorb(RoundStripe, 32, a0, input[p0..])
      invariant Rest(32, input[p..]) == Rest(32, input[p0..])
    {
      AbsorbOne(RoundStripe, 32, a, input, p);
      a, p := RoundStripe(a, input[p..p + 32]), p + 32;
    }
    AbsorbNone(RoundStripe, 32, a, input, p);
  }

  /** XXH64. */
  method OneShot(input: seq<byte>, seed: bv64) returns (h: bv64)
    ensures h == Hash(input, seed)
  {
    hide RoundStripe, Merge, TailHash, Absorb, Rest, Init, AddLength, Short;
    var p;
    RestLength32(input);
    assert input[0..] == input;
    if |input| >= 32 {
      var a;
      a, p := Stripes(Init(seed), input, 0);
      h := Merge(a);
    } else {
      p, h := 0, Short(seed);
      AbsorbNone(RoundStripe, 32, Init(seed), input, 0);
    }
    h := AddLength(h, |input| % U64);
    h := Finalize(h, input[p..], |input|);
  }

  // ----- Streaming -----

  class State {
    var v: Acc
    const mem: array<byte>
    var memsize: nat
    var totalLen: nat

    constructor ()
      ensures fresh(mem) && mem.Length == 32
    {
      mem := new byte[32](_ => 0);
      v, memsize, totalLen := Acc(0, 0, 0, 0), 0, 0;
    }

    /** The state after hashing `data`: all whole stripes absorbed, the rest buffered. */
    ghost predicate Holds(data: seq<byte>, seed: bv64)
      reads this, mem
    {
      && mem.Length == 32 && memsize < 32
      && v == Absorb(RoundStripe, 32, Init(seed), data)
      && mem[..memsize] == Rest(32, data)
      && totalLen == |data| % U64
    }

    /** XXH64_reset. */
    method Reset(seed: bv64)
      requires mem.Length == 32
      modifies this
      ensures Holds([], seed)
    {
      hide Init;
      v, memsize, totalLen := Init(seed), 0, 0;
      assert mem[..0] == [];
    }

    /** XXH64_update. */
    method Update(input: seq<byte>, ghost data: seq<byte>, ghost seed: bv64)
      requires Holds(data, seed)
      modifies this, mem
      ensures Holds(data + input, seed)
    {
      hide RoundStripe, Init, Absorb, Rest;
      ghost var pending := Rest(32, data) + input;
      AbsorbInParts(RoundStripe, 32, Init(seed), data, input);
      LengthAdds(|data|, |input|);
      totalLen := (totalLen + |input|) % U64;
      Feed(input, Rest(32, data));
    }

    /** The buffer, then the stripes of the input, then the buffer again. */
    method Feed(input: seq<byte>, ghost rest: seq<byte>)
      requires mem.Length == 32 && memsize < 32 && mem[..memsize] == rest
      modifies this`v, this`memsize, mem
      ensures v == Absorb(RoundStripe, 32, old(v), rest + input)
      ensures memsize < 32 && mem[..memsize] == Rest(32, rest + input)
    {
      hide RoundStripe, Absorb, Rest;
      if memsize + |input| < 32 {
        Store(input, 0, |input|);
        AbsorbNone(RoundStripe, 32, v, rest + input, 0);
        assert (rest + input)[0..] == rest + input && input[0..|input|] == input;
        return;
      }
      var p := 0;
      assert input[0..] == input;
      if memsize > 0 {
        p := 32 - memsize;
        Store(input, 0, p);
        FirstStripe(v, rest, input, p, mem[..32]);
        v := RoundStripe(v, mem[..32]);
        memsize := 0;
      } else {
        assert rest + input == input;
      }
      v, p := Stripes(v, input, p);
      assert mem[..0] == [] && input[p..p + (|input| - p)] == input[p..];
      Store(input, p, |input| - p);
    }

    /** Appends input[p..p+n] to the buffer. */
    method Store(input: seq<byte>, p: nat, n: nat)
      requires mem.Length == 32 && memsize + n <= 32 && p + n <= |input|
      modifies this`memsize, mem
      ensures memsize == old(memsize) + n && mem[..memsize] == old(mem[..memsize]) + input[p..p + n]
    {
      forall k | 0 <= k < n {
        mem[memsize + k] := input[p + k];
      }
      memsize := memsize + n;
    }

    /** XXH64_digest. */
    method Digest(ghost data: seq<byte>, ghost seed: bv64) returns (h: bv64)
      requires Holds(data, seed) && |data| < U64
      ensures h == Hash(data, seed)
    {
      hide RoundStripe, Merge, TailHash, Absorb, Rest, Init, AddLength, Short;
      SeedStays(data, seed);
      RestLength32(data);
      h := if totalLen >= 32 then Merge(v) else Short(v.v3);
      h := AddLength(h, totalLen);
      h := Finalize(h, mem[..memsize], totalLen);
    }
  }

  /** A filled buffer is the first stripe of what was pending. */
  lemma FirstStripe(a: Acc, rest: seq<byte>, input: seq<byte>, p: nat, stripe: seq<byte>)
    requires p <= |input| && |rest| + p == 32 && stripe == rest + input[0..p]
    ensures Absorb(RoundStripe, 32, a, rest + input) == Absorb(RoundStripe, 32, RoundStripe(a, stripe), input[p..])
    ensures Rest(32, rest + input) == Rest(32, input[p..])
  {
    hide RoundStripe, Absorb, Rest;
    var pending := rest + input;
    assert pending[0..32] == stripe && pending[32..] == input[p..] && pending[0..] == pending;
    AbsorbOne(RoundStripe, 32, a, pending, 0);
  }

  /** Before the first whole stripe the third accumulator is still the seed. */
  lemma SeedStays(data: seq<byte>, seed: bv64)
    ensures |data| < 32 ==> Absorb(RoundStripe, 32, Init(seed), data).v3 == seed
  {
  }

  lemma LengthAdds(n: nat, more: nat)
    ensures (n % U64 + more) % U64 == (n + more) % U64
  {
  }

  /** Any cut of the data into pieces gives the one-shot hash. */
  method HashInPieces(pieces: seq<seq<byte>>, seed: bv64) returns (h: bv64)
    requires |Concat(pieces)| < U64
    ensures h == Hash(Concat(pieces), seed)
  {
    hide Hash;
    var state := new State();
    state.Reset(seed);
    for i := 0 to |pieces|
      invariant state.mem.Length == 32 && fresh(state) && fresh(state.mem)
      invariant state.Holds(Concat(pieces[..i]), seed)
    {
      ConcatOne(pieces, i);
      state.Update(pieces[i], Concat(pieces[..i]), seed);
    }
    assert pieces[..|pieces|] == pieces;
    h := state.Digest(Concat(pieces), seed);
  }
}
