/**
  LZ4_compress_generic (lz4.c), for the directives noDict and withPrefix64k, the
  table types byU16 and byU32, and all three output directives. The input is
  data[start..]; what precedes it is the prefix. The hash function is arbitrary.
*/
module FastCompressor {
  import opened BlockFormat
  import opened Memory
  import opened Matching
  import opened Encoding
  import opened Sizes

  const MIN_LENGTH := 13
  const LIMIT_64K := 0x1_0000 + 11
  const TABLE_SIZE := 8192

  datatype TableType = ClearedTable | ByU32 | ByU16
  datatype DictIssue = NoDictIssue | DictSmall

  /** The directives and the fixed part of the state of one call. */
  datatype Call = Call(r: Run, table: array<nat>, hash: seq<byte> -> nat, tableType: TableType, startIndex: nat,
                       dictSize: nat, prefix: bool, dictIssue: DictIssue, acceleration: nat) {

    /** lowLimit: the first position a match may start at. */
    function Low(): int {
      if prefix then r.start - dictSize else r.start
    }

    /** The table index of a position: what `p - base` is in C. */
    function Index(p: int): int {
      p - r.start + startIndex
    }

    function Position(idx: int): int {
      idx - startIndex + r.start
    }

    function Slots(): nat {
      if tableType.ByU16? then 8192 else 4096
    }

    /** LZ4_hashPosition: of the 4 bytes at `p` for byU16, of the 8 bytes at `p` for byU32. */
    function Slot(p: nat): nat
      requires p + 8 <= |r.data|
    {
      hash(if tableType.ByU16? then r.data[p..p + 4] else r.data[p..p + 8]) % Slots()
    }

    ghost predicate Valid() {
      && r.Valid() && table.Length == TABLE_SIZE && !tableType.ClearedTable? && acceleration >= 1
      && (if prefix then dictSize <= r.start else dictIssue.DictSmall? ==> dictSize == 0)
      && (dictIssue.DictSmall? ==> dictSize <= startIndex)
      && (if tableType.ByU16? then startIndex + (|r.data| - r.start) <= 0xFFFF + 11
          else startIndex + (|r.data| - r.start) < 0x1_0000_0000)
      && (r.limit.FillOutput? ==> startIndex == 0)
    }

    /** An index the compressor either may use or is sure to reject. */
    ghost predicate Acceptable(e: nat) {
      || e >= Index(Low())
      || dictIssue.DictSmall?
      || (tableType.ByU32? && e + MAX_DISTANCE < startIndex)
    }

    /** A slot holds nothing, or a position that hashes to it. Needed where positions are removed again. */
    ghost predicate Consistent(h: nat, e: nat) {
      e == 0 || (0 <= Position(e) && Position(e) + 8 <= |r.data| && Slot(Position(e)) == h)
    }

    /** No entry of the table is at or beyond position `top`. */
    ghost predicate TableOk(top: int)
      requires table.Length == TABLE_SIZE
      reads table
    {
      forall h :: 0 <= h < Slots() ==>
        && (table[h] == 0 || table[h] < Index(top)) && Acceptable(table[h])
        && (r.limit.FillOutput? ==> Consistent(h, table[h]))
    }

    /** All other entries are left alone. */
    ghost predicate OthersKept(was: seq<nat>)
      requires table.Length == TABLE_SIZE == |was|
      reads table
    {
      forall h :: Slots() <= h < TABLE_SIZE ==> table[h] == was[h]
    }
  }

  // ----- The table -----

  lemma SlotInTable(c: Call, p: nat)
    requires p + 8 <= |c.r.data|
    ensures 0 <= c.Slot(p) < c.Slots() <= TABLE_SIZE
  {
  }

  /** LZ4_putIndexOnHash, in the width of the table. */
  method Put(c: Call, p: nat, h: nat, ghost top: int)
    requires c.Valid() && c.TableOk(top) && c.r.start <= p && p + 11 <= |c.r.data| && h == c.Slot(p)
    modifies c.table
    ensures c.TableOk(if top > p then top else p + 1) && c.OthersKept(old(c.table[..]))
    ensures c.table[..] == old(c.table[..])[h := c.Index(p)]
  {
    hide Call.Slot;
    SlotInTable(c, p);
    var idx := c.Index(p);
    c.table[h] := if c.tableType.ByU16? then idx % 0x1_0000 else idx % 0x1_0000_0000;
  }

  /** LZ4_clearHash for every position of [ip, filledIp]: nothing at or beyond `ip` stays in the table. */
  method ClearPositions(c: Call, ip: nat, filledIp: nat)
    requires c.Valid() && c.TableOk(filledIp + 1) && c.r.limit.FillOutput?
    requires c.r.start <= ip <= filledIp && filledIp + 11 <= |c.r.data|
    modifies c.table
    ensures c.TableOk(ip) && c.OthersKept(old(c.table[..]))
  {
    hide Call.Slot;
    var ptr := ip;
    while ptr <= filledIp
      invariant ip <= ptr <= filledIp + 1
      invariant c.TableOk(filledIp + 1) && c.OthersKept(old(c.table[..]))
      invariant forall h, q :: 0 <= h < c.Slots() && ip <= q < ptr ==> c.table[h] == 0 || c.table[h] != c.Index(q)
    {
      var h := c.Slot(ptr);
      SlotInTable(c, ptr);
      c.table[h] := 0;
      ptr := ptr + 1;
    }
    assert forall h :: 0 <= h < c.Slots() && c.table[h] != 0 ==> c.table[h] != c.Index(c.Position(c.table[h])) || c.Position(c.table[h]) < ip;
  }

  // ----- Finding a match -----

  /** Whether a table entry may be used at `current`: not before the valid area, and not too far. */
  predicate Usable16or32(c: Call, matchIndex: nat, current: int) {
    && !(c.dictIssue.DictSmall? && matchIndex < c.startIndex - c.dictSize)
    && (c.tableType.ByU16? || matchIndex + MAX_DISTANCE >= current)
  }

  /** What the index checks let through is an earlier position within reach. */
  lemma CandidateInReach(c: Call, ip: nat, e: nat)
    requires c.Valid() && c.Acceptable(e) && (e == 0 || e < c.Index(ip))
    requires c.r.start < ip && ip + MF_LIMIT <= |c.r.data| && Usable16or32(c, e, c.Index(ip))
    ensures c.Low() <= c.Position(e) < ip && ip - c.Position(e) <= MAX_DISTANCE && c.Low() >= 0
  {
  }

  /** The table offers a match at `ip` with the entry `e`: it may be used, and four bytes agree. */
  ghost predicate Offers(c: Call, ip: nat, e: int) {
    && e >= 0 && Usable16or32(c, e, c.Index(ip)) && 0 <= c.Position(e) && c.Position(e) + MIN_MATCH <= |c.r.data| && ip + MIN_MATCH <= |c.r.data|
    && SameWord(c.r.data, ip, c.Position(e), MIN_MATCH)
  }

  lemma TopGrows(c: Call, top: int, top': int)
    requires c.table.Length == TABLE_SIZE && c.TableOk(top) && top <= top'
    ensures c.TableOk(top')
  {
  }

  /** How far it is from the `k`-th position that is tried to the next: one byte, then as many as the acceleration says, and one more every 64 turns. */
  function StepAfter(acceleration: nat, k: nat): nat {
    if k == 0 then 1 else (acceleration * 64 + k - 1) / 64
  }

  /** The `k`-th position that is tried from `ip0` on. */
  function Probe(acceleration: nat, ip0: nat, k: nat): (ip: nat)
    ensures ip >= ip0
  {
    if k == 0 then ip0 else Probe(acceleration, ip0, k - 1) + StepAfter(acceleration, k - 1)
  }

  /** The table when `k` positions have been tried: each has taken its slot. */
  ghost function TableAfter(c: Call, t: seq<nat>, ip0: nat, k: nat): (u: seq<int>)
    requires |t| == TABLE_SIZE && (k > 0 ==> Probe(c.acceleration, ip0, k - 1) + 8 <= |c.r.data|)
    ensures |u| == TABLE_SIZE
  {
    if k == 0 then t else
      var p := Probe(c.acceleration, ip0, k - 1);
      ProbesGrow(c.acceleration, ip0, k);
      SlotInTable(c, p);
      TableAfter(c, t, ip0, k - 1)[c.Slot(p) := c.Index(p)]
  }

  lemma ProbesGrow(acceleration: nat, ip0: nat, k: nat)
    ensures k > 0 ==> Probe(acceleration, ip0, k - 1) <= Probe(acceleration, ip0, k)
    ensures k > 1 ==> Probe(acceleration, ip0, k - 2) <= Probe(acceleration, ip0, k - 1)
  {
  }

  /** The table offers a match when the `k`-th position is tried. */
  ghost predicate OffersAt(c: Call, t: seq<nat>, ip0: nat, k: nat)
    requires |t| == TABLE_SIZE
  {
    Probe(c.acceleration, ip0, k) + 8 <= |c.r.data| &&
    (ProbesGrow(c.acceleration, ip0, k);
     SlotInTable(c, Probe(c.acceleration, ip0, k));
     Offers(c, Probe(c.acceleration, ip0, k), TableAfter(c, t, ip0, k)[c.Slot(Probe(c.acceleration, ip0, k))]))
  }

  /** The match that is found: at the first of the positions tried where the table offers one. */
  ghost predicate FirstOffer(c: Call, t: seq<nat>, ip0: nat, k: nat, ip: nat, m: nat)
    requires |t| == TABLE_SIZE
  {
    && ip == Probe(c.acceleration, ip0, k) && OffersAt(c, t, ip0, k)
    && (ProbesGrow(c.acceleration, ip0, k);
        SlotInTable(c, ip);
        m == c.Position(TableAfter(c, t, ip0, k)[c.Slot(ip)]))
    && forall j :: 0 <= j < k ==> !OffersAt(c, t, ip0, j)
  }

  /** No match: the next position to be tried is too near to the end, and nothing was offered at any before the last. */
  ghost predicate NoOffer(c: Call, t: seq<nat>, ip0: nat, k: nat)
    requires |t| == TABLE_SIZE
  {
    Probe(c.acceleration, ip0, k + 1) + 11 > |c.r.data| && forall j :: 0 <= j < k ==> !OffersAt(c, t, ip0, j)
  }

  /**
    The search loop: ever larger steps forward until four bytes agree, or too
    few bytes are left. It ends at the first position it tries where the table
    offers a match.
  */
  method FindMatch(c: Call, ip0: nat) returns (found: bool, ip: nat, m: nat, ghost k: nat)
    requires c.Valid() && c.TableOk(ip0) && c.r.start < ip0 && ip0 + 11 <= |c.r.data|
    modifies c.table
    ensures c.OthersKept(old(c.table[..]))
    ensures found ==> ip0 <= ip && ip + MF_LIMIT <= |c.r.data| && c.TableOk(ip + 1)
    ensures found ==> c.Low() <= m && IsMatch(c.r.data, ip, m, MIN_MATCH)
    ensures !found ==> c.TableOk(|c.r.data|)
    ensures if found then FirstOffer(c, old(c.table[..]), ip0, k, ip, m) else NoOffer(c, old(c.table[..]), ip0, k)
  {
    hide Call.Slot, Call.Acceptable, Call.Consistent, Call.TableOk, Offers, OffersAt, Probe, TableAfter;
    var forwardIp, step, searchMatchNb := ip0, 1, c.acceleration * 64;
    var forwardH := c.Slot(forwardIp);
    k := 0;
    ghost var t := c.table[..];
    ProbeNone(c, t, ip0);
    while true
      invariant ip0 <= forwardIp && forwardIp + 11 <= |c.r.data|
      invariant step >= 1 && searchMatchNb >= 64 && forwardH == c.Slot(forwardIp)
      invariant c.TableOk(forwardIp) && c.OthersKept(old(c.table[..]))
      invariant forwardIp == Probe(c.acceleration, ip0, k) && searchMatchNb == c.acceleration * 64 + k && step == StepAfter(c.acceleration, k)
      invariant (k > 0 ==> Probe(c.acceleration, ip0, k - 1) + 8 <= |c.r.data|) && c.table[..] == TableAfter(c, t, ip0, k)
      invariant forall j :: 0 <= j < k ==> !OffersAt(c, t, ip0, j)
      decreases |c.r.data| - forwardIp
    {
      var h := forwardH;
      SlotInTable(c, forwardIp);
      var matchIndex := c.table[h];
      EntryAt(c, h, forwardIp);
      ip := forwardIp;
      forwardIp := forwardIp + step;
      step, searchMatchNb := searchMatchNb / 64, searchMatchNb + 1;
      ProbeNext(c, t, ip0, k);
      if forwardIp + 11 > |c.r.data| {
        TopGrows(c, ip, |c.r.data|);
        return false, ip, 0, k;
      }
      forwardH := c.Slot(forwardIp);
      Put(c, ip, h, ip);
      found, m := TryEntry(c, ip, matchIndex);
      if found {
        return;
      }
      TopGrows(c, ip + 1, forwardIp);
      k := k + 1;
    }
  }

  /** The entry `e` for the position `ip`: whether it is a match, and where. */
  method TryEntry(c: Call, ip: nat, e: nat) returns (hit: bool, m: nat)
    requires c.Valid() && c.Acceptable(e) && (e == 0 || e < c.Index(ip)) && c.r.start < ip && ip + MF_LIMIT <= |c.r.data|
    ensures hit == Offers(c, ip, e)
    ensures hit ==> c.Low() <= m && m == c.Position(e) && IsMatch(c.r.data, ip, m, MIN_MATCH)
  {
    hit, m := false, 0;
    if Usable16or32(c, e, c.Index(ip)) {
      CandidateInReach(c, ip, e);
      m := c.Position(e);
      hit := SameWord(c.r.data, ip, m, MIN_MATCH);
      SameWordRepeats(c.r.data, ip, m, MIN_MATCH);
    }
  }

  lemma ProbeNone(c: Call, t: seq<nat>, ip0: nat)
    requires |t| == TABLE_SIZE
    ensures Probe(c.acceleration, ip0, 0) == ip0 && TableAfter(c, t, ip0, 0) == t
  {
  }

  /** One turn of the search. */
  lemma ProbeNext(c: Call, t: seq<nat>, ip0: nat, k: nat)
    requires |t| == TABLE_SIZE && (k > 0 ==> Probe(c.acceleration, ip0, k - 1) + 8 <= |c.r.data|)
    requires Probe(c.acceleration, ip0, k) + 8 <= |c.r.data|
    ensures var p := Probe(c.acceleration, ip0, k);
      && Probe(c.acceleration, ip0, k + 1) == p + StepAfter(c.acceleration, k)
      && c.Slot(p) < TABLE_SIZE && TableAfter(c, t, ip0, k + 1) == TableAfter(c, t, ip0, k)[c.Slot(p) := c.Index(p)]
      && (OffersAt(c, t, ip0, k) <==> Offers(c, p, TableAfter(c, t, ip0, k)[c.Slot(p)]))
  {
    hide Offers, Call.Slot;
    SlotInTable(c, Probe(c.acceleration, ip0, k));
  }

  /** Catch up: the match grows backwards over pending literals. */
  method CatchUp(c: Call, ip0: nat, m0: nat, anchor: nat) returns (ip: nat, m: nat)
    requires 0 <= c.Low() <= m0 && anchor <= ip0 && IsMatch(c.r.data, ip0, m0, MIN_MATCH)
    ensures anchor <= ip <= ip0 && c.Low() <= m && ip - m == ip0 - m0
    ensures IsMatch(c.r.data, ip, m, MIN_MATCH + (ip0 - ip))
    ensures ip > anchor && m > c.Low() ==> c.r.data[ip - 1] != c.r.data[m - 1]
  {
    ip, m := ip0, m0;
    while ip > anchor && m > c.Low() && c.r.data[ip - 1] == c.r.data[m - 1]
      invariant anchor <= ip <= ip0 && c.Low() <= m && ip - m == ip0 - m0
      invariant IsMatch(c.r.data, ip, m, MIN_MATCH + (ip0 - ip))
    {
      ip, m := ip - 1, m - 1;
    }
  }

  // ----- Where the compressor stands -----

  /**
    The labels of the C function: searching from `ip`; _next_match, with the
    token at `token` and the literals up to `ip` written; _last_literals; or
    given up. `filledIp` is the last position the search has put in the table.
  */
  datatype Point =
    | Search(ip: nat, op: nat)
    | Next(ip: nat, m: nat, token: nat, op: nat, filledIp: nat)
    | Last(op: nat)
    | GivenUp

  /** The complete sequences written so far. A block cut short here still ends as the format demands. */
  ghost predicate Written(r: Run, op: nat, anchor: nat, slack: nat)
    reads r.dst
  {
    && r.Valid() && op <= r.dst.Length && r.start <= anchor && Budget(r, op, anchor)
    && EncodedWithin(r.data, r.start, r.dst[..op], anchor, slack)
    && LAST_LITERALS <= slack <= MF_LIMIT - MIN_MATCH
    && (r.limit.LimitedOutput? && op > 0 ==> op + 1 + LAST_LITERALS <= r.oend)
    && (r.limit.FillOutput? ==> r.oend >= 1 && (op > 0 ==> op + slack + 1 <= r.oend))
  }

  /** A token and literals follow the complete sequences. */
  ghost predicate Pending(r: Run, token: nat, op: nat, anchor: nat, ip: nat)
    reads r.dst
  {
    && anchor <= ip <= |r.data| && token < op <= r.dst.Length
    && op == token + 1 + ExtSize(ip - anchor) + (ip - anchor)
    && r.dst[..op] == r.dst[..token] + ([16 * Nibble(ip - anchor)] + Extension(ip - anchor) + r.data[anchor..ip])
    && (!r.limit.NotLimited? ==> op + 2 <= r.oend)
  }

  /** In fillOutput mode, a match this near to the end of the output is dropped. */
  predicate TooNear(r: Run, op: nat) {
    r.limit.FillOutput? && op + 2 + 1 + MF_LIMIT - MIN_MATCH > r.oend
  }

  /** The match found at `filledIp` still covers it after catching up, unless the output is too full to write it. */
  ghost predicate MatchHeld(r: Run, op: nat, ip: nat, m: nat, filledIp: nat) {
    && ip + MF_LIMIT <= |r.data| && filledIp + MF_LIMIT <= |r.data|
    && IsMatch(r.data, ip, m, MIN_MATCH)
    && (filledIp <= ip || IsMatch(r.data, ip, m, MIN_MATCH + (filledIp - ip)) || TooNear(r, op))
  }

  ghost predicate PointOk(c: Call, anchor: nat, slack: nat, p: Point)
    requires c.Valid()
    reads c.r.dst, c.table
  {
    match p
    case Search(ip, op) =>
      && c.r.start < ip && anchor <= ip && ip + 11 <= |c.r.data| && c.TableOk(ip)
      && Written(c.r, op, anchor, slack)
    case Next(ip, m, token, op, filledIp) =>
      && Written(c.r, token, anchor, slack) && Pending(c.r, token, op, anchor, ip)
      && MatchHeld(c.r, op, ip, m, filledIp)
      && c.TableOk(Max(filledIp, ip) + 1)
    case Last(op) => Written(c.r, op, anchor, slack) && c.TableOk(|c.r.data|)
    case GivenUp => c.r.limit.LimitedOutput? && c.r.oend < CompressBound(|c.r.data| - c.r.start) && c.TableOk(|c.r.data|)
  }

  // ----- Literals -----

  /** Search, catch-up and literals: from a search to _next_match, or to the end. */
  method FindAndPutLiterals(c: Call, ip0: nat, op: nat, anchor: nat, ghost slack: nat) returns (p: Point)
    requires c.Valid() && PointOk(c, anchor, slack, Search(ip0, op))
    modifies c.r.dst, c.table
    ensures PointOk(c, anchor, slack, p) && !p.Search? && c.OthersKept(old(c.table[..]))
    ensures RunCall(c) && |c.r.data| >= MIN_LENGTH && old(RunPoint(c, anchor, Search(ip0, op))) ==> RunPoint(c, anchor, p)
  {
    ghost var easy := RunCall(c) && |c.r.data| >= MIN_LENGTH && RunPoint(c, anchor, Search(ip0, op));
    if easy { RunOffers(c, c.table[..]); }
    hide RunCall, Offers;
    hide Call.Slot, Call.Acceptable, Call.Consistent, EncodedWithin, Budget, CompressBound, Call.TableOk;
    assert easy ==> !c.r.limit.FillOutput? && (c.r.limit.LimitedOutput? ==> c.r.oend >= 10) by { RunHasRoom(c); }
    ghost var t := c.table[..];
    var found, filledIp, m;
    ghost var k;
    found, filledIp, m, k := FindMatch(c, ip0);
    if easy { AtOnce(c, t, ip0, k, found, filledIp, m); }
    if !found {
      return Last(op);
    }
    LowIsPosition(c);
    var ip, m' := CatchUp(c, filledIp, m, anchor);
    TopGrows(c, filledIp + 1, |c.r.data|);
    p := PutPending(c.r, op, anchor, slack, ip, m', filledIp);
  }

  /** What is offered at the first position is found there. */
  lemma AtOnce(c: Call, t: seq<nat>, ip0: nat, k: nat, found: bool, ip: nat, m: nat)
    requires |t| == TABLE_SIZE && ip0 + MF_LIMIT <= |c.r.data| && c.Slot(ip0) < TABLE_SIZE && Offers(c, ip0, t[c.Slot(ip0)])
    requires if found then FirstOffer(c, t, ip0, k, ip, m) else NoOffer(c, t, ip0, k)
    ensures found && ip == ip0 && m == c.Position(t[c.Slot(ip0)])
  {
    hide Offers, Call.Slot;
    ProbeNone(c, t, ip0);
    ProbeNext(c, t, ip0, 0);
  }

  lemma RunHasRoom(c: Call)
    ensures RunCall(c) ==> !c.r.limit.FillOutput? && (c.r.limit.LimitedOutput? ==> c.r.oend >= 10)
  {
  }

  lemma LowIsPosition(c: Call)
    requires c.Valid()
    ensures 0 <= c.Low()
  {
  }

  /** The output checks made before the literals, and the literals. */
  method PutPending(r: Run, op: nat, anchor: nat, ghost slack: nat, ip: nat, m: nat, filledIp: nat) returns (p: Point)
    requires Written(r, op, anchor, slack) && anchor <= ip <= filledIp && filledIp + MF_LIMIT <= |r.data|
    requires IsMatch(r.data, ip, m, MIN_MATCH + (filledIp - ip))
    modifies r.dst
    ensures p.GivenUp? || p.Last? || p.Next?
    ensures p.GivenUp? ==> r.limit.LimitedOutput? && r.oend < CompressBound(|r.data| - r.start)
    ensures p.GivenUp? ==> r.oend < op + 1 + (ip - anchor) / 255 + (ip - anchor) + 8
    ensures p.Last? ==> p.op == op && Written(r, op, anchor, slack) && r.limit.FillOutput?
    ensures p.Next? ==> p.m == m && p.token == op && p.op == op + 1 + ExtSize(ip - anchor) + (ip - anchor)
    ensures p.Next? ==> p.ip == ip && p.filledIp == filledIp
                        && Written(r, p.token, anchor, slack) && Pending(r, p.token, p.op, anchor, p.ip)
                        && MatchHeld(r, p.op, p.ip, p.m, p.filledIp)
  {
    hide EncodedWithin, Budget, CompressBound, Extension, ExtSize, Nibble;
    var litLength := ip - anchor;
    LiteralRoom(r, op, anchor, ip);
    if r.limit.LimitedOutput? && op + 1 + litLength + (2 + 1 + LAST_LITERALS) + litLength / 255 > r.oend {
      return GivenUp;
    }
    if r.limit.FillOutput? && op + 1 + (litLength + 240) / 255 + litLength + 2 + 1 + MF_LIMIT - MIN_MATCH > r.oend {
      return Last(op);
    }
    ExtSmall(litLength);
    ghost var was := r.dst[..op];
    var op' := PutLiterals(r, op, anchor, ip);
    assert r.dst[..op] == was;
    p := Next(ip, m, op, op', filledIp);
  }

  // ----- The match -----

  /** The count from the fifth byte on covers every byte the match is known to have. */
  lemma CountCovers(data: seq<byte>, ip: nat, m: nat, known: nat, limit: nat, more: nat)
    requires m < ip && IsMatch(data, ip, m, MIN_MATCH + known) && ip + MIN_MATCH + known <= limit <= |data|
    requires CommonLength(data, ip + MIN_MATCH, m + MIN_MATCH, limit, more)
    ensures more >= known && IsMatch(data, ip, m, MIN_MATCH + more)
  {
  }

  /** The match code that still fits when a match is shortened to the budget. */
  function ReducedCode(room: nat): nat
    requires room >= 1 + LAST_LITERALS
  {
    14 + (room - 1 - LAST_LITERALS) * 255
  }

  lemma ReducedFits(room: nat, matchCode: nat)
    requires room >= 9 && 1 + LAST_LITERALS + (matchCode + 240) / 255 > room
    ensures 15 <= ReducedCode(room) < matchCode
    ensures 1 + LAST_LITERALS + (ReducedCode(room) + 240) / 255 == room
  {
  }

  /**
    The match length at `ip`, with the offset written at `op`. In limitedOutput mode
    a match that does not fit ends the attempt; in fillOutput mode it is
    shortened, and positions beyond its new end leave the table.
  */
  method MeasureMatch(c: Call, op: nat, ip: nat, m: nat, filledIp: nat) returns (fits: bool, matchCode: nat)
    requires c.Valid() && c.r.start <= ip && m < ip
    requires MatchHeld(c.r, op, ip, m, filledIp) && !TooNear(c.r, op)
    requires c.TableOk(Max(filledIp, ip) + 1)
    modifies c.table
    ensures c.OthersKept(old(c.table[..]))
    ensures !fits ==> c.r.limit.LimitedOutput? && c.TableOk(|c.r.data|)
    ensures !fits ==> Usable(c.r.data, ip, ip - m, MIN_MATCH + matchCode)
                      && op + 2 + 1 + LAST_LITERALS + (matchCode + 240) / 255 > c.r.oend
    ensures fits ==> Usable(c.r.data, ip, ip - m, MIN_MATCH + matchCode) && c.TableOk(ip + MIN_MATCH + matchCode)
    ensures !c.r.limit.FillOutput? ==>
      ip + MIN_MATCH <= |c.r.data| - 5 && CommonLength(c.r.data, ip + MIN_MATCH, m + MIN_MATCH, |c.r.data| - 5, matchCode)
    ensures fits && !c.r.limit.NotLimited? ==> op + 2 + 1 + LAST_LITERALS + (matchCode + 240) / 255 <= c.r.oend
    ensures fits ==> filledIp < ip + MIN_MATCH + matchCode
                     || (c.r.limit.FillOutput? && op + 2 + 1 + LAST_LITERALS + (matchCode + 240) / 255 == c.r.oend)
  {
    hide Call.Slot, Call.Acceptable, Call.Consistent, Call.TableOk, ReducedCode;
    var matchlimit := |c.r.data| - LAST_LITERALS;
    matchCode := Count(c.r.data, ip + MIN_MATCH, m + MIN_MATCH, matchlimit);
    CountCovers(c.r.data, ip, m, if filledIp > ip then filledIp - ip else 0, matchlimit, matchCode);
    fits := true;
    if !c.r.limit.NotLimited? && op + 2 + 1 + LAST_LITERALS + (matchCode + 240) / 255 > c.r.oend {
      if c.r.limit.LimitedOutput? {
        TopGrows(c, Max(filledIp, ip) + 1, |c.r.data|);
        fits := false;
        return;
      }
      ReducedFits(c.r.oend - op - 2, matchCode);
      matchCode := ReducedCode(c.r.oend - op - 2);
      if ip + MIN_MATCH + matchCode <= filledIp {
        ClearPositions(c, ip + MIN_MATCH + matchCode, filledIp);
        return;
      }
    }
    TopGrows(c, Max(filledIp, ip) + 1, ip + MIN_MATCH + matchCode);
  }

  lemma HeldBounds(r: Run, op: nat, ip: nat, m: nat, filledIp: nat)
    requires MatchHeld(r, op, ip, m, filledIp)
    ensures ip + MF_LIMIT <= |r.data| && filledIp + MF_LIMIT <= |r.data| && m < ip && ip - m <= MAX_DISTANCE
  {
  }

  lemma PendingRoom(r: Run, token: nat, op: nat, anchor: nat, slack: nat, ip: nat)
    requires Written(r, token, anchor, slack) && Pending(r, token, op, anchor, ip) && ip + MF_LIMIT <= |r.data|
    ensures op + 2 <= r.dst.Length
  {
    LiteralRoom(r, token, anchor, ip);
    ExtSmall(ip - anchor);
  }

  /** The match at `p` has exactly this length, less 4, up to the last literals. */
  ghost predicate HasLength(c: Call, p: Point, ml: nat) {
    && p.Next? && p.m < p.ip && p.ip + MIN_MATCH <= |c.r.data| - 5
    && CommonLength(c.r.data, p.ip + MIN_MATCH, p.m + MIN_MATCH, |c.r.data| - 5, ml)
  }

  /** The match is written in its whole length, which only fillOutput may cut; or it does not fit. */
  ghost predicate WholeMatch(c: Call, p: Point, stop: bool, q: Point, op: nat, anchor': nat)
    requires p.Next?
  {
    if stop then
      c.r.limit.FillOutput? || (q.GivenUp? && c.r.limit.LimitedOutput? && exists ml: nat ::
        HasLength(c, p, ml) && p.op + 2 + 1 + LAST_LITERALS + (ml + 240) / 255 > c.r.oend)
    else
      var ml := anchor' - p.ip - MIN_MATCH;
      ml >= 0 && op == p.op + 2 + ExtSize(ml) && (c.r.limit.FillOutput? || HasLength(c, p, ml))
  }

  lemma MatchStops(c: Call, p: Point, q: Point, op: nat, anchor: nat, ml: nat)
    requires p.Next?
    requires c.r.limit.FillOutput? ||
             (HasLength(c, p, ml) && q.GivenUp? && c.r.limit.LimitedOutput? && p.op + 2 + 1 + LAST_LITERALS + (ml + 240) / 255 > c.r.oend)
    ensures WholeMatch(c, p, true, q, op, anchor)
  {
  }

  lemma MatchIsWhole(c: Call, p: Point, q: Point, op: nat, ml: nat)
    requires p.Next? && op == p.op + 2 + ExtSize(ml) && (c.r.limit.FillOutput? || HasLength(c, p, ml))
    ensures WholeMatch(c, p, false, q, op, p.ip + MIN_MATCH + ml)
  {
  }

  /** Offset and match length, at _next_match. Completes the sequence, unless the compressor stops here. */
  method EncodeMatch(c: Call, anchor: nat, ghost slack: nat, p: Point)
    returns (stop: bool, q: Point, op: nat, anchor': nat, ghost slack': nat)
    requires c.Valid() && p.Next? && PointOk(c, anchor, slack, p)
    modifies c.r.dst, c.table
    ensures c.OthersKept(old(c.table[..]))
    ensures stop ==> (q.Last? || q.GivenUp?) && anchor' == anchor && slack' == slack && PointOk(c, anchor, slack, q)
    ensures !stop ==> anchor < anchor' && p.ip + 4 <= anchor' && anchor' + LAST_LITERALS <= |c.r.data|
    ensures !stop ==> Written(c.r, op, anchor', slack') && c.TableOk(anchor') && op > 0 && c.r.start + 4 <= anchor'
    ensures !stop ==> p.filledIp < anchor' || TooNear(c.r, op + 1)
    ensures WholeMatch(c, p, stop, q, op, anchor')
  {
    hide Call.Slot, Call.Acceptable, Call.Consistent, Call.TableOk, EncodedWithin, Budget, CompressBound,
      Extension, ExtSize, Nibble, MatchHeld, LengthBytes, SequenceBytes, Usable, WholeMatch;
    var Next(ip, m, token, op1, filledIp) := p;
    stop, q, op, anchor', slack' := true, Last(token), op1, anchor, slack;
    HeldBounds(c.r, op1, ip, m, filledIp);
    if TooNear(c.r, op1) {
      TopGrows(c, Max(filledIp, ip) + 1, |c.r.data|);
      MatchStops(c, p, q, op, anchor', 0);
      return;
    }
    var fits, matchCode := MeasureMatch(c, op1, ip, m, filledIp);
    UsableBounds(c.r.data, ip, ip - m, MIN_MATCH + matchCode);
    if !fits {
      MatchRoom(c.r, token, anchor, ip, MIN_MATCH + matchCode);
      ExtSmall(matchCode);
      q := GivenUp;
      MatchStops(c, p, q, op, anchor', matchCode);
      return;
    }
    stop := false;
    anchor' := ip + MIN_MATCH + matchCode;
    op, slack' := PutMatch(c.r, token, op1, anchor, slack, ip, m, matchCode);
    ExtSmall(matchCode);
    MatchIsWhole(c, p, q, op, matchCode);
  }

  lemma UsableBounds(data: seq<byte>, s: int, off: int, mlen: int)
    requires Usable(data, s, off, mlen)
    ensures mlen >= MIN_MATCH && s + MF_LIMIT <= |data| && s + mlen + LAST_LITERALS <= |data|
    ensures s - off < s && off <= MAX_DISTANCE && s - off >= 0
  {
  }

  /** Offset and match length in the output, after a token and literals. */
  method PutMatch(r: Run, token: nat, op1: nat, anchor: nat, ghost slack: nat, ip: nat, m: nat, matchCode: nat)
    returns (op: nat, ghost slack': nat)
    requires Written(r, token, anchor, slack) && Pending(r, token, op1, anchor, ip) && m < ip
    requires Usable(r.data, ip, ip - m, MIN_MATCH + matchCode) && !TooNear(r, op1)
    requires !r.limit.NotLimited? ==> op1 + 2 + 1 + LAST_LITERALS + (matchCode + 240) / 255 <= r.oend
    modifies r.dst
    ensures Written(r, op, ip + MIN_MATCH + matchCode, slack') && op == op1 + 2 + ExtSize(matchCode)
  {
    hide EncodedWithin, Budget, CompressBound, Extension, ExtSize, Nibble, LengthBytes, SequenceBytes, Usable;
    UsableBounds(r.data, ip, ip - m, MIN_MATCH + matchCode);
    PendingRoom(r, token, op1, anchor, slack, ip);
    MatchRoom(r, token, anchor, ip, MIN_MATCH + matchCode);
    ExtSmall(matchCode);
    ghost var pre := r.dst[..token];
    ghost var off := [(ip - m) % 256, (ip - m) / 256];
    ghost var rest := Extension(ip - anchor) + r.data[anchor..ip] + off;
    op := PutOffset(r.dst, op1, ip - m);
    BeforeMatchLength(pre, 16 * Nibble(ip - anchor), Extension(ip - anchor), r.data[anchor..ip], off, r.dst[..op]);
    op := PutMatchLength(r.dst, op, token, pre, rest, ip - anchor, matchCode, true);
    AfterMatchLength(pre, r.data[anchor..ip], ip - m, MIN_MATCH + matchCode, r.dst[..op]);
    slack' := if matchCode >= 15 then LAST_LITERALS else MF_LIMIT - MIN_MATCH;
    EncodedMore(r.data, r.start, pre, anchor, slack, ip, m, MIN_MATCH + matchCode, slack');
    SequenceBudget(r, token, anchor, ip, MIN_MATCH + matchCode);
  }

  // ----- After a match -----

  /** The entry for `ip` once the position two before it is in the table. */
  function EntryAfter(c: Call, ip: nat, table: seq<nat>): int
    requires 2 <= ip && ip + 8 <= |c.r.data| && |table| == TABLE_SIZE
  {
    SlotInTable(c, ip);
    if c.Slot(ip - 2) == c.Slot(ip) then c.Index(ip - 2) else table[c.Slot(ip)]
  }

  /** The position just after a match is tried at once; otherwise the search goes on one further. */
  method TestNext(c: Call, op: nat, anchor: nat, ghost slack: nat, filledIp: nat) returns (p: Point)
    requires c.Valid() && Written(c.r, op, anchor, slack) && c.TableOk(anchor) && op > 0
    requires c.r.start + 4 <= anchor && anchor + LAST_LITERALS <= |c.r.data| && filledIp + MF_LIMIT <= |c.r.data|
    requires filledIp < anchor || TooNear(c.r, op + 1)
    modifies c.r.dst, c.table
    ensures PointOk(c, anchor, slack, p) && c.OthersKept(old(c.table[..]))
    ensures p.Search? || p.Next? || p.Last?
    ensures anchor + 11 >= |c.r.data| ==> p == Last(op)
    ensures anchor + 11 < |c.r.data| ==> p.Next? == Offers(c, anchor, EntryAfter(c, anchor, old(c.table[..])))
  {
    hide Call.Slot, Call.Acceptable, Call.Consistent, EncodedWithin, Budget, CompressBound, Call.TableOk;
    if anchor + 11 >= |c.r.data| {
      TopGrows(c, anchor, |c.r.data|);
      return Last(op);
    }
    Put(c, anchor - 2, c.Slot(anchor - 2), anchor);
    var h := c.Slot(anchor);
    SlotInTable(c, anchor);
    var matchIndex := c.table[h];
    EntryAt(c, h, anchor);
    Put(c, anchor, h, anchor);
    var hit, m := TryEntry(c, anchor, matchIndex);
    if hit {
      ghost var was := c.r.dst[..op];
      TokenRoom(c.r, op, anchor, slack);
      c.r.dst[op] := 0;
      assert c.r.dst[..op] == was;
      EmptyPending(c.r, op, anchor);
      TopGrows(c, anchor + 1, Max(filledIp, anchor) + 1);
      return Next(anchor, m, op, op + 1, filledIp);
    }
    p := Search(anchor + 1, op);
  }

  lemma EntryAt(c: Call, h: nat, top: nat)
    requires c.table.Length == TABLE_SIZE && h < c.Slots() && c.TableOk(top)
    ensures c.Acceptable(c.table[h]) && (c.table[h] == 0 || c.table[h] < c.Index(top))
  {
  }

  /** After a complete sequence there is room for a token and an offset. */
  lemma TokenRoom(r: Run, op: nat, anchor: nat, slack: nat)
    requires Written(r, op, anchor, slack) && op > 0 && anchor + LAST_LITERALS <= |r.data|
    ensures op < r.dst.Length && (!r.limit.NotLimited? ==> op + 3 <= r.oend)
  {
  }

  lemma EmptyPending(r: Run, op: nat, anchor: nat)
    requires anchor <= |r.data| && op < r.dst.Length && r.dst[op] == 0
    requires !r.limit.NotLimited? ==> op + 3 <= r.oend
    ensures Pending(r, op, op + 1, anchor, anchor)
  {
    assert r.data[anchor..anchor] == [];
    assert r.dst[..op + 1] == r.dst[..op] + [0];
  }

  // ----- A run of one byte -----

  /** A call for a run, without history. */
  ghost predicate RunCall(c: Call) {
    c.Valid() && EasyRun(c.r) && !c.prefix
  }

  /** At the second byte of a run the table offers the first. */
  lemma RunOffers(c: Call, table: seq<nat>)
    requires RunCall(c) && |c.r.data| >= MIN_LENGTH && |table| == TABLE_SIZE
    ensures c.r.start == 0 && c.Slot(1) < TABLE_SIZE && c.Low() == 0 && c.Index(0) >= 0 && c.Position(c.Index(0)) == 0
    ensures table[c.Slot(0)] == c.Index(0) ==> Offers(c, 1, table[c.Slot(1)]) && c.Position(table[c.Slot(1)]) == 0
  {
    var k := if c.tableType.ByU16? then 4 else 8;
    assert c.r.data[1..1 + k] == c.r.data[0..k];
    assert c.Slot(1) == c.Slot(0);
    SlotInTable(c, 0);
    assert SameWord(c.r.data, 1, 0, MIN_MATCH);
  }

  /** Where the compressor stands in a run. */
  ghost predicate RunPoint(c: Call, anchor: nat, p: Point)
    requires c.table.Length == TABLE_SIZE && |c.r.data| >= MIN_LENGTH
    reads c.table
  {
    match p
    case Search(ip, op) => ip == 1 && op == 0 == anchor && c.Slot(0) < TABLE_SIZE && c.table[c.Slot(0)] == c.Index(0)
    case Next(ip, m, token, op, filledIp) => ip == 1 && m == 0 == token == anchor && op == 2 && filledIp == 1
    case Last(op) => anchor == |c.r.data| - 5 && op == SequenceSize(1, |c.r.data| - 6)
    case GivenUp => false
  }

  /** The match of a run reaches to the last literals, and fits. */
  lemma RunMatch(c: Call, m: nat, ml: nat)
    requires RunCall(c) && |c.r.data| >= MIN_LENGTH && m == 0
    requires CommonLength(c.r.data, 1 + MIN_MATCH, m + MIN_MATCH, |c.r.data| - 5, ml)
    ensures ml == |c.r.data| - 10 && 4 + ExtSize(ml) == SequenceSize(1, |c.r.data| - 6)
    ensures !c.r.limit.NotLimited? ==> 2 + 2 + 1 + LAST_LITERALS + (ml + 240) / 255 <= c.r.oend
  {
    assert c.r.data[1 + MIN_MATCH + ml] == c.r.data[0] == c.r.data[m + MIN_MATCH + ml];
  }

  /** So it is written as the only match. */
  lemma RunGoesOn(c: Call, p: Point, stop: bool, q: Point, op: nat, anchor: nat)
    requires RunCall(c) && |c.r.data| >= MIN_LENGTH && p.Next? && p.ip == 1 && p.m == 0 && p.op == 2
    requires WholeMatch(c, p, stop, q, op, anchor)
    ensures !stop && anchor == |c.r.data| - 5 && op == SequenceSize(1, |c.r.data| - 6)
  {
    var ml: nat :| HasLength(c, p, ml) && (stop ==> p.op + 2 + 1 + LAST_LITERALS + (ml + 240) / 255 > c.r.oend)
                   && (!stop ==> ml == anchor - p.ip - MIN_MATCH);
    RunMatch(c, p.m, ml);
  }

  /** In the order of the main loop: literals, the match, and the end. */
  lemma RunLast(r: Run, op: nat, anchor: nat)
    requires EasyRun(r)
    requires if |r.data| < MIN_LENGTH then op == 0 == anchor else anchor == |r.data| - 5 && op == SequenceSize(1, |r.data| - 6)
    ensures op + LastSize(|r.data| - anchor) <= |r.data| / 255 + 16
    ensures r.limit.NotLimited? || op + LastSize(|r.data| - anchor) <= r.oend
  {
  }

  // ----- The whole compressor -----

  function Rank(p: Point): nat {
    if p.Search? then 2 else if p.Next? then 1 else 0
  }

  /** The main loop, for inputs of at least 13 bytes. */
  method MainLoop(c: Call) returns (p: Point, anchor: nat, ghost slack: nat)
    requires c.Valid() && c.TableOk(c.r.start) && c.r.start + MIN_LENGTH <= |c.r.data|
    requires c.r.limit.FillOutput? ==> c.r.oend >= 1
    modifies c.r.dst, c.table
    ensures PointOk(c, anchor, slack, p) && (p.Last? || p.GivenUp?) && c.OthersKept(old(c.table[..]))
    ensures RunCall(c) ==> p.Last? && anchor == |c.r.data| - 5 && p.op == SequenceSize(1, |c.r.data| - 6)
  {
    ghost var easy := RunCall(c);
    if easy { RunOffers(c, c.table[..]); RunHasRoom(c); }
    SlotInTable(c, c.r.start);
    hide RunCall, Offers, SequenceSize, WholeMatch;
    hide Call.Slot, Call.Acceptable, Call.Consistent, EncodedWithin, Budget, CompressBound, Call.TableOk, MatchHeld, Pending;
    anchor, slack := c.r.start, MF_LIMIT - MIN_MATCH;
    NothingWritten(c.r);
    Put(c, c.r.start, c.Slot(c.r.start), c.r.start);
    p := Search(c.r.start + 1, 0);
    while p.Search? || p.Next?
      invariant PointOk(c, anchor, slack, p) && c.OthersKept(old(c.table[..]))
      invariant c.r.start <= anchor <= |c.r.data|
      invariant easy ==> RunPoint(c, anchor, p)
      decreases |c.r.data| - anchor, Rank(p)
    {
      if p.Search? {
        p := FindAndPutLiterals(c, p.ip, p.op, anchor, slack);
      } else {
        p, anchor, slack := CompleteSequence(c, p, anchor, slack);
      }
    }
  }

  /** From _next_match on: the sequence is completed, and the next position tried. */
  method CompleteSequence(c: Call, p0: Point, anchor0: nat, ghost slack0: nat) returns (p: Point, anchor: nat, ghost slack: nat)
    requires c.Valid() && p0.Next? && PointOk(c, anchor0, slack0, p0) && c.r.start + MIN_LENGTH <= |c.r.data|
    modifies c.r.dst, c.table
    ensures PointOk(c, anchor, slack, p) && c.OthersKept(old(c.table[..])) && anchor0 <= anchor <= |c.r.data|
    ensures p.Search? || p.Next? ==> anchor0 < anchor
    ensures RunCall(c) && old(RunPoint(c, anchor0, p0)) ==> RunPoint(c, anchor, p)
  {
    ghost var easy := RunCall(c) && RunPoint(c, anchor0, p0);
    hide Call.Slot, Call.Acceptable, Call.Consistent, EncodedWithin, Budget, CompressBound, Call.TableOk, MatchHeld, Pending;
    hide RunCall, Offers, SequenceSize, WholeMatch;
    PendingAfter(c, anchor0, slack0, p0);
    HeldBounds(c.r, p0.op, p0.ip, p0.m, p0.filledIp);
    var stop, op;
    stop, p, op, anchor, slack := EncodeMatch(c, anchor0, slack0, p0);
    if easy { RunGoesOn(c, p0, stop, p, op, anchor); }
    if !stop {
      p := TestNext(c, op, anchor, slack, p0.filledIp);
    }
  }

  lemma PendingAfter(c: Call, anchor: nat, slack: nat, p: Point)
    requires c.Valid() && p.Next? && PointOk(c, anchor, slack, p)
    ensures anchor <= p.ip <= |c.r.data|
  {
  }

  lemma NothingWritten(r: Run)
    requires r.Valid() && (r.limit.FillOutput? ==> r.oend >= 1)
    ensures Written(r, 0, r.start, MF_LIMIT - MIN_MATCH)
  {
    hide Produces;
    EncodedNothing(r.data, r.start);
    assert r.dst[..0] == [];
  }

  /**
    The body of LZ4_compress_generic, once the input is known to be supported.
    On success the block decodes to the input, or to its first `end` bytes in
    fillOutput mode; it respects the end-of-block restrictions and the budget.
    The attempt fails only in limitedOutput mode with less than the worst-case
    capacity. Either way the table only knows positions of this input or earlier.
  */
  method Compress(c: Call) returns (ok: bool, op: nat, end: nat)
    requires c.Valid() && c.TableOk(c.r.start)
    requires c.r.limit.FillOutput? ==> c.r.oend >= 1
    modifies c.r.dst, c.table
    ensures ok ==> op <= c.r.dst.Length && Block(c.r.data, c.r.start, c.r.dst[..op], end)
    ensures ok ==> (if c.r.limit.NotLimited? then op <= CompressBound(|c.r.data| - c.r.start) else op <= c.r.oend)
    ensures ok && !c.r.limit.FillOutput? ==> end == |c.r.data|
    ensures ok ==> end == |c.r.data| || op + Unused(c.r.oend) >= c.r.oend
    ensures !ok ==> c.r.limit.LimitedOutput? && c.r.oend < CompressBound(|c.r.data| - c.r.start)
    ensures c.TableOk(|c.r.data|) && c.OthersKept(old(c.table[..]))
    ensures RunCall(c) ==> ok && op <= |c.r.data| / 255 + 16
  {
    hide Call.Slot, Call.Acceptable, Call.Consistent, EncodedWithin, Budget, CompressBound, Call.TableOk, Block;
    NothingWritten(c.r);
    ghost var slack := MF_LIMIT - MIN_MATCH;
    var anchor := c.r.start;
    var p := Last(0);
    TopGrows(c, c.r.start, |c.r.data|);
    if c.r.start + MIN_LENGTH <= |c.r.data| {
      p, anchor, slack := MainLoop(c);
    }
    if p.GivenUp? {
      return false, 0, 0;
    }
    if RunCall(c) { RunLast(c.r, p.op, anchor); }
    ok, op, end := LastLiterals(c.r, p.op, anchor, slack);
  }
}
