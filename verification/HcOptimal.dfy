/**
  LZ4HC_compress_optimal (lz4hc.c): the dynamic-programming parser. Prices only
  guide the choice of a parse; what is proved here is that every entry of the
  price table always describes a step that the input allows, so that whatever
  parse is chosen, the block written decodes to the input.
*/
module HcOptimal {
  import opened BlockFormat
  import opened Matching
  import opened HashChain
  import opened MatchFinder
  import opened Encoding
  import opened Sizes

  const OPT_NUM := 4096
  const TRAILING_LITERALS := 3
  const RUN_MASK := 15

  datatype Opt = Opt(price: int, off: int, mlen: int, litlen: int)

  function LiteralsPrice(litlen: int): int {
    if litlen >= RUN_MASK then litlen + 1 + (litlen - RUN_MASK) / 255 else litlen
  }

  function SequencePrice(litlen: int, mlen: int): int {
    3 + LiteralsPrice(litlen) + (if mlen >= 19 then 1 + (mlen - 19) / 255 else 0)
  }

  /** An entry of the price table, at distance `i` from `base`, ends with one literal or with a usable match. */
  ghost predicate EntryOk(data: seq<byte>, base: nat, i: int, e: Opt) {
    && e.litlen >= 0
    && (e.mlen == 1 || (e.mlen <= i && Usable(data, base + i - e.mlen, e.off, e.mlen)))
  }

  ghost predicate TableOk(data: seq<byte>, base: nat, opt: array<Opt>, n: int)
    reads opt
  {
    n < opt.Length && forall i :: 0 <= i <= n ==> EntryOk(data, base, i, opt[i])
  }

  lemma UsablePart(data: seq<byte>, s: int, off: int, mlen: int, part: int)
    requires Usable(data, s, off, mlen) && MIN_MATCH <= part <= mlen
    ensures Usable(data, s, off, part)
  {
  }

  // ----- Searching -----

  /** A search at `ip` has been made, and found no more than `longest`. */
  ghost predicate BestHere(hash: seq<byte> -> nat, data: seq<byte>, dictLimit: nat, ip: nat, nbSearches: nat, favorDecSpeed: bool, longest: int)
    requires ip + 5 <= |data|
  {
    Searched(hash, data, dictLimit, Request(ip, ip, |data| - 5, true, true, favorDecSpeed), nbSearches, longest)
  }

  /** What was found, when a length from 19 to 36 may have been cut to 18. */
  function Uncut(len: nat, favorDecSpeed: bool): nat {
    if favorDecSpeed && len == 18 then 36 else len
  }

  /** LZ4HC_FindLongerMatch. A length of 0 means that nothing longer than `minLen` was found. */
  method FindLongerMatch(ctx: Context, data: seq<byte>, ip: nat, minLen: nat, nbSearches: nat, favorDecSpeed: bool)
    returns (len: nat, off: nat)
    requires ctx.Session(data) && ctx.Exact(data) && ctx.nextToUpdate <= ctx.dictLimit + ip
    requires ip + MF_LIMIT <= |data| && minLen >= 1 && ip + minLen + 1 <= |data|
    modifies ctx`nextToUpdate, ctx.hashTable, ctx.chainTable
    ensures ctx.Session(data) && ctx.Exact(data) && ctx.nextToUpdate == ctx.dictLimit + ip
    ensures len > 0 ==> Usable(data, ip, off, len)
    ensures BestHere(ctx.hash, data, ctx.dictLimit, ip, nbSearches, favorDecSpeed, if len == 0 then minLen else Uncut(len, favorDecSpeed))
    ensures OneByte(data) && nbSearches >= 1 && !favorDecSpeed ==>
      len == if ip > 0 && |data| - 5 - ip > minLen then |data| - 5 - ip else 0
  {
    hide HashChain.Context.Session, HashChain.Context.Exact, OneByte, Searched;
    var r := Request(ip, ip, |data| - LAST_LITERALS, true, true, favorDecSpeed);
    var longest, matchPos, startPos := InsertAndGetWiderMatch(ctx, data, r, minLen, nbSearches);
    if OneByte(data) && nbSearches >= 1 && !favorDecSpeed {
      RunIsFound(ctx.hash, data, ctx.dictLimit, r, nbSearches, minLen, longest, matchPos, startPos);
    }
    if longest <= minLen {
      return 0, 0;
    }
    len, off := longest, startPos - matchPos;
    if favorDecSpeed && 18 < len <= 36 {
      len := 18;
    }
    SearchedMore(ctx.hash, data, ctx.dictLimit, r, nbSearches, longest, Uncut(len, favorDecSpeed));
  }

  // ----- The price table -----

  /** The entries of a first match behind `llen` literals: literals of their own price, then the match in every length. */
  function FirstEntry(llen: nat, off: nat, i: nat): Opt {
    if i < 4 then Opt(LiteralsPrice(llen + i), 0, 1, llen + i) else Opt(SequencePrice(llen, i), off, i, llen)
  }

  /** Prices for the first positions and for every length of the first match. */
  method SetFirst(data: seq<byte>, base: nat, opt: array<Opt>, llen: nat, len: nat, off: nat)
    requires opt.Length == OPT_NUM + TRAILING_LITERALS && len < OPT_NUM && Usable(data, base, off, len)
    modifies opt
    ensures TableOk(data, base, opt, len)
    ensures forall i :: 0 <= i <= len ==> opt[i] == FirstEntry(llen, off, i)
  {
    for rPos := 0 to MIN_MATCH
      invariant forall i :: 0 <= i < rPos ==> EntryOk(data, base, i, opt[i])
      invariant forall i :: 0 <= i < rPos ==> opt[i] == FirstEntry(llen, off, i)
    {
      opt[rPos] := Opt(LiteralsPrice(llen + rPos), 0, 1, llen + rPos);
    }
    for mlen := MIN_MATCH to len + 1
      invariant TableOk(data, base, opt, mlen - 1)
      invariant forall i :: 0 <= i < mlen ==> opt[i] == FirstEntry(llen, off, i)
    {
      UsablePart(data, base, off, len, mlen);
      opt[mlen] := Opt(SequencePrice(llen, mlen), off, mlen, llen);
    }
  }

  /** Three literals after the last match position. */
  method SetTrailing(data: seq<byte>, base: nat, opt: array<Opt>, last: nat)
    requires opt.Length == OPT_NUM + TRAILING_LITERALS && last < OPT_NUM && TableOk(data, base, opt, last)
    modifies opt
    ensures TableOk(data, base, opt, last + TRAILING_LITERALS)
    ensures forall i :: 0 <= i < opt.Length ==>
      opt[i] == if last < i <= last + 3 then Opt(old(opt[last]).price + (i - last), 0, 1, i - last) else old(opt[i])
  {
    for addLit := 1 to TRAILING_LITERALS + 1
      invariant TableOk(data, base, opt, last + addLit - 1)
      invariant forall i :: 0 <= i < opt.Length ==>
        opt[i] == if last < i < last + addLit then Opt(old(opt[last]).price + (i - last), 0, 1, i - last) else old(opt[i])
    {
      opt[last + addLit] := Opt(opt[last].price + LiteralsPrice(addLit), 0, 1, addLit);
    }
  }

  /** `n` more literals after the entry `e`. */
  function LiteralAfter(e: Opt, n: nat): Opt {
    Opt(e.price - LiteralsPrice(e.litlen) + LiteralsPrice(e.litlen + n), 0, 1, e.litlen + n)
  }

  /** Literals after `cur`, where they are cheaper. */
  method SetLiterals(data: seq<byte>, base: nat, opt: array<Opt>, cur: nat, last: nat)
    requires opt.Length == OPT_NUM + TRAILING_LITERALS && cur < last < OPT_NUM
    requires TableOk(data, base, opt, last + TRAILING_LITERALS)
    modifies opt
    ensures TableOk(data, base, opt, last + TRAILING_LITERALS)
    ensures forall i :: 0 <= i < opt.Length ==>
      opt[i] == if cur < i < cur + 4 && LiteralAfter(old(opt[cur]), i - cur).price < old(opt[i]).price
                then LiteralAfter(old(opt[cur]), i - cur) else old(opt[i])
  {
    hide LiteralsPrice, Usable;
    var baseLitlen := opt[cur].litlen;
    for litlen := 1 to MIN_MATCH
      invariant TableOk(data, base, opt, last + TRAILING_LITERALS)
      invariant forall i :: 0 <= i < opt.Length ==>
        opt[i] == if cur < i < cur + litlen && LiteralAfter(old(opt[cur]), i - cur).price < old(opt[i]).price
                  then LiteralAfter(old(opt[cur]), i - cur) else old(opt[i])
    {
      var price := opt[cur].price - LiteralsPrice(baseLitlen) + LiteralsPrice(baseLitlen + litlen);
      var pos := cur + litlen;
      if price < opt[pos].price {
        opt[pos] := Opt(price, 0, 1, baseLitlen + litlen);
      }
    }
  }

  /** The first `ml` bytes of a match at `cur`, behind what the table has there: literals are priced with the sequence they belong to. */
  function MatchAt(table: seq<Opt>, cur: nat, ml: nat, off: nat): Opt
    requires cur < |table| && (table[cur].mlen == 1 ==> table[cur].litlen >= 0)
  {
    if table[cur].mlen == 1 then
      var ll := table[cur].litlen;
      Opt((if cur > ll then table[cur - ll].price else 0) + SequencePrice(ll, ml), off, ml, ll)
    else Opt(table[cur].price + SequencePrice(0, ml), off, ml, 0)
  }

  /** Whether it takes the place of what the table has at its end. */
  predicate Replaces(table: seq<Opt>, cur: nat, ml: nat, off: nat, last: nat, favorDecSpeed: bool)
    requires cur + ml < |table| && (table[cur].mlen == 1 ==> table[cur].litlen >= 0)
  {
    || cur + ml > last + 3
    || MatchAt(table, cur, ml, off).price <= table[cur + ml].price - (if favorDecSpeed then 1 else 0)
  }

  /** Every length of a new match at `cur`, where it is cheaper or new. Returns the new last match position. */
  method SetMatches(data: seq<byte>, base: nat, opt: array<Opt>, cur: nat, last0: nat, len: nat, off: nat, favorDecSpeed: bool)
    returns (last: nat)
    requires opt.Length == OPT_NUM + TRAILING_LITERALS && cur < last0 < OPT_NUM && cur + len < OPT_NUM
    requires TableOk(data, base, opt, last0 + TRAILING_LITERALS) && Usable(data, base + cur, off, len)
    modifies opt
    ensures last0 <= last < OPT_NUM && last <= Max(last0, cur + len) && TableOk(data, base, opt, last)
    ensures var t := old(opt[..]); t[cur].litlen >= 0 && forall i :: 0 <= i < opt.Length ==>
      opt[i] == if cur + 4 <= i <= cur + len && Replaces(t, cur, i - cur, off, last0, favorDecSpeed)
                then MatchAt(t, cur, i - cur, off) else t[i]
    ensures last == if cur + len > last0 && Replaces(old(opt[..]), cur, len, off, last0, favorDecSpeed) then cur + len else last0
  {
    hide Usable, MatchAt, Replaces;
    ghost var t := opt[..];
    last := last0;
    MinimalLength(data, base + cur, off, len);
    for ml := MIN_MATCH to len + 1
      invariant last0 <= last < OPT_NUM && (ml <= len ==> last == last0)
      invariant last <= Max(last0, cur + ml - 1)
      invariant TableOk(data, base, opt, Max(last0 + TRAILING_LITERALS, cur + ml - 1))
      invariant forall i :: 0 <= i < opt.Length ==>
        opt[i] == if cur + 4 <= i < cur + ml && Replaces(t, cur, i - cur, off, last0, favorDecSpeed)
                  then MatchAt(t, cur, i - cur, off) else t[i]
      invariant ml == len + 1 ==>
        last == if cur + len > last0 && Replaces(t, cur, len, off, last0, favorDecSpeed) then cur + len else last0
    {
      var better := SetMatch(data, base, opt, cur, ml, len, off, last, favorDecSpeed, t);
      if better && ml == len && last < cur + ml {
        last := cur + ml;
      }
    }
  }

  /** One of these lengths. */
  method SetMatch(data: seq<byte>, base: nat, opt: array<Opt>, cur: nat, ml: nat, len: nat, off: nat, last: nat,
                  favorDecSpeed: bool, ghost t: seq<Opt>) returns (better: bool)
    requires |t| == opt.Length && MIN_MATCH <= ml <= len && cur + ml < opt.Length && Usable(data, base + cur, off, len)
    requires t[cur].litlen >= 0 && (forall i :: 0 <= i <= cur ==> opt[i] == t[i]) && opt[cur + ml] == t[cur + ml]
    modifies opt
    ensures better == Replaces(t, cur, ml, off, last, favorDecSpeed) && (cur + ml > last + 3 ==> better)
    ensures forall i :: 0 <= i < opt.Length ==> opt[i] == if i == cur + ml && better then MatchAt(t, cur, ml, off) else old(opt[i])
    ensures better ==> EntryOk(data, base, cur + ml, opt[cur + ml])
  {
    hide Usable;
    var pos := cur + ml;
    var e := PriceMatch(opt, cur, ml, off);
    SameBelow(opt[..], t, cur, ml, off);
    hide MatchAt;
    better := pos > last + TRAILING_LITERALS || e.price <= opt[pos].price - (if favorDecSpeed then 1 else 0);
    if better {
      UsablePart(data, base + cur, off, len, ml);
      opt[pos] := e;
    }
  }

  method PriceMatch(opt: array<Opt>, cur: nat, ml: nat, off: nat) returns (e: Opt)
    requires cur < opt.Length && (opt[cur].mlen == 1 ==> opt[cur].litlen >= 0)
    ensures e == MatchAt(opt[..], cur, ml, off)
  {
    hide SequencePrice;
    var ll, price;
    if opt[cur].mlen == 1 {
      ll := opt[cur].litlen;
      price := (if cur > ll then opt[cur - ll].price else 0) + SequencePrice(ll, ml);
    } else {
      ll := 0;
      price := opt[cur].price + SequencePrice(0, ml);
    }
    e := Opt(price, off, ml, ll);
  }

  /** The entry is made from what the table has up to `cur`. */
  lemma SameBelow(table: seq<Opt>, t: seq<Opt>, cur: nat, ml: nat, off: nat)
    requires |table| == |t| && cur < |t| && t[cur].litlen >= 0 && forall i :: 0 <= i <= cur ==> table[i] == t[i]
    ensures MatchAt(table, cur, ml, off) == MatchAt(t, cur, ml, off)
    ensures MatchAt(t, cur, ml, off).mlen == ml && MatchAt(t, cur, ml, off).off == off && MatchAt(t, cur, ml, off).litlen >= 0
  {
    hide SequencePrice;
  }

  lemma MinimalLength(data: seq<byte>, s: int, off: int, len: int)
    requires Usable(data, s, off, len)
    ensures len >= MIN_MATCH && off <= s
  {
  }

  /** A step of a forward parse, from distance `p`: one literal, or a usable match. */
  ghost predicate StepOk(data: seq<byte>, base: nat, p: nat, mlen: int, off: int) {
    mlen == 1 || Usable(data, base + p, off, mlen)
  }

  lemma EntryIsStep(data: seq<byte>, base: nat, i: nat, e: Opt)
    requires EntryOk(data, base, i, e)
    ensures 1 <= e.mlen && (i >= 1 ==> e.mlen <= i) && (i == 0 ==> e.mlen == 1)
    ensures e.mlen <= i ==> StepOk(data, base, i - e.mlen, e.mlen, e.off)
  {
  }

  /** The last step of the chosen parse starts at `cur`; sequences are written from those that start before `stop`. */
  datatype Choice = Choice(cur: nat, mlen: int, off: int, stop: nat)

  ghost predicate ChoiceOk(data: seq<byte>, base: nat, opt: array<Opt>, c: Choice)
    reads opt
  {
    && c.mlen >= 1 && StepOk(data, base, c.cur, c.mlen, c.off)
    && c.cur < c.stop <= c.cur + c.mlen && base + c.cur + c.mlen + LAST_LITERALS <= |data|
    && TableOk(data, base, opt, c.cur)
  }

  // ----- The price table of a run -----

  /** What a match of this length costs beyond token and offset. */
  function LengthPrice(mlen: nat): nat {
    if mlen >= 19 then 1 + (mlen - 19) / 255 else 0
  }

  /** In a run, `i` bytes behind the first byte are a match; it may start one byte later if that costs nothing. */
  ghost predicate RunEntry(e: Opt, i: int) {
    i >= 0 && e.price == 4 + LengthPrice(i) && ((e.mlen == i && e.litlen == 1) || (e.mlen == i - 1 && e.litlen == 2))
  }

  /** The price table for a run whose first match, behind one literal, has `last` bytes. */
  ghost predicate RunTable(t: seq<Opt>, last: nat) {
    && last + 4 <= |t|
    && (forall i :: 0 <= i < 4 ==> t[i] == Opt(1 + i, 0, 1, 1 + i))
    && (forall i :: 4 <= i <= last ==> RunEntry(t[i], i))
    && (forall i :: last < i <= last + 3 ==> t[i].price == t[last].price + (i - last))
  }

  /** Whether the next position is as cheap as this one, and no position soon after it much dearer. */
  predicate Skipped(t: seq<Opt>, cur: nat, fullUpdate: bool)
    requires cur + 4 < |t|
  {
    t[cur + 1].price <= t[cur].price && (fullUpdate ==> t[cur + 4].price < t[cur].price + 3)
  }

  lemma PricesAdd(a: nat, b: nat)
    ensures LengthPrice(a) <= LengthPrice(a + b) <= LengthPrice(a) + LengthPrice(b) + 1
    ensures b <= 2 ==> LengthPrice(a + b) <= LengthPrice(a) + 1
  {
  }

  /** In a run, literals are never cheaper where a search is worthwhile. */
  lemma RunLiterals(t: seq<Opt>, last: nat, cur: nat, n: nat)
    requires RunTable(t, last) && 1 <= cur <= last - 7 && !Skipped(t, cur, true) && 1 <= n <= 3
    ensures LiteralAfter(t[cur], n).price >= t[cur + n].price
  {
    assert RunEntry(t[7], 7) || last < 7;
    if cur >= 4 {
      assert RunEntry(t[cur], cur) && RunEntry(t[cur + n], cur + n) && RunEntry(t[cur + 1], cur + 1) && RunEntry(t[cur + 4], cur + 4);
      PricesAdd(cur, n);
      PricesAdd(cur, 1);
      PricesAdd(cur + 1, 3);
    } else if cur + n >= 4 {
      assert RunEntry(t[cur + n], cur + n);
    }
  }

  /** And a new match takes the place of the first one only from one byte after it, where its price is the same. */
  lemma RunMatches(t: seq<Opt>, last: nat, cur: nat, i: nat, off: nat)
    requires RunTable(t, last) && 1 <= cur <= last - 7 && !Skipped(t, cur, true) && cur + 4 <= i <= last
    ensures MatchAt(t, cur, i - cur, off).price <= t[i].price ==> RunEntry(MatchAt(t, cur, i - cur, off), i)
  {
    assert RunEntry(t[i], i);
    PricesAdd(cur, i - cur);
    PricesAdd(i - cur, cur);
    if cur >= 4 {
      assert RunEntry(t[cur], cur);
    }
  }

  /** The table stays that of a run, whatever is found. */
  lemma RunStays(t: seq<Opt>, u: seq<Opt>, v: seq<Opt>, w: seq<Opt>, last: nat, cur: nat, off: nat)
    requires RunTable(t, last) && 1 <= cur <= last - 7 && !Skipped(t, cur, true) && |t| == |u| == |v| == |w|
    requires forall i :: 0 <= i < |t| ==>
      u[i] == if cur < i < cur + 4 && LiteralAfter(t[cur], i - cur).price < t[i].price then LiteralAfter(t[cur], i - cur) else t[i]
    requires u[cur].litlen >= 0 && forall i :: 0 <= i < |t| ==>
      v[i] == if cur + 4 <= i <= last && Replaces(u, cur, i - cur, off, last, false) then MatchAt(u, cur, i - cur, off) else u[i]
    requires forall i :: 0 <= i < |t| ==> w[i] == if last < i <= last + 3 then Opt(v[last].price + (i - last), 0, 1, i - last) else v[i]
    ensures RunTable(w, last)
  {
    hide RunEntry, LiteralAfter, MatchAt, Skipped;
    forall i | 0 <= i < |t| ensures u[i] == t[i] {
      if cur < i < cur + 4 { RunLiterals(t, last, cur, i - cur); }
    }
    assert u == t;
    forall i | 4 <= i <= last ensures RunEntry(w[i], i) {
      assert RunEntry(t[i], i);
      if cur + 4 <= i { RunMatches(t, last, cur, i, off); }
    }
  }

  /** A parse that starts at the second byte of a run. */
  ghost predicate RunParse(data: seq<byte>, base: nat, last0: nat, nbSearches: nat, sufficientLen: nat, favorDecSpeed: bool) {
    && OneByte(data) && base == 1 && last0 == |data| - 6 && last0 <= sufficientLen && last0 < OPT_NUM
    && nbSearches >= 1 && !favorDecSpeed
  }

  /** What is chosen then: one match to the end, from the second or the third byte. */
  ghost predicate RunChoice(opt: array<Opt>, c: Choice, last0: nat)
    requires opt.Length >= 2
    reads opt
  {
    c.cur <= 1 && c.cur + c.mlen == last0 == c.stop && opt[0].mlen == opt[1].mlen == 1
  }

  lemma RunEnds(opt: array<Opt>, last: nat, c: Choice)
    requires RunTable(opt[..], last) && last >= 7 && c.mlen == opt[last].mlen && c.cur == last - c.mlen && c.stop == last
    ensures RunChoice(opt, c, last)
  {
    assert RunEntry(opt[..][last], last) && opt[..][0] == opt[0] && opt[..][1] == opt[1];
  }

  /** Whether the search at `cur` is skipped because the next positions are already cheap. */
  method SkipSearch(opt: array<Opt>, cur: nat, fullUpdate: bool) returns (skip: bool)
    requires cur + MIN_MATCH < opt.Length
    ensures skip == Skipped(opt[..], cur, fullUpdate)
  {
    skip := opt[cur + 1].price <= opt[cur].price
            && (fullUpdate ==> opt[cur + MIN_MATCH].price < opt[cur].price + 3);
  }

  // ----- The loop over further positions -----

  /**
    A match of `len` bytes at `p` has been taken into account: no position up to
    `upto` is dearer than with it, or with up to three literals after `p`. Only
    the three positions of trailing literals may lie beyond.
  */
  ghost predicate Settled(t: seq<Opt>, last: nat, p: nat, len: nat, off: nat, upto: nat, favorDecSpeed: bool) {
    && p < upto <= last < |t| && p + len <= upto + 3 && t[p].litlen >= 0
    && (forall n :: 1 <= n <= 3 && p + n <= upto ==> t[p + n].price <= LiteralAfter(t[p], n).price)
    && (forall ml :: 4 <= ml <= len && p + ml <= upto ==>
          t[p + ml].price <= MatchAt(t, p, ml, off).price + (if favorDecSpeed then 1 else 0))
  }

  /**
    A position of the table that has been passed: the next one is not dearer; or
    there was nothing longer to be found than asked for; or what was found there
    is settled.
  */
  ghost predicate Visited(hash: seq<byte> -> nat, data: seq<byte>, dictLimit: nat, base: nat, t: seq<Opt>, last: nat, p: nat,
                         nbSearches: nat, fullUpdate: bool, favorDecSpeed: bool)
    requires base + p + 5 <= |data| && p + 1 < |t|
  {
    || t[p + 1].price <= t[p].price
    || BestHere(hash, data, dictLimit, base + p, nbSearches, favorDecSpeed, if fullUpdate then 3 else last - p)
    || exists len: nat, off: nat, upto: nat ::
         && Settled(t, last, p, len, off, upto, favorDecSpeed) && len > 0
         && BestHere(hash, data, dictLimit, base + p, nbSearches, favorDecSpeed, Uncut(len, favorDecSpeed))
  }

  /** What a turn at `cur` may change: nothing up to `cur`, and no price up to `last` for a higher one. */
  ghost predicate OnlyCheaper(t: seq<Opt>, u: seq<Opt>, cur: nat, last: nat) {
    && cur < last < |t| == |u|
    && (forall i :: 0 <= i <= cur ==> u[i] == t[i])
    && (forall i :: 0 <= i <= last ==> u[i].price <= t[i].price)
  }

  lemma BestHereMore(hash: seq<byte> -> nat, data: seq<byte>, dictLimit: nat, ip: nat, nbSearches: nat,
                     favorDecSpeed: bool, longest: int, longer: int)
    requires ip + 5 <= |data| && longest <= longer && BestHere(hash, data, dictLimit, ip, nbSearches, favorDecSpeed, longest)
    ensures BestHere(hash, data, dictLimit, ip, nbSearches, favorDecSpeed, longer)
  {
    SearchedMore(hash, data, dictLimit, Request(ip, ip, |data| - 5, true, true, favorDecSpeed), nbSearches, longest, longer);
  }

  lemma SettledStays(t: seq<Opt>, u: seq<Opt>, cur: nat, last: nat, last': nat, p: nat, len: nat, off: nat, upto: nat, favorDecSpeed: bool)
    requires OnlyCheaper(t, u, cur, last) && p <= cur && last <= last' < |u| && Settled(t, last, p, len, off, upto, favorDecSpeed)
    ensures Settled(u, last', p, len, off, upto, favorDecSpeed)
  {
    hide LiteralsPrice, SequencePrice;
    forall ml | 4 <= ml <= len && p + ml <= upto ensures u[p + ml].price <= MatchAt(u, p, ml, off).price + (if favorDecSpeed then 1 else 0) {
      SameBelow(u, t, p, ml, off);
    }
  }

  /** What has been passed stays so. */
  lemma VisitedStays(hash: seq<byte> -> nat, data: seq<byte>, dictLimit: nat, base: nat, t: seq<Opt>, u: seq<Opt>, cur: nat,
                     last: nat, last': nat, p: nat, nbSearches: nat, fullUpdate: bool, favorDecSpeed: bool)
    requires base + p + 5 <= |data| && p <= cur && OnlyCheaper(t, u, cur, last) && last <= last' < |u|
    requires Visited(hash, data, dictLimit, base, t, last, p, nbSearches, fullUpdate, favorDecSpeed)
    ensures Visited(hash, data, dictLimit, base, u, last', p, nbSearches, fullUpdate, favorDecSpeed)
  {
    hide Settled, BestHere;
    if t[p + 1].price <= t[p].price {
    } else if BestHere(hash, data, dictLimit, base + p, nbSearches, favorDecSpeed, if fullUpdate then 3 else last - p) {
      BestHereMore(hash, data, dictLimit, base + p, nbSearches, favorDecSpeed,
                   if fullUpdate then 3 else last - p, if fullUpdate then 3 else last' - p);
    } else {
      var len: nat, off: nat, upto: nat :|
        && Settled(t, last, p, len, off, upto, favorDecSpeed) && len > 0
        && BestHere(hash, data, dictLimit, base + p, nbSearches, favorDecSpeed, Uncut(len, favorDecSpeed));
      SettledStays(t, u, cur, last, last', p, len, off, upto, favorDecSpeed);
    }
  }

  /** The three updates settle the match they are made for. */
  lemma UpdatesSettle(t: seq<Opt>, u: seq<Opt>, v: seq<Opt>, w: seq<Opt>, last0: nat, last: nat, cur: nat, len: nat, off: nat, favorDecSpeed: bool)
    requires cur < last0 <= last && |t| == |u| == |v| == |w| && last + 3 < |t| && cur + len < |t| && 4 <= len
    requires forall i :: 0 <= i < |t| ==>
      u[i] == if cur < i < cur + 4 && LiteralAfter(t[cur], i - cur).price < t[i].price then LiteralAfter(t[cur], i - cur) else t[i]
    requires u[cur].litlen >= 0 && forall i :: 0 <= i < |t| ==>
      v[i] == if cur + 4 <= i <= cur + len && Replaces(u, cur, i - cur, off, last0, favorDecSpeed) then MatchAt(u, cur, i - cur, off) else u[i]
    requires last == if cur + len > last0 && Replaces(u, cur, len, off, last0, favorDecSpeed) then cur + len else last0
    requires forall i :: 0 <= i < |t| ==> w[i] == if last < i <= last + 3 then Opt(v[last].price + (i - last), 0, 1, i - last) else v[i]
    ensures OnlyCheaper(t, w, cur, last0) && Settled(w, last, cur, len, off, last, favorDecSpeed)
  {
    hide LiteralAfter, MatchAt;
    forall ml | 4 <= ml <= len && cur + ml <= last
      ensures w[cur + ml].price <= MatchAt(w, cur, ml, off).price + (if favorDecSpeed then 1 else 0)
    {
      SameBelow(w, u, cur, ml, off);
      assert v[cur + ml].price <= MatchAt(u, cur, ml, off).price + (if favorDecSpeed then 1 else 0);
    }
  }

  /** One turn: unless the next position is as cheap, a search, and what it finds is encoded at once or taken into the table. */
  method Visit(ctx: Context, data: seq<byte>, base: nat, opt: array<Opt>, cur: nat, last0: nat,
               nbSearches: nat, sufficientLen: nat, fullUpdate: bool, favorDecSpeed: bool)
    returns (immediate: bool, c: Choice, last: nat)
    requires opt.Length == OPT_NUM + TRAILING_LITERALS && 1 <= cur < last0 < OPT_NUM
    requires base + last0 + LAST_LITERALS <= |data| && base + cur + MF_LIMIT <= |data|
    requires TableOk(data, base, opt, last0 + TRAILING_LITERALS)
    requires ctx.Session(data) && ctx.Exact(data) && ctx.nextToUpdate <= ctx.dictLimit + base + cur
    modifies opt, ctx`nextToUpdate, ctx.hashTable, ctx.chainTable
    ensures ctx.Session(data) && ctx.Exact(data) && ctx.nextToUpdate <= ctx.dictLimit + base + cur
    ensures last0 <= last < OPT_NUM && base + last + LAST_LITERALS <= |data|
    ensures TableOk(data, base, opt, last + TRAILING_LITERALS)
    ensures immediate ==> opt[..] == old(opt[..]) && ChoiceOk(data, base, opt, c) && c.cur == cur && c.stop == cur + 1
                          && (c.mlen > sufficientLen || cur + c.mlen >= OPT_NUM)
    ensures !immediate ==> OnlyCheaper(old(opt[..]), opt[..], cur, last0)
                           && Visited(ctx.hash, data, ctx.dictLimit, base, opt[..], last, cur, nbSearches, fullUpdate, favorDecSpeed)
    ensures old(RunTable(opt[..], last0)) && last0 >= 7 && RunParse(data, base, last0, nbSearches, sufficientLen, favorDecSpeed) ==>
      !immediate && last == last0 && RunTable(opt[..], last0)
  {
    hide HashChain.Context.Session, HashChain.Context.Exact, EntryOk, RunTable, OneByte, LiteralAfter, MatchAt, Replaces;
    hide Settled, BestHere;
    ghost var t := opt[..];
    immediate, c, last := false, Choice(0, 0, 0, 0), last0;
    var skip := SkipSearch(opt, cur, fullUpdate);
    if skip {
      return;
    }
    var minLen := if fullUpdate then MIN_MATCH - 1 else last0 - cur;
    var len, off := FindLongerMatch(ctx, data, base + cur, minLen, nbSearches, favorDecSpeed);
    if len > 0 {
      if len > sufficientLen || len + cur >= OPT_NUM {
        return true, Choice(cur, len, off, cur + 1), last0;
      }
      last := TakeMatch(data, base, opt, cur, last0, len, off, favorDecSpeed);
    }
  }

  /** A match found at `cur` is taken into the table. */
  method TakeMatch(data: seq<byte>, base: nat, opt: array<Opt>, cur: nat, last0: nat, len: nat, off: nat, favorDecSpeed: bool)
    returns (last: nat)
    requires opt.Length == OPT_NUM + TRAILING_LITERALS && 1 <= cur < last0 < OPT_NUM && cur + len < OPT_NUM
    requires TableOk(data, base, opt, last0 + TRAILING_LITERALS) && Usable(data, base + cur, off, len)
    modifies opt
    ensures last0 <= last < OPT_NUM && last <= Max(last0, cur + len) && TableOk(data, base, opt, last + TRAILING_LITERALS)
    ensures OnlyCheaper(old(opt[..]), opt[..], cur, last0) && Settled(opt[..], last, cur, len, off, last, favorDecSpeed)
    ensures var t := old(opt[..]);
      RunTable(t, last0) && cur <= last0 - 7 && !Skipped(t, cur, true) && cur + len == last0 && !favorDecSpeed ==>
      last == last0 && RunTable(opt[..], last0)
  {
    hide EntryOk, RunTable, LiteralAfter, MatchAt, Replaces, Settled, Usable, Skipped;
    ghost var t := opt[..];
    SetLiterals(data, base, opt, cur, last0);
    ghost var u := opt[..];
    last := SetMatches(data, base, opt, cur, last0, len, off, favorDecSpeed);
    ghost var v := opt[..];
    SetTrailing(data, base, opt, last);
    MinimalLength(data, base + cur, off, len);
    UpdatesSettle(t, u, v, opt[..], last0, last, cur, len, off, favorDecSpeed);
    if RunTable(t, last0) && cur <= last0 - 7 && !Skipped(t, cur, true) && cur + len == last0 && !favorDecSpeed {
      RunStays(t, u, v, opt[..], last0, cur, off);
    }
  }

  /** All positions that were passed. */
  ghost predicate AllVisited(hash: seq<byte> -> nat, data: seq<byte>, dictLimit: nat, base: nat, t: seq<Opt>, last: nat, upto: nat,
                            nbSearches: nat, fullUpdate: bool, favorDecSpeed: bool)
  {
    last < |t| && forall p :: 1 <= p < upto && p < last && base + p + 12 <= |data| ==>
      Visited(hash, data, dictLimit, base, t, last, p, nbSearches, fullUpdate, favorDecSpeed)
  }

  lemma VisitedOneMore(hash: seq<byte> -> nat, data: seq<byte>, dictLimit: nat, base: nat, t: seq<Opt>, u: seq<Opt>, cur: nat, last: nat, last': nat,
                      nbSearches: nat, fullUpdate: bool, favorDecSpeed: bool)
    requires AllVisited(hash, data, dictLimit, base, t, last, cur, nbSearches, fullUpdate, favorDecSpeed)
    requires base + cur + 12 <= |data| && OnlyCheaper(t, u, cur, last) && last <= last' < |u|
    requires Visited(hash, data, dictLimit, base, u, last', cur, nbSearches, fullUpdate, favorDecSpeed)
    ensures AllVisited(hash, data, dictLimit, base, u, last', cur + 1, nbSearches, fullUpdate, favorDecSpeed)
  {
    hide Visited;
    forall p | 1 <= p < cur + 1 && p < last' && base + p + 12 <= |data|
      ensures Visited(hash, data, dictLimit, base, u, last', p, nbSearches, fullUpdate, favorDecSpeed)
    {
      if p < cur {
        VisitedStays(hash, data, dictLimit, base, t, u, cur, last, last', p, nbSearches, fullUpdate, favorDecSpeed);
      }
    }
  }

  /** No price up to `last` is higher than before. */
  ghost predicate NoDearer(t: seq<Opt>, u: seq<Opt>, last: nat) {
    last < |t| == |u| && forall i :: 0 <= i <= last ==> u[i].price <= t[i].price
  }

  lemma StillNoDearer(t: seq<Opt>, u: seq<Opt>, v: seq<Opt>, cur: nat, last0: nat, last: nat)
    requires NoDearer(t, u, last0) && OnlyCheaper(u, v, cur, last) && last0 <= last
    ensures NoDearer(t, v, last0)
  {
  }

  /**
    The end of the parse: a match found on the way which is long enough, or the
    step that the table has for the last position; and then the table is
    complete: every position before it has been visited.
  */
  ghost predicate Chosen(hash: seq<byte> -> nat, data: seq<byte>, dictLimit: nat, base: nat, t: seq<Opt>, c: Choice, last0: nat,
                         nbSearches: nat, sufficientLen: nat, fullUpdate: bool, favorDecSpeed: bool)
  {
    || (c.stop == c.cur + 1 && (c.mlen > sufficientLen || c.cur + c.mlen >= OPT_NUM))
    || (last0 <= c.stop < |t| && c.mlen == t[c.stop].mlen && c.off == t[c.stop].off && c.cur + c.mlen == c.stop
        && AllVisited(hash, data, dictLimit, base, t, c.stop, c.stop, nbSearches, fullUpdate, favorDecSpeed))
  }

  /**
    The loop over further positions: fills the price table and settles the last
    step of the parse.
  */
  method Explore(ctx: Context, data: seq<byte>, base: nat, opt: array<Opt>, last0: nat,
                 nbSearches: nat, sufficientLen: nat, fullUpdate: bool, favorDecSpeed: bool) returns (c: Choice)
    requires opt.Length == OPT_NUM + TRAILING_LITERALS && 1 <= last0 < OPT_NUM
    requires TableOk(data, base, opt, last0 + TRAILING_LITERALS) && base + last0 + LAST_LITERALS <= |data|
    requires ctx.Session(data) && ctx.Exact(data) && ctx.nextToUpdate <= ctx.dictLimit + base + 1
    modifies opt, ctx`nextToUpdate, ctx.hashTable, ctx.chainTable
    ensures ctx.Session(data) && ctx.Exact(data) && ctx.nextToUpdate <= ctx.dictLimit + base + c.cur + c.mlen
    ensures ChoiceOk(data, base, opt, c)
    ensures Chosen(ctx.hash, data, ctx.dictLimit, base, opt[..], c, last0, nbSearches, sufficientLen, fullUpdate, favorDecSpeed)
    ensures NoDearer(old(opt[..]), opt[..], last0)
    ensures old(RunTable(opt[..], last0)) && last0 >= 7 && RunParse(data, base, last0, nbSearches, sufficientLen, favorDecSpeed) ==>
      RunChoice(opt, c, last0)
  {
    hide HashChain.Context.Session, HashChain.Context.Exact, EntryOk, RunTable, RunChoice, RunParse, Visited, OnlyCheaper;
    ghost var easy := RunTable(opt[..], last0) && last0 >= 7 && RunParse(data, base, last0, nbSearches, sufficientLen, favorDecSpeed);
    var last := last0;
    var cur := 1;
    while cur < last && base + cur + MF_LIMIT <= |data|
      invariant 1 <= cur <= last < OPT_NUM && base + last + LAST_LITERALS <= |data| && last0 <= last
      invariant TableOk(data, base, opt, last + TRAILING_LITERALS)
      invariant ctx.Session(data) && ctx.Exact(data) && ctx.nextToUpdate <= ctx.dictLimit + base + cur
      invariant AllVisited(ctx.hash, data, ctx.dictLimit, base, opt[..], last, cur, nbSearches, fullUpdate, favorDecSpeed)
      invariant easy ==> last == last0 && RunTable(opt[..], last0)
      invariant NoDearer(old(opt[..]), opt[..], last0)
      decreases OPT_NUM - cur
    {
      hide AllVisited, NoDearer;
      ghost var t, before := opt[..], last;
      var immediate;
      immediate, c, last := Visit(ctx, data, base, opt, cur, last, nbSearches, sufficientLen, fullUpdate, favorDecSpeed);
      if immediate {
        return;
      }
      StillNoDearer(old(opt[..]), t, opt[..], cur, last0, before);
      VisitedOneMore(ctx.hash, data, ctx.dictLimit, base, t, opt[..], cur, before, last, nbSearches, fullUpdate, favorDecSpeed);
      cur := cur + 1;
    }
    EntryIsStep(data, base, last, opt[last]);
    c := Choice(last - opt[last].mlen, opt[last].mlen, opt[last].off, last);
    if easy { RunEnds(opt, last, c); }
  }

  // ----- Turning the parse around -----

  /** A step of a parse: at a distance from the base, one literal or a match. */
  datatype Step = Step(pos: nat, mlen: int, off: int)

  /** The parse that ends with the given step: the table says which step led to its start. */
  ghost function Parse(t: seq<Opt>, pos: nat, mlen: int, off: int): seq<Step>
    requires pos < |t|
    decreases pos
  {
    if t[pos].mlen < 1 || t[pos].mlen > pos then [Step(pos, mlen, off)]
    else Parse(t, pos - t[pos].mlen, t[pos].mlen, t[pos].off) + [Step(pos, mlen, off)]
  }

  /** The steps stand in the table where they start. */
  ghost predicate Recorded(opt: array<Opt>, steps: seq<Step>)
    reads opt
  {
    forall k :: 0 <= k < |steps| ==>
      steps[k].pos < opt.Length && opt[steps[k].pos].mlen == steps[k].mlen && opt[steps[k].pos].off == steps[k].off
  }

  /** Each step starts where the one before ends; the first at the base, the last at `end`. */
  ghost predicate Follows(steps: seq<Step>, end: int) {
    && |steps| > 0 && steps[0].pos == 0
    && (forall k :: 0 <= k < |steps| - 1 ==> steps[k].pos + steps[k].mlen == steps[k + 1].pos)
    && steps[|steps| - 1].pos + steps[|steps| - 1].mlen == end
  }

  /** Every step is possible. */
  ghost predicate StepsOk(data: seq<byte>, base: nat, steps: seq<Step>) {
    forall k :: 0 <= k < |steps| ==> steps[k].mlen >= 1 && StepOk(data, base, steps[k].pos, steps[k].mlen, steps[k].off)
  }

  /** From a table of possible steps comes a possible parse. */
  lemma {:induction false} ParseFollows(data: seq<byte>, base: nat, opt: array<Opt>, pos: nat, mlen: int, off: int)
    requires TableOk(data, base, opt, pos) && mlen >= 1 && StepOk(data, base, pos, mlen, off)
    ensures var steps := Parse(opt[..], pos, mlen, off);
      Follows(steps, pos + mlen) && StepsOk(data, base, steps) && steps[|steps| - 1] == Step(pos, mlen, off)
    decreases pos
  {
    hide EntryOk, StepOk;
    assert EntryOk(data, base, pos, opt[pos]);
    EntryIsStep(data, base, pos, opt[pos]);
    if opt[pos].mlen <= pos {
      ParseFollows(data, base, opt, pos - opt[pos].mlen, opt[pos].mlen, opt[pos].off);
    }
  }

  /** How far a parse is in sequences, when they begin at `anchor`. */
  ghost function ParseEnd(base: nat, anchor: nat, steps: seq<Step>): nat {
    if steps == [] then anchor else
      var last := steps[|steps| - 1];
      if last.mlen >= 4 then base + last.pos + last.mlen else ParseEnd(base, anchor, steps[..|steps| - 1])
  }

  /** The size of these sequences: literals wait for the next match. */
  ghost function ParseSize(base: nat, anchor: nat, steps: seq<Step>): nat {
    if steps == [] then 0 else
      var before, last := steps[..|steps| - 1], steps[|steps| - 1];
      ParseSize(base, anchor, before) +
      if last.mlen >= 4 then SequenceSize(Max(base + last.pos, ParseEnd(base, anchor, before)) - ParseEnd(base, anchor, before), last.mlen)
      else 0
  }

  /** The reverse traversal: turns the backward chain that ends at `c.cur` into a forward chain from position 0, in place. */
  method ReverseTraversal(data: seq<byte>, base: nat, opt: array<Opt>, c: Choice)
    requires ChoiceOk(data, base, opt, c)
    modifies opt
    ensures Recorded(opt, Parse(old(opt[..]), c.cur, c.mlen, c.off))
  {
    hide StepOk, EntryOk;
    ghost var t := opt[..];
    ghost var done: seq<Step> := [];
    forall i | 0 <= i <= c.cur ensures t[i].mlen >= 1 && (i >= 1 ==> t[i].mlen <= i) {
      EntryIsStep(data, base, i, t[i]);
    }
    var candidatePos := c.cur;
    var selectedLength, selectedOffset := c.mlen, c.off;
    while true
      invariant 0 <= candidatePos <= c.cur
      invariant forall i :: 0 <= i <= candidatePos ==> opt[i] == t[i]
      invariant Parse(t, c.cur, c.mlen, c.off) == Parse(t, candidatePos, selectedLength, selectedOffset) + done
      invariant Recorded(opt, done) && forall k :: 0 <= k < |done| ==> candidatePos < done[k].pos
      decreases candidatePos
    {
      var next := opt[candidatePos];
      opt[candidatePos] := next.(mlen := selectedLength, off := selectedOffset);
      done := [Step(candidatePos, selectedLength, selectedOffset)] + done;
      selectedLength, selectedOffset := next.mlen, next.off;
      if next.mlen > candidatePos {
        break;
      }
      candidatePos := candidatePos - next.mlen;
    }
  }

  // ----- Encoding the parse -----

  /** One step more. */
  lemma StepsMore(base: nat, anchor: nat, steps: seq<Step>, k: nat)
    requires k < |steps|
    ensures var at := ParseEnd(base, anchor, steps[..k]);
      if steps[k].mlen >= 4 then
        && ParseEnd(base, anchor, steps[..k + 1]) == base + steps[k].pos + steps[k].mlen
        && ParseSize(base, anchor, steps[..k + 1])
           == ParseSize(base, anchor, steps[..k]) + SequenceSize(Max(base + steps[k].pos, at) - at, steps[k].mlen)
      else
        && ParseEnd(base, anchor, steps[..k + 1]) == at
        && ParseSize(base, anchor, steps[..k + 1]) == ParseSize(base, anchor, steps[..k])
  {
    hide SequenceSize;
    assert steps[..k + 1][..k] == steps[..k];
  }

  /** Some match of the parse does not fit. */
  ghost predicate NoRoom(r: Run, op: nat, anchor: nat, base: nat, steps: seq<Step>) {
    exists k :: 0 <= k < |steps| && DoesNotFit(r, op, anchor, base, steps, k)
  }

  ghost predicate DoesNotFit(r: Run, op: nat, anchor: nat, base: nat, steps: seq<Step>, k: nat)
    requires k < |steps|
  {
    var at := ParseEnd(base, anchor, steps[..k]);
    steps[k].mlen >= 4 && r.oend < RoomNeeded(op + ParseSize(base, anchor, steps[..k]), Max(base + steps[k].pos, at) - at, steps[k].mlen)
  }

  /** Encodes the recorded sequences in order. On overflow, `op` and `anchor` are those of the last complete sequence. */
  method EncodeParse(r: Run, op0: nat, anchor0: nat, base: nat, opt: array<Opt>, c: Choice, ghost steps: seq<Step>)
    returns (overflow: bool, op: nat, anchor: nat, ip: nat)
    requires EncoderOk(r, op0, anchor0, base) && WrittenOk(r, op0, anchor0)
    requires c.cur < c.stop <= c.cur + c.mlen && base + c.cur + c.mlen + LAST_LITERALS <= |r.data|
    requires Recorded(opt, steps) && Follows(steps, c.cur + c.mlen) && StepsOk(r.data, base, steps) && steps[|steps| - 1].pos == c.cur
    modifies r.dst
    ensures WrittenOk(r, op, anchor) && EncoderOk(r, op, anchor, ip)
    ensures overflow ==> !r.limit.NotLimited? && r.oend < CompressBound(|r.data| - r.start)
    ensures if overflow then NoRoom(r, op0, anchor0, base, steps)
            else ip == base + c.cur + c.mlen && op == op0 + ParseSize(base, anchor0, steps) && anchor == ParseEnd(base, anchor0, steps)
  {
    hide Budget, Encoded, EncodedWithin, CompressBound, RoomNeeded, SequenceSize, Usable, ParseSize, ParseEnd;
    op, anchor, ip := op0, anchor0, base;
    var rPos := 0;
    ghost var k := 0;
    NoSteps(base, anchor0, steps);
    while rPos < c.stop
      invariant k <= |steps| && (if k < |steps| then rPos == steps[k].pos else rPos == c.cur + c.mlen)
      invariant ip == base + rPos && rPos <= c.cur + c.mlen
      invariant op == op0 + ParseSize(base, anchor0, steps[..k]) && anchor == ParseEnd(base, anchor0, steps[..k])
      invariant WrittenOk(r, op, anchor) && EncoderOk(r, op, anchor, ip)
      decreases c.cur + c.mlen - rPos
    {
      StepUsable(r.data, base, steps, k, c.cur, c.cur + c.mlen);
      var ml, offset := opt[rPos].mlen, opt[rPos].off;
      StepsMore(base, anchor0, steps, k);
      if ml == 1 {
        ip, rPos, k := ip + 1, rPos + 1, k + 1;
        continue;
      }
      rPos := rPos + ml;
      var op';
      overflow, op' := EmitMatch(r, op, anchor, ip, ml, ip - offset);
      if overflow {
        assert DoesNotFit(r, op0, anchor0, base, steps, k);
        return;
      }
      op, ip, k := op', ip + ml, k + 1;
      anchor := ip;
    }
    AllSteps(steps, k, c.cur, c.stop, c.cur + c.mlen);
    assert steps[..|steps|] == steps;
    overflow := false;
  }

  lemma NoSteps(base: nat, anchor: nat, steps: seq<Step>)
    ensures ParseSize(base, anchor, steps[..0]) == 0 && ParseEnd(base, anchor, steps[..0]) == anchor
  {
  }

  /** A step of the parse that is not a literal is a usable match, and the next one starts at its end. */
  lemma StepUsable(data: seq<byte>, base: nat, steps: seq<Step>, k: nat, cur: nat, end: nat)
    requires k <= |steps| && Follows(steps, end) && StepsOk(data, base, steps)
    ensures k < |steps| ==>
      && (steps[k].mlen == 1 ||
          (steps[k].mlen >= 4 && steps[k].off <= base + steps[k].pos && Usable(data, base + steps[k].pos, steps[k].off, steps[k].mlen)))
      && steps[k].pos + steps[k].mlen == (if k + 1 < |steps| then steps[k + 1].pos else end)
      && steps[k].pos + steps[k].mlen <= end
  {
    if k < |steps| {
      hide Usable;
      if steps[k].mlen != 1 { MinimalLength(data, base + steps[k].pos, steps[k].off, steps[k].mlen); }
      StepsAscend(steps, k, end);
    }
  }

  lemma {:induction false} StepsAscend(steps: seq<Step>, k: nat, end: int)
    requires k < |steps| && Follows(steps, end) && forall i :: 0 <= i < |steps| ==> steps[i].mlen >= 1
    ensures steps[k].pos + steps[k].mlen <= end
    decreases |steps| - k
  {
    if k + 1 < |steps| { StepsAscend(steps, k + 1, end); }
  }

  /** The loop ends with the last step. */
  lemma AllSteps(steps: seq<Step>, k: nat, cur: nat, stop: nat, end: int)
    requires k <= |steps| && Follows(steps, end) && steps[|steps| - 1].pos == cur < stop && forall i :: 0 <= i < |steps| ==> steps[i].mlen >= 1
    requires k < |steps| ==> steps[k].pos >= stop
    ensures k == |steps|
  {
    if k < |steps| { StepBefore(steps, k, end); }
  }

  lemma {:induction false} StepBefore(steps: seq<Step>, k: nat, end: int)
    requires k < |steps| && Follows(steps, end) && forall i :: 0 <= i < |steps| ==> steps[i].mlen >= 1
    ensures steps[k].pos <= steps[|steps| - 1].pos
    decreases |steps| - k
  {
    if k + 1 < |steps| { StepBefore(steps, k + 1, end); }
  }

  // ----- The whole parser -----

  /** What is written of a run: one match, behind one literal or two. */
  ghost predicate RunWritten(n: nat, op: nat) {
    n >= 13 && (op == SequenceSize(1, n - 6) || op == SequenceSize(2, n - 7))
  }

  /** The first match of a run begins a table of its own. */
  lemma FirstIsRun(t: seq<Opt>, u: seq<Opt>, last: nat, off: nat)
    requires last >= 7 && last + 4 <= |t| == |u|
    requires forall i :: 0 <= i <= last ==> t[i] == FirstEntry(1, off, i)
    requires forall i :: 0 <= i < |t| ==> u[i] == if last < i <= last + 3 then Opt(t[last].price + (i - last), 0, 1, i - last) else t[i]
    ensures RunTable(u, last)
  {
  }

  lemma RunFits(r: Run, k: nat)
    requires EasyRun(r) && |r.data| >= 13 && k <= 1
    ensures !r.limit.NotLimited? ==> r.oend >= RoomNeeded(0, 1 + k, |r.data| - 6 - k)
  {
  }

  /** The parse of a run is one match. */
  lemma RunIsOneMatch(r: Run, opt: array<Opt>, c: Choice)
    requires EasyRun(r) && |r.data| >= 13 && opt.Length >= 2 && RunChoice(opt, c, |r.data| - 6)
    ensures var n, steps := |r.data|, Parse(opt[..], c.cur, c.mlen, c.off);
      && ParseEnd(1, 0, steps) == n - 5 && RunWritten(n, ParseSize(1, 0, steps))
      && (!r.limit.NotLimited? ==> !NoRoom(r, 0, 0, 1, steps))
  {
    hide SequenceSize, RoomNeeded;
    RunFits(r, c.cur);
    var last := Step(c.cur, c.mlen, c.off);
    var steps := Parse(opt[..], c.cur, c.mlen, c.off);
    if c.cur == 0 {
      assert steps == [last] && steps[..0] == [];
    } else {
      var first := Step(0, 1, opt[1].off);
      assert steps == [first, last] && steps[..1] == [first] && steps[..0] == [];
      assert ParseEnd(1, 0, [first]) == 0 && ParseSize(1, 0, [first]) == 0 by { assert [first][..0] == []; }
    }
  }

  /** In a run, the first match was found at its second byte. */
  ghost predicate RunFrom(r: Run, op: nat, anchor: nat, ip: nat, len: nat, nbSearches: nat, favorDecSpeed: bool) {
    EasyRun(r) && op == 0 == anchor && ip == 1 && len == |r.data| - 6 >= 7 && nbSearches >= 1 && !favorDecSpeed
  }

  lemma RunFromSays(r: Run, op: nat, anchor: nat, ip: nat, len: nat, nbSearches: nat, sufficientLen: nat, favorDecSpeed: bool)
    requires RunFrom(r, op, anchor, ip, len, nbSearches, favorDecSpeed)
    ensures op == 0 == anchor && ip == 1 && |r.data| >= 13 && len == |r.data| - 6 && EasyRun(r)
    ensures !r.limit.NotLimited? ==>
      r.oend >= RoomNeeded(0, 1, |r.data| - 6) && r.oend >= RoomNeeded(0, 2, |r.data| - 7)
    ensures RunWritten(|r.data|, SequenceSize(1, |r.data| - 6))
    ensures len <= sufficientLen < OPT_NUM ==> RunParse(r.data, ip, len, nbSearches, sufficientLen, favorDecSpeed)
  {
    RunFits(r, 0);
    RunFits(r, 1);
  }

  /** One turn of the main loop, when a first match was found at `ip`: it is long enough, or a parse is chosen and encoded. */
  method EncodeFrom(ctx: Context, r: Run, op0: nat, anchor0: nat, ip0: nat, opt: array<Opt>, len: nat, off: nat,
                    nbSearches: nat, sufficientLen: nat, fullUpdate: bool, favorDecSpeed: bool)
    returns (overflow: bool, op: nat, anchor: nat, ip: nat)
    requires opt.Length == OPT_NUM + TRAILING_LITERALS && sufficientLen < OPT_NUM
    requires EncoderOk(r, op0, anchor0, ip0) && WrittenOk(r, op0, anchor0)
    requires ctx.Session(r.data) && ctx.Exact(r.data) && ctx.nextToUpdate == ctx.dictLimit + ip0
    requires Usable(r.data, ip0, off, len)
    modifies r.dst, opt, ctx`nextToUpdate, ctx.hashTable, ctx.chainTable
    ensures WrittenOk(r, op, anchor) && EncoderOk(r, op, anchor, ip)
    ensures overflow ==> !r.limit.NotLimited? && r.oend < CompressBound(|r.data| - r.start)
    ensures ctx.Session(r.data) && ctx.Exact(r.data)
    ensures !overflow ==> ip0 < ip <= |r.data| && ctx.nextToUpdate <= ctx.dictLimit + ip
    ensures RunFrom(r, op0, anchor0, ip0, len, nbSearches, favorDecSpeed) ==>
      !overflow && anchor == ip == |r.data| - 5 && RunWritten(|r.data|, op)
  {
    hide Budget, Encoded, EncodedWithin, CompressBound, HashChain.Context.Session, HashChain.Context.Exact, EntryOk, StepOk;
    hide RunFrom, RunWritten, RoomNeeded, SequenceSize;
    op, anchor, ip := op0, anchor0, ip0;
    if len > sufficientLen {
      var op';
      overflow, op' := EmitMatch(r, op, anchor, ip, len, ip - off);
      if RunFrom(r, op0, anchor0, ip0, len, nbSearches, favorDecSpeed) {
        RunFromSays(r, op0, anchor0, ip0, len, nbSearches, sufficientLen, favorDecSpeed);
      }
      if !overflow {
        op, ip := op', ip + len;
        anchor := ip;
      }
      return;
    }
    ghost var t, c;
    overflow, op, anchor, ip, t, c :=
      EncodeBest(ctx, r, op0, anchor0, ip0, opt, len, off, nbSearches, sufficientLen, fullUpdate, favorDecSpeed);
  }

  /** Every position costs at most what it costs as part of the first match. */
  ghost predicate CheaperThanFirst(t: seq<Opt>, llen: nat, off: nat, len: nat) {
    len < |t| && forall i :: 0 <= i <= len ==> t[i].price <= FirstEntry(llen, off, i).price
  }

  lemma AgainstFirst(first: seq<Opt>, before: seq<Opt>, t: seq<Opt>, llen: nat, off: nat, len: nat)
    requires len < |first| == |before| && forall i :: 0 <= i <= len ==> first[i] == FirstEntry(llen, off, i)
    requires (forall i :: 0 <= i <= len ==> before[i] == first[i]) && NoDearer(before, t, len)
    ensures CheaperThanFirst(t, llen, off, len)
  {
    hide FirstEntry;
  }

  /**
    A parse of what the first match covers, and maybe of more: prices never
    exceed those of the first match, the choice is that of the complete table
    `t`, and just the sequences of this parse are written.
  */
  method EncodeBest(ctx: Context, r: Run, op0: nat, anchor0: nat, ip0: nat, opt: array<Opt>, len: nat, off: nat,
                    nbSearches: nat, sufficientLen: nat, fullUpdate: bool, favorDecSpeed: bool)
    returns (overflow: bool, op: nat, anchor: nat, ip: nat, ghost t: seq<Opt>, ghost c: Choice)
    requires opt.Length == OPT_NUM + TRAILING_LITERALS && len <= sufficientLen < OPT_NUM
    requires EncoderOk(r, op0, anchor0, ip0) && WrittenOk(r, op0, anchor0)
    requires ctx.Session(r.data) && ctx.Exact(r.data) && ctx.nextToUpdate == ctx.dictLimit + ip0
    requires Usable(r.data, ip0, off, len)
    modifies r.dst, opt, ctx`nextToUpdate, ctx.hashTable, ctx.chainTable
    ensures WrittenOk(r, op, anchor) && EncoderOk(r, op, anchor, ip)
    ensures overflow ==> !r.limit.NotLimited? && r.oend < CompressBound(|r.data| - r.start)
    ensures ctx.Session(r.data) && ctx.Exact(r.data)
    ensures !overflow ==> ip0 < ip <= |r.data| && ctx.nextToUpdate <= ctx.dictLimit + ip
    ensures Chosen(ctx.hash, r.data, ctx.dictLimit, ip0, t, c, len, nbSearches, sufficientLen, fullUpdate, favorDecSpeed)
    ensures CheaperThanFirst(t, ip0 - anchor0, off, len) && c.cur < |t|
    ensures var steps := Parse(t, c.cur, c.mlen, c.off);
      !overflow ==> op == op0 + ParseSize(ip0, anchor0, steps) && anchor == ParseEnd(ip0, anchor0, steps) && ip == ip0 + c.cur + c.mlen
    ensures RunFrom(r, op0, anchor0, ip0, len, nbSearches, favorDecSpeed) ==>
      !overflow && anchor == ip == |r.data| - 5 && RunWritten(|r.data|, op)
  {
    hide Budget, Encoded, EncodedWithin, CompressBound, HashChain.Context.Session, HashChain.Context.Exact, EntryOk, StepOk;
    hide EasyRun, NoRoom, Recorded, Follows, StepsOk, ParseEnd, ParseSize;
    hide RunFrom, RunWritten, RoomNeeded, SequenceSize, RunTable, RunChoice, RunParse, FirstEntry, Chosen, NoDearer, CheaperThanFirst;
    ghost var easy := RunFrom(r, op0, anchor0, ip0, len, nbSearches, favorDecSpeed);
    if easy { RunFromSays(r, op0, anchor0, ip0, len, nbSearches, sufficientLen, favorDecSpeed); }
    SetFirst(r.data, ip0, opt, ip0 - anchor0, len, off);
    ghost var first := opt[..];
    SetTrailing(r.data, ip0, opt, len);
    if easy { FirstIsRun(first, opt[..], len, off); }
    ghost var before := opt[..];
    var choice := Explore(ctx, r.data, ip0, opt, len, nbSearches, sufficientLen, fullUpdate, favorDecSpeed);
    t, c := opt[..], choice;
    AgainstFirst(first, before, t, ip0 - anchor0, off, len);
    if easy { RunIsOneMatch(r, opt, c); }
    ghost var steps := Parse(opt[..], c.cur, c.mlen, c.off);
    ParseFollows(r.data, ip0, opt, c.cur, c.mlen, c.off);
    ReverseTraversal(r.data, ip0, opt, choice);
    overflow, op, anchor, ip := EncodeParse(r, op0, anchor0, ip0, opt, choice, steps);
  }

  lemma RunSays(r: Run)
    requires EasyRun(r)
    ensures OneByte(r.data) && r.start == 0 && !r.limit.FillOutput? && KeepBack(r) == r
    ensures forall op :: RunWritten(|r.data|, op) ==> |r.data| >= 13
  {
  }

  lemma RunWithLast(r: Run, op: nat, anchor: nat)
    requires EasyRun(r) && (if |r.data| < 13 then op == 0 == anchor else RunWritten(|r.data|, op) && anchor == |r.data| - 5)
    ensures anchor <= |r.data| && op + LastSize(|r.data| - anchor) <= |r.data| / 255 + 16
    ensures r.limit.NotLimited? || op + LastSize(|r.data| - anchor) <= r.oend
  {
  }

  /**
    LZ4HC_compress_optimal. Whatever the search budget, the output of a
    successful run decodes to the input (in fillOutput mode: to its first `end`
    bytes), respects the end-of-block restrictions and fits the budget; a run
    fails only in limitedOutput mode with less than the worst-case capacity.
  */
  method CompressOptimal(ctx: Context, r: Run, nbSearches: nat, sufficientLen0: nat, fullUpdate: bool, favorDecSpeed: bool)
    returns (ok: bool, op: nat, end: nat)
    requires r.Valid() && (r.limit.FillOutput? ==> r.oend >= 1)
    requires ctx.Session(r.data) && ctx.Exact(r.data) && ctx.nextToUpdate <= ctx.dictLimit + r.start
    modifies r.dst, ctx`nextToUpdate, ctx.hashTable, ctx.chainTable
    ensures ok ==> op <= r.dst.Length && Block(r.data, r.start, r.dst[..op], end)
    ensures ok ==> (if r.limit.NotLimited? then op <= CompressBound(|r.data| - r.start) else op <= r.oend)
    ensures ok && !r.limit.FillOutput? ==> end == |r.data|
    ensures ok ==> end == |r.data| || op + Unused(r.oend) >= r.oend
    ensures ctx.Session(r.data) && ctx.Exact(r.data)
    ensures !ok ==> r.limit.LimitedOutput? && r.oend < CompressBound(|r.data| - r.start)
    ensures EasyRun(r) && nbSearches >= 1 && !favorDecSpeed ==> ok && op <= |r.data| / 255 + 16
  {
    hide EncodedWithin, CompressBound, HashChain.Context.Session, HashChain.Context.Exact, Block, Usable;
    hide EasyRun, RunWritten, LastSize;
    var overflow, anchor;
    overflow, op, anchor := ParseAll(ctx, KeepBack(r), nbSearches, sufficientLen0, fullUpdate, favorDecSpeed);
    if EasyRun(r) && nbSearches >= 1 && !favorDecSpeed {
      RunSays(r);
      RunWithLast(r, op, anchor);
    }
    if overflow && !r.limit.FillOutput? {
      return false, op, anchor;
    }
    ok, op, end := LastLiterals(r, op, anchor);
  }

  /** The main loop. */
  method ParseAll(ctx: Context, r: Run, nbSearches: nat, sufficientLen0: nat, fullUpdate: bool, favorDecSpeed: bool)
    returns (overflow: bool, op: nat, anchor: nat)
    requires r.Valid() && ctx.Session(r.data) && ctx.Exact(r.data) && ctx.nextToUpdate <= ctx.dictLimit + r.start
    modifies r.dst, ctx`nextToUpdate, ctx.hashTable, ctx.chainTable
    ensures WrittenOk(r, op, anchor) && EncoderOk(r, op, anchor, anchor)
    ensures overflow ==> !r.limit.NotLimited? && r.oend < CompressBound(|r.data| - r.start)
    ensures ctx.Session(r.data) && ctx.Exact(r.data)
    ensures EasyRun(r) && nbSearches >= 1 && !favorDecSpeed ==>
      !overflow && if |r.data| < 13 then op == 0 == anchor else RunWritten(|r.data|, op) && anchor == |r.data| - 5
  {
    hide EncodedWithin, CompressBound, HashChain.Context.Session, HashChain.Context.Exact, Usable;
    hide EasyRun, RunWritten, OneByte;
    ghost var easy := EasyRun(r) && nbSearches >= 1 && !favorDecSpeed;
    if easy { RunSays(r); }
    var opt := new Opt[OPT_NUM + TRAILING_LITERALS];
    var sufficientLen := if sufficientLen0 >= OPT_NUM then OPT_NUM - 1 else sufficientLen0;
    var ip := r.start;
    op, anchor := 0, r.start;
    EncodedNothing(r.data, r.start);
    assert r.dst[..0] == [];
    overflow := false;
    while ip + MF_LIMIT <= |r.data|
      invariant ip <= |r.data| && WrittenOk(r, op, anchor) && EncoderOk(r, op, anchor, ip)
      invariant ctx.Session(r.data) && ctx.Exact(r.data) && ctx.nextToUpdate <= ctx.dictLimit + ip
      invariant easy ==> (ip <= 1 && op == 0 == anchor) || (anchor == ip == |r.data| - 5 && RunWritten(|r.data|, op))
      decreases |r.data| - ip
    {
      var len, off := FindLongerMatch(ctx, r.data, ip, MIN_MATCH - 1, nbSearches, favorDecSpeed);
      if len == 0 {
        ip := ip + 1;
        continue;
      }
      assert easy ==> RunFrom(r, op, anchor, ip, len, nbSearches, favorDecSpeed);
      overflow, op, anchor, ip := EncodeFrom(ctx, r, op, anchor, ip, opt, len, off,
                                             nbSearches, sufficientLen, fullUpdate, favorDecSpeed);
      if overflow {
        return;
      }
    }
  }
}
