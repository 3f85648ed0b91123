/**
  The tables of an HC compression context (lz4hc.c): newest position of each
  hash, and for each recent position the distance to the previous one with the
  same hash. The context is in single prefix mode: lowLimit == dictLimit, and
  data[k] is the byte at index dictLimit + k. The hash function is arbitrary.
*/
module HashChain {
  import opened BlockFormat
  import opened Matching
  import opened Sizes

  const HASH_SIZE := 32768
  const CHAIN_SIZE := 65536
  const INDEX_LIMIT := 0xF000_0000

  /** `LZ4_read32`: the word at index `idx`. */
  function WordAt(data: seq<byte>, dictLimit: nat, idx: nat): seq<byte>
    requires dictLimit <= idx && idx - dictLimit + 4 <= |data|
  {
    data[idx - dictLimit..idx - dictLimit + 4]
  }

  /** LZ4HC_hashPtr, whatever hash function is used. */
  function SlotOf(hash: seq<byte> -> nat, word: seq<byte>): nat {
    hash(word) % HASH_SIZE
  }

  /** The newest position of [dictLimit, n) whose word has this hash, or -1. */
  ghost function Latest(hash: seq<byte> -> nat, data: seq<byte>, dictLimit: nat, slot: nat, n: nat): (r: int)
    requires n <= dictLimit || n - dictLimit + 3 <= |data|
    ensures r < n && (r < 0 || dictLimit <= r)
    ensures r >= 0 ==> SlotOf(hash, WordAt(data, dictLimit, r)) == slot
    ensures forall i :: dictLimit <= i < n && i > r ==> SlotOf(hash, WordAt(data, dictLimit, i)) != slot
    decreases n
  {
    if n <= dictLimit then -1
    else if SlotOf(hash, WordAt(data, dictLimit, n - 1)) == slot then n - 1
    else Latest(hash, data, dictLimit, slot, n - 1)
  }

  /** What the chain entry of position `idx` must be. */
  ghost predicate LinkExact(hash: seq<byte> -> nat, data: seq<byte>, dictLimit: nat, idx: nat, link: nat)
    requires dictLimit <= idx && idx - dictLimit + 4 <= |data|
  {
    var previous := Latest(hash, data, dictLimit, SlotOf(hash, WordAt(data, dictLimit, idx)), idx);
    if previous >= 0 then link == Min(idx - previous, MAX_DISTANCE)
    else link >= Min(idx - dictLimit + 1, MAX_DISTANCE)
  }

  /** What the head of chain `slot` must be, once positions below `n` are inserted. */
  ghost predicate HeadExact(hash: seq<byte> -> nat, data: seq<byte>, dictLimit: nat, slot: nat, n: nat, head: nat)
    requires n <= dictLimit || n - dictLimit + 3 <= |data|
  {
    var latest := Latest(hash, data, dictLimit, slot, n);
    if latest >= 0 then head == latest else head < dictLimit
  }

  lemma HeadAdvances(hash: seq<byte> -> nat, data: seq<byte>, dictLimit: nat, slot: nat, n: nat, head: nat)
    requires dictLimit <= n && n - dictLimit + 4 <= |data|
    requires HeadExact(hash, data, dictLimit, slot, n, head)
    ensures HeadExact(hash, data, dictLimit, slot, n + 1,
                      if SlotOf(hash, WordAt(data, dictLimit, n)) == slot then n else head)
  {
  }

  lemma SlotInTable(hash: seq<byte> -> nat, word: seq<byte>)
    ensures 0 <= SlotOf(hash, word) < HASH_SIZE
  {
  }

  /** The distance LZ4HC_Insert stores is the one to the previous position with the same hash. */
  lemma NewLink(hash: seq<byte> -> nat, data: seq<byte>, dictLimit: nat, idx: nat, head: nat)
    requires dictLimit <= idx && idx - dictLimit + 4 <= |data| && head < idx
    requires HeadExact(hash, data, dictLimit, SlotOf(hash, WordAt(data, dictLimit, idx)), idx, head)
    ensures LinkExact(hash, data, dictLimit, idx, Min(idx - head, MAX_DISTANCE))
  {
  }

  class Context {
    const hash: seq<byte> -> nat
    const hashTable: array<nat>
    const chainTable: array<nat>
    var end: nat
    var dictLimit: nat
    var nextToUpdate: nat
    var dirty: bool

    /** LZ4_initStreamHC: the tables hold garbage, and `end` is so far that the first use clears them. */
    constructor (hash: seq<byte> -> nat, hashTable: array<nat>, chainTable: array<nat>)
      requires hashTable.Length == HASH_SIZE && chainTable.Length == CHAIN_SIZE && hashTable != chainTable
      ensures this.hashTable == hashTable && this.chainTable == chainTable && this.hash == hash
      ensures Valid() && end > GB
    {
      this.hash := hash;
      this.hashTable := hashTable;
      this.chainTable := chainTable;
      end := 0xFFFF_FFFF_FFFF_FFFF;
      dictLimit := 0;
      nextToUpdate := 0;
      dirty := false;
    }

    ghost predicate Shape()
    {
      hashTable.Length == HASH_SIZE && chainTable.Length == CHAIN_SIZE && hashTable != chainTable
    }

    /** What holds between calls: unless the tables are about to be cleared, they only know positions before `end`. */
    ghost predicate Valid()
      reads this, hashTable, chainTable
    {
      && Shape()
      && (end <= GB ==> nextToUpdate <= end
                        && (forall h :: 0 <= h < HASH_SIZE ==> hashTable[h] <= end)
                        && (forall k :: 0 <= k < CHAIN_SIZE ==> chainTable[k] <= MAX_DISTANCE))
    }

    /** A context that any one-shot call may reuse. */
    ghost predicate Ready()
      reads this, hashTable, chainTable
    {
      Shape() && (dirty || Valid())
    }

    /** Within a session: the tables are sound for every search at or after `nextToUpdate`. */
    ghost predicate Session(data: seq<byte>)
      reads this`nextToUpdate, this`dictLimit, hashTable, chainTable
    {
      && Shape() && KB64 <= dictLimit <= nextToUpdate && dictLimit + |data| <= INDEX_LIMIT
      && (nextToUpdate == dictLimit || nextToUpdate - dictLimit + 3 <= |data|)
      && (forall h :: 0 <= h < HASH_SIZE ==> hashTable[h] < nextToUpdate)
      && (forall k :: 0 <= k < CHAIN_SIZE ==> chainTable[k] <= MAX_DISTANCE)
    }

    /** The head of each chain is the newest position of its hash; entries of earlier sessions lie before dictLimit. */
    ghost predicate HeadsExact(data: seq<byte>)
      requires Session(data)
      reads this`nextToUpdate, this`dictLimit, hashTable, chainTable
    {
      forall h :: 0 <= h < HASH_SIZE ==>
        HeadExact(hash, data, dictLimit, h, nextToUpdate, hashTable[h])
    }

    /** The chain entry of every position of the last 64 KB is its own: the 16-bit index does not alias. */
    ghost predicate LinksExact(data: seq<byte>)
      requires Session(data)
      reads this`nextToUpdate, this`dictLimit, hashTable, chainTable
    {
      forall idx :: dictLimit <= idx < nextToUpdate && nextToUpdate - idx <= CHAIN_SIZE ==>
        LinkExact(hash, data, dictLimit, idx, chainTable[idx % CHAIN_SIZE])
    }

    ghost predicate Exact(data: seq<byte>)
      requires Session(data)
      reads this`nextToUpdate, this`dictLimit, hashTable, chainTable
    {
      HeadsExact(data) && LinksExact(data)
    }

    /** LZ4_initStreamHC on a state that was never used, or for any purpose: the first use will clear the tables. */
    method InitStream()
      requires Shape()
      modifies this`end, this`dirty
      ensures Valid() && !dirty && end > GB
    {
      end := 0xFFFF_FFFF_FFFF_FFFF;
      dirty := false;
    }

    /** LZ4_resetStreamHC_fast: after a failure the context starts over; otherwise the tables stay and only indices move on. */
    method ResetFast()
      requires Ready()
      modifies this`end, this`dirty
      ensures Valid() && !dirty
      ensures if old(dirty) then end > GB else end == old(end)
    {
      if dirty { InitStream(); }
    }

    /** LZ4HC_init_internal: a new session whose indices lie beyond every index of the earlier ones. */
    method InitInternal()
      requires Valid()
      modifies this, hashTable, chainTable
      ensures Session([]) && Exact([]) && nextToUpdate == dictLimit == end && end <= GB + KB64 && dirty == old(dirty)
      ensures dictLimit == (if old(end) <= GB then old(end) else 0) + KB64
      ensures old(end) <= GB ==> hashTable[..] == old(hashTable[..]) && chainTable[..] == old(chainTable[..])
    {
      var startingOffset := end;
      if startingOffset > GB {
        ClearTables();
        startingOffset := 0;
      }
      startingOffset := startingOffset + KB64;
      nextToUpdate := startingOffset;
      end := startingOffset;
      dictLimit := startingOffset;
    }

    method ClearTables()
      requires Shape()
      modifies hashTable, chainTable
      ensures forall h :: 0 <= h < HASH_SIZE ==> hashTable[h] == 0
      ensures forall k :: 0 <= k < CHAIN_SIZE ==> chainTable[k] == MAX_DISTANCE
    {
      forall h | 0 <= h < HASH_SIZE {
        hashTable[h] := 0;
      }
      forall k | 0 <= k < CHAIN_SIZE {
        chainTable[k] := MAX_DISTANCE;
      }
    }

    /** One turn of LZ4HC_Insert: position `nextToUpdate` becomes the head of its chain. */
    method InsertOne(data: seq<byte>)
      requires Session(data) && Exact(data) && nextToUpdate - dictLimit + 4 <= |data|
      modifies this`nextToUpdate, hashTable, chainTable
      ensures nextToUpdate == old(nextToUpdate) + 1
      ensures Session(data) && Exact(data)
    {
      hide HeadExact, SlotOf, Latest;
      var idx := nextToUpdate;
      var h := SlotOf(hash, WordAt(data, dictLimit, idx));
      SlotInTable(hash, WordAt(data, dictLimit, idx));
      var delta := idx - hashTable[h];
      if delta > MAX_DISTANCE {
        delta := MAX_DISTANCE;
      }
      NewLink(hash, data, dictLimit, idx, hashTable[h]);
      forall s | 0 <= s < HASH_SIZE
        ensures HeadExact(hash, data, dictLimit, s, idx + 1, if s == h then idx else hashTable[s])
      {
        HeadAdvances(hash, data, dictLimit, s, idx, hashTable[s]);
      }
      hide LinkExact;
      chainTable[idx % CHAIN_SIZE] := delta;
      hashTable[h] := idx;
      nextToUpdate := idx + 1;
      NoAlias(idx);
    }

    /** Positions of a 64 KB window have different 16-bit indices. */
    lemma NoAlias(idx: nat)
      ensures forall i :: 0 <= i < idx && idx + 1 - i <= CHAIN_SIZE ==> i % CHAIN_SIZE != idx % CHAIN_SIZE
    {
    }

    /** LZ4HC_Insert: all positions before `ip` enter the tables. */
    method Insert(data: seq<byte>, ip: nat)
      requires Session(data) && Exact(data) && nextToUpdate <= dictLimit + ip && ip + 3 <= |data|
      modifies this`nextToUpdate, hashTable, chainTable
      ensures Session(data) && Exact(data) && nextToUpdate == dictLimit + ip
    {
      hide HeadsExact, LinksExact;
      while nextToUpdate < dictLimit + ip
        invariant Session(data) && Exact(data) && nextToUpdate <= dictLimit + ip
      {
        InsertOne(data);
      }
    }

    /** The tables stay exact when more data follows. */
    lemma DataGrows(data: seq<byte>, more: seq<byte>)
      requires Session(data) && Exact(data) && dictLimit + |data| + |more| <= INDEX_LIMIT
      ensures Session(data + more) && Exact(data + more)
    {
      hide Latest;
      forall h | 0 <= h < HASH_SIZE
        ensures HeadExact(hash, data + more, dictLimit, h, nextToUpdate, hashTable[h])
      {
        LatestGrows(hash, data, more, dictLimit, h, nextToUpdate);
      }
      forall idx | dictLimit <= idx < nextToUpdate && nextToUpdate - idx <= CHAIN_SIZE
        ensures LinkExact(hash, data + more, dictLimit, idx, chainTable[idx % CHAIN_SIZE])
      {
        WordGrows(data, more, dictLimit, idx);
        LatestGrows(hash, data, more, dictLimit, SlotOf(hash, WordAt(data, dictLimit, idx)), idx);
        assert LinkExact(hash, data, dictLimit, idx, chainTable[idx % CHAIN_SIZE]);
      }
    }

    /** Between calls, what is left of a session is enough for the next one. */
    lemma SessionIsValid(data: seq<byte>)
      requires Session(data) && nextToUpdate <= end
      ensures Valid()
    {
    }

    /**
      Following the chain from the head of a hash visits exactly the earlier
      positions of the window that have this hash, newest first.
    */
    lemma ChainIsExact(data: seq<byte>, slot: nat, low: nat)
      requires Session(data) && Exact(data) && slot < HASH_SIZE
      requires dictLimit <= low <= nextToUpdate && nextToUpdate - low <= MAX_DISTANCE
      ensures Walk(chainTable[..], hashTable[slot], low) == Candidates(hash, data, dictLimit, slot, nextToUpdate, low)
    {
      hide Walk, Candidates;
      var l := Latest(hash, data, dictLimit, slot, nextToUpdate);
      CandidatesFromLatest(hash, data, dictLimit, slot, nextToUpdate, low);
      assert HeadExact(hash, data, dictLimit, slot, nextToUpdate, hashTable[slot]);
      if l >= low {
        forall idx | low <= idx <= l
          ensures LinkExact(hash, data, dictLimit, idx, chainTable[..][idx % CHAIN_SIZE])
        {
          assert LinkExact(hash, data, dictLimit, idx, chainTable[idx % CHAIN_SIZE]);
        }
        WalkFromPosition(hash, data, dictLimit, slot, chainTable[..], l, low);
      } else {
        WalkBelow(chainTable[..], hashTable[slot], low);
      }
    }
  }

  lemma WordGrows(data: seq<byte>, more: seq<byte>, dictLimit: nat, idx: nat)
    requires dictLimit <= idx && idx - dictLimit + 4 <= |data|
    ensures WordAt(data + more, dictLimit, idx) == WordAt(data, dictLimit, idx)
  {
  }

  lemma {:induction false} LatestGrows(hash: seq<byte> -> nat, data: seq<byte>, more: seq<byte>, dictLimit: nat, slot: nat, n: nat)
    requires n <= dictLimit || n - dictLimit + 3 <= |data|
    ensures Latest(hash, data + more, dictLimit, slot, n) == Latest(hash, data, dictLimit, slot, n)
    decreases n
  {
    if n > dictLimit {
      WordGrows(data, more, dictLimit, n - 1);
      LatestGrows(hash, data, more, dictLimit, slot, n - 1);
    }
  }

  /** The positions a search visits: from `idx`, each chain entry leads to the next, until below `low`. */
  ghost function Walk(chain: seq<nat>, idx: int, low: nat): seq<int>
    requires |chain| == CHAIN_SIZE
    decreases idx
  {
    if idx < low then []
    else if chain[idx % CHAIN_SIZE] == 0 then [idx]
    else [idx] + Walk(chain, idx - chain[idx % CHAIN_SIZE], low)
  }

  /** All positions of [low, n) with this hash, newest first. */
  ghost function Candidates(hash: seq<byte> -> nat, data: seq<byte>, dictLimit: nat, slot: nat, n: nat, low: nat): seq<int>
    requires dictLimit <= low && (n <= low || n - dictLimit + 3 <= |data|)
    decreases n
  {
    if n <= low then []
    else if SlotOf(hash, WordAt(data, dictLimit, n - 1)) == slot then
      [n - 1] + Candidates(hash, data, dictLimit, slot, n - 1, low)
    else Candidates(hash, data, dictLimit, slot, n - 1, low)
  }

  lemma {:induction false} CandidatesFromLatest(hash: seq<byte> -> nat, data: seq<byte>, dictLimit: nat, slot: nat, n: nat, low: nat)
    requires dictLimit <= low && (n <= dictLimit || n - dictLimit + 3 <= |data|)
    ensures var l := Latest(hash, data, dictLimit, slot, n);
            Candidates(hash, data, dictLimit, slot, n, low)
            == if l >= low then Candidates(hash, data, dictLimit, slot, l + 1, low) else []
    decreases n
  {
    if n > low && SlotOf(hash, WordAt(data, dictLimit, n - 1)) != slot {
      CandidatesFromLatest(hash, data, dictLimit, slot, n - 1, low);
    }
  }

  lemma WalkBelow(chain: seq<nat>, idx: int, low: nat)
    requires |chain| == CHAIN_SIZE && idx < low
    ensures Walk(chain, idx, low) == []
  {
  }

  lemma {:induction false} WalkFromPosition(hash: seq<byte> -> nat, data: seq<byte>, dictLimit: nat, slot: nat, chain: seq<nat>, idx: nat, low: nat)
    requires |chain| == CHAIN_SIZE && dictLimit <= low <= idx && idx - low < MAX_DISTANCE
    requires idx - dictLimit + 4 <= |data| && SlotOf(hash, WordAt(data, dictLimit, idx)) == slot
    requires forall i :: low <= i <= idx ==> LinkExact(hash, data, dictLimit, i, chain[i % CHAIN_SIZE])
    ensures Walk(chain, idx, low) == Candidates(hash, data, dictLimit, slot, idx + 1, low)
    decreases idx
  {
    hide Latest;
    var link := chain[idx % CHAIN_SIZE];
    var previous := Latest(hash, data, dictLimit, slot, idx);
    assert LinkExact(hash, data, dictLimit, idx, link);
    CandidatesFromLatest(hash, data, dictLimit, slot, idx, low);
    assert Candidates(hash, data, dictLimit, slot, idx + 1, low) == [idx] + Candidates(hash, data, dictLimit, slot, idx, low);
    if previous >= low {
      assert idx - link == previous;
      WalkFromPosition(hash, data, dictLimit, slot, chain, previous, low);
    } else {
      assert idx - link < low;
      WalkBelow(chain, idx - link, low);
    }
  }
}
