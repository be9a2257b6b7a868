/** The two ring caches in front of the binary search, and lookup through them. */
module LookupCache {
  import opened Bytes
  import opened LemmaBlock
  import opened BlockFacts
  import opened SpellingOrder
  import opened DictModel
  import opened DictInvariants
  import opened DictQuery

  const CACHE_SIZE: nat := 4
  const MISS_CACHE_SIZE: nat := MAX_LEMMA_SIZE - 1

  /** A ring of signatures; the slots from head up to tail, cyclically, are in use. */
  datatype Ring = Ring(sigs: seq<seq<u32>>, starts: seq<u32>, counts: seq<u32>, head: nat, tail: nat) {
    predicate Valid() {
      |sigs| == |starts| == |counts| && head < |sigs| && tail < |sigs|
      && forall i :: 0 <= i < |sigs| ==> |sigs[i]| == SIGNATURE_WORDS
    }
  }

  predicate InWindow(head: nat, tail: nat, i: nat) {
    if head <= tail then head <= i < tail else i >= head || i < tail
  }

  function Next(i: nat, size: nat): (n: nat)
    requires i < size
    ensures n < size
  {
    if i + 1 >= size then i + 1 - size else i + 1
  }

  /** The window with one more slot at its end. */
  lemma WindowGrows(head: nat, i: nat, size: nat)
    requires head < size && i < size && Next(i, size) != head
    ensures forall j :: 0 <= j < size ==> (InWindow(head, Next(i, size), j) <==> InWindow(head, i, j) || j == i)
  {
  }

  method SameSignature(a: seq<u32>, b: seq<u32>) returns (r: bool)
    requires |a| == |b| == SIGNATURE_WORDS
    ensures r <==> a == b
  {
    var j := 0;
    while j < SIGNATURE_WORDS && a[j] == b[j]
      invariant j <= SIGNATURE_WORDS && forall i :: 0 <= i < j ==> a[i] == b[i]
    {
      j := j + 1;
    }
    r := j == SIGNATURE_WORDS;
  }

  /** The search loop of `load_cache` and of `load_miss_cache`. */
  method FindSlot(c: Ring, sig: seq<u32>) returns (found: bool, slot: nat)
    requires c.Valid() && |sig| == SIGNATURE_WORDS
    ensures found ==> slot < |c.sigs| && InWindow(c.head, c.tail, slot) && c.sigs[slot] == sig
    ensures !found ==> forall i :: 0 <= i < |c.sigs| && InWindow(c.head, c.tail, i) ==> c.sigs[i] != sig
    ensures c.head == c.tail ==> !found
  {
    found, slot := false, 0;
    if c.head == c.tail {
      return;
    }
    var i: nat := c.head;
    while true
      invariant i < |c.sigs| && InWindow(c.head, c.tail, i)
      invariant forall j :: 0 <= j < |c.sigs| && InWindow(c.head, i, j) ==> c.sigs[j] != sig
      decreases if i < c.tail then c.tail - i else c.tail + |c.sigs| - i
    {
      var same := SameSignature(c.sigs[i], sig);
      if same {
        return true, i;
      }
      WindowGrows(c.head, i, |c.sigs|);
      i := Next(i, |c.sigs|);
      if i == c.tail {
        break;
      }
    }
  }

  /** `save_cache` and `save_miss_cache`: the oldest entry is dropped when the ring is full. */
  method Save(c: Ring, sig: seq<u32>, start: u32, count: u32) returns (r: Ring)
    requires c.Valid() && |c.sigs| >= 2 && |sig| == SIGNATURE_WORDS
    ensures r.Valid() && |r.sigs| == |c.sigs|
    ensures InWindow(r.head, r.tail, c.tail)
    ensures r.sigs == c.sigs[c.tail := sig] && r.starts == c.starts[c.tail := start]
      && r.counts == c.counts[c.tail := count]
    ensures forall i :: 0 <= i < |c.sigs| && InWindow(r.head, r.tail, i) ==> i == c.tail || InWindow(c.head, c.tail, i)
    ensures !InWindow(c.head, c.tail, c.tail)
  {
    var next := Next(c.tail, |c.sigs|);
    var head := c.head;
    if next == head {
      head := Next(head, |c.sigs|);
    }
    r := Ring(c.sigs[c.tail := sig], c.starts[c.tail := start], c.counts[c.tail := count], head, next);
  }

  // ---- What the caches may hold ----

  datatype Caches = Caches(hits: seq<Ring>, misses: seq<Ring>) {
    predicate Valid() {
      && |hits| == |misses| == MAX_LEMMA_SIZE
      && (forall n :: 0 <= n < MAX_LEMMA_SIZE ==> hits[n].Valid() && |hits[n].sigs| == CACHE_SIZE)
      && (forall n :: 0 <= n < MAX_LEMMA_SIZE ==> misses[n].Valid() && |misses[n].sigs| == MISS_CACHE_SIZE)
    }
  }

  function EmptyRing(size: nat): (r: Ring)
    requires size > 0
    ensures r.Valid() && |r.sigs| == size && r.head == r.tail
  {
    Ring(seq(size, _ => [0, 0]), seq(size, _ => 0), seq(size, _ => 0), 0, 0)
  }

  /** `cache_init`. */
  function EmptyCaches(): (c: Caches)
    ensures c.Valid()
  {
    Caches(seq(MAX_LEMMA_SIZE, _ => EmptyRing(CACHE_SIZE)), seq(MAX_LEMMA_SIZE, _ => EmptyRing(MISS_CACHE_SIZE)))
  }

  /** The search finds nothing, and there is no live entry with the key. */
  ghost predicate Absent(spl: Spellings, d: Dict, k: seq<u8>) {
    && Landing(spl, d, k) == -1
    && forall i :: 0 <= i < |d.offsets| && !Removed(d.offsets[i]) ==> KeyAt(spl, d, i) != k
  }

  /** A hit entry is right for every query of its length with its signature. */
  ghost predicate HitOk(spl: Spellings, d: Dict, n: nat, sig: seq<u32>, start: nat, count: nat) {
    forall k: seq<u8> {:trigger Signature(k)} ::
      |k| == n <= MAX_LEMMA_SIZE && Signature(k) == sig ==> RangeOk(spl, d, k, start, count)
  }

  ghost predicate MissOk(spl: Spellings, d: Dict, n: nat, sig: seq<u32>) {
    forall k: seq<u8> {:trigger Signature(k)} :: |k| == n <= MAX_LEMMA_SIZE && Signature(k) == sig ==> Absent(spl, d, k)
  }

  ghost predicate HitsOk(spl: Spellings, d: Dict, n: nat, c: Ring) {
    c.Valid()
    && forall i ::
         0 <= i < |c.sigs| && InWindow(c.head, c.tail, i) ==> HitOk(spl, d, n, c.sigs[i], c.starts[i], c.counts[i])
  }

  ghost predicate MissesOk(spl: Spellings, d: Dict, n: nat, c: Ring) {
    c.Valid() && forall i :: 0 <= i < |c.sigs| && InWindow(c.head, c.tail, i) ==> MissOk(spl, d, n, c.sigs[i])
  }

  ghost predicate CachesOk(spl: Spellings, d: Dict, c: Caches) {
    && c.Valid()
    && forall n :: 0 <= n < MAX_LEMMA_SIZE ==> HitsOk(spl, d, n + 1, c.hits[n]) && MissesOk(spl, d, n + 1, c.misses[n])
  }

  lemma EmptyCachesOk(spl: Spellings, d: Dict)
    ensures CachesOk(spl, d, EmptyCaches())
  {
    hide HitOk, MissOk;
  }

  // ---- The caches survive every change that keeps the order of the index ----

  /** e has the entries of d at the same places, and none of them came back to life. */
  ghost predicate OnlyRemovals(d: Dict, e: Dict) {
    && e.block == d.block && |e.offsets| == |d.offsets|
    && forall i ::
         0 <= i < |d.offsets| ==>
           Pos(e.offsets[i]) == Pos(d.offsets[i]) && (Removed(d.offsets[i]) ==> Removed(e.offsets[i]))
  }

  lemma RangeSurvives(spl: Spellings, d: Dict, e: Dict, k: seq<u8>, start: nat, count: nat)
    requires OnlyRemovals(d, e)
    ensures RangeOk(spl, d, k, start, count) ==> RangeOk(spl, e, k, start, count)
    ensures Absent(spl, d, k) ==> Absent(spl, e, k)
  {
    hide Landing, KeyAt;
    SameKeys(spl, d, e);
    SameLanding(spl, d, e, k, 0, |d.offsets| - 1, -1);
    LandingIs(spl, d, k);
    LandingIs(spl, e, k);
    hide OnlyRemovals;
    forall i | 0 <= i < |d.offsets|
      ensures KeyAt(spl, e, i) == KeyAt(spl, d, i) && (Removed(d.offsets[i]) ==> Removed(e.offsets[i]))
    {
      StaysRemoved(d, e, i);
    }
    hide Removed;
  }

  lemma SameKeys(spl: Spellings, d: Dict, e: Dict)
    requires OnlyRemovals(d, e)
    ensures |e.offsets| == |d.offsets| && forall i :: 0 <= i < |d.offsets| ==> KeyAt(spl, e, i) == KeyAt(spl, d, i)
  {
  }

  lemma StaysRemoved(d: Dict, e: Dict, i: nat)
    requires OnlyRemovals(d, e) && i < |d.offsets|
    ensures Removed(d.offsets[i]) ==> Removed(e.offsets[i])
  {
  }

  /** Removed entries take part in the binary search. */
  lemma {:induction false} SameLanding(spl: Spellings, d: Dict, e: Dict, k: seq<u8>, begin: int, end: int, f: int)
    requires |e.offsets| == |d.offsets| && forall i :: 0 <= i < |d.offsets| ==> KeyAt(spl, e, i) == KeyAt(spl, d, i)
    requires 0 <= begin <= end + 1 <= |d.offsets|
    ensures Bisect(spl, e, k, begin, end, f) == Bisect(spl, d, k, begin, end, f)
    decreases end - begin + 1
  {
    hide Compare, KeyAt;
    if begin <= end {
      var middle := (begin + end) / 2;
      var g := if k <= KeyAt(spl, d, middle) then middle else f;
      SameLanding(spl, d, e, k, middle + 1, end, g);
      SameLanding(spl, d, e, k, begin, middle - 1, g);
    }
  }

  lemma CachesSurvive(spl: Spellings, d: Dict, e: Dict, c: Caches)
    requires OnlyRemovals(d, e) && CachesOk(spl, d, c)
    ensures CachesOk(spl, e, c)
  {
    hide OnlyRemovals, RangeOk, Absent, Signature, InWindow;
    forall n, i | 0 <= n < MAX_LEMMA_SIZE && 0 <= i < |c.hits[n].sigs| && InWindow(c.hits[n].head, c.hits[n].tail, i)
      ensures HitOk(spl, e, n + 1, c.hits[n].sigs[i], c.hits[n].starts[i], c.hits[n].counts[i])
    {
      var r := c.hits[n];
      assert HitOk(spl, d, n + 1, r.sigs[i], r.starts[i], r.counts[i]);
      forall k: seq<u8> | |k| == n + 1 <= MAX_LEMMA_SIZE && Signature(k) == r.sigs[i]
        ensures RangeOk(spl, e, k, r.starts[i], r.counts[i])
      {
        RangeSurvives(spl, d, e, k, r.starts[i], r.counts[i]);
      }
    }
    forall n, i | 0 <= n < MAX_LEMMA_SIZE && 0 <= i < |c.misses[n].sigs|
      && InWindow(c.misses[n].head, c.misses[n].tail, i)
      ensures MissOk(spl, e, n + 1, c.misses[n].sigs[i])
    {
      assert MissOk(spl, d, n + 1, c.misses[n].sigs[i]);
      forall k: seq<u8> | |k| == n + 1 <= MAX_LEMMA_SIZE && Signature(k) == c.misses[n].sigs[i]
        ensures Absent(spl, e, k)
      {
        RangeSurvives(spl, d, e, k, 0, 0);
      }
    }
  }

  // ---- Lookup through the caches ----

  lemma RangeForSignature(spl: Spellings, d: Dict, k: seq<u8>, start: nat, count: nat)
    requires |k| <= MAX_LEMMA_SIZE
    ensures RangeOk(spl, d, k, start, count) ==> HitOk(spl, d, |k|, Signature(k), start, count)
    ensures Absent(spl, d, k) ==> MissOk(spl, d, |k|, Signature(k))
  {
    forall x: seq<u8> | |x| == |k| && Signature(x) == Signature(k) ensures x == k {
      SignatureInjective(x, k);
    }
  }

  lemma SaveHit(spl: Spellings, d: Dict, n: nat, c: Ring, r: Ring, sig: seq<u32>, start: u32, count: u32)
    requires HitsOk(spl, d, n, c) && HitOk(spl, d, n, sig, start, count) && r.Valid() && |r.sigs| == |c.sigs|
    requires r.sigs == c.sigs[c.tail := sig] && r.starts == c.starts[c.tail := start]
      && r.counts == c.counts[c.tail := count]
    requires forall i :: 0 <= i < |c.sigs| && InWindow(r.head, r.tail, i) ==> i == c.tail || InWindow(c.head, c.tail, i)
    ensures HitsOk(spl, d, n, r)
  {
    hide HitOk, InWindow;
  }

  lemma SaveMiss(spl: Spellings, d: Dict, n: nat, c: Ring, r: Ring, sig: seq<u32>)
    requires MissesOk(spl, d, n, c) && MissOk(spl, d, n, sig) && r.Valid() && |r.sigs| == |c.sigs|
    requires r.sigs == c.sigs[c.tail := sig]
    requires forall i :: 0 <= i < |c.sigs| && InWindow(r.head, r.tail, i) ==> i == c.tail || InWindow(c.head, c.tail, i)
    ensures MissesOk(spl, d, n, r)
  {
    hide MissOk, InWindow;
  }

  /** Every cached range lies inside the index. */
  ghost predicate CachesInRange(d: Dict, c: Caches) {
    c.Valid()
    && forall n, i :: 0 <= n < MAX_LEMMA_SIZE && 0 <= i < CACHE_SIZE && InWindow(c.hits[n].head, c.hits[n].tail, i) ==>
      c.hits[n].starts[i] + c.hits[n].counts[i] <= |d.offsets|
  }

  /** Scanning [start, end) meets every live entry with the key of the query, and what may stop a
      cached scan early is only its last entry. */
  ghost predicate CoversQuery(spl: Spellings, d: Dict, asked: seq<u16>, start: nat, end: nat, cached: bool) {
    && start <= end <= |d.offsets|
    && (forall i ::
          0 <= i < |d.offsets| && !Removed(d.offsets[i]) && KeyAt(spl, d, i) == spl.Initials(asked) ==>
            start <= i < end)
    && (cached ==>
          forall i :: start <= i < end - 1 && !Removed(d.offsets[i]) ==> KeyAt(spl, d, i) == spl.Initials(asked))
    && (forall i :: start <= i < end ==> |KeyAt(spl, d, i)| >= |asked|)
  }

  lemma RangeCovers(spl: Spellings, d: Dict, asked: seq<u16>, start: nat, count: nat)
    ensures RangeOk(spl, d, spl.Initials(asked), start, count) ==>
              CoversQuery(spl, d, asked, start, start + count, true)
              && Stretch(spl, d, spl.Initials(asked), start, start + count) && count > 0
    ensures Absent(spl, d, spl.Initials(asked)) ==>
              CoversQuery(spl, d, asked, 0, 0, true) && Landing(spl, d, spl.Initials(asked)) == -1
  {
    hide Landing, KeyAt;
  }

  lemma PreparedKey(spl: Spellings, asked: seq<u16>, q: Searchable)
    requires Prepared(spl, asked, q)
    ensures q.signature == Signature(spl.Initials(asked))
  {
  }

  lemma RingsGive(d: Dict, c: Caches, n: nat)
    requires CachesInRange(d, c) && n < MAX_LEMMA_SIZE
    ensures n < |c.hits| == |c.misses| && c.hits[n].Valid() && c.misses[n].Valid()
    ensures |c.hits[n].sigs| == |c.hits[n].starts| == |c.hits[n].counts| == CACHE_SIZE
  {
  }

  lemma SlotInRange(d: Dict, c: Caches, n: nat, slot: nat)
    requires CachesInRange(d, c) && n < MAX_LEMMA_SIZE && n < |c.hits| && slot < CACHE_SIZE
    requires |c.hits[n].starts| == |c.hits[n].counts| == CACHE_SIZE && InWindow(c.hits[n].head, c.hits[n].tail, slot)
    ensures c.hits[n].starts[slot] as nat + c.hits[n].counts[slot] as nat <= |d.offsets|
  {
  }

  lemma HitGives(spl: Spellings, d: Dict, c: Caches, n: nat, slot: nat, k: seq<u8>)
    requires CachesOk(spl, d, c) && n < MAX_LEMMA_SIZE && |k| == n + 1 && n < |c.hits| && slot < |c.hits[n].sigs|
    requires |c.hits[n].sigs| == |c.hits[n].starts| == |c.hits[n].counts|
    requires InWindow(c.hits[n].head, c.hits[n].tail, slot) && c.hits[n].sigs[slot] == Signature(k)
    ensures RangeOk(spl, d, k, c.hits[n].starts[slot], c.hits[n].counts[slot])
  {
    hide RangeOk, Signature, InWindow, MissesOk;
    assert HitOk(spl, d, n + 1, c.hits[n].sigs[slot], c.hits[n].starts[slot], c.hits[n].counts[slot]);
  }

  lemma MissGives(spl: Spellings, d: Dict, c: Caches, n: nat, slot: nat, k: seq<u8>)
    requires CachesOk(spl, d, c) && n < MAX_LEMMA_SIZE && |k| == n + 1 && n < |c.misses| && slot < |c.misses[n].sigs|
    requires InWindow(c.misses[n].head, c.misses[n].tail, slot) && c.misses[n].sigs[slot] == Signature(k)
    ensures Absent(spl, d, k)
  {
    hide Absent, Signature, InWindow, HitsOk;
    assert MissOk(spl, d, n + 1, c.misses[n].sigs[slot]);
  }

  /** `load_cache`. */
  method LoadCache(spl: Spellings, d: Dict, c: Caches, q: Searchable, ghost asked: seq<u16>)
    returns (cached: bool, start: nat, count: nat)
    requires Prepared(spl, asked, q) && |asked| > 0 && CachesInRange(d, c)
    ensures start + count <= |d.offsets|
    ensures cached && CachesOk(spl, d, c) ==> CoversQuery(spl, d, asked, start, start + count, true)
    ensures cached && CachesOk(spl, d, c) ==> count > 0 && Stretch(spl, d, spl.Initials(asked), start, start + count)
    ensures c.hits[|asked| - 1].head == c.hits[|asked| - 1].tail ==> !cached
  {
    hide *;
    PreparedLength(spl, asked, q);
    PreparedKey(spl, asked, q);
    var n := |q.starts| - 1;
    RingsGive(d, c, n);
    var found, slot := FindSlot(c.hits[n], q.signature);
    if found {
      SlotInRange(d, c, n, slot);
      if CachesOk(spl, d, c) {
        HitGives(spl, d, c, n, slot, spl.Initials(asked));
        RangeCovers(spl, d, asked, c.hits[n].starts[slot], c.hits[n].counts[slot]);
      }
      return true, c.hits[n].starts[slot], c.hits[n].counts[slot];
    }
    return false, 0, 0;
  }

  /** `cache_hit`: the miss cache answers with an empty range, then the hit cache is asked. */
  method CacheHit(spl: Spellings, d: Dict, c: Caches, q: Searchable, ghost asked: seq<u16>)
    returns (cached: bool, start: nat, count: nat)
    requires Prepared(spl, asked, q) && |asked| > 0 && CachesInRange(d, c)
    ensures start + count <= |d.offsets|
    ensures cached && CachesOk(spl, d, c) ==> CoversQuery(spl, d, asked, start, start + count, true)
    ensures cached && CachesOk(spl, d, c) ==>
              if count == 0 then Landing(spl, d, spl.Initials(asked)) == -1
              else Stretch(spl, d, spl.Initials(asked), start, start + count)
  {
    hide *;
    PreparedLength(spl, asked, q);
    PreparedKey(spl, asked, q);
    var n := |q.starts| - 1;
    RingsGive(d, c, n);
    var found, slot := FindSlot(c.misses[n], q.signature);
    if found {
      if CachesOk(spl, d, c) {
        MissGives(spl, d, c, n, slot, spl.Initials(asked));
        RangeCovers(spl, d, asked, 0, 0);
      }
      return true, 0, 0;
    }
    cached, start, count := LoadCache(spl, d, c, q, asked);
  }

  // ---- From a scan to the whole answer ----

  /** From the least matching index on, no key is smaller. */
  lemma FirstCovers(spl: Spellings, d: Dict, k: seq<u8>, r: nat, i: nat)
    requires Sorted(spl, d.block, d.offsets) && FirstOk(spl, d, k, r) && r <= i < |d.offsets|
    ensures Compare(KeyAt(spl, d, i), k) >= 0 && |KeyAt(spl, d, i)| >= |k|
  {
    hide Compare;
    PrefixOrder(k, KeyAt(spl, d, r));
    CompareOrder(KeyAt(spl, d, r), KeyAt(spl, d, i), k);
    CompareOrder(KeyAt(spl, d, i), KeyAt(spl, d, r), k);
    CompareOrder(k, KeyAt(spl, d, i), k);
    CompareLength(KeyAt(spl, d, i), k);
  }

  lemma CompareLength(x: seq<u8>, k: seq<u8>)
    requires Compare(x, k) >= 0
    ensures |x| >= |k|
  {
  }

  /** An uncached scan that broke off passed every entry with the key. */
  lemma BrokeCovers(spl: Spellings, d: Dict, asked: seq<u16>, r: nat, middle: nat)
    requires Sorted(spl, d.block, d.offsets) && FirstOk(spl, d, spl.Initials(asked), r)
    requires Broke(spl, d, spl.Initials(asked), r, middle, false)
    ensures CoversQuery(spl, d, asked, r, middle, false)
  {
    hide Compare;
    var k, x := spl.Initials(asked), KeyAt(spl, d, middle - 1);
    FirstCovers(spl, d, k, r, middle - 1);
    CompareOrder(x, k, k);
    CompareOrder(k, x, k);
    CompareOrder(k, k, k);
    forall i | middle <= i < |d.offsets| ensures KeyAt(spl, d, i) != k {
      CompareOrder(k, x, KeyAt(spl, d, i));
    }
    forall i | r <= i < middle ensures |KeyAt(spl, d, i)| >= |k| {
      FirstCovers(spl, d, k, r, i);
    }
  }

  lemma EndCovers(spl: Spellings, d: Dict, asked: seq<u16>, r: nat)
    requires Sorted(spl, d.block, d.offsets) && FirstOk(spl, d, spl.Initials(asked), r)
    ensures CoversQuery(spl, d, asked, r, |d.offsets|, false)
  {
    hide Sorted;
    forall i | r <= i < |d.offsets| ensures |KeyAt(spl, d, i)| >= |asked| {
      FirstCovers(spl, d, spl.Initials(asked), r, i);
    }
  }

  /** A cached scan breaks off only at the last entry of its range. */
  lemma CachedBreak(spl: Spellings, d: Dict, asked: seq<u16>, start: nat, end: nat, middle: nat)
    requires CoversQuery(spl, d, asked, start, end, true) && middle <= end
    requires Broke(spl, d, spl.Initials(asked), start, middle, true)
    ensures middle == end
  {
  }

  /** What the caller gets: the answer, cut to the buffer. */
  ghost predicate Answers(spl: Spellings, d: Dict, asked: seq<u16>, lpiMax: nat, items: seq<LpiItem>)
    requires spl.Valid() && |d.offsets| == |d.scores| == |d.ids|
  {
    items <= FullList(spl, d, asked) && (|items| == lpiMax || items == FullList(spl, d, asked)) && |items| <= lpiMax
  }

  lemma ScanAnswers(spl: Spellings, d: Dict, asked: seq<u16>, start: nat, end: nat, middle: nat,
    cached: bool, lpiMax: nat,
                    items: seq<LpiItem>)
    requires spl.Valid() && |d.offsets| == |d.scores| == |d.ids| && start <= middle <= end
    requires CoversQuery(spl, d, asked, start, end, cached)
    requires items == MatchList(spl, d, asked, start, middle) && |items| <= lpiMax
    requires |items| == lpiMax || middle == end
    ensures Answers(spl, d, asked, lpiMax, items)
  {
    hide MatchList, KeyAt, FullList;
    FullListWithin(spl, d, asked, start, end);
    MatchListJoin(spl, d, asked, start, middle, end);
  }

  lemma NoneAnswers(spl: Spellings, d: Dict, asked: seq<u16>, lpiMax: nat)
    requires spl.Valid() && |d.offsets| == |d.scores| == |d.ids| && Absent(spl, d, spl.Initials(asked))
    ensures Answers(spl, d, asked, lpiMax, [])
  {
    NoMatches(spl, d, asked, 0, |d.offsets|);
  }

  lemma ScanRange(spl: Spellings, d: Dict, asked: seq<u16>, start: nat, middle: nat)
    requires CoversQuery(spl, d, asked, start, middle, false) && Stretch(spl, d, spl.Initials(asked), start, middle)
    ensures RangeOk(spl, d, spl.Initials(asked), start, middle - start)
  {
    hide Landing;
  }

  lemma StretchIs(spl: Spellings, d: Dict, k: seq<u8>, lo: nat, hi: nat)
    requires lo < hi <= |d.offsets| && lo == Landing(spl, d, k)
    requires forall i :: lo <= i < hi - 1 && !Removed(d.offsets[i]) ==> KeyAt(spl, d, i) == k
    requires hi == |d.offsets| || Broke(spl, d, k, lo, hi, false)
    ensures Stretch(spl, d, k, lo, hi)
  {
  }

  /** What the user dictionary says of longer lemmas: whether some live entry of the stretch that was scanned begins
      with the asked ids. */
  ghost predicate ExtendOk(spl: Spellings, d: Dict, asked: seq<u16>, needExtend: bool)
    requires spl.Valid()
  {
    var lo := Landing(spl, d, spl.Initials(asked));
    if lo < 0 then !needExtend
    else exists hi :: Stretch(spl, d, spl.Initials(asked), lo, hi)
                      && (needExtend <==> Extending(spl, d, asked, lo, hi))
  }

  lemma ExtendIs(spl: Spellings, d: Dict, asked: seq<u16>, needExtend: bool, lo: nat, hi: nat)
    requires spl.Valid() && Stretch(spl, d, spl.Initials(asked), lo, hi)
    requires needExtend <==> Extending(spl, d, asked, lo, hi)
    ensures ExtendOk(spl, d, asked, needExtend)
  {
    hide Extending;
  }

  lemma ExtendNone(spl: Spellings, d: Dict, asked: seq<u16>)
    requires spl.Valid() && Landing(spl, d, spl.Initials(asked)) == -1
    ensures ExtendOk(spl, d, asked, false)
  {
  }

  /** A live entry where the binary search lands that begins with the asked ids, and any live entry that matches them,
      is noticed. */
  lemma LandingExtends(spl: Spellings, d: Dict, asked: seq<u16>, needExtend: bool)
    requires spl.Valid() && ExtendOk(spl, d, asked, needExtend)
    ensures var lo := Landing(spl, d, spl.Initials(asked)); lo >= 0 && ExtendsAt(spl, d, asked, lo) ==> needExtend
  {
    hide Landing, ExtendsAt;
  }

  lemma MatchExtends(spl: Spellings, d: Dict, asked: seq<u16>, i: nat)
    requires spl.Valid() && i < |d.offsets|
    ensures IsMatch(spl, d, asked, i) ==> ExtendsAt(spl, d, asked, i)
  {
  }

  /** Of the longer lemmas only the first live entry e behind those with the key is looked at: if no removed entry ends
      the stretch before, the answer is exact, and it misses any longer lemma behind e. */
  lemma ExtendExactly(spl: Spellings, d: Dict, asked: seq<u16>, needExtend: bool, e: nat)
    requires spl.Valid() && ExtendOk(spl, d, asked, needExtend) && e <= |d.offsets|
    requires var lo := Landing(spl, d, spl.Initials(asked));
             0 <= lo <= e
             && forall i :: lo <= i < e ==> !Removed(d.offsets[i]) && KeyAt(spl, d, i) == spl.Initials(asked)
    requires e < |d.offsets| ==> !Removed(d.offsets[e]) && KeyAt(spl, d, e) != spl.Initials(asked)
    ensures needExtend <==>
            ExtendsAt(spl, d, asked, e)
            || exists i :: Landing(spl, d, spl.Initials(asked)) <= i < e && IsMatch(spl, d, asked, i)
  {
    hide Landing, KeyAt;
    var k := spl.Initials(asked);
    var lo := Landing(spl, d, k);
    var hi :| Stretch(spl, d, k, lo, hi) && (needExtend <==> Extending(spl, d, asked, lo, hi));
    assert hi == if e < |d.offsets| then e + 1 else e;
    forall i | lo <= i < e
      ensures ExtendsAt(spl, d, asked, i) <==> IsMatch(spl, d, asked, i)
    {
      KeyAtIs(spl, d, i);
    }
    if ExtendsAt(spl, d, asked, e) {
      assert Extending(spl, d, asked, lo, hi);
    }
    if i :| lo <= i < e && IsMatch(spl, d, asked, i) {
      assert ExtendsAt(spl, d, asked, i);
    }
  }

  lemma SaveInRange(d: Dict, c: Caches, n: nat, r: Ring)
    requires CachesInRange(d, c) && n < MAX_LEMMA_SIZE && r.Valid() && |r.sigs| == CACHE_SIZE
    requires forall i :: 0 <= i < CACHE_SIZE && InWindow(r.head, r.tail, i) ==> r.starts[i] + r.counts[i] <= |d.offsets|
    ensures CachesInRange(d, c.(hits := c.hits[n := r]))
  {
  }

  /** `cache_push`. */
  method PushHit(spl: Spellings, d: Dict, c: Caches, q: Searchable, ghost asked: seq<u16>, start: nat, count: nat)
    returns (c': Caches)
    requires Prepared(spl, asked, q) && |asked| > 0 && CachesInRange(d, c)
    requires start + count <= |d.offsets| < WORD_RANGE
    ensures CachesInRange(d, c')
    ensures CachesOk(spl, d, c) && RangeOk(spl, d, spl.Initials(asked), start, count) ==> CachesOk(spl, d, c')
  {
    hide RangeOk, Signature;
    var n := |q.starts| - 1;
    var s: u32, m: u32 := start, count;
    var r := Save(c.hits[n], q.signature, s, m);
    c' := c.(hits := c.hits[n := r]);
    SaveInRange(d, c, n, r);
    if CachesOk(spl, d, c) && RangeOk(spl, d, spl.Initials(asked), start, count) {
      RangeForSignature(spl, d, spl.Initials(asked), start, count);
      SaveHit(spl, d, n + 1, c.hits[n], r, q.signature, s, m);
    }
  }

  method PushMiss(spl: Spellings, d: Dict, c: Caches, q: Searchable, ghost asked: seq<u16>) returns (c': Caches)
    requires Prepared(spl, asked, q) && |asked| > 0 && CachesInRange(d, c)
    ensures CachesInRange(d, c')
    ensures CachesOk(spl, d, c) && Absent(spl, d, spl.Initials(asked)) ==> CachesOk(spl, d, c')
  {
    hide Absent, Signature;
    var n := |q.starts| - 1;
    var r := Save(c.misses[n], q.signature, 0, 0);
    c' := c.(misses := c.misses[n := r]);
    if CachesOk(spl, d, c) && Absent(spl, d, spl.Initials(asked)) {
      RangeForSignature(spl, d, spl.Initials(asked), 0, 0);
      SaveMiss(spl, d, n + 1, c.misses[n], r, q.signature);
    }
  }

  lemma FirstAbsent(spl: Spellings, d: Dict, k: seq<u8>)
    requires FirstOk(spl, d, k, -1) && Landing(spl, d, k) == -1
    ensures Absent(spl, d, k)
  {
  }

  /** `_get_lpis`: lookup through the caches is the simple scan of the whole index, cut to the
      buffer; and unless the buffer was full, the caches stay right for every later query. */
  method GetLpis(spl: Spellings, d: Dict, c: Caches, asked: seq<u16>, lpiMax: nat)
    returns (items: seq<LpiItem>, needExtend: bool, c': Caches)
    requires spl.Valid() && 1 <= |asked| <= MAX_LEMMA_SIZE && CachesInRange(d, c)
    requires Sorted(spl, d.block, d.offsets) && |d.offsets| == |d.scores| == |d.ids| < WORD_RANGE
    ensures CachesInRange(d, c')
    ensures CachesOk(spl, d, c) ==> Answers(spl, d, asked, lpiMax, items)
    ensures CachesOk(spl, d, c) && |items| < lpiMax ==> CachesOk(spl, d, c')
    ensures CachesOk(spl, d, c) && |items| < lpiMax ==> ExtendOk(spl, d, asked, needExtend)
    ensures items != [] ==> needExtend
    ensures needExtend ==> Extending(spl, d, asked, 0, |d.offsets|)
  {
    hide *;
    items, needExtend, c' := [], false, c;
    if lpiMax == 0 {
      NothingAnswers(spl, d, asked);
      return;
    }
    var q := PrepareLocate(spl, asked);
    PreparedLength(spl, asked, q);
    ghost var k := spl.Initials(asked);
    var cached, start, count := CacheHit(spl, d, c, q, asked);
    if cached {
      var middle;
      items, needExtend, middle := ScanLpis(spl, d, q, asked, start, start + count, true, lpiMax);
      ScanExtends(spl, d, asked, start, middle, items, needExtend);
      if CachesOk(spl, d, c) {
        if Broke(spl, d, k, start, middle, true) {
          CachedBreak(spl, d, asked, start, start + count, middle);
        }
        ScanAnswers(spl, d, asked, start, start + count, middle, true, lpiMax, items);
        if count == 0 {
          ExtendingNext(spl, d, asked, start, start);
          ExtendNone(spl, d, asked);
        } else if middle == start + count {
          ExtendIs(spl, d, asked, needExtend, start, middle);
        }
      }
      return;
    }
    var first := LocateFirst(spl, d, q, asked);
    FirstInRange(spl, d, k, first);
    if first == -1 {
      FirstAbsent(spl, d, k);
      NoneAnswers(spl, d, asked, lpiMax);
      ExtendNone(spl, d, asked);
      c' := PushMiss(spl, d, c, q, asked);
      return;
    }
    var middle;
    items, needExtend, middle := ScanLpis(spl, d, q, asked, first, |d.offsets|, false, lpiMax);
    ScanExtends(spl, d, asked, first, middle, items, needExtend);
    c' := PushHit(spl, d, c, q, asked, first, middle - first);
    ScanIsComplete(spl, d, asked, first, middle, lpiMax, items);
    if |items| < lpiMax {
      ExtendIs(spl, d, asked, needExtend, first, middle);
    }
  }

  lemma ScanExtends(spl: Spellings, d: Dict, asked: seq<u16>, lo: nat, hi: nat, items: seq<LpiItem>, needExtend: bool)
    requires spl.Valid() && lo <= hi <= |d.offsets| == |d.scores| == |d.ids|
    requires items == MatchList(spl, d, asked, lo, hi) && (needExtend <==> Extending(spl, d, asked, lo, hi))
    ensures items != [] ==> needExtend
    ensures needExtend ==> Extending(spl, d, asked, 0, |d.offsets|)
  {
    MatchesExtend(spl, d, asked, lo, hi);
    if needExtend {
      var i :| lo <= i < hi && ExtendsAt(spl, d, asked, i);
    }
  }

  lemma {:induction false} MatchesExtend(spl: Spellings, d: Dict, asked: seq<u16>, lo: nat, hi: nat)
    requires spl.Valid() && lo <= hi <= |d.offsets| == |d.scores| == |d.ids|
    ensures MatchList(spl, d, asked, lo, hi) != [] ==> Extending(spl, d, asked, lo, hi)
    decreases hi
  {
    hide IsMatch, ItemAt, Extending, ExtendsAt;
    if lo < hi {
      MatchesExtend(spl, d, asked, lo, hi - 1);
      ExtendingNext(spl, d, asked, lo, hi - 1);
      MatchExtends(spl, d, asked, hi - 1);
    }
  }

  lemma NothingAnswers(spl: Spellings, d: Dict, asked: seq<u16>)
    requires spl.Valid() && |d.offsets| == |d.scores| == |d.ids|
    ensures Answers(spl, d, asked, 0, [])
  {
    hide FullList;
  }

  lemma FirstInRange(spl: Spellings, d: Dict, k: seq<u8>, r: int)
    requires FirstOk(spl, d, k, r)
    ensures -1 <= r < |d.offsets|
  {
  }

  lemma ScanIsComplete(spl: Spellings, d: Dict, asked: seq<u16>, first: nat, middle: nat, lpiMax: nat,
    items: seq<LpiItem>)
    requires spl.Valid() && Sorted(spl, d.block, d.offsets) && |d.offsets| == |d.scores| == |d.ids|
    requires FirstOk(spl, d, spl.Initials(asked), first) && first < middle <= |d.offsets|
      && first == Landing(spl, d, spl.Initials(asked))
    requires items == MatchList(spl, d, asked, first, middle) && |items| <= lpiMax
    requires |items| == lpiMax || middle >= |d.offsets| || Broke(spl, d, spl.Initials(asked), first, middle, false)
    requires forall i :: first <= i < middle - 1 && !Removed(d.offsets[i]) ==> KeyAt(spl, d, i) == spl.Initials(asked)
    ensures Answers(spl, d, asked, lpiMax, items)
    ensures |items| < lpiMax ==>
              RangeOk(spl, d, spl.Initials(asked), first, middle - first)
              && Stretch(spl, d, spl.Initials(asked), first, middle)
  {
    hide *;
    if |items| < lpiMax {
      StretchIs(spl, d, spl.Initials(asked), first, middle);
    }
    if Broke(spl, d, spl.Initials(asked), first, middle, false) {
      BrokeCovers(spl, d, asked, first, middle);
      ScanAnswers(spl, d, asked, first, middle, middle, false, lpiMax, items);
      if |items| < lpiMax {
        ScanRange(spl, d, asked, first, middle);
      }
    } else {
      EndCovers(spl, d, asked, first);
      ScanAnswers(spl, d, asked, first, |d.offsets|, middle, false, lpiMax, items);
      if middle == |d.offsets| && |items| < lpiMax {
        ScanRange(spl, d, asked, first, middle);
      }
    }
  }
}
