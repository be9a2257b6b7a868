/** `locate_in_offsets`: finding one lemma by its spelling and its word. */
module DictLocate {
  import opened Bytes
  import opened LemmaBlock
  import opened BlockFacts
  import opened SpellingOrder
  import opened DictModel
  import opened DictInvariants
  import opened DictQuery
  import opened LookupCache

  /** The n halves from position p on, as the code reads them through a pointer. */
  function Halves(b: seq<u8>, p: nat, n: nat): (s: seq<u16>)
    ensures |s| == n
  {
    seq(n, i requires 0 <= i < n => if p + 2 * i + 2 <= |b| then Half(b, p + 2 * i) else 0)
  }

  /** The first n spelling ids of an entry, however long the entry is. */
  function IdsRead(b: seq<u8>, o: u32, n: nat): (s: seq<u16>)
    ensures |s| == n
  {
    Halves(b, Pos(o) + 2, n)
  }

  /** The first n characters of an entry's word. */
  function WordRead(b: seq<u8>, o: u32, n: nat): (s: seq<u16>)
    ensures |s| == n
  {
    Halves(b, Pos(o) + 2 + 2 * |SplidsOf(b, o)|, n)
  }

  lemma ReadsPrefix(b: seq<u8>, o: u32, n: nat)
    requires Fits(b, Pos(o)) && n <= NChar(b, Pos(o))
    ensures IdsRead(b, o, n) == SplidsOf(b, o)[..n] && WordRead(b, o, n) == WordOf(b, o)[..n]
  {
  }

  /** What the scan tests: the asked ids and the word, on the first |asked| characters of the entry. */
  predicate Agrees(spl: Spellings, d: Dict, asked: seq<u16>, word: seq<u16>, i: nat)
    requires spl.Valid() && i < |d.offsets|
  {
    && !Removed(d.offsets[i])
    && spl.Matches(IdsRead(d.block, d.offsets[i], |asked|), asked)
    && WordRead(d.block, d.offsets[i], |asked|) == word
  }

  /** What the caller wants: an entry with exactly this spelling and word. */
  predicate Exact(spl: Spellings, d: Dict, asked: seq<u16>, word: seq<u16>, i: nat)
    requires spl.Valid() && i < |d.offsets|
  {
    !Removed(d.offsets[i]) && spl.Matches(SplidsOf(d.block, d.offsets[i]), asked)
    && WordOf(d.block, d.offsets[i]) == word
  }

  method SameWord(b: seq<u8>, o: u32, word: seq<u16>) returns (r: bool)
    ensures r <==> WordRead(b, o, |word|) == word
  {
    var str := WordRead(b, o, |word|);
    var i := 0;
    while i < |word| && str[i] == word[i]
      invariant i <= |word| && forall j :: 0 <= j < i ==> str[j] == word[j]
    {
      i := i + 1;
    }
    r := i == |word|;
    if r {
      assert str == word;
    }
  }

  /** The scan from index i to the end, without a cached range. */
  ghost function ScanFrom(spl: Spellings, d: Dict, asked: seq<u16>, word: seq<u16>, i: nat): (r: int)
    requires spl.Valid() && i <= |d.offsets|
    decreases |d.offsets| - i
  {
    if i == |d.offsets| then -1
    else if Removed(d.offsets[i]) then ScanFrom(spl, d, asked, word, i + 1)
    else if spl.Initials(IdsRead(d.block, d.offsets[i], |asked|)) != spl.Initials(asked) then -1
    else if Agrees(spl, d, asked, word, i) then i
    else ScanFrom(spl, d, asked, word, i + 1)
  }

  /** What `locate_in_offsets` returns when no range is cached. */
  ghost function Uncached(spl: Spellings, d: Dict, asked: seq<u16>, word: seq<u16>): (r: int)
    requires spl.Valid()
  {
    var f := Landing(spl, d, spl.Initials(asked));
    if 0 <= f <= |d.offsets| then ScanFrom(spl, d, asked, word, f) else -1
  }

  lemma ScanFromIs(spl: Spellings, d: Dict, asked: seq<u16>, word: seq<u16>, i: nat)
    requires spl.Valid() && i <= |d.offsets|
    ensures i == |d.offsets| ==> ScanFrom(spl, d, asked, word, i) == -1
    ensures i < |d.offsets| ==> var different := spl.Initials(IdsRead(d.block, d.offsets[i], |asked|))
                                != spl.Initials(asked);
              && (!Removed(d.offsets[i]) && different ==> ScanFrom(spl, d, asked, word, i) == -1)
              && ((Removed(d.offsets[i]) || !different) && !Agrees(spl, d, asked, word, i) ==>
                    ScanFrom(spl, d, asked, word, i) == ScanFrom(spl, d, asked, word, i + 1))
              && (!different && Agrees(spl, d, asked, word, i) ==> ScanFrom(spl, d, asked, word, i) == i)
  {
  }

  lemma UncachedIs(spl: Spellings, d: Dict, asked: seq<u16>, word: seq<u16>, f: int)
    requires spl.Valid() && -1 <= f < |d.offsets| && f == Landing(spl, d, spl.Initials(asked))
    ensures Uncached(spl, d, asked, word) == if f >= 0 then ScanFrom(spl, d, asked, word, f) else -1
  {
    hide ScanFrom, Bisect;
  }

  method ScanLocate(spl: Spellings, d: Dict, q: Searchable, asked: seq<u16>, word: seq<u16>, start: nat,
    maxOff: nat, cached: bool)
    returns (r: int, stop: nat)
    requires Prepared(spl, asked, q) && |word| == |asked| && maxOff <= |d.offsets| && start <= |d.offsets|
    ensures start <= stop <= |d.offsets|
    ensures forall j :: start <= j < stop ==> !Agrees(spl, d, asked, word, j)
    ensures r == -1 || (r == stop && stop < maxOff && Agrees(spl, d, asked, word, stop))
    ensures r == -1 ==>
              (stop >= maxOff || (!cached && stop < |d.offsets| && !Removed(d.offsets[stop])
              && spl.Initials(IdsRead(d.block, d.offsets[stop], |asked|)) != spl.Initials(asked)))
    ensures !cached && maxOff == |d.offsets| ==> r == ScanFrom(spl, d, asked, word, start)
  {
    hide *;
    PreparedLength(spl, asked, q);
    stop := start;
    while stop < maxOff
      invariant start <= stop <= |d.offsets|
      invariant !cached ==> ScanFrom(spl, d, asked, word, stop) == ScanFrom(spl, d, asked, word, start)
      invariant forall j :: start <= j < stop ==> !Agrees(spl, d, asked, word, j)
    {
      AgreesAt(spl, d, asked, word, stop);
      ScanFromIs(spl, d, asked, word, stop);
      var o := d.offsets[stop];
      if !Removed(o) {
        var ids := IdsRead(d.block, o, |asked|);
        if !cached {
          var cmp := FuzzyCompare(spl, ids, q, asked);
          CompareOrder(spl.Initials(ids), spl.Initials(asked), spl.Initials(asked));
          if cmp != 0 {
            return -1, stop;
          }
        }
        var fits := InRanges(spl, ids, q, asked);
        var same := SameWord(d.block, o, word);
        if fits && same {
          return stop, stop;
        }
      }
      stop := stop + 1;
    }
    ScanFromIs(spl, d, asked, word, stop);
    r := -1;
  }

  lemma AgreesAt(spl: Spellings, d: Dict, asked: seq<u16>, word: seq<u16>, i: nat)
    requires spl.Valid() && i < |d.offsets| && |word| == |asked|
    ensures var o := d.offsets[i];
            Agrees(spl, d, asked, word, i) <==>
            !Removed(o) && spl.Extends(IdsRead(d.block, o, |asked|), asked) && WordRead(d.block, o, |word|) == word
  {
  }

  // ---- From the scan to the promise ----

  /** An entry whose key is the query's key has the query's length, so reading a prefix reads all. */
  lemma SameKeyReads(spl: Spellings, d: Dict, asked: seq<u16>, word: seq<u16>, i: nat)
    requires spl.Valid() && i < |d.offsets| && |asked| > 0 && OnStarts(d.block, d.offsets)
    requires KeyAt(spl, d, i) == spl.Initials(asked)
    ensures Agrees(spl, d, asked, word, i) <==> Exact(spl, d, asked, word, i)
    ensures spl.Initials(IdsRead(d.block, d.offsets[i], |asked|)) == spl.Initials(asked)
  {
    var o := d.offsets[i];
    assert IsStart(d.block, Pos(o));
    assert |SplidsOf(d.block, o)| == |asked|;
    ReadsPrefix(d.block, o, |asked|);
  }

  lemma ExactHasKey(spl: Spellings, d: Dict, asked: seq<u16>, word: seq<u16>, i: nat)
    requires spl.Valid() && i < |d.offsets|
    ensures Exact(spl, d, asked, word, i) ==> KeyAt(spl, d, i) == spl.Initials(asked)
  {
    if Exact(spl, d, asked, word, i) {
      spl.MatchesKey(SplidsOf(d.block, d.offsets[i]), asked);
    }
  }

  /** What `locate_in_offsets` promises: an entry that agrees on the asked length; and whenever some
      live entry is exactly the asked lemma, the first such entry. */
  ghost predicate LocateOk(spl: Spellings, d: Dict, asked: seq<u16>, word: seq<u16>, r: int)
    requires spl.Valid()
  {
    && -1 <= r < |d.offsets|
    && (r >= 0 ==> Agrees(spl, d, asked, word, r) && |SplidsOf(d.block, d.offsets[r])| >= |asked|)
    && (forall i ::
          0 <= i < |d.offsets| && Exact(spl, d, asked, word, i) ==> 0 <= r <= i && Exact(spl, d, asked, word, r))
  }

  /** `get_lemma_id`: the id of a located entry, 0 when none is located. */
  ghost predicate IdOk(spl: Spellings, d: Dict, asked: seq<u16>, word: seq<u16>, id: u32)
    requires spl.Valid()
  {
    |d.ids| == |d.offsets| && exists r :: LocateOk(spl, d, asked, word, r) && id == if r == -1 then 0 else d.ids[r]
  }

  lemma IdIs(spl: Spellings, d: Dict, asked: seq<u16>, word: seq<u16>, r: int)
    requires spl.Valid() && LocateOk(spl, d, asked, word, r) && |d.ids| == |d.offsets|
    ensures IdOk(spl, d, asked, word, if r == -1 then 0 else d.ids[r])
  {
  }

  /** Between the start of the range and an exact entry every live entry has the key. */
  ghost predicate KeysUpTo(spl: Spellings, d: Dict, k: seq<u8>, start: nat, i: nat) {
    start <= i < |d.offsets| && forall j :: start <= j <= i && !Removed(d.offsets[j]) ==> KeyAt(spl, d, j) == k
  }

  lemma KeysFromFirst(spl: Spellings, d: Dict, k: seq<u8>, r: nat, i: nat)
    requires Sorted(spl, d.block, d.offsets) && FirstOk(spl, d, k, r) && i < |d.offsets| && KeyAt(spl, d, i) == k
    ensures KeysUpTo(spl, d, k, r, i)
  {
    hide Compare;
    forall j | r <= j <= i ensures KeyAt(spl, d, j) == k {
      FirstCovers(spl, d, k, r, j);
      CompareOrder(KeyAt(spl, d, j), k, k);
      CompareOrder(k, k, k);
    }
  }

  lemma KeysInRange(spl: Spellings, d: Dict, asked: seq<u16>, start: nat, end: nat, i: nat)
    requires CoversQuery(spl, d, asked, start, end, true) && i < |d.offsets| && !Removed(d.offsets[i])
    requires KeyAt(spl, d, i) == spl.Initials(asked)
    ensures KeysUpTo(spl, d, spl.Initials(asked), start, i) && i < end
  {
  }

  /** The scan cannot pass, or stop before, an exact entry in such a range. */
  lemma ScanFinds(spl: Spellings, d: Dict, asked: seq<u16>, word: seq<u16>, start: nat, maxOff: nat,
    r: int, stop: nat, i: nat)
    requires spl.Valid() && |asked| > 0 && OnStarts(d.block, d.offsets) && maxOff <= |d.offsets|
    requires KeysUpTo(spl, d, spl.Initials(asked), start, i) && i < maxOff && Exact(spl, d, asked, word, i)
    requires start <= stop <= |d.offsets| && forall j :: start <= j < stop ==> !Agrees(spl, d, asked, word, j)
    requires r == -1 || (r == stop && stop < maxOff && Agrees(spl, d, asked, word, stop))
    requires r == -1 ==>
               (stop >= maxOff || (stop < |d.offsets| && !Removed(d.offsets[stop])
               && spl.Initials(IdsRead(d.block, d.offsets[stop], |asked|)) != spl.Initials(asked)))
    ensures 0 <= r <= i && Exact(spl, d, asked, word, r)
  {
    hide OnStarts, KeyAt, Agrees;
    assert !Removed(d.offsets[i]);
    SameKeyReads(spl, d, asked, word, i);
    assert stop <= i;
    if !Removed(d.offsets[stop]) {
      SameKeyReads(spl, d, asked, word, stop);
    }
    AgreesLive(spl, d, asked, word, stop);
  }

  lemma AgreesLive(spl: Spellings, d: Dict, asked: seq<u16>, word: seq<u16>, i: nat)
    requires spl.Valid() && i < |d.offsets|
    ensures Agrees(spl, d, asked, word, i) ==> !Removed(d.offsets[i])
  {
  }

  /** `locate_in_offsets`. */
  method LocateInOffsets(spl: Spellings, d: Dict, c: Caches, asked: seq<u16>, word: seq<u16>) returns (r: int)
    requires spl.Valid() && 1 <= |asked| == |word| <= MAX_LEMMA_SIZE && CachesInRange(d, c)
    requires OnStarts(d.block, d.offsets) && Sorted(spl, d.block, d.offsets)
    ensures -1 <= r < |d.offsets| && (r >= 0 ==> Agrees(spl, d, asked, word, r))
    ensures CachesOk(spl, d, c) ==> LocateOk(spl, d, asked, word, r)
    ensures c.hits[|asked| - 1].head == c.hits[|asked| - 1].tail ==> r == Uncached(spl, d, asked, word)
  {
    hide *;
    var q := PrepareLocate(spl, asked);
    PreparedLength(spl, asked, q);
    ghost var k := spl.Initials(asked);
    var cached, start, count := LoadCache(spl, d, c, q, asked);
    ghost var stop;
    if cached {
      r, stop := ScanLocate(spl, d, q, asked, word, start, start + count, true);
      if CachesOk(spl, d, c) {
        forall i | 0 <= i < |d.offsets| && Exact(spl, d, asked, word, i)
          ensures 0 <= r <= i && Exact(spl, d, asked, word, r)
        {
          ExactHasKey(spl, d, asked, word, i);
          ExactLive(spl, d, asked, word, i);
          KeysInRange(spl, d, asked, start, start + count, i);
          ScanFinds(spl, d, asked, word, start, start + count, r, stop, i);
        }
        CoversLength(spl, d, asked, start, start + count, true, r);
        LocateIs(spl, d, asked, word, r);
      }
      return;
    }
    var off := LocateFirst(spl, d, q, asked);
    FirstInRange(spl, d, k, off);
    UncachedIs(spl, d, asked, word, off);
    if off == -1 {
      FirstAbsent(spl, d, k);
      AbsentLocate(spl, d, asked, word);
      return -1;
    }
    r, stop := ScanLocate(spl, d, q, asked, word, off, |d.offsets|, false);
    forall i | 0 <= i < |d.offsets| && Exact(spl, d, asked, word, i)
      ensures 0 <= r <= i && Exact(spl, d, asked, word, r)
    {
      ExactHasKey(spl, d, asked, word, i);
      KeysFromFirst(spl, d, k, off, i);
      ScanFinds(spl, d, asked, word, off, |d.offsets|, r, stop, i);
    }
    EndCovers(spl, d, asked, off);
    CoversLength(spl, d, asked, off, |d.offsets|, false, r);
    LocateIs(spl, d, asked, word, r);
  }

  lemma ExactLive(spl: Spellings, d: Dict, asked: seq<u16>, word: seq<u16>, i: nat)
    requires spl.Valid() && i < |d.offsets| && Exact(spl, d, asked, word, i)
    ensures !Removed(d.offsets[i])
  {
  }

  lemma LocateIs(spl: Spellings, d: Dict, asked: seq<u16>, word: seq<u16>, r: int)
    requires spl.Valid() && -1 <= r < |d.offsets|
    requires r >= 0 ==> Agrees(spl, d, asked, word, r) && |SplidsOf(d.block, d.offsets[r])| >= |asked|
    requires forall i ::
               0 <= i < |d.offsets| && Exact(spl, d, asked, word, i) ==> 0 <= r <= i && Exact(spl, d, asked, word, r)
    ensures LocateOk(spl, d, asked, word, r)
  {
  }

  lemma AbsentLocate(spl: Spellings, d: Dict, asked: seq<u16>, word: seq<u16>)
    requires spl.Valid() && Absent(spl, d, spl.Initials(asked))
    ensures LocateOk(spl, d, asked, word, -1)
  {
    forall i | 0 <= i < |d.offsets| ensures !Exact(spl, d, asked, word, i) {
      ExactHasKey(spl, d, asked, word, i);
    }
  }

  lemma CoversLength(spl: Spellings, d: Dict, asked: seq<u16>, start: nat, end: nat, cached: bool, r: int)
    requires CoversQuery(spl, d, asked, start, end, cached) && (r == -1 || start <= r < end)
    ensures r >= 0 ==> |SplidsOf(d.block, d.offsets[r])| >= |asked|
  {
    if r >= 0 {
      assert |KeyAt(spl, d, r)| >= |asked|;
    }
  }

  // ---- What callers may conclude ----

  /** The ids `put_lemma` asks for: none of them names a range. */
  predicate FullIds(ids: seq<u16>) {
    forall i :: 0 <= i < |ids| ==> !(0 < ids[i] < FULL_ID_START)
  }

  lemma FullMatches(spl: Spellings, ids: seq<u16>, asked: seq<u16>)
    requires spl.Valid() && FullIds(asked)
    ensures spl.Matches(ids, asked) <==> ids == asked
  {
    if spl.Matches(ids, asked) {
      assert forall i :: 0 <= i < |asked| ==> spl.InRange(ids[i], asked[i]);
    }
  }

  /** A live lemma with these full ids and this word is found, and -1 means that there is none. */
  lemma LocateFullIds(spl: Spellings, d: Dict, asked: seq<u16>, word: seq<u16>, r: int)
    requires spl.Valid() && LocateOk(spl, d, asked, word, r) && FullIds(asked)
    ensures forall i :: 0 <= i < |d.offsets| && !Removed(d.offsets[i]) && Holds(d.block, d.offsets[i], asked, word)
              ==> 0 <= r <= i && Holds(d.block, d.offsets[r], asked, word)
  {
    forall i | 0 <= i < |d.offsets|
      ensures Exact(spl, d, asked, word, i) <==> !Removed(d.offsets[i]) && Holds(d.block, d.offsets[i], asked, word)
    {
      FullMatches(spl, SplidsOf(d.block, d.offsets[i]), asked);
    }
  }

  // ---- When the search is exact ----

  /** All live entries from i to j have the asked initials on the asked length. */
  ghost predicate SameInitials(spl: Spellings, d: Dict, asked: seq<u16>, i: nat, j: nat)
    requires spl.Valid() && j < |d.offsets|
  {
    forall m ::
      i <= m <= j && !Removed(d.offsets[m]) ==>
        spl.Initials(IdsRead(d.block, d.offsets[m], |asked|)) == spl.Initials(asked)
  }

  /** In the stretch of entries with the asked initials, from where the binary search lands, some live lemma is longer
      than the asked one and begins with it. */
  ghost predicate LongerInStretch(spl: Spellings, d: Dict, asked: seq<u16>, word: seq<u16>)
    requires spl.Valid()
  {
    var f := Landing(spl, d, spl.Initials(asked));
    f >= 0
    && exists j ::
         f <= j < |d.offsets| && Agrees(spl, d, asked, word, j) && |SplidsOf(d.block, d.offsets[j])| > |asked|
         && SameInitials(spl, d, asked, f, j)
  }

  /** The scan finds something exactly when its stretch has an entry that agrees. */
  lemma {:induction false} ScanFromFinds(spl: Spellings, d: Dict, asked: seq<u16>, word: seq<u16>, i: nat)
    requires spl.Valid() && i <= |d.offsets| && |asked| == |word|
    ensures var r := ScanFrom(spl, d, asked, word, i);
            && (r == -1
                || (i <= r < |d.offsets| && Agrees(spl, d, asked, word, r) && SameInitials(spl, d, asked, i, r)))
            && (r == -1 ==>
                  forall j ::
                    i <= j < |d.offsets| && Agrees(spl, d, asked, word, j) ==> !SameInitials(spl, d, asked, i, j))
    decreases |d.offsets| - i
  {
    hide *;
    ScanFromIs(spl, d, asked, word, i);
    if i < |d.offsets| {
      AgreesInitials(spl, d, asked, word, i);
      ScanFromFinds(spl, d, asked, word, i + 1);
      var r := ScanFrom(spl, d, asked, word, i);
      if r == -1 {
        forall j | i <= j < |d.offsets| && Agrees(spl, d, asked, word, j) ensures !SameInitials(spl, d, asked, i, j) {
          InitialsFrom(spl, d, asked, i, j);
        }
      } else {
        InitialsFrom(spl, d, asked, i, if r > i then r else i);
      }
    }
  }

  lemma InitialsFrom(spl: Spellings, d: Dict, asked: seq<u16>, i: nat, j: nat)
    requires spl.Valid() && i <= j < |d.offsets|
    ensures SameInitials(spl, d, asked, i, j) <==>
              && (Removed(d.offsets[i]) || spl.Initials(IdsRead(d.block, d.offsets[i], |asked|)) == spl.Initials(asked))
              && (i == j || SameInitials(spl, d, asked, i + 1, j))
  {
  }

  lemma AgreesInitials(spl: Spellings, d: Dict, asked: seq<u16>, word: seq<u16>, i: nat)
    requires spl.Valid() && i < |d.offsets|
    ensures Agrees(spl, d, asked, word, i) ==>
              !Removed(d.offsets[i]) && spl.Initials(IdsRead(d.block, d.offsets[i], |asked|)) == spl.Initials(asked)
  {
    if Agrees(spl, d, asked, word, i) {
      spl.MatchesKey(IdsRead(d.block, d.offsets[i], |asked|), asked);
    }
  }

  /** Where the binary search lands the asked initials begin the entry's. */
  lemma {:induction false} BisectLands(spl: Spellings, d: Dict, k: seq<u8>, begin: int, end: int, f: int)
    requires 0 <= begin <= end + 1 <= |d.offsets| && -1 <= f < |d.offsets| && (f >= 0 ==> k <= KeyAt(spl, d, f))
    ensures var r := Bisect(spl, d, k, begin, end, f); -1 <= r < |d.offsets| && (r >= 0 ==> k <= KeyAt(spl, d, r))
    decreases end - begin + 1
  {
    hide KeyAt, Compare;
    if begin <= end {
      BisectStep(spl, d, k, begin, end, f);
      var middle := (begin + end) / 2;
      var g := if k <= KeyAt(spl, d, middle) then middle else f;
      BisectLands(spl, d, k, middle + 1, end, g);
      BisectLands(spl, d, k, begin, middle - 1, g);
    }
  }

  /** An entry that agrees and has the asked length is exact. */
  lemma AgreesExactly(spl: Spellings, d: Dict, asked: seq<u16>, word: seq<u16>, i: nat)
    requires spl.Valid() && i < |d.offsets| && OnStarts(d.block, d.offsets)
    ensures |SplidsOf(d.block, d.offsets[i])| == |asked| && Agrees(spl, d, asked, word, i) ==>
              Exact(spl, d, asked, word, i)
  {
    var o := d.offsets[i];
    assert IsStart(d.block, Pos(o));
    if |SplidsOf(d.block, o)| == |asked| {
      ReadsPrefix(d.block, o, |asked|);
    }
  }

  /** The search passes the asked length where the entry's length belongs, so it may answer with a longer lemma. When
      nothing in the dictionary is exactly what was asked, it says so exactly if no longer lemma lies in its stretch. */
  lemma LocateExactly(spl: Spellings, d: Dict, asked: seq<u16>, word: seq<u16>)
    requires spl.Valid() && 1 <= |asked| == |word| && OnStarts(d.block, d.offsets) && Sorted(spl, d.block, d.offsets)
    requires forall i :: 0 <= i < |d.offsets| ==> !Exact(spl, d, asked, word, i)
    ensures Uncached(spl, d, asked, word) == -1 <==> !LongerInStretch(spl, d, asked, word)
  {
    hide *;
    var k := spl.Initials(asked);
    var f := Landing(spl, d, k);
    LandingIs(spl, d, k);
    BisectLands(spl, d, k, 0, |d.offsets| - 1, -1);
    UncachedIs(spl, d, asked, word, f);
    LongerIs(spl, d, asked, word, f);
    if f >= 0 {
      ScanFromFinds(spl, d, asked, word, f);
      var r := ScanFrom(spl, d, asked, word, f);
      if r >= 0 {
        NotShorter(spl, d, k, f, r);
        AgreesExactly(spl, d, asked, word, r);
        InitialsLength(spl, asked);
      }
    }
  }

  lemma InitialsLength(spl: Spellings, asked: seq<u16>)
    ensures |spl.Initials(asked)| == |asked|
  {
  }

  lemma LongerIs(spl: Spellings, d: Dict, asked: seq<u16>, word: seq<u16>, f: int)
    requires spl.Valid() && f == Landing(spl, d, spl.Initials(asked))
    ensures LongerInStretch(spl, d, asked, word) <==>
              f >= 0
              && exists j ::
                   f <= j < |d.offsets| && Agrees(spl, d, asked, word, j) && |SplidsOf(d.block, d.offsets[j])| > |asked|
                                    && SameInitials(spl, d, asked, f, j)
  {
    hide Bisect, Agrees, SameInitials;
  }

  lemma NotShorter(spl: Spellings, d: Dict, k: seq<u8>, f: nat, r: nat)
    requires Sorted(spl, d.block, d.offsets) && f <= r < |d.offsets| && k <= KeyAt(spl, d, f)
    ensures |SplidsOf(d.block, d.offsets[r])| >= |k|
  {
    assert Compare(KeyAt(spl, d, f), KeyAt(spl, d, r)) <= 0 || f == r;
  }

  /** A dictionary that holds one lemma. */
  function OneLemma(splids: seq<u16>, word: seq<u16>, startId: u32): (d: Dict)
    requires |splids| == |word| <= MAX_LEMMA_SIZE
  {
    Dict(Record(splids, word), [0], [0], [startId], [0], [], [0], startId,
         0, 0, 0, 0, 0, 0, PRE_ALLOC, PRE_ALLOC_SIZE, Synced)
  }

  /** The failing family: with only a longer lemma in the dictionary, asking for a proper beginning
      of it finds it, although nothing in the dictionary is exactly what was asked. */
  lemma LongerLemmaIsTaken(spl: Spellings, splids: seq<u16>, word: seq<u16>, startId: u32, n: nat)
    requires spl.Valid() && FullIds(splids) && 1 <= n < |splids| == |word| <= MAX_LEMMA_SIZE
    ensures var d := OneLemma(splids, word, startId);
            && Uncached(spl, d, splids[..n], word[..n]) == 0
            && !Exact(spl, d, splids[..n], word[..n], 0)
  {
    hide *;
    var d, asked, w := OneLemma(splids, word, startId), splids[..n], word[..n];
    OneEntry(spl, splids, word, startId, n);
    var k := spl.Initials(asked);
    PrefixOrder(k, KeyAt(spl, d, 0));
    BisectStep(spl, d, k, 0, 0, -1);
    BisectEnd(spl, d, k, 0, -1, 0);
    LandingIs(spl, d, k);
    UncachedIs(spl, d, asked, w, 0);
    ScanFromIs(spl, d, asked, w, 0);
  }

  /** What the search sees of the only entry. */
  lemma OneEntry(spl: Spellings, splids: seq<u16>, word: seq<u16>, startId: u32, n: nat)
    requires spl.Valid() && FullIds(splids) && 1 <= n < |splids| == |word| <= MAX_LEMMA_SIZE
    ensures var d, asked := OneLemma(splids, word, startId), splids[..n];
            && |d.offsets| == 1 && spl.Initials(asked) <= KeyAt(spl, d, 0) && !Removed(d.offsets[0])
            && spl.Initials(IdsRead(d.block, d.offsets[0], n)) == spl.Initials(asked)
            && Agrees(spl, d, asked, word[..n], 0) && !Exact(spl, d, asked, word[..n], 0)
  {
    var d, asked := OneLemma(splids, word, startId), splids[..n];
    RecordReads(splids, word);
    hide Record, SplidsAt, WordAt, Halves;
    ReadsPrefix(d.block, 0, n);
    FullMatches(spl, asked, asked);
    assert spl.Initials(asked) == spl.Initials(splids)[..n];
  }
}
