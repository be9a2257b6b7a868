/** Lookup in the user dictionary: the searchable form of a query, the comparisons with it, the
    binary search over the two-level order, and the two scans that follow it. */
module DictQuery {
  import opened Bytes
  import opened LemmaBlock
  import opened BlockFacts
  import opened SpellingOrder
  import opened DictModel
  import opened DictInvariants

  /** UserDictSearchable. */
  datatype Searchable = Searchable(starts: seq<u16>, counts: seq<u16>, signature: seq<u32>)

  ghost predicate Prepared(spl: Spellings, asked: seq<u16>, q: Searchable) {
    && spl.Valid() && |asked| <= MAX_LEMMA_SIZE
    && |q.starts| == |q.counts| == |asked|
    && (forall i ::
          0 <= i < |asked| ==> q.starts[i] == spl.RangeStart(asked[i]) && q.counts[i] == spl.RangeCount(asked[i]))
    && q.signature == Signature(spl.Initials(asked))
  }

  /** `signature[i>>2] |= py << (8 * (i % 4))`, for a byte that is still zero. */
  function SignatureWith(s: seq<u32>, i: nat, c: u8): (t: seq<u32>)
    requires |s| == SIGNATURE_WORDS && i < 8
    ensures |t| == SIGNATURE_WORDS
  {
    var b := WordBytes(s[i / 4]);
    s[i / 4 := BytesWord(b[i % 4 := c])]
  }

  lemma SignatureGrows(k: seq<u8>, c: u8)
    requires |k| < 8
    ensures SignatureWith(Signature(k), |k|, c) == Signature(k + [c])
  {
    var p, p', i := Padded(k), Padded(k + [c]), |k|;
    assert p' == p[i := c];
    ByteRoundTrip(p[..4]);
    ByteRoundTrip(p[4..]);
    if i < 4 {
      assert p'[..4] == p[..4][i := c] && p'[4..] == p[4..];
    } else {
      assert p'[4..] == p[4..][i - 4 := c] && p'[..4] == p[..4];
    }
  }

  lemma SignatureEmpty()
    ensures Signature([]) == [0, 0]
  {
    assert Padded([]) == [0, 0, 0, 0, 0, 0, 0, 0];
  }

  lemma InitialsSnoc(spl: Spellings, ids: seq<u16>, i: nat)
    requires i < |ids|
    ensures spl.Initials(ids[..i + 1]) == spl.Initials(ids[..i]) + [spl.Initial(ids[i])]
  {
  }

  method PrepareLocate(spl: Spellings, asked: seq<u16>) returns (q: Searchable)
    requires spl.Valid() && |asked| <= MAX_LEMMA_SIZE
    ensures Prepared(spl, asked, q)
  {
    hide Signature, SignatureWith;
    var starts: seq<u16>, counts: seq<u16>, signature: seq<u32> := [], [], [0, 0];
    var i := 0;
    assert spl.Initials(asked[..0]) == [];
    SignatureEmpty();
    while i < |asked|
      invariant i <= |asked| && |starts| == |counts| == i
      invariant forall j ::
                  0 <= j < i ==> starts[j] == spl.RangeStart(asked[j]) && counts[j] == spl.RangeCount(asked[j])
      invariant signature == Signature(spl.Initials(asked[..i]))
    {
      var id := asked[i];
      if 0 < id < FULL_ID_START {
        starts, counts := starts + [spl.halfStart[id]], counts + [spl.halfCount[id]];
      } else {
        starts, counts := starts + [id], counts + [1];
      }
      SignatureGrows(spl.Initials(asked[..i]), spl.Initial(id));
      InitialsSnoc(spl, asked, i);
      signature := SignatureWith(signature, i, spl.Initial(id));
      i := i + 1;
    }
    assert asked[..i] == asked;
    q := Searchable(starts, counts, signature);
  }

  /** `fuzzy_compare_spell_id`. */
  method FuzzyCompare(spl: Spellings, ids: seq<u16>, q: Searchable, ghost asked: seq<u16>) returns (c: int)
    requires Prepared(spl, asked, q)
    ensures c == Compare(spl.Initials(ids), spl.Initials(asked))
  {
    if |ids| < |q.starts| {
      return -1;
    }
    if |ids| > |q.starts| {
      return 1;
    }
    ghost var x, k := spl.Initials(ids), spl.Initials(asked);
    var i := 0;
    while i < |ids|
      invariant i <= |ids| && CompareFrom(x, k, 0) == CompareFrom(x, k, i)
    {
      SignatureReads(k, i);
      var py1, py2 := spl.Initial(ids[i]), SignatureByte(q.signature, i);
      if py1 != py2 {
        return if py1 > py2 then 1 else -1;
      }
      i := i + 1;
    }
    return 0;
  }

  /** `is_fuzzy_prefix_spell_id`. */
  method IsFuzzyPrefix(spl: Spellings, ids: seq<u16>, q: Searchable, ghost asked: seq<u16>) returns (r: bool)
    requires Prepared(spl, asked, q)
    ensures r <==> spl.Initials(asked) <= spl.Initials(ids)
  {
    hide *;
    PreparedLength(spl, asked, q);
    if |ids| < |q.starts| {
      ShorterIsNoPrefix(spl, asked, ids);
      return false;
    }
    var i := 0;
    while i < |q.starts|
      invariant i <= |asked| && forall j :: 0 <= j < i ==> spl.Initial(asked[j]) == spl.Initial(ids[j])
    {
      PreparedByte(spl, asked, q, i);
      if spl.Initial(ids[i]) != SignatureByte(q.signature, i) {
        DifferentIsNoPrefix(spl, asked, ids, i);
        return false;
      }
      i := i + 1;
    }
    SameIsPrefix(spl, asked, ids);
    return true;
  }

  lemma PreparedLength(spl: Spellings, asked: seq<u16>, q: Searchable)
    requires Prepared(spl, asked, q)
    ensures spl.Valid() && |q.starts| == |q.counts| == |asked| <= MAX_LEMMA_SIZE && |q.signature| == SIGNATURE_WORDS
    ensures MAX_LEMMA_SIZE == 8
  {
  }

  lemma PreparedByte(spl: Spellings, asked: seq<u16>, q: Searchable, i: nat)
    requires Prepared(spl, asked, q) && i < |asked|
    ensures |q.signature| == SIGNATURE_WORDS && i < 8 && SignatureByte(q.signature, i) == spl.Initial(asked[i])
  {
    SignatureReads(spl.Initials(asked), i);
  }

  lemma ShorterIsNoPrefix(spl: Spellings, asked: seq<u16>, ids: seq<u16>)
    requires |ids| < |asked|
    ensures !(spl.Initials(asked) <= spl.Initials(ids))
  {
  }

  lemma DifferentIsNoPrefix(spl: Spellings, asked: seq<u16>, ids: seq<u16>, i: nat)
    requires i < |asked| <= |ids| && spl.Initial(asked[i]) != spl.Initial(ids[i])
    ensures !(spl.Initials(asked) <= spl.Initials(ids))
  {
    assert spl.Initials(asked)[i] != spl.Initials(ids)[i];
  }

  lemma SameIsPrefix(spl: Spellings, asked: seq<u16>, ids: seq<u16>)
    requires |asked| <= |ids| && forall j :: 0 <= j < |asked| ==> spl.Initial(asked[j]) == spl.Initial(ids[j])
    ensures spl.Initials(asked) <= spl.Initials(ids)
  {
  }

  /** The loop of `is_prefix_spell_id` and of `equal_spell_id`. */
  method InRanges(spl: Spellings, ids: seq<u16>, q: Searchable, ghost asked: seq<u16>) returns (r: bool)
    requires Prepared(spl, asked, q) && |ids| >= |asked|
    ensures r <==> spl.Extends(ids, asked)
  {
    hide *;
    PreparedLength(spl, asked, q);
    var i := 0;
    while i < |q.starts|
      invariant i <= |asked| && forall j :: 0 <= j < i ==> spl.InRange(ids[j], asked[j])
    {
      PreparedRange(spl, asked, q, ids[i], i);
      if !(ids[i] >= q.starts[i] && ids[i] < q.starts[i] as nat + q.counts[i] as nat) {
        OutOfRange(spl, ids, asked, i);
        return false;
      }
      i := i + 1;
    }
    AllInRange(spl, ids, asked);
    return true;
  }

  lemma PreparedRange(spl: Spellings, asked: seq<u16>, q: Searchable, id: u16, i: nat)
    requires Prepared(spl, asked, q) && i < |asked|
    ensures |q.starts| == |q.counts| == |asked|
    ensures spl.InRange(id, asked[i]) <==> q.starts[i] <= id && (id as nat) < q.starts[i] as nat + q.counts[i] as nat
  {
  }

  lemma OutOfRange(spl: Spellings, ids: seq<u16>, asked: seq<u16>, i: nat)
    requires spl.Valid() && i < |asked| <= |ids| && !spl.InRange(ids[i], asked[i])
    ensures !spl.Extends(ids, asked)
  {
  }

  lemma AllInRange(spl: Spellings, ids: seq<u16>, asked: seq<u16>)
    requires spl.Valid() && |asked| <= |ids| && forall j :: 0 <= j < |asked| ==> spl.InRange(ids[j], asked[j])
    ensures spl.Extends(ids, asked)
  {
  }

  // ---- The binary search ----

  function KeyAt(spl: Spellings, d: Dict, i: nat): (k: seq<u8>)
    requires i < |d.offsets|
  {
    KeyOf(spl, d.block, d.offsets[i])
  }

  /** What the search promises: the least index with exactly this key when there is one, otherwise
      -1 or a longer entry that starts with it. */
  ghost predicate FirstOk(spl: Spellings, d: Dict, k: seq<u8>, r: int) {
    && -1 <= r < |d.offsets|
    && (r >= 0 ==> k <= KeyAt(spl, d, r))
    && (forall i :: 0 <= i < |d.offsets| && KeyAt(spl, d, i) == k ==> 0 <= r <= i && KeyAt(spl, d, r) == k)
  }

  lemma PrefixOrder(k: seq<u8>, x: seq<u8>)
    requires k <= x
    ensures Compare(x, k) >= 0
  {
    CompareOrder(x, k, k);
  }

  /** The probes of the binary search: what the loop returns from begin, end and first_prefix on. */
  ghost function Bisect(spl: Spellings, d: Dict, k: seq<u8>, begin: int, end: int, firstPrefix: int): (r: int)
    requires 0 <= begin <= end + 1 <= |d.offsets|
    decreases end - begin + 1
  {
    if begin > end then firstPrefix
    else
      var middle := (begin + end) / 2;
      var f := if k <= KeyAt(spl, d, middle) then middle else firstPrefix;
      if Compare(KeyAt(spl, d, middle), k) < 0 then Bisect(spl, d, k, middle + 1, end, f)
      else Bisect(spl, d, k, begin, middle - 1, f)
  }

  /** Where the binary search lands. */
  ghost function Landing(spl: Spellings, d: Dict, k: seq<u8>): (r: int) {
    Bisect(spl, d, k, 0, |d.offsets| - 1, -1)
  }

  /** If the least entry that is not below the key begins with it, the search lands there. */
  lemma LandsFirst(spl: Spellings, d: Dict, k: seq<u8>, p: nat)
    requires Sorted(spl, d.block, d.offsets) && p < |d.offsets| && k <= KeyAt(spl, d, p)
    requires forall i :: 0 <= i < p ==> Compare(KeyAt(spl, d, i), k) < 0
    ensures Landing(spl, d, k) == p
  {
    hide *;
    PrefixOrder(k, KeyAt(spl, d, p));
    SearchStep(spl, d, k, p);
    BisectFirst(spl, d, k, 0, |d.offsets| - 1, -1, p);
    LandingIs(spl, d, k);
  }

  lemma {:induction false} BisectFirst(spl: Spellings, d: Dict, k: seq<u8>, begin: int, end: int, f: int, p: nat)
    requires 0 <= begin <= p <= end + 1 <= |d.offsets| && p < |d.offsets| && k <= KeyAt(spl, d, p)
    requires forall i :: 0 <= i < p ==> Compare(KeyAt(spl, d, i), k) < 0
    requires forall i :: p <= i < |d.offsets| ==> Compare(KeyAt(spl, d, i), k) >= 0
    requires p == end + 1 ==> f == p
    ensures Bisect(spl, d, k, begin, end, f) == p
    decreases end - begin + 1
  {
    hide Compare, KeyAt;
    if begin <= end {
      var middle := (begin + end) / 2;
      var g := if k <= KeyAt(spl, d, middle) then middle else f;
      if middle < p {
        NoPrefixBelow(spl, d, k, middle);
        BisectFirst(spl, d, k, middle + 1, end, g, p);
      } else {
        BisectFirst(spl, d, k, begin, middle - 1, g, p);
      }
    }
  }

  lemma NoPrefixBelow(spl: Spellings, d: Dict, k: seq<u8>, i: nat)
    requires i < |d.offsets| && Compare(KeyAt(spl, d, i), k) < 0
    ensures !(k <= KeyAt(spl, d, i))
  {
    if k <= KeyAt(spl, d, i) {
      PrefixOrder(k, KeyAt(spl, d, i));
    }
  }

  lemma BisectStep(spl: Spellings, d: Dict, k: seq<u8>, begin: int, end: int, firstPrefix: int)
    requires 0 <= begin <= end < |d.offsets|
    ensures var middle := (begin + end) / 2;
            var f := if k <= KeyAt(spl, d, middle) then middle else firstPrefix;
            Bisect(spl, d, k, begin, end, firstPrefix) ==
            if Compare(KeyAt(spl, d, middle), k) < 0 then Bisect(spl, d, k, middle + 1, end, f)
            else Bisect(spl, d, k, begin, middle - 1, f)
  {
  }

  lemma BisectEnd(spl: Spellings, d: Dict, k: seq<u8>, begin: int, end: int, firstPrefix: int)
    requires 0 <= begin == end + 1 <= |d.offsets|
    ensures Bisect(spl, d, k, begin, end, firstPrefix) == firstPrefix
  {
  }

  lemma LandingIs(spl: Spellings, d: Dict, k: seq<u8>)
    ensures Landing(spl, d, k) == Bisect(spl, d, k, 0, |d.offsets| - 1, -1)
  {
  }

  /** `locate_first_in_offsets`. */
  method LocateFirst(spl: Spellings, d: Dict, q: Searchable, ghost asked: seq<u16>) returns (firstPrefix: int)
    requires Prepared(spl, asked, q) && Sorted(spl, d.block, d.offsets)
    ensures FirstOk(spl, d, spl.Initials(asked), firstPrefix)
    ensures firstPrefix == Landing(spl, d, spl.Initials(asked))
  {
    hide *;
    LandingIs(spl, d, spl.Initials(asked));
    ghost var k := spl.Initials(asked);
    var begin, end := 0, |d.offsets| - 1;
    firstPrefix := -1;
    while begin <= end
      invariant 0 <= begin <= end + 1 <= |d.offsets| && -1 <= firstPrefix < |d.offsets|
      invariant forall i :: 0 <= i < begin ==> Compare(KeyAt(spl, d, i), k) < 0
      invariant forall i :: end < i < |d.offsets| ==> Compare(KeyAt(spl, d, i), k) >= 0
      invariant firstPrefix >= 0 ==> k <= KeyAt(spl, d, firstPrefix)
      invariant end + 1 < |d.offsets| && KeyAt(spl, d, end + 1) == k ==> firstPrefix == end + 1
      invariant Bisect(spl, d, k, begin, end, firstPrefix) == Bisect(spl, d, k, 0, |d.offsets| - 1, -1)
    {
      BisectStep(spl, d, k, begin, end, firstPrefix);
      var middle := (begin + end) / 2;
      var ids := SplidsOf(d.block, d.offsets[middle]);
      KeyAtIs(spl, d, middle);
      var cmp := FuzzyCompare(spl, ids, q, asked);
      var pre := IsFuzzyPrefix(spl, ids, q, asked);
      if pre {
        firstPrefix := middle;
      }
      SearchStep(spl, d, k, middle);
      if cmp < 0 {
        begin := middle + 1;
      } else {
        end := middle - 1;
      }
    }
    BisectEnd(spl, d, k, begin, end, firstPrefix);
    SearchEnd(spl, d, k, begin, firstPrefix);
  }

  lemma KeyAtIs(spl: Spellings, d: Dict, i: nat)
    requires i < |d.offsets|
    ensures KeyAt(spl, d, i) == spl.Initials(SplidsOf(d.block, d.offsets[i]))
  {
  }

  /** What one probe settles. */
  lemma SearchStep(spl: Spellings, d: Dict, k: seq<u8>, m: nat)
    requires Sorted(spl, d.block, d.offsets) && m < |d.offsets|
    ensures Compare(KeyAt(spl, d, m), k) < 0 ==> !(k <= KeyAt(spl, d, m))
    ensures Compare(KeyAt(spl, d, m), k) < 0 ==> forall i :: 0 <= i <= m ==> Compare(KeyAt(spl, d, i), k) < 0
    ensures Compare(KeyAt(spl, d, m), k) >= 0 ==> forall i :: m <= i < |d.offsets| ==> Compare(KeyAt(spl, d, i), k) >= 0
    ensures KeyAt(spl, d, m) == k ==> k <= KeyAt(spl, d, m)
  {
    hide Compare;
    if k <= KeyAt(spl, d, m) {
      PrefixOrder(k, KeyAt(spl, d, m));
    }
    forall i | 0 <= i < |d.offsets|
      ensures i <= m && Compare(KeyAt(spl, d, m), k) < 0 ==> Compare(KeyAt(spl, d, i), k) < 0
      ensures m <= i && Compare(KeyAt(spl, d, m), k) >= 0 ==> Compare(KeyAt(spl, d, i), k) >= 0
    {
      CompareOrder(KeyAt(spl, d, i), KeyAt(spl, d, m), k);
      CompareOrder(KeyAt(spl, d, m), KeyAt(spl, d, i), k);
    }
  }

  lemma SearchEnd(spl: Spellings, d: Dict, k: seq<u8>, begin: nat, r: int)
    requires begin <= |d.offsets| && -1 <= r < |d.offsets| && (r >= 0 ==> k <= KeyAt(spl, d, r))
    requires forall i :: 0 <= i < begin ==> Compare(KeyAt(spl, d, i), k) < 0
    requires forall i :: begin <= i < |d.offsets| ==> Compare(KeyAt(spl, d, i), k) >= 0
    requires begin < |d.offsets| && KeyAt(spl, d, begin) == k ==> r == begin
    requires Sorted(spl, d.block, d.offsets)
    ensures FirstOk(spl, d, k, r)
  {
    hide Compare;
    forall i | 0 <= i < |d.offsets| && KeyAt(spl, d, i) == k ensures begin <= i && KeyAt(spl, d, begin) == k {
      CompareOrder(k, k, k);
      CompareOrder(KeyAt(spl, d, begin), KeyAt(spl, d, i), k);
      CompareOrder(KeyAt(spl, d, i), KeyAt(spl, d, begin), k);
    }
  }

  // ---- What a query should return ----

  datatype LpiItem = LpiItem(id: u32, length: nat, score: u32)

  predicate IsMatch(spl: Spellings, d: Dict, asked: seq<u16>, i: nat)
    requires spl.Valid() && i < |d.offsets|
  {
    !Removed(d.offsets[i]) && spl.Matches(SplidsOf(d.block, d.offsets[i]), asked)
  }

  function ItemAt(d: Dict, i: nat): (x: LpiItem)
    requires i < |d.offsets| == |d.scores| == |d.ids|
  {
    LpiItem(d.ids[i], |SplidsOf(d.block, d.offsets[i])|, d.scores[i])
  }

  /** The live lemmas of [lo, hi) with the asked length whose ids lie in the asked ranges, in index order. */
  function MatchList(spl: Spellings, d: Dict, asked: seq<u16>, lo: nat, hi: nat): (r: seq<LpiItem>)
    requires spl.Valid() && lo <= hi <= |d.offsets| == |d.scores| == |d.ids|
    decreases hi
  {
    if lo == hi then []
    else MatchList(spl, d, asked, lo, hi - 1) + (if IsMatch(spl, d, asked, hi - 1) then [ItemAt(d, hi - 1)] else [])
  }

  function FullList(spl: Spellings, d: Dict, asked: seq<u16>): (r: seq<LpiItem>)
    requires spl.Valid() && |d.offsets| == |d.scores| == |d.ids|
  {
    MatchList(spl, d, asked, 0, |d.offsets|)
  }

  lemma {:induction false} MatchListJoin(spl: Spellings, d: Dict, asked: seq<u16>, a: nat, b: nat, c: nat)
    requires spl.Valid() && a <= b <= c <= |d.offsets| == |d.scores| == |d.ids|
    ensures MatchList(spl, d, asked, a, c) == MatchList(spl, d, asked, a, b) + MatchList(spl, d, asked, b, c)
    decreases c
  {
    hide IsMatch, ItemAt;
    if b < c {
      MatchListJoin(spl, d, asked, a, b, c - 1);
    }
  }

  lemma {:induction false} NoMatches(spl: Spellings, d: Dict, asked: seq<u16>, a: nat, b: nat)
    requires spl.Valid() && a <= b <= |d.offsets| == |d.scores| == |d.ids|
    requires forall i :: a <= i < b && !Removed(d.offsets[i]) ==> KeyAt(spl, d, i) != spl.Initials(asked)
    ensures MatchList(spl, d, asked, a, b) == []
    decreases b
  {
    if a < b {
      NoMatches(spl, d, asked, a, b - 1);
      MatchHasKey(spl, d, asked, b - 1);
    }
  }

  lemma MatchHasKey(spl: Spellings, d: Dict, asked: seq<u16>, i: nat)
    requires spl.Valid() && i < |d.offsets|
    ensures IsMatch(spl, d, asked, i) ==> KeyAt(spl, d, i) == spl.Initials(asked)
  {
    if IsMatch(spl, d, asked, i) {
      spl.MatchesKey(SplidsOf(d.block, d.offsets[i]), asked);
    }
  }

  /** What a scan passes, from where the binary search lands: live entries with the key, and at last an entry without
      it, which may have been removed since, or the end of the index. */
  ghost predicate Stretch(spl: Spellings, d: Dict, k: seq<u8>, lo: nat, hi: nat) {
    && lo < hi <= |d.offsets| && lo == Landing(spl, d, k)
    && (forall i :: lo <= i < hi - 1 && !Removed(d.offsets[i]) ==> KeyAt(spl, d, i) == k)
    && (hi == |d.offsets| || Removed(d.offsets[hi - 1]) || KeyAt(spl, d, hi - 1) != k)
  }

  /** Where the answer to a query can be: a stretch, with every live entry that has the key. */
  ghost predicate RangeOk(spl: Spellings, d: Dict, k: seq<u8>, start: nat, count: nat) {
    && Stretch(spl, d, k, start, start + count)
    && (forall i ::
          0 <= i < |d.offsets| && !Removed(d.offsets[i]) && KeyAt(spl, d, i) == k ==> start <= i < start + count)
    && (forall i :: start <= i < start + count ==> |KeyAt(spl, d, i)| >= |k|)
  }

  /** Some live entry of [lo, hi) begins with the asked ids. */
  ghost predicate Extending(spl: Spellings, d: Dict, asked: seq<u16>, lo: nat, hi: nat)
    requires spl.Valid()
  {
    exists i :: lo <= i < hi && ExtendsAt(spl, d, asked, i)
  }

  ghost predicate ExtendsAt(spl: Spellings, d: Dict, asked: seq<u16>, i: nat)
    requires spl.Valid()
  {
    i < |d.offsets| && !Removed(d.offsets[i]) && spl.Extends(SplidsOf(d.block, d.offsets[i]), asked)
  }

  lemma ExtendingNext(spl: Spellings, d: Dict, asked: seq<u16>, lo: nat, hi: nat)
    requires spl.Valid() && lo <= hi
    ensures !Extending(spl, d, asked, lo, lo)
    ensures Extending(spl, d, asked, lo, hi + 1) <==> Extending(spl, d, asked, lo, hi) || ExtendsAt(spl, d, asked, hi)
  {
    hide ExtendsAt;
    if Extending(spl, d, asked, lo, hi + 1) {
      var i: nat :| lo <= i < hi + 1 && ExtendsAt(spl, d, asked, i);
      assert i < hi || i == hi;
    }
  }

  lemma FullListWithin(spl: Spellings, d: Dict, asked: seq<u16>, start: nat, end: nat)
    requires spl.Valid() && start <= end <= |d.offsets| == |d.scores| == |d.ids|
    requires forall i ::
               0 <= i < |d.offsets| && !Removed(d.offsets[i]) && KeyAt(spl, d, i) == spl.Initials(asked) ==>
                 start <= i < end
    ensures FullList(spl, d, asked) == MatchList(spl, d, asked, start, end)
  {
    hide MatchList, KeyAt;
    NoMatches(spl, d, asked, 0, start);
    NoMatches(spl, d, asked, end, |d.offsets|);
    MatchListJoin(spl, d, asked, 0, start, |d.offsets|);
    MatchListJoin(spl, d, asked, start, end, |d.offsets|);
  }

  // ---- The scan of `_get_lpis` ----

  /** The scan stopped at `middle` for a reason other than a full buffer or the end of its range. */
  ghost predicate Broke(spl: Spellings, d: Dict, k: seq<u8>, start: nat, middle: nat, cached: bool) {
    && start < middle <= |d.offsets| && !Removed(d.offsets[middle - 1])
    && KeyAt(spl, d, middle - 1) != k && (cached ==> !(k <= KeyAt(spl, d, middle - 1)))
  }

  method ScanLpis(spl: Spellings, d: Dict, q: Searchable, ghost asked: seq<u16>, start: nat, maxOff: nat,
    cached: bool, lpiMax: nat)
    returns (items: seq<LpiItem>, needExtend: bool, middle: nat)
    requires Prepared(spl, asked, q) && |d.offsets| == |d.scores| == |d.ids| && maxOff <= |d.offsets|
    requires start <= |d.offsets|
    ensures start <= middle <= |d.offsets| && (middle > start ==> middle <= maxOff)
    ensures items == MatchList(spl, d, asked, start, middle) && |items| <= lpiMax
    ensures |items| == lpiMax || middle >= maxOff || Broke(spl, d, spl.Initials(asked), start, middle, cached)
    ensures !cached ==>
              forall i :: start <= i < middle - 1 && !Removed(d.offsets[i]) ==> KeyAt(spl, d, i) == spl.Initials(asked)
    ensures lpiMax > 0 && start < maxOff ==> start < middle
    ensures needExtend <==> Extending(spl, d, asked, start, middle)
  {
    hide *;
    PreparedLength(spl, asked, q);
    MatchListNone(spl, d, asked, start);
    ExtendingNext(spl, d, asked, start, start);
    items, needExtend, middle := [], false, start;
    var stop := false;
    ghost var k := spl.Initials(asked);
    while middle < maxOff && !stop
      invariant start <= middle <= |d.offsets| && (middle > start ==> middle <= maxOff)
      invariant items == MatchList(spl, d, asked, start, middle) && |items| <= lpiMax
      invariant stop ==> Broke(spl, d, k, start, middle, cached)
      invariant !cached ==> forall i :: start <= i < middle - 1 && !Removed(d.offsets[i]) ==> KeyAt(spl, d, i) == k
      invariant !cached && !stop && middle > start && !Removed(d.offsets[middle - 1]) ==> KeyAt(spl, d, middle - 1) == k
      invariant needExtend <==> Extending(spl, d, asked, start, middle)
      invariant middle == start ==> items == [] && !stop
    {
      if |items| >= lpiMax {
        break;
      }
      MatchAt(spl, d, asked, middle);
      ExtendingNext(spl, d, asked, start, middle);
      if !Removed(d.offsets[middle]) {
        var ids := SplidsOf(d.block, d.offsets[middle]);
        var cmp := if cached then 0 else 1;
        if !cached {
          cmp := FuzzyCompare(spl, ids, q, asked);
        }
        var pre := IsFuzzyPrefix(spl, ids, q, asked);
        var fits := false;
        if |ids| >= |q.starts| {
          fits := InRanges(spl, ids, q, asked);
        }
        needExtend := needExtend || (pre && fits);
        if |ids| == |q.starts| && fits {
          items := items + [LpiItem(d.ids[middle], |ids|, d.scores[middle])];
        }
        stop := (!cached && cmp != 0) || !pre;
        if stop {
          BrokeHere(spl, d, k, start, middle, cached);
        }
      }
      MatchListSnoc(spl, d, asked, start, middle);
      middle := middle + 1;
    }
  }

  lemma MatchListNone(spl: Spellings, d: Dict, asked: seq<u16>, i: nat)
    requires spl.Valid() && i <= |d.offsets| == |d.scores| == |d.ids|
    ensures MatchList(spl, d, asked, i, i) == []
  {
  }

  lemma MatchListSnoc(spl: Spellings, d: Dict, asked: seq<u16>, lo: nat, i: nat)
    requires spl.Valid() && lo <= i < |d.offsets| == |d.scores| == |d.ids|
    ensures MatchList(spl, d, asked, lo, i + 1) ==
            MatchList(spl, d, asked, lo, i) + (if IsMatch(spl, d, asked, i) then [ItemAt(d, i)] else [])
  {
  }

  lemma BrokeHere(spl: Spellings, d: Dict, k: seq<u8>, start: nat, i: nat, cached: bool)
    requires start <= i < |d.offsets| && !Removed(d.offsets[i]) && KeyAt(spl, d, i) != k
    requires cached ==> !(k <= KeyAt(spl, d, i))
    ensures Broke(spl, d, k, start, i + 1, cached)
  {
  }

  /** What the comparisons say about the entry at index i. */
  lemma MatchAt(spl: Spellings, d: Dict, asked: seq<u16>, i: nat)
    requires spl.Valid() && i < |d.offsets| == |d.scores| == |d.ids|
    ensures var ids, k := SplidsOf(d.block, d.offsets[i]), spl.Initials(asked);
            && KeyAt(spl, d, i) == spl.Initials(ids)
            && (Compare(KeyAt(spl, d, i), k) == 0 <==> KeyAt(spl, d, i) == k)
            && (IsMatch(spl, d, asked, i) <==> !Removed(d.offsets[i]) && |ids| == |asked| && spl.Extends(ids, asked))
            && (IsMatch(spl, d, asked, i) ==> KeyAt(spl, d, i) == k)
            && ItemAt(d, i) == LpiItem(d.ids[i], |ids|, d.scores[i])
            && (ExtendsAt(spl, d, asked, i) <==> !Removed(d.offsets[i]) && spl.Extends(ids, asked))
            && (spl.Extends(ids, asked) ==> |ids| >= |asked| && k <= spl.Initials(ids))
  {
    if spl.Extends(SplidsOf(d.block, d.offsets[i]), asked) {
      spl.ExtendsKey(SplidsOf(d.block, d.offsets[i]), asked);
    }
    MatchHasKey(spl, d, asked, i);
    CompareOrder(KeyAt(spl, d, i), spl.Initials(asked), spl.Initials(asked));
  }
}
