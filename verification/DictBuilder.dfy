/** Building the node arrays of the system dictionary from the sorted lemma array. */
module DictBuilding {
  import opened Bytes
  import opened LemmaTrie
  import opened TrieNodes

  /** A lemma of the array: its full spelling ids, and its id in the order of the words. */
  datatype Entry = Entry(ids: seq<u16>, id: nat)

  /** `spl_idx_arr[level]`: zero behind the last id. */
  function SplAt(x: Entry, level: nat): (s: u16) {
    if level < |x.ids| then x.ids[level] else 0
  }

  /** The lemmas [s, e) from the given level on. */
  function Slice(l: seq<Entry>, s: nat, e: nat, level: nat): (items: seq<Item>)
    requires s <= e <= |l| && forall i :: s <= i < e ==> level <= |l[i].ids|
    ensures |items| == e - s && forall i :: 0 <= i < e - s ==> items[i] == Item(l[s + i].ids[level..], l[s + i].id)
  {
    seq(e - s, i requires 0 <= i < e - s => Item(l[s + i].ids[level..], l[s + i].id))
  }

  /** The lemmas [s, e) are sorted from this level on and all go on at this level; no spelling id is zero. */
  ghost predicate SubsetOk(l: seq<Entry>, s: nat, e: nat, level: nat) {
    && s <= e <= |l|
    && (forall i ::
          0 <= i < |l| ==> |l[i].ids| <= MAX_LEMMA_SIZE && forall k :: 0 <= k < |l[i].ids| ==> l[i].ids[k] > 0)
    && (forall i :: s <= i < e ==> level < |l[i].ids|)
    && LemmaTrie.Sorted(Slice(l, s, e, level))
  }

  /** The nodes that these lemmas make. */
  ghost function Nodes(l: seq<Entry>, s: nat, e: nat, level: nat): (ts: seq<Trie>)
    requires SubsetOk(l, s, e, level)
  {
    SliceNonEmpty(l, s, e, level);
    Build(Slice(l, s, e, level))
  }

  lemma SliceNonEmpty(l: seq<Entry>, s: nat, e: nat, level: nat)
    requires SubsetOk(l, s, e, level)
    ensures NonEmpty(Slice(l, s, e, level))
  {
  }

  // ---- One group ----

  /** The group that starts at s ends at m, and h of its lemmas end at the node. */
  ghost predicate IsGroup(l: seq<Entry>, s: nat, e: nat, level: nat, m: nat, h: nat) {
    && SubsetOk(l, s, e, level) && s < m <= e && h <= m - s
    && NonEmpty(Slice(l, s, e, level)) && m - s == GroupEnd(Slice(l, s, e, level), 1)
       && h == HomoNum(Slice(l, s, e, level)[..m - s])
  }

  /** What the recursion sees of the group, and what comes after it. */
  lemma GroupParts(l: seq<Entry>, s: nat, e: nat, level: nat, m: nat, h: nat)
    requires IsGroup(l, s, e, level, m, h)
    ensures SubsetOk(l, s + h, m, level + 1) && SubsetOk(l, m, e, level) && level < |l[s].ids|
    ensures Nodes(l, s, e, level) ==
            [Trie(l[s].ids[level], Ids(Slice(l, s, s + h, level)), Nodes(l, s + h, m, level + 1))]
              + Nodes(l, m, e, level)
  {
    hide *;
    GroupSlices(l, s, e, level, m, h);
    NodesIs(l, s, e, level);
    NodesIs(l, s + h, m, level + 1);
    NodesIs(l, m, e, level);
    GroupBuilds(l, s, e, level, m, h);
  }

  lemma GroupBuilds(l: seq<Entry>, s: nat, e: nat, level: nat, m: nat, h: nat)
    requires IsGroup(l, s, e, level, m, h) && SubsetOk(l, s + h, m, level + 1) && SubsetOk(l, m, e, level)
    requires level < |l[s].ids| && (forall i :: s + h <= i < m ==> level < |l[i].ids|)
    requires var items := Slice(l, s, e, level);
             && items[h..m - s] == Slice(l, s + h, m, level) && items[..h] == Slice(l, s, s + h, level)
                && items[m - s..] == Slice(l, m, e, level)
    requires LemmaTrie.Sorted(Slice(l, s, e, level)) && NonEmpty(Slice(l, s, e, level))
    requires LemmaTrie.Sorted(Slice(l, m, e, level)) && NonEmpty(Slice(l, m, e, level))
    requires LemmaTrie.Sorted(Slice(l, s + h, m, level + 1)) && NonEmpty(Slice(l, s + h, m, level + 1))
    ensures Build(Slice(l, s, e, level)) ==
            [Trie(l[s].ids[level], Ids(Slice(l, s, s + h, level)), Build(Slice(l, s + h, m, level + 1)))]
              + Build(Slice(l, m, e, level))
  {
    hide *;
    GroupFacts(l, s, e, level, m, h);
    BuildUnfolds(Slice(l, s, e, level));
    TailsAre(l, s + h, m, level);
  }

  lemma GroupSlices(l: seq<Entry>, s: nat, e: nat, level: nat, m: nat, h: nat)
    requires IsGroup(l, s, e, level, m, h)
    ensures SubsetOk(l, s, e, level) && SubsetOk(l, s + h, m, level + 1) && SubsetOk(l, m, e, level)
      && level < |l[s].ids|
    ensures forall i :: s + h <= i < m ==> level < |l[i].ids|
    ensures var items := Slice(l, s, e, level);
            && items[h..m - s] == Slice(l, s + h, m, level) && items[..h] == Slice(l, s, s + h, level)
               && items[m - s..] == Slice(l, m, e, level)
  {
    hide *;
    GroupFacts(l, s, e, level, m, h);
    var items, k := Slice(l, s, e, level), m - s;
    GroupOk(items);
    SliceSlice(l, s, e, level, h, k);
    SliceSlice(l, s, e, level, 0, h);
    SliceSlice(l, s, e, level, k, e - s);
    assert items[k..] == items[k..e - s] && items[..h] == items[0..h] && items[..k] == items[0..k];
    GroupGoesOn(l, s, m, level, h, items[..k]);
    TailsAre(l, s + h, m, level);
    PartsOk(l, s, e, level, m, h);
  }

  lemma GroupFacts(l: seq<Entry>, s: nat, e: nat, level: nat, m: nat, h: nat)
    requires IsGroup(l, s, e, level, m, h)
    ensures s < m <= e <= |l| && h <= m - s && (forall i :: s <= i < e ==> level < |l[i].ids|)
      && SubsetOk(l, s, e, level)
    ensures var items := Slice(l, s, e, level);
            && LemmaTrie.Sorted(items) && NonEmpty(items) && items != [] && m - s == GroupEnd(items, 1)
               && h == HomoNum(items[..m - s])
            && |items| == e - s
               && (forall i :: 0 <= i < |items| ==> items[i] == Item(l[s + i].ids[level..], l[s + i].id))
            && items[0].path[0] == l[s].ids[level]
               && (forall i :: s <= i < m ==> items[..m - s][i - s].path == l[i].ids[level..])
  {
  }

  lemma SliceSlice(l: seq<Entry>, s: nat, e: nat, level: nat, a: nat, b: nat)
    requires s <= e <= |l| && (forall i :: s <= i < e ==> level <= |l[i].ids|) && a <= b <= e - s
    ensures |Slice(l, s, e, level)| == e - s && Slice(l, s, e, level)[a..b] == Slice(l, s + a, s + b, level)
  {
  }

  lemma TailsAre(l: seq<Entry>, s: nat, e: nat, level: nat)
    requires s <= e <= |l| && (forall i :: s <= i < e ==> level < |l[i].ids|)
    ensures NonEmpty(Slice(l, s, e, level)) && Tails(Slice(l, s, e, level)) == Slice(l, s, e, level + 1)
  {
    forall i | s <= i < e ensures l[i].ids[level..][1..] == l[i].ids[level + 1..] {
    }
  }

  lemma PartsOk(l: seq<Entry>, s: nat, e: nat, level: nat, m: nat, h: nat)
    requires SubsetOk(l, s, e, level) && s <= m <= e && s + h <= m
      && forall i :: s + h <= i < m ==> level + 1 < |l[i].ids|
    requires LemmaTrie.Sorted(Slice(l, m, e, level)) && LemmaTrie.Sorted(Slice(l, s + h, m, level + 1))
    ensures SubsetOk(l, s + h, m, level + 1) && SubsetOk(l, m, e, level)
  {
    hide Slice;
  }

  lemma NodesIs(l: seq<Entry>, s: nat, e: nat, level: nat)
    requires SubsetOk(l, s, e, level)
    ensures s <= e <= |l| && (forall i :: s <= i < e ==> level < |l[i].ids|)
    ensures LemmaTrie.Sorted(Slice(l, s, e, level)) && NonEmpty(Slice(l, s, e, level))
      && Nodes(l, s, e, level) == Build(Slice(l, s, e, level))
  {
    SliceNonEmpty(l, s, e, level);
  }

  lemma GroupGoesOn(l: seq<Entry>, s: nat, m: nat, level: nat, h: nat, g: seq<Item>)
    requires s + h <= m <= |l| && |g| == m - s && NonEmpty(g) && HomosLead(g) && h == HomoNum(g)
    requires forall i :: s <= i < m ==> level < |l[i].ids| && g[i - s].path == l[i].ids[level..]
    ensures forall i :: s + h <= i < m ==> level + 1 < |l[i].ids|
  {
    forall i | s + h <= i < m ensures level + 1 < |l[i].ids| {
      RestLonger(g, i - s);
    }
  }

  lemma {:induction false} GroupEndIs(items: seq<Item>, k: nat, e: nat)
    requires NonEmpty(items) && 0 < k <= e <= |items|
    requires forall i :: 0 <= i < e ==> items[i].path[0] == items[0].path[0]
    requires e < |items| ==> items[e].path[0] != items[0].path[0]
    ensures GroupEnd(items, k) == e
    decreases e - k
  {
    if k < e {
      GroupEndIs(items, k + 1, e);
    }
  }

  lemma {:induction false} HomoNumSnoc(items: seq<Item>, k: nat)
    requires k < |items|
    ensures HomoNum(items[..k + 1]) == HomoNum(items[..k]) + if |items[k].path| == 1 then 1 else 0
  {
    if k > 0 {
      HomoNumSnoc(items[1..], k - 1);
      assert items[..k + 1][1..] == items[1..][..k] && items[..k][1..] == items[1..][..k - 1];
    } else {
      assert items[..0] == [] && items[..1][1..] == [];
    }
  }

  /** The scan for the end of a group counts the lemmas that end at its node. */
  method ScanGroup(l: seq<Entry>, s: nat, e: nat, level: nat) returns (m: nat, h: nat)
    requires SubsetOk(l, s, e, level) && s < e
    ensures IsGroup(l, s, e, level, m, h)
  {
    hide *;
    SliceGives(l, s, e, level);
    ghost var items := Slice(l, s, e, level);
    var spl := SplAt(l[s], level);
    m, h := s, 0;
    NoHomosYet(items);
    while m < e && SplAt(l[m], level) == spl
      invariant s <= m <= e && h == HomoNum(items[..m - s]) && forall k :: s <= k < m ==> SplAt(l[k], level) == spl
    {
      HomoNumSnoc(items, m - s);
      EndsHere(l, s, e, level, m);
      if SplAt(l[m], level + 1) == 0 {
        h := h + 1;
      }
      m := m + 1;
    }
    GroupAt(l, s, e, level, m);
  }

  lemma SliceGives(l: seq<Entry>, s: nat, e: nat, level: nat)
    requires SubsetOk(l, s, e, level)
    ensures s <= e <= |l| && (forall i :: s <= i < e ==> level <= |l[i].ids|) && |Slice(l, s, e, level)| == e - s
  {
  }

  lemma NoHomosYet(items: seq<Item>)
    ensures HomoNum(items[..0]) == 0
  {
  }

  /** A lemma ends at the node when it has no id of the next level. */
  lemma EndsHere(l: seq<Entry>, s: nat, e: nat, level: nat, m: nat)
    requires SubsetOk(l, s, e, level) && s <= m < e
    ensures |Slice(l, s, e, level)[m - s].path| == 1 <==> SplAt(l[m], level + 1) == 0
  {
    assert Slice(l, s, e, level)[m - s].path == l[m].ids[level..];
  }

  /** The scan that counts the sons. */
  method CountSons(l: seq<Entry>, s: nat, e: nat, level: nat) returns (num: nat)
    requires SubsetOk(l, s, e, level) && s < e
    ensures num == |Nodes(l, s, e, level)|
  {
    hide *;
    SubsetBounds(l, s, e, level);
    var spl := SplAt(l[s], level);
    num := 0;
    var i, start: nat := s + 1, s;
    while i < e
      invariant s <= start < i <= e <= |l| && SubsetOk(l, start, e, level) && spl == SplAt(l[start], level)
      invariant num + |Nodes(l, start, e, level)| == |Nodes(l, s, e, level)|
      invariant forall k :: start <= k < i ==> SplAt(l[k], level) == spl
    {
      if SplAt(l[i], level) != spl {
        SonsStep(l, start, e, level, i);
        num := num + 1;
        spl := SplAt(l[i], level);
        start := i;
      }
      i := i + 1;
    }
    SonsEnd(l, start, e, level);
    num := num + 1;
  }

  lemma SubsetBounds(l: seq<Entry>, s: nat, e: nat, level: nat)
    requires SubsetOk(l, s, e, level)
    ensures s <= e <= |l|
  {
  }

  lemma GroupAt(l: seq<Entry>, s: nat, e: nat, level: nat, m: nat)
    requires SubsetOk(l, s, e, level) && s < m <= e
      && (forall k :: s <= k < m ==> SplAt(l[k], level) == SplAt(l[s], level))
    requires m < e ==> SplAt(l[m], level) != SplAt(l[s], level)
    ensures IsGroup(l, s, e, level, m, HomoNum(Slice(l, s, e, level)[..m - s]))
  {
    var items := Slice(l, s, e, level);
    forall i | 0 <= i < m - s ensures items[i].path[0] == items[0].path[0] {
      assert SplAt(l[s + i], level) == SplAt(l[s], level);
    }
    GroupEndIs(items, 1, m - s);
  }

  lemma SonsStep(l: seq<Entry>, s: nat, e: nat, level: nat, m: nat)
    requires SubsetOk(l, s, e, level) && s < m < e
      && (forall k :: s <= k < m ==> SplAt(l[k], level) == SplAt(l[s], level))
    requires SplAt(l[m], level) != SplAt(l[s], level)
    ensures SubsetOk(l, m, e, level) && |Nodes(l, s, e, level)| == 1 + |Nodes(l, m, e, level)|
  {
    GroupAt(l, s, e, level, m);
    GroupParts(l, s, e, level, m, HomoNum(Slice(l, s, e, level)[..m - s]));
  }

  lemma SonsEnd(l: seq<Entry>, s: nat, e: nat, level: nat)
    requires SubsetOk(l, s, e, level) && s < e && forall k :: s <= k < e ==> SplAt(l[k], level) == SplAt(l[s], level)
    ensures |Nodes(l, s, e, level)| == 1
  {
    GroupAt(l, s, e, level, e);
    GroupParts(l, s, e, level, e, HomoNum(Slice(l, s, e, level)[..e - s]));
    NothingBuilt(l, e, level);
  }

  lemma NothingBuilt(l: seq<Entry>, e: nat, level: nat)
    requires SubsetOk(l, e, e, level)
    ensures Nodes(l, e, e, level) == []
  {
  }

  // ---- The builder ----

  /** Where the sons' parent is: in the first layers or below them. */
  datatype Parent = InLe0(i: nat) | InGe1(i: nat)

  /** What there must be room for. */
  ghost predicate Room(ts: seq<Trie>, used: nat, size: nat, top: nat, idSize: nat) {
    used + NodeCount(ts) <= size <= OFFSET_RANGE && top + HomoCount(ts) <= idSize < OFFSET_RANGE && CountsFit(ts)
  }

  ghost predicate Zero(g: seq<Ge1>, a: nat, b: nat) {
    forall k :: a <= k < b && k < |g| ==> g[k] == NO_GE1
  }

  /** The first |done| of the sons at `first`, num in all, are finished, and everything below them is before `used`. */
  ghost predicate Partly(g: seq<Ge1>, h: seq<nat>, first: nat, num: nat, used: nat, top: nat, done: seq<Trie>) {
    && |done| <= num && first + num <= used <= |g| && top <= |h|
    && Holds(g, h, first + num, used, top, first, done)
    && Zero(g, first + |done|, first + num) && Zero(g, used, |g|)
  }

  /** The arrays after one node, its ids and everything below it were written. */
  ghost predicate NodeWritten(g: seq<Ge1>, h: seq<nat>, used: nat, top: nat, p: nat, t: Trie, g': seq<Ge1>,
    h': seq<nat>, used': nat, top': nat) {
    && |g'| == |g| && |h'| == |h| && p < used <= used' <= |g| && top <= top' <= |h|
    && used' == used + NodeCount(t.sons) && top' == top + |t.homos| + HomoCount(t.sons)
    && (forall k :: 0 <= k < used && k != p ==> g'[k] == g[k]) && h'[..top] == h[..top]
    && h'[top..top'] == t.homos + AllHomos(t.sons)
    && NodeHolds(g', h', used, used', top', p, t) && Zero(g', used', |g|)
  }

  lemma PartlyStep(g: seq<Ge1>, h: seq<nat>, first: nat, num: nat, used: nat, top: nat, done: seq<Trie>, t: Trie,
                   g': seq<Ge1>, h': seq<nat>, used': nat, top': nat)
    requires Partly(g, h, first, num, used, top, done) && |done| < num
    requires NodeWritten(g, h, used, top, first + |done|, t, g', h', used', top')
    ensures Partly(g', h', first, num, used', top', done + [t])
  {
    hide NodeHolds, AllHomos, NodeCount, HomoCount;
    var p, lo := first + |done|, first + num;
    assert g'[lo..used] == g[lo..used];
    assert Zero(g', p + 1, lo);
    hide Zero;
    forall j | 0 <= j < |done + [t]| ensures NodeHolds(g', h', lo, used', top', first + j, (done + [t])[j]) {
      if j < |done| {
        Within(g, h, lo, used, top, first, done, j);
        NodeKept(g, h, lo, used, top, first + j, done[j], g', h', lo, used', top');
      } else {
        NodeKept(g', h', used, used', top', p, t, g', h', lo, used', top');
      }
    }
  }

  lemma PartlyStart(g: seq<Ge1>, h: seq<nat>, first: nat, num: nat, top: nat)
    requires first + num <= |g| && top <= |h| && Zero(g, first, |g|)
    ensures Partly(g, h, first, num, first + num, top, [])
  {
  }

  /** A node without sons, and its ids. */
  lemma LeafWritten(g: seq<Ge1>, h: seq<nat>, used: nat, top: nat, p: nat, t: Trie, g': seq<Ge1>, h': seq<nat>)
    requires p < used <= |g| == |g'| && |h'| == |h| && top + |t.homos| <= |h| < OFFSET_RANGE && t.sons == []
      && |t.homos| < 0x100
    requires g' == g[p := WithHomoOffset(NO_GE1.(spl := t.spl, homos := |t.homos|), top)]
    requires h'[..top] == h[..top] && h'[top..top + |t.homos|] == t.homos && Zero(g, used, |g|)
    ensures NodeWritten(g, h, used, top, p, t, g', h', used, top + |t.homos|)
  {
    assert t.homos + AllHomos(t.sons) == t.homos;
    OffsetRoundTrip(NO_GE1.(spl := t.spl, homos := |t.homos|), top);
  }

  /** A node whose sons were built behind the used part. */
  lemma InnerWritten(g: seq<Ge1>, h: seq<nat>, used: nat, top: nat, p: nat, t: Trie, g1: seq<Ge1>, h1: seq<nat>,
                     g': seq<Ge1>, h': seq<nat>, used': nat, top': nat)
    requires NodeWritten(g, h, used, top, p, t.(sons := []), g1, h1, used, top + |t.homos|) && t.sons != []
      && |t.sons| < 0x100 && used < OFFSET_RANGE
    requires |g'| == |g| && |h'| == |h| && used' == used + NodeCount(t.sons) <= |g|
      && top' == top + |t.homos| + HomoCount(t.sons) <= |h|
    requires g'[p] == WithSonOffset(g1[p], used).(sons := |t.sons|)
      && (forall k :: 0 <= k < used && k != p ==> g'[k] == g1[k])
    requires h'[..top + |t.homos|] == h1[..top + |t.homos|]
    requires Holds(g', h', used + |t.sons|, used', top', used, t.sons) && Zero(g', used', |g'|)
      && h'[top + |t.homos|..top'] == AllHomos(t.sons)
    ensures NodeWritten(g, h, used, top, p, t, g', h', used', top')
  {
    hide NodeHolds, Holds, Zero, NodeCount, HomoCount;
    var n := |t.homos|;
    SameSlice(h', h1, top + n, 0, top);
    assert h'[..top] == h'[0..top] && h1[..top] == h1[0..top];
    SameSlice(h', h1, top + n, top, top + n);
    assert t.homos + AllHomos([]) == t.homos;
    JoinParts(h', top, top + n, top', t.homos, AllHomos(t.sons));
    SonsWidened(g', h', used, used', top', t.sons);
    LeafGives(g1, h1, used, top + |t.homos|, p, t);
    InnerHolds(g', h', used, used', top', p, t, g1[p], h1, top + |t.homos|);
  }

  lemma SonsWidened(g: seq<Ge1>, h: seq<nat>, used: nat, hi: nat, top: nat, ts: seq<Trie>)
    requires Holds(g, h, used + |ts|, hi, top, used, ts) && used + |ts| <= hi <= |g| && top <= |h|
    ensures forall j :: 0 <= j < |ts| ==> NodeHolds(g, h, used, hi, top, used + j, ts[j])
  {
    forall j | 0 <= j < |ts| ensures NodeHolds(g, h, used, hi, top, used + j, ts[j]) {
      Within(g, h, used + |ts|, hi, top, used, ts, j);
      NodeKept(g, h, used + |ts|, hi, top, used + j, ts[j], g, h, used, hi, top);
    }
  }

  lemma Within(g: seq<Ge1>, h: seq<nat>, lo: nat, hi: nat, top: nat, off: nat, ts: seq<Trie>, j: nat)
    requires Holds(g, h, lo, hi, top, off, ts) && j < |ts|
    ensures NodeHolds(g, h, lo, hi, top, off + j, ts[j]) && off + j < |g|
  {
  }

  lemma LeafGives(g: seq<Ge1>, h: seq<nat>, used: nat, top: nat, p: nat, t: Trie)
    requires NodeHolds(g, h, used, used, top, p, t.(sons := []))
    ensures p < |g| && top <= |h| && g[p].spl == t.spl && g[p].homos as nat == |t.homos|
      && HomoOffset(g[p]) + |t.homos| <= top
    ensures h[HomoOffset(g[p])..HomoOffset(g[p]) + |t.homos|] == t.homos
  {
  }

  lemma InnerHolds(g: seq<Ge1>, h: seq<nat>, used: nat, hi: nat, top: nat, p: nat, t: Trie, leaf: Ge1,
    h1: seq<nat>, top1: nat)
    requires |t.sons| < 0x100 && p < |g| && g[p] == WithSonOffset(leaf, used).(sons := |t.sons|) && used < OFFSET_RANGE
    requires leaf.spl == t.spl && leaf.homos as nat == |t.homos| && HomoOffset(leaf) + |t.homos| <= top1 <= top <= |h|
      && top1 <= |h1|
    requires h1[HomoOffset(leaf)..HomoOffset(leaf) + |t.homos|] == t.homos && h[..top1] == h1[..top1]
    requires used + |t.sons| <= hi <= |g|
      && forall j :: 0 <= j < |t.sons| ==> NodeHolds(g, h, used, hi, top, used + j, t.sons[j])
    ensures NodeHolds(g, h, used, hi, top, p, t)
  {
    OffsetRoundTrip(leaf, used);
    var o, n := HomoOffset(leaf), |t.homos|;
    assert HomoOffset(g[p]) == o && SonOffset(g[p]) == used by {
      hide NodeHolds;
    }
    assert h[o..o + n] == h[..top1][o..o + n] && h1[o..o + n] == h1[..top1][o..o + n];
  }

  class DictBuilder {
    const lemmas: seq<Entry>
    const le0: array<Le0>
    const ge1: array<Ge1>
    const homos: array<nat>
    var le0Used: nat
    var ge1Used: nat
    var homoEq1: nat
    var homoGt1: nat

    /** The ids so far. */
    function Top(): (n: nat)
      reads this
    {
      homoEq1 + homoGt1
    }

    /** One node of a deeper layer: its spelling, its ids, and what lies below it. */
    method GroupNode(p: nat, s: nat, m: nat, h: nat, level: nat, ghost t: Trie)
      requires 1 <= level < MAX_LEMMA_SIZE && s < m && s + h <= m <= |lemmas| && SubsetOk(lemmas, s + h, m, level + 1)
        && level < |lemmas[s].ids|
      requires forall i :: s <= i < s + h ==> level <= |lemmas[i].ids|
      requires t == Trie(lemmas[s].ids[level], Ids(Slice(lemmas, s, s + h, level)), Nodes(lemmas, s + h, m, level + 1))
      requires |t.homos| < 0x100 && |t.sons| < 0x100 && CountsFit(t.sons) && p < ge1Used
      requires ge1Used + NodeCount(t.sons) <= ge1.Length <= OFFSET_RANGE && (t.sons != [] ==> ge1Used < OFFSET_RANGE)
      requires Top() + |t.homos| + HomoCount(t.sons) <= homos.Length < OFFSET_RANGE
      requires ge1[p] == NO_GE1 && Zero(ge1[..], ge1Used, ge1.Length)
      modifies le0, ge1, homos, this`ge1Used, this`homoGt1
      ensures le0[..] == old(le0[..])
      ensures NodeWritten(old(ge1[..]), old(homos[..]), old(ge1Used), old(Top()), p, t, ge1[..],
                homos[..], ge1Used, Top())
      decreases MAX_LEMMA_SIZE - level, 0
    {
      hide *;
      Constants();
      TopIs();
      ghost var g, ids, used, top0 := ge1[..], homos[..], ge1Used, homoEq1 + homoGt1;
      GroupIds(lemmas, s, h, level);
      SplIs(lemmas[s], level);
      StoreNode(p, SplAt(lemmas[s], level), s, h);
      TopIs();
      ghost var leaf := t.(sons := []);
      LeafWritten(g, ids, used, top0, p, leaf, ge1[..], homos[..]);
      ghost var g1, ids1 := ge1[..], homos[..];
      if m - s > h {
        SonsAre(lemmas, s + h, m, level + 1, t.sons);
        RoomIs(t.sons, ge1Used, ge1.Length, homoEq1 + homoGt1, homos.Length);
        var ok := ConstructSubset(InGe1(p), s + h, m, level + 1);
        TopIs();
        InnerWritten(g, ids, used, top0, p, t, g1, ids1, ge1[..], homos[..], ge1Used, homoEq1 + homoGt1);
      } else {
        NoSons(lemmas, s + h, level + 1, t);
      }
    }

    /** The fields of the node, and the ids behind those of all earlier nodes. */
    method StoreNode(p: nat, spl: u16, s: nat, h: nat)
      requires p < ge1.Length && s + h <= |lemmas| && h < 0x100 && homoEq1 + homoGt1 + h <= homos.Length
        && ge1[p] == NO_GE1
      modifies ge1, homos, this`homoGt1
      ensures homoGt1 == old(homoGt1) + h
      ensures ge1[..] == old(ge1[..])[p := WithHomoOffset(NO_GE1.(spl := spl, homos := h), homoEq1 + old(homoGt1))]
      ensures homos[..][..homoEq1 + old(homoGt1)] == old(homos[..])[..homoEq1 + old(homoGt1)]
      ensures homos[..][homoEq1 + old(homoGt1)..homoEq1 + old(homoGt1) + h] == IdsFrom(lemmas, s, h)
    {
      var top := homoEq1 + homoGt1;
      ge1[p] := WithHomoOffset(ge1[p].(spl := spl), top);
      homoGt1 := homoGt1 + h;
      if h > 0 {
        ge1[p] := ge1[p].(homos := h);
        CopyIds(top, s, h);
      }
    }

    method CopyIds(top: nat, s: nat, h: nat)
      requires s + h <= |lemmas| && top + h <= homos.Length
      modifies homos
      ensures homos[..][..top] == old(homos[..])[..top] && homos[..][top..top + h] == IdsFrom(lemmas, s, h)
    {
      ghost var was := homos[..];
      var k := 0;
      while k < h
        invariant k <= h && homos[..][..top] == was[..top] && homos[..][top..top + k] == IdsFrom(lemmas, s, k)
      {
        homos[top + k] := lemmas[s + k].id;
        k := k + 1;
        assert homos[..][top..top + k] == homos[..][top..top + k - 1] + [lemmas[s + k - 1].id];
      }
    }

    /** `num_of_son` and the offset of the first son. */
    method SetParent(parent: Parent, first: nat, num: nat)
      requires parent.InLe0? ==> parent.i < le0.Length && num < 0x1_0000 && first < WORD_RANGE
      requires parent.InGe1? ==> parent.i < ge1.Length && num < 0x100
      modifies le0, ge1
      ensures ParentSet(parent, first, num, old(le0[..]), old(ge1[..]), le0[..], ge1[..])
    {
      match parent {
        case InLe0(i) => le0[i] := le0[i].(sonOff := first, sons := num);
        case InGe1(i) => ge1[i] := WithSonOffset(ge1[i], first).(sons := num);
      }
    }

    /** Scan the next group and finish its node. */
    method NextSon(start: nat, e: nat, level: nat, first: nat, sonPos: nat, sonNum: nat,
                   ghost ts: seq<Trie>, ghost done: seq<Trie>, ghost g0: seq<Ge1>, ghost ids: seq<nat>, ghost top: nat)
      returns (m: nat, ghost t: Trie)
      requires 1 <= level < MAX_LEMMA_SIZE && SubsetOk(lemmas, start, e, level) && start < e && sonPos == |done|
        && |ts| == sonNum
      requires ts == done + Nodes(lemmas, start, e, level) && Room(ts, first, ge1.Length, top, homos.Length)
      requires Filling(g0, ids, top, ge1[..], homos[..], first, sonNum, ge1Used, homoEq1 + homoGt1, done)
      requires ge1Used + sonPos == first + sonNum + NodeCount(done) && homoEq1 + homoGt1 == top + HomoCount(done)
      modifies le0, ge1, homos, this`ge1Used, this`homoGt1
      ensures start < m <= e && SubsetOk(lemmas, m, e, level) && ts == (done + [t]) + Nodes(lemmas, m, e, level)
        && le0[..] == old(le0[..])
      ensures Filling(g0, ids, top, ge1[..], homos[..], first, sonNum, ge1Used, homoEq1 + homoGt1, done + [t])
      ensures ge1Used + sonPos + 1 == first + sonNum + NodeCount(done + [t])
        && homoEq1 + homoGt1 == top + HomoCount(done + [t])
      decreases MAX_LEMMA_SIZE - level, 1
    {
      hide *;
      TopIs();
      var h;
      m, h := ScanGroup(lemmas, start, e, level);
      GroupParts(lemmas, start, e, level, m, h);
      GroupBounds(lemmas, start, e, level, m, h);
      t := Trie(lemmas[start].ids[level], Ids(Slice(lemmas, start, start + h, level)),
        Nodes(lemmas, start + h, m, level + 1));
      ghost var rest := Nodes(lemmas, m, e, level);
      RoomForNode(ts, done, t, rest, first, sonNum, ge1Used, ge1.Length, Top(), top, homos.Length);
      FillingGives(g0, ids, top, ge1[..], homos[..], first, sonNum, ge1Used, Top(), done);
      ghost var g1, ids1, used1, top1 := ge1[..], homos[..], ge1Used, Top();
      GroupNode(first + sonPos, start, m, h, level, t);
      TopIs();
      FillingStep(g0, ids, top, g1, ids1, first, sonNum, used1, top1, done, t, ge1[..], homos[..], ge1Used, Top());
      CountSnoc(done, t);
      assert done + ([t] + rest) == (done + [t]) + rest;
    }

    /** `construct_subset` below the first layer: the sons get consecutive nodes, and each is finished, with everything
        below it, before the next. */
    method ConstructSubset(parent: Parent, s: nat, e: nat, level: nat) returns (ok: bool)
      requires 1 <= level <= MAX_LEMMA_SIZE && SubsetOk(lemmas, s, e, level) && s < e
      requires Room(Nodes(lemmas, s, e, level), ge1Used, ge1.Length, Top(), homos.Length) && ge1Used < OFFSET_RANGE
      requires parent.InLe0? ==> parent.i < le0.Length && |Nodes(lemmas, s, e, level)| < 0x1_0000
      requires parent.InGe1? ==> parent.i < ge1Used && |Nodes(lemmas, s, e, level)| < 0x100
      requires Zero(ge1[..], ge1Used, ge1.Length)
      modifies le0, ge1, homos, this`ge1Used, this`homoGt1
      ensures ok && ge1Used == old(ge1Used) + NodeCount(Nodes(lemmas, s, e, level)) <= ge1.Length
      ensures homoGt1 == old(homoGt1) + HomoCount(Nodes(lemmas, s, e, level)) && Top() <= homos.Length
      ensures parent.InLe0? ==>
                le0[..] == old(le0[..])[parent.i :=
                  old(le0[..])[parent.i].(sonOff := old(ge1Used), sons := |Nodes(lemmas, s, e, level)|)]
      ensures parent.InGe1? ==> le0[..] == old(le0[..])
                                && ge1[..][parent.i] == WithSonOffset(old(ge1[..])[parent.i],
                                     old(ge1Used)).(sons := |Nodes(lemmas, s, e, level)|)
      ensures forall k :: 0 <= k < old(ge1Used) && parent != InGe1(k) ==> ge1[..][k] == old(ge1[..])[k]
      ensures homos[..][..old(Top())] == old(homos[..])[..old(Top())] && Zero(ge1[..], ge1Used, ge1.Length)
      ensures homos[..][old(Top())..Top()] == AllHomos(Nodes(lemmas, s, e, level))
      ensures Holds(ge1[..], homos[..], old(ge1Used) + |Nodes(lemmas, s, e, level)|, ge1Used, Top(), old(ge1Used),
                Nodes(lemmas, s, e, level))
      decreases MAX_LEMMA_SIZE - level, 2
    {
      hide *;
      Constants();
      TopIs();
      SubsetBounds(lemmas, s, e, level);
      if level >= MAX_LEMMA_SIZE || e <= s {
        SonsAre(lemmas, s, e, level, Nodes(lemmas, s, e, level));
        return false;
      }
      ghost var ts, g, x, ids, used, top := Nodes(lemmas, s, e, level), ge1[..], le0[..], homos[..],
        ge1Used, homoEq1 + homoGt1;
      RoomGives(ts, used, ge1.Length, top, homos.Length);
      var sonNum := CountSons(lemmas, s, e, level);
      var first := ge1Used;
      SetParent(parent, first, sonNum);
      ParentGives(parent, first, sonNum, x, g, le0[..], ge1[..], used);
      ghost var g0, x0 := ge1[..], le0[..];
      ge1Used := ge1Used + sonNum;
      var start, sonPos: nat := s, 0;
      ghost var done: seq<Trie> := [];
      FillingStart(ge1[..], homos[..], first, sonNum, top);
      SubsetStart(ts);
      TopIs();
      while start < e
        invariant s <= start <= e && SubsetOk(lemmas, start, e, level) && sonPos == |done|
        invariant ts == done + Nodes(lemmas, start, e, level) && homoGt1 == old(homoGt1) + HomoCount(done)
        invariant Filling(g0, ids, top, ge1[..], homos[..], first, sonNum, ge1Used, homoEq1 + homoGt1, done)
          && le0[..] == x0
        invariant ge1Used + sonPos == first + sonNum + NodeCount(done)
        decreases e - start
      {
        ghost var t;
        start, t := NextSon(start, e, level, first, sonPos, sonNum, ts, done, g0, ids, top);
        done := done + [t];
        sonPos := sonPos + 1;
      }
      NothingBuilt(lemmas, e, level);
      TopIs();
      FillingEnd(g0, ids, top, ge1[..], homos[..], first, sonNum, ge1Used, homoEq1 + homoGt1, done, ts);
      ok := true;
    }

    // ---- The first layer ----

    /** The fields of a node of the first layer, and its ids. */
    method StoreTop(p: nat, spl: u16, s: nat, h: nat)
      requires p < le0.Length && s + h <= |lemmas| && h < 0x1_0000
        && homoEq1 + homoGt1 + h <= homos.Length < OFFSET_RANGE && le0[p] == NO_LE0
      modifies le0, homos, this`homoEq1
      ensures homoEq1 == old(homoEq1) + h
      ensures le0[..] == old(le0[..])[p := Le0(0, old(homoEq1) + homoGt1, spl, 0, h)]
      ensures homos[..][..old(homoEq1) + homoGt1] == old(homos[..])[..old(homoEq1) + homoGt1]
      ensures homos[..][old(homoEq1) + homoGt1..old(homoEq1) + homoGt1 + h] == IdsFrom(lemmas, s, h)
    {
      var top: nat := homoEq1 + homoGt1;
      le0[p] := le0[p].(spl := spl, homoOff := top, sonOff := 0);
      homoEq1 := homoEq1 + h;
      if h > 0 {
        le0[p] := le0[p].(homos := h);
        CopyIds(top, s, h);
      }
    }

    /** One node of the first layer, and everything below it. */
    method TopNode(p: nat, s: nat, m: nat, h: nat, ghost t: Trie)
      requires s < m && s + h <= m <= |lemmas| && SubsetOk(lemmas, s + h, m, 1) && 0 < |lemmas[s].ids|
      requires t == Trie(lemmas[s].ids[0], Ids(Slice(lemmas, s, s + h, 0)), Nodes(lemmas, s + h, m, 1))
      requires |t.homos| < 0x1_0000 && |t.sons| < 0x1_0000 && CountsFit(t.sons) && p < le0.Length && le0[p] == NO_LE0
      requires ge1Used + NodeCount(t.sons) <= ge1.Length <= OFFSET_RANGE && (t.sons != [] ==> ge1Used < OFFSET_RANGE)
      requires homoEq1 + homoGt1 + |t.homos| + HomoCount(t.sons) <= homos.Length < OFFSET_RANGE
      requires Zero(ge1[..], ge1Used, ge1.Length)
      modifies le0, ge1, homos, this`ge1Used, this`homoEq1, this`homoGt1
      ensures TopWritten(old(le0[..]), old(ge1[..]), old(homos[..]), old(ge1Used), old(homoEq1 + homoGt1), p, t,
                         le0[..], ge1[..], homos[..], ge1Used, homoEq1 + homoGt1)
    {
      hide *;
      Constants();
      TopIs();
      ghost var x, g, ids, used, top0 := le0[..], ge1[..], homos[..], ge1Used, homoEq1 + homoGt1;
      GroupIds(lemmas, s, h, 0);
      SplIs(lemmas[s], 0);
      StoreTop(p, SplAt(lemmas[s], 0), s, h);
      TopIs();
      ghost var x1, ids1, top1 := le0[..], homos[..], top0 + h;
      if m - s > h {
        SonsAre(lemmas, s + h, m, 1, t.sons);
        RoomIs(t.sons, ge1Used, ge1.Length, homoEq1 + homoGt1, homos.Length);
        var ok := ConstructSubset(InLe0(p), s + h, m, 1);
        TopIs();
        TopInner(x, g, ids, used, top0, p, t, x1, ids1, le0[..], ge1[..], homos[..], ge1Used, homoEq1 + homoGt1);
      } else {
        NoSons(lemmas, s + h, 1, t);
        TopLeaf(x, g, ids, used, top0, p, t, le0[..], homos[..]);
      }
    }

    /** Scan the next group of the first layer and finish its node. */
    method NextTop(start: nat, e: nat, sonPos: nat, sonNum: nat, ghost ts: seq<Trie>, ghost done: seq<Trie>)
      returns (m: nat, ghost t: Trie)
      requires SubsetOk(lemmas, start, e, 0) && start < e && sonPos == |done| && |ts| == sonNum
      requires ts == done + Nodes(lemmas, start, e, 0) && RoomFor(ts, le0.Length, ge1.Length, homos.Length)
      requires TopFilling(le0[..], ge1[..], homos[..], sonNum, ge1Used, homoEq1 + homoGt1, done)
      requires ge1Used + sonPos == NodeCount(done) && homoEq1 + homoGt1 == HomoCount(done)
      modifies le0, ge1, homos, this`ge1Used, this`homoEq1, this`homoGt1
      ensures start < m <= e && SubsetOk(lemmas, m, e, 0) && ts == (done + [t]) + Nodes(lemmas, m, e, 0)
      ensures TopFilling(le0[..], ge1[..], homos[..], sonNum, ge1Used, homoEq1 + homoGt1, done + [t])
      ensures ge1Used + sonPos + 1 == NodeCount(done + [t]) && homoEq1 + homoGt1 == HomoCount(done + [t])
    {
      hide *;
      Constants();
      var h;
      m, h := ScanGroup(lemmas, start, e, 0);
      GroupParts(lemmas, start, e, 0, m, h);
      GroupBounds(lemmas, start, e, 0, m, h);
      t := Trie(lemmas[start].ids[0], Ids(Slice(lemmas, start, start + h, 0)), Nodes(lemmas, start + h, m, 1));
      ghost var rest := Nodes(lemmas, m, e, 0);
      RoomForTop(ts, done, t, rest, ge1Used, homoEq1 + homoGt1, le0.Length, ge1.Length, homos.Length);
      TopFillingGives(le0[..], ge1[..], homos[..], sonNum, ge1Used, homoEq1 + homoGt1, done);
      ghost var x1, g1, ids1, used1, top1 := le0[..], ge1[..], homos[..], ge1Used, homoEq1 + homoGt1;
      TopNode(1 + sonPos, start, m, h, t);
      TopFillingStep(x1, g1, ids1, sonNum, used1, top1, done, t, le0[..], ge1[..], homos[..], ge1Used,
        homoEq1 + homoGt1);
      CountSnoc(done, t);
      assert done + ([t] + rest) == (done + [t]) + rest;
    }

    /** Nothing built yet: the root is in use, and all nodes are zero. */
    ghost predicate Empty()
      reads this, le0, ge1
    {
      && le0Used == 1 <= le0.Length && ge1Used == 0 && homoEq1 == 0 && homoGt1 == 0
      && (forall k :: 0 <= k < le0.Length ==> le0[k] == NO_LE0) && Zero(ge1[..], 0, ge1.Length)
    }

    /** `construct_subset` for the root: the arrays then hold the trie of the whole lemma array. */
    method ConstructRoot() returns (ok: bool)
      requires Empty() && SubsetOk(lemmas, 0, |lemmas|, 0)
        && RoomFor(Nodes(lemmas, 0, |lemmas|, 0), le0.Length, ge1.Length, homos.Length)
      modifies this`le0Used, le0, ge1, homos, this`ge1Used, this`homoEq1, this`homoGt1
      ensures ok <==> lemmas != []
      ensures ok ==> le0Used <= le0.Length && ge1Used <= ge1.Length && homoEq1 + homoGt1 == |lemmas| <= homos.Length
      ensures ok ==> Stored(le0[..le0Used], ge1[..ge1Used], homos[..homoEq1 + homoGt1], Nodes(lemmas, 0, |lemmas|, 0))
      ensures ok ==> homos[..homoEq1 + homoGt1] == IdsFrom(lemmas, 0, |lemmas|)
    {
      hide *;
      hide DictBuilder.Empty;
      var e := |lemmas|;
      if e <= 0 {
        return false;
      }
      ghost var ts := Nodes(lemmas, 0, e, 0);
      EmptyGives();
      RoomForGives(ts, le0.Length, ge1.Length, homos.Length);
      var sonNum := CountSons(lemmas, 0, e, 0);
      le0[0] := le0[0].(sonOff := le0Used, sons := sonNum);
      TopFillingStart(le0[..], ge1[..], homos[..], sonNum);
      le0Used := le0Used + sonNum;
      var start, sonPos: nat := 0, 0;
      ghost var done: seq<Trie> := [];
      SubsetStart(ts);
      while start < e
        invariant 0 <= start <= e && SubsetOk(lemmas, start, e, 0) && sonPos == |done|
        invariant ts == done + Nodes(lemmas, start, e, 0) && le0Used == 1 + sonNum
        invariant TopFilling(le0[..], ge1[..], homos[..], sonNum, ge1Used, homoEq1 + homoGt1, done)
        invariant ge1Used + sonPos == NodeCount(done) && homoEq1 + homoGt1 == HomoCount(done)
        decreases e - start
      {
        ghost var t;
        start, t := NextTop(start, e, sonPos, sonNum, ts, done);
        done := done + [t];
        sonPos := sonPos + 1;
      }
      NothingBuilt(lemmas, e, 0);
      TopFillingEnd(le0[..], ge1[..], homos[..], sonNum, ge1Used, homoEq1 + homoGt1, done, ts);
      AllListed(lemmas);
      assert le0[..le0Used] == le0[..][..1 + sonNum] && ge1[..ge1Used] == ge1[..][..ge1Used];
      assert homos[..homoEq1 + homoGt1] == homos[..][..homoEq1 + homoGt1];
      ok := true;
    }

    /** The copies for the dictionary: the used nodes, and every id in three bytes, those of the top lemmas last. */
    method CopyOut(tops: seq<nat>) returns (root: seq<Le0>, nodes: seq<Ge1>, buf: array<u8>)
      requires le0Used <= le0.Length && ge1Used <= ge1.Length && homoEq1 + homoGt1 <= homos.Length
      requires (forall k :: 0 <= k < homoEq1 + homoGt1 ==> homos[k] < OFFSET_RANGE)
        && forall k :: 0 <= k < |tops| ==> tops[k] < OFFSET_RANGE
      ensures root == le0[..le0Used] && nodes == ge1[..ge1Used] && fresh(buf)
      ensures IdsOf(buf[..]) == homos[..homoEq1 + homoGt1] + tops
    {
      root, nodes := le0[..le0Used], ge1[..ge1Used];
      var n := homoEq1 + homoGt1;
      buf := new u8[3 * (n + |tops|)](i => 0);
      ghost var all := homos[..n] + tops;
      var pos: nat := 0;
      while pos < n
        invariant pos <= n && ReadsBack(buf[..], all, pos)
      {
        PutId(buf, pos, homos[pos], all);
        pos := pos + 1;
      }
      while pos < n + |tops|
        invariant n <= pos <= n + |tops| && ReadsBack(buf[..], all, pos)
      {
        PutId(buf, pos, tops[pos - n], all);
        pos := pos + 1;
      }
      AllRead(buf[..], all);
    }

    /** `build_dict` from the sorted lemma array on: afterwards the dictionary holds the trie of the array. */
    method BuildDict(tops: seq<nat>) returns (ok: bool, root: seq<Le0>, nodes: seq<Ge1>, buf: array<u8>)
      requires Empty() && SubsetOk(lemmas, 0, |lemmas|, 0)
        && RoomFor(Nodes(lemmas, 0, |lemmas|, 0), le0.Length, ge1.Length, homos.Length)
      requires (forall k :: 0 <= k < |lemmas| ==> lemmas[k].id < OFFSET_RANGE)
        && forall k :: 0 <= k < |tops| ==> tops[k] < OFFSET_RANGE
      modifies this`le0Used, le0, ge1, homos, this`ge1Used, this`homoEq1, this`homoGt1
      ensures ok <==> lemmas != []
      ensures ok ==> Stored(root, nodes, IdsOf(buf[..]), Nodes(lemmas, 0, |lemmas|, 0))
      ensures ok ==> IdsOf(buf[..]) == IdsFrom(lemmas, 0, |lemmas|) + tops && |nodes| <= ge1.Length
    {
      hide *;
      hide DictBuilder.Empty;
      root, nodes, buf := [], [], new u8[0];
      ok := ConstructRoot();
      if ok {
        ghost var h, ts := homos[..homoEq1 + homoGt1], Nodes(lemmas, 0, |lemmas|, 0);
        assert forall k :: 0 <= k < homoEq1 + homoGt1 ==> homos[k] == h[k] == lemmas[k].id;
        root, nodes, buf := CopyOut(tops);
        StoredMore(root, nodes, h, ts, tops);
      }
    }

    lemma EmptyGives()
      requires Empty()
      ensures le0Used == 1 <= le0.Length && ge1Used == 0 && homoEq1 == 0 && homoGt1 == 0 && Zero(ge1[..], 0, ge1.Length)
      ensures forall k :: 0 <= k < le0.Length ==> le0[k] == NO_LE0
      ensures le0[0] == Le0(0, 0, 0, 0, 0)
    {
    }

    lemma TopIs()
      ensures Top() == homoEq1 + homoGt1
    {
    }
  }

  lemma Constants()
    ensures MAX_LEMMA_SIZE == 8 && OFFSET_RANGE == 0x100_0000 && WORD_RANGE == 0x1_0000_0000
  {
  }

  lemma RoomIs(ts: seq<Trie>, used: nat, size: nat, top: nat, idSize: nat)
    requires used + NodeCount(ts) <= size <= OFFSET_RANGE && top + HomoCount(ts) <= idSize < OFFSET_RANGE
      && CountsFit(ts)
    ensures Room(ts, used, size, top, idSize)
  {
  }

  lemma RoomGives(ts: seq<Trie>, used: nat, size: nat, top: nat, idSize: nat)
    requires Room(ts, used, size, top, idSize)
    ensures used + |ts| <= used + NodeCount(ts) <= size <= OFFSET_RANGE < WORD_RANGE
      && top + HomoCount(ts) <= idSize < OFFSET_RANGE && CountsFit(ts)
  {
  }

  lemma SubsetStart(ts: seq<Trie>)
    ensures ts == [] + ts && NodeCount([]) == 0 && HomoCount([]) == 0
  {
  }

  lemma CountSnoc(ts: seq<Trie>, t: Trie)
    ensures NodeCount(ts + [t]) == NodeCount(ts) + 1 + NodeCount(t.sons)
      && HomoCount(ts + [t]) == HomoCount(ts) + |t.homos| + HomoCount(t.sons)
  {
    CountConcat(ts, [t]);
    assert NodeCount([]) == 0 && HomoCount([]) == 0;
  }

  lemma ParentGives(parent: Parent, first: nat, num: nat, x: seq<Le0>, g: seq<Ge1>, x': seq<Le0>,
    g': seq<Ge1>, used: nat)
    requires ParentSet(parent, first, num, x, g, x', g') && used <= |g| && Zero(g, used, |g|)
      && (parent.InGe1? ==> parent.i < used)
    ensures |g'| == |g| && |x'| == |x| && Zero(g', used, |g'|)
    ensures parent.InLe0? ==>
              parent.i < |x| && num < 0x1_0000 && first < WORD_RANGE
              && x' == x[parent.i := x[parent.i].(sonOff := first, sons := num)]
    ensures parent.InGe1? ==>
              parent.i < |g| && num < 0x100 && x' == x
              && g'[parent.i] == WithSonOffset(g[parent.i], first).(sons := num)
    ensures forall k :: 0 <= k < used && parent != InGe1(k) ==> g'[k] == g[k]
  {
  }

  lemma GroupBounds(l: seq<Entry>, s: nat, e: nat, level: nat, m: nat, h: nat)
    requires IsGroup(l, s, e, level, m, h)
    ensures s < m <= e <= |l| && s + h <= m && level < |l[s].ids| && forall i :: s <= i < s + h ==> level <= |l[i].ids|
    ensures |Ids(Slice(l, s, s + h, level))| == h
  {
  }

  /** The room for all sons leaves room for the next one and what lies below it. */
  lemma RoomForNode(ts: seq<Trie>, done: seq<Trie>, t: Trie, rest: seq<Trie>, first: nat, sonNum: nat, used: nat,
    size: nat, top: nat, top0: nat, idSize: nat)
    requires ts == done + ([t] + rest) && |ts| == sonNum && Room(ts, first, size, top0, idSize)
    requires used + |done| == first + sonNum + NodeCount(done) && top == top0 + HomoCount(done)
    ensures |done| < sonNum && |t.homos| < 0x100 && |t.sons| < 0x100 && CountsFit(t.sons)
    ensures used + NodeCount(t.sons) <= size && first + |done| < used && used <= size <= OFFSET_RANGE
      && first + sonNum <= used
    ensures t.sons != [] ==> used < OFFSET_RANGE
    ensures top + |t.homos| + HomoCount(t.sons) <= idSize < OFFSET_RANGE
  {
    CountConcat(done, [t] + rest);
    assert ([t] + rest)[1..] == rest;
    assert ts[|done|] == t;
    hide CountsFit;
    assert NodeCount([t] + rest) == 1 + NodeCount(t.sons) + NodeCount(rest);
    assert HomoCount([t] + rest) == |t.homos| + HomoCount(t.sons) + HomoCount(rest);
  }

  /** The sons so far, and what was there before them. */
  ghost predicate Filling(g0: seq<Ge1>, ids: seq<nat>, top0: nat, g: seq<Ge1>, h: seq<nat>, first: nat, num: nat,
    used: nat, top: nat, done: seq<Trie>) {
    && Partly(g, h, first, num, used, top, done) && |g0| == |g| && |ids| == |h| && top0 <= top
    && h[..top0] == ids[..top0] && h[top0..top] == AllHomos(done) && forall k :: 0 <= k < first ==> g[k] == g0[k]
  }

  lemma FillingStart(g: seq<Ge1>, h: seq<nat>, first: nat, num: nat, top: nat)
    requires first + num <= |g| && top <= |h| && Zero(g, first, |g|)
    ensures Filling(g, h, top, g, h, first, num, first + num, top, [])
  {
    PartlyStart(g, h, first, num, top);
  }

  lemma FillingGives(g0: seq<Ge1>, ids: seq<nat>, top0: nat, g: seq<Ge1>, h: seq<nat>, first: nat, num: nat, used: nat,
    top: nat, done: seq<Trie>)
    requires Filling(g0, ids, top0, g, h, first, num, used, top, done)
    ensures Zero(g, used, |g|) && (|done| < num ==> first + |done| < used <= |g| && g[first + |done|] == NO_GE1)
  {
  }

  lemma FillingStep(g0: seq<Ge1>, ids: seq<nat>, top0: nat, g: seq<Ge1>, h: seq<nat>, first: nat, num: nat, used: nat,
    top: nat, done: seq<Trie>,
                    t: Trie, g': seq<Ge1>, h': seq<nat>, used': nat, top': nat)
    requires Filling(g0, ids, top0, g, h, first, num, used, top, done) && |done| < num
    requires NodeWritten(g, h, used, top, first + |done|, t, g', h', used', top')
    ensures Filling(g0, ids, top0, g', h', first, num, used', top', done + [t])
    ensures used' == used + NodeCount(t.sons) && top' == top + |t.homos| + HomoCount(t.sons)
  {
    PartlyStep(g, h, first, num, used, top, done, t, g', h', used', top');
    hide Partly, AllHomos, NodeHolds;
    SameSlice(h', h, top, 0, top0);
    assert h'[..top0] == h'[0..top0] && h[..top0] == h[0..top0];
    SameSlice(h', h, top, top0, top);
    AllHomosSnoc(done, t);
    JoinParts(h', top0, top, top', AllHomos(done), t.homos + AllHomos(t.sons));
  }

  lemma FillingEnd(g0: seq<Ge1>, ids: seq<nat>, top0: nat, g: seq<Ge1>, h: seq<nat>, first: nat, num: nat, used: nat,
    top: nat, done: seq<Trie>, ts: seq<Trie>)
    requires Filling(g0, ids, top0, g, h, first, num, used, top, done) && ts == done + [] && |ts| == num
    ensures ts == done && Holds(g, h, first + num, used, top, first, ts) && Zero(g, used, |g|) && used <= |g|
      && top <= |h|
    ensures top0 <= top && h[..top0] == ids[..top0] && h[top0..top] == AllHomos(ts)
      && forall k :: 0 <= k < first ==> g[k] == g0[k]
  {
    assert done + [] == done;
  }

  function IdsFrom(l: seq<Entry>, s: nat, h: nat): (ids: seq<nat>)
    requires s + h <= |l|
    ensures |ids| == h && forall i :: 0 <= i < h ==> ids[i] == l[s + i].id
  {
    seq<nat>(h, i requires 0 <= i < h => l[s + i].id)
  }

  lemma GroupIds(l: seq<Entry>, s: nat, h: nat, level: nat)
    requires s + h <= |l| && forall i :: s <= i < s + h ==> level <= |l[i].ids|
    ensures Ids(Slice(l, s, s + h, level)) == IdsFrom(l, s, h) && |IdsFrom(l, s, h)| == h
  {
  }

  lemma SplIs(x: Entry, level: nat)
    ensures level < |x.ids| ==> SplAt(x, level) == x.ids[level]
  {
  }

  lemma SonsAre(l: seq<Entry>, s: nat, e: nat, level: nat, ts: seq<Trie>)
    requires SubsetOk(l, s, e, level) && s < e && ts == Nodes(l, s, e, level)
    ensures ts != [] && level < MAX_LEMMA_SIZE
  {
    assert level < |l[s].ids|;
  }

  lemma NoSons(l: seq<Entry>, s: nat, level: nat, t: Trie)
    requires SubsetOk(l, s, s, level) && t.sons == Nodes(l, s, s, level)
    ensures t.sons == [] && t == t.(sons := [])
  {
    NothingBuilt(l, s, level);
  }

  ghost predicate ParentSet(parent: Parent, first: nat, num: nat, x: seq<Le0>, g: seq<Ge1>,
    x': seq<Le0>, g': seq<Ge1>) {
    match parent
    case InLe0(i) => i < |x| && num < 0x1_0000 && first < WORD_RANGE
      && x' == x[i := x[i].(sonOff := first, sons := num)] && g' == g
    case InGe1(i) => i < |g| && num < 0x100 && x' == x && g' == g[i := WithSonOffset(g[i], first).(sons := num)]
  }

  // ---- The first layer ----

  ghost predicate TopWritten(x: seq<Le0>, g: seq<Ge1>, h: seq<nat>, used: nat, top: nat, p: nat, t: Trie,
                             x': seq<Le0>, g': seq<Ge1>, h': seq<nat>, used': nat, top': nat) {
    && |x'| == |x| && |g'| == |g| && |h'| == |h| && p < |x| && used' == used + NodeCount(t.sons) <= |g|
       && top' == top + |t.homos| + HomoCount(t.sons) <= |h|
    && (forall k :: 0 <= k < |x| && k != p ==> x'[k] == x[k]) && g'[..used] == g[..used] && h'[..top] == h[..top]
    && h'[top..top'] == t.homos + AllHomos(t.sons)
    && TopHolds(x', g', h', used', top', p, t) && Zero(g', used', |g|)
  }

  lemma TopLeaf(x: seq<Le0>, g: seq<Ge1>, h: seq<nat>, used: nat, top: nat, p: nat, t: Trie, x': seq<Le0>, h': seq<nat>)
    requires p < |x| && used <= |g| && top + |t.homos| <= |h'| == |h| < WORD_RANGE && t.sons == []
      && |t.homos| < 0x1_0000
    requires x' == x[p := Le0(0, top, t.spl, 0, |t.homos|)] && h'[..top] == h[..top]
      && h'[top..top + |t.homos|] == t.homos && Zero(g, used, |g|)
    ensures TopWritten(x, g, h, used, top, p, t, x', g, h', used, top + |t.homos|)
  {
    assert t.homos + AllHomos(t.sons) == t.homos;
  }

  lemma TopInner(x: seq<Le0>, g: seq<Ge1>, h: seq<nat>, used: nat, top: nat, p: nat, t: Trie,
    x1: seq<Le0>, h1: seq<nat>,
                 x': seq<Le0>, g': seq<Ge1>, h': seq<nat>, used': nat, top': nat)
    requires p < |x| && used <= |g| == |g'| && |h1| == |h| && top + |t.homos| <= |h'| == |h| < WORD_RANGE
      && t.sons != []
    requires |t.homos| < 0x1_0000 && |t.sons| < 0x1_0000 && used < WORD_RANGE
    requires x1 == x[p := Le0(0, top, t.spl, 0, |t.homos|)] && h1[..top] == h[..top]
      && h1[top..top + |t.homos|] == t.homos
    requires x' == x1[p := x1[p].(sonOff := used, sons := |t.sons|)] && h'[..top + |t.homos|] == h1[..top + |t.homos|]
    requires forall k :: 0 <= k < used ==> g'[k] == g[k]
    requires used' == used + NodeCount(t.sons) <= |g| && top' == top + |t.homos| + HomoCount(t.sons) <= |h|
    requires Holds(g', h', used + |t.sons|, used', top', used, t.sons) && Zero(g', used', |g'|)
      && h'[top + |t.homos|..top'] == AllHomos(t.sons)
    ensures TopWritten(x, g, h, used, top, p, t, x', g', h', used', top')
  {
    hide NodeHolds, Zero, AllHomos;
    var n := top + |t.homos|;
    SameSlice(h', h1, n, 0, top);
    assert h'[..top] == h'[0..top] && h1[..top] == h1[0..top];
    SameSlice(h', h1, n, top, top + |t.homos|);
    JoinParts(h', top, n, top', t.homos, AllHomos(t.sons));
    assert used + |t.sons| <= used' by {
      hide *;
    }
    forall j | 0 <= j < |t.sons| ensures NodeHolds(g', h', 0, used', top', used + j, t.sons[j]) {
      Within(g', h', used + |t.sons|, used', top', used, t.sons, j);
      NodeKept(g', h', used + |t.sons|, used', top', used + j, t.sons[j], g', h', 0, used', top');
    }
  }

  /** The finished nodes of the first layer. */
  ghost predicate TopFilling(x: seq<Le0>, g: seq<Ge1>, h: seq<nat>, num: nat, used: nat, top: nat, done: seq<Trie>) {
    && |done| <= num < 0x1_0000 && 1 + num <= |x| && used <= |g| && top <= |h| && x[0] == Le0(1, 0, 0, num, 0)
    && (forall j :: 0 <= j < |done| ==> TopHolds(x, g, h, used, top, 1 + j, done[j]))
    && (forall k :: |done| < k <= num ==> x[k] == NO_LE0) && Zero(g, used, |g|) && h[..top] == AllHomos(done)
  }

  lemma TopFillingStart(x: seq<Le0>, g: seq<Ge1>, h: seq<nat>, num: nat)
    requires num < 0x1_0000 && 1 + num <= |x| && x[0] == Le0(1, 0, 0, num, 0)
      && (forall k :: 0 < k < |x| ==> x[k] == NO_LE0) && Zero(g, 0, |g|)
    ensures TopFilling(x, g, h, num, 0, 0, [])
  {
  }

  lemma TopFillingGives(x: seq<Le0>, g: seq<Ge1>, h: seq<nat>, num: nat, used: nat, top: nat, done: seq<Trie>)
    requires TopFilling(x, g, h, num, used, top, done)
    ensures Zero(g, used, |g|) && |done| <= num && (|done| < num ==> 1 + |done| < |x| && x[1 + |done|] == NO_LE0)
  {
  }

  lemma TopFillingStep(x: seq<Le0>, g: seq<Ge1>, h: seq<nat>, num: nat, used: nat, top: nat, done: seq<Trie>, t: Trie,
                       x': seq<Le0>, g': seq<Ge1>, h': seq<nat>, used': nat, top': nat)
    requires TopFilling(x, g, h, num, used, top, done) && |done| < num
    requires TopWritten(x, g, h, used, top, 1 + |done|, t, x', g', h', used', top')
    ensures TopFilling(x', g', h', num, used', top', done + [t])
    ensures used' == used + NodeCount(t.sons) && top' == top + |t.homos| + HomoCount(t.sons)
  {
    hide TopHolds, Zero, AllHomos;
    AllHomosSnoc(done, t);
    assert h'[..top] == h'[0..top] && h'[..top'] == h'[0..top'];
    JoinParts(h', 0, top, top', AllHomos(done), t.homos + AllHomos(t.sons));
    forall j | 0 <= j < |done + [t]| ensures TopHolds(x', g', h', used', top', 1 + j, (done + [t])[j]) {
      if j < |done| {
        TopKept(x, g, h, used, top, 1 + j, done[j], x', g', h', used', top');
      }
    }
  }

  lemma TopFillingEnd(x: seq<Le0>, g: seq<Ge1>, h: seq<nat>, num: nat, used: nat, top: nat,
    done: seq<Trie>, ts: seq<Trie>)
    requires TopFilling(x, g, h, num, used, top, done) && ts == done + [] && |ts| == num
    ensures ts == done && 1 + num <= |x| && used <= |g| && top <= |h| && Stored(x[..1 + num], g[..used], h[..top], ts)
      && h[..top] == AllHomos(ts)
  {
    assert done + [] == done;
    hide TopHolds, Zero, AllHomos;
    var x', g', h' := x[..1 + num], g[..used], h[..top];
    assert |g'| == used && |h'| == top && |x'| == 1 + num && x'[0] == x[0];
    forall j | 0 <= j < |ts| ensures TopHolds(x', g', h', |g'|, |h'|, 1 + j, ts[j]) {
      hide Stored;
      TopCut(x, g, h, used, top, j, num, ts[j]);
    }
  }

  lemma TopCut(x: seq<Le0>, g: seq<Ge1>, h: seq<nat>, used: nat, top: nat, j: nat, num: nat, t: Trie)
    requires j < num < |x| && used <= |g| && top <= |h| && TopHolds(x, g, h, used, top, 1 + j, t)
    ensures TopHolds(x[..1 + num], g[..used], h[..top], used, top, 1 + j, t)
  {
    hide TopHolds;
    assert g[..used][..used] == g[..used] && h[..top][..top] == h[..top];
    TopKept(x, g, h, used, top, 1 + j, t, x[..1 + num], g[..used], h[..top], used, top);
  }

  /** What there must be room for in all. */
  ghost predicate RoomFor(ts: seq<Trie>, size0: nat, size1: nat, idSize: nat) {
    && |ts| < 0x1_0000 && 1 + |ts| <= size0 && NodeCount(ts) - |ts| <= size1 <= OFFSET_RANGE
       && HomoCount(ts) <= idSize < OFFSET_RANGE
    && forall j :: 0 <= j < |ts| ==> |ts[j].homos| < 0x1_0000 && |ts[j].sons| < 0x1_0000 && CountsFit(ts[j].sons)
  }

  lemma RoomForGives(ts: seq<Trie>, size0: nat, size1: nat, idSize: nat)
    requires RoomFor(ts, size0, size1, idSize)
    ensures |ts| < 0x1_0000 && 1 + |ts| <= size0 && HomoCount(ts) <= idSize && |ts| <= NodeCount(ts)
  {
  }

  lemma RoomForTop(ts: seq<Trie>, done: seq<Trie>, t: Trie, rest: seq<Trie>, used: nat, top: nat, size0: nat,
    size1: nat, idSize: nat)
    requires ts == done + ([t] + rest) && RoomFor(ts, size0, size1, idSize)
    requires used + |done| == NodeCount(done) && top == HomoCount(done)
    ensures |done| < |ts| && |t.homos| < 0x1_0000 && |t.sons| < 0x1_0000 && CountsFit(t.sons)
    ensures used + NodeCount(t.sons) <= size1 <= OFFSET_RANGE && (t.sons != [] ==> used < OFFSET_RANGE)
    ensures top + |t.homos| + HomoCount(t.sons) <= idSize < OFFSET_RANGE
  {
    CountConcat(done, [t] + rest);
    assert ([t] + rest)[1..] == rest;
    assert ts[|done|] == t;
    hide CountsFit;
    assert NodeCount([t] + rest) == 1 + NodeCount(t.sons) + NodeCount(rest);
    assert HomoCount([t] + rest) == |t.homos| + HomoCount(t.sons) + HomoCount(rest);
  }

  /** One id for each lemma. */
  lemma AllListed(l: seq<Entry>)
    requires SubsetOk(l, 0, |l|, 0)
    ensures HomoCount(Nodes(l, 0, |l|, 0)) == |l| && AllHomos(Nodes(l, 0, |l|, 0)) == IdsFrom(l, 0, |l|)
  {
    SliceNonEmpty(l, 0, |l|, 0);
    BuildLists(Slice(l, 0, |l|, 0));
    HomosInOrder(Nodes(l, 0, |l|, 0));
  }

  // ---- Copying out ----

  ghost predicate ReadsBack(buf: seq<u8>, ids: seq<nat>, n: nat) {
    |buf| == 3 * |ids| && n <= |ids| && forall k :: 0 <= k < n ==> IdAt(buf, k) == ids[k]
  }

  /** `id_to_charbuf`. */
  method PutId(buf: array<u8>, at: nat, id: nat, ghost ids: seq<nat>)
    requires at < |ids| && ids[at] == id < OFFSET_RANGE && ReadsBack(buf[..], ids, at)
    modifies buf
    ensures ReadsBack(buf[..], ids, at + 1)
  {
    ghost var was := buf[..];
    var pos := 0;
    while pos < 3
      invariant pos <= 3 && buf.Length == |was| && (forall k :: 0 <= k < 3 * at ==> buf[k] == was[k])
      invariant forall k :: 0 <= k < pos ==> buf[3 * at + k] == IdByte(id, k)
    {
      buf[3 * at + pos] := IdByte(id, pos);
      pos := pos + 1;
    }
    IdPut(was, buf[..], at, id, ids);
  }

  lemma IdPut(was: seq<u8>, buf: seq<u8>, at: nat, id: nat, ids: seq<nat>)
    requires at < |ids| && ids[at] == id < OFFSET_RANGE && ReadsBack(was, ids, at) && |buf| == |was|
    requires forall k :: 0 <= k < 3 * at ==> buf[k] == was[k]
    requires forall k :: 0 <= k < 3 ==> buf[3 * at + k] == IdByte(id, k)
    ensures ReadsBack(buf, ids, at + 1)
  {
    forall k | 0 <= k <= at ensures IdAt(buf, k) == ids[k] {
      if k < at {
        assert IdAt(was, k) == ids[k];
      } else {
        IdByteIs(id);
        IdRoundTrip(id);
        var b := IdBytes(id);
        assert buf[3 * at] == b[0] && buf[3 * at + 1] == b[1] && buf[3 * at + 2] == b[2];
      }
    }
  }

  lemma AllRead(buf: seq<u8>, ids: seq<nat>)
    requires ReadsBack(buf, ids, |ids|)
    ensures IdsOf(buf) == ids
  {
  }
}
