/** From the lemma array to the answers of the loaded dictionary. */
module BuiltDictionary {
  import opened Bytes
  import opened LemmaTrie
  import opened TrieNodes
  import opened TrieWalk
  import opened DictBuilding
  import opened SystemDictionary

  /** Every full spelling id, and nothing else, begins some lemma. */
  ghost predicate EveryIdBegins(l: seq<Entry>, n: nat) {
    && 0 < n && FULL_SPL_ID_START + n + 1 < 0x1_0000
    && (forall i :: 0 <= i < |l| ==> l[i].ids != [] && FULL_SPL_ID_START <= l[i].ids[0] as nat < FULL_SPL_ID_START + n)
    && forall x: u16 :: FULL_SPL_ID_START <= x as nat < FULL_SPL_ID_START + n ==> Begins(l, x)
  }

  ghost predicate Begins(l: seq<Entry>, x: u16) {
    exists i :: 0 <= i < |l| && l[i].ids != [] && l[i].ids[0] == x
  }

  ghost predicate HasSpl(ts: seq<Trie>, x: u16) {
    exists k :: 0 <= k < |ts| && ts[k].spl == x
  }

  /** The first layer has a node for exactly the first ids of the lemmas. */
  lemma {:induction false} FirstLayer(items: seq<Item>, x: u16)
    requires Sorted(items) && NonEmpty(items)
    ensures HasSpl(Build(items), x) <==> exists i :: 0 <= i < |items| && items[i].path[0] == x
    decreases Size(items)
  {
    hide *;
    LayerEmpty(x);
    if items != [] {
      BuildUnfolds(items);
      GroupOk(items);
      var e := GroupEnd(items, 1);
      FirstLayer(items[e..], x);
      LayerSplit(items, e, Build(items), x);
    }
  }

  lemma LayerEmpty(x: u16)
    ensures Sorted([]) && NonEmpty([]) && !HasSpl(Build([]), x)
  {
  }

  lemma {:induction false} LayerSplit(items: seq<Item>, e: nat, ts: seq<Trie>, x: u16)
    requires Sorted(items) && NonEmpty(items) && items != [] && e == GroupEnd(items, 1)
    requires ts != [] && ts[0].spl == items[0].path[0]
    requires HasSpl(ts[1..], x) <==> exists i :: 0 <= i < |items[e..]| && items[e..][i].path[0] == x
    ensures HasSpl(ts, x) <==> exists i :: 0 <= i < |items| && items[i].path[0] == x
  {
    if k :| 0 <= k < |ts| && ts[k].spl == x {
      if k > 0 {
        assert ts[1..][k - 1].spl == x;
        var i :| 0 <= i < |items[e..]| && items[e..][i].path[0] == x;
        assert items[e + i].path[0] == x;
      }
    }
    if i :| 0 <= i < |items| && items[i].path[0] == x {
      if i >= e {
        assert items[e..][i - e].path[0] == x;
        var k :| 0 <= k < |ts[1..]| && ts[1..][k].spl == x;
        assert ts[k + 1].spl == x;
      } else {
        assert ts[0].spl == x;
      }
    }
  }

  /** The nodes of the lemma array list the lemmas. */
  lemma ListsEntries(l: seq<Entry>)
    requires SubsetOk(l, 0, |l|, 0)
    ensures Listed(Nodes(l, 0, |l|, 0)) == Slice(l, 0, |l|, 0) && Ordered(Nodes(l, 0, |l|, 0))
  {
    SliceNonEmpty(l, 0, |l|, 0);
    BuildLists(Slice(l, 0, |l|, 0));
    BuildOrdered(Slice(l, 0, |l|, 0));
  }

  lemma FirstIds(l: seq<Entry>, x: u16)
    requires SubsetOk(l, 0, |l|, 0)
    ensures HasSpl(Nodes(l, 0, |l|, 0), x) <==> Begins(l, x)
  {
    SliceNonEmpty(l, 0, |l|, 0);
    var items := Slice(l, 0, |l|, 0);
    FirstLayer(items, x);
    if Begins(l, x) {
      var i :| 0 <= i < |l| && l[i].ids != [] && l[i].ids[0] == x;
      assert items[i].path[0] == x;
    }
  }

  /** Strictly increasing ids that are exactly those of an interval stand each in its place. */
  lemma {:induction false} InPlace(ts: seq<Trie>, n: nat, j: nat)
    requires Increasing(ts) && j < |ts| && FULL_SPL_ID_START + n < 0x1_0000
    requires forall x: u16 :: HasSpl(ts, x) <==> FULL_SPL_ID_START <= x as nat < FULL_SPL_ID_START + n
    ensures ts[j].spl as nat == FULL_SPL_ID_START + j && j < n
  {
    assert HasSpl(ts, ts[j].spl);
    SpreadOut(ts, 0, j);
    assert HasSpl(ts, ts[0].spl);
    var x: u16 := FULL_SPL_ID_START + j;
    assert HasSpl(ts, x);
    var k :| 0 <= k < |ts| && ts[k].spl == x;
    if k < j {
      SpreadOut(ts, 0, k);
      SpreadOut(ts, k, j);
      InPlace(ts, n, k);
    } else {
      SpreadOut(ts, j, k);
    }
  }

  /** When every spelling id begins some lemma, the first layer is dense. */
  lemma DenseLayer(l: seq<Entry>, n: nat)
    requires SubsetOk(l, 0, |l|, 0) && EveryIdBegins(l, n)
    ensures Dense(Nodes(l, 0, |l|, 0)) && |Nodes(l, 0, |l|, 0)| == n
  {
    var ts := Nodes(l, 0, |l|, 0);
    ListsEntries(l);
    forall x: u16 ensures HasSpl(ts, x) <==> FULL_SPL_ID_START <= x as nat < FULL_SPL_ID_START + n {
      FirstIds(l, x);
    }
    hide *;
    EveryIdGives(l, n);
    OrderedGives(ts);
    AllInPlace(ts, n);
  }

  lemma EveryIdGives(l: seq<Entry>, n: nat)
    requires EveryIdBegins(l, n)
    ensures n > 0 && FULL_SPL_ID_START + n + 1 < 0x1_0000
  {
  }

  lemma OrderedGives(ts: seq<Trie>)
    requires Ordered(ts)
    ensures Increasing(ts)
  {
  }

  lemma AllInPlace(ts: seq<Trie>, n: nat)
    requires Increasing(ts) && n > 0 && FULL_SPL_ID_START + n + 1 < 0x1_0000
    requires forall x: u16 :: HasSpl(ts, x) <==> FULL_SPL_ID_START <= x as nat < FULL_SPL_ID_START + n
    ensures Dense(ts) && |ts| == n
  {
    forall j | 0 <= j < |ts| ensures ts[j].spl as nat == FULL_SPL_ID_START + j && j < n {
      InPlace(ts, n, j);
    }
    var last: u16 := FULL_SPL_ID_START + n - 1;
    assert HasSpl(ts, last);
    hide Increasing;
    var k :| 0 <= k < |ts| && ts[k].spl == last;
    assert ts[k].spl as nat == FULL_SPL_ID_START + k;
    assert ts[|ts| - 1].spl as nat == FULL_SPL_ID_START + |ts| - 1;
  }

  /** What `build_dict` leaves is what the readers need. */
  lemma BuiltIsRead(l: seq<Entry>, n: nat, root: seq<Le0>, nodes: seq<Ge1>, idBuf: seq<u8>)
    requires SubsetOk(l, 0, |l|, 0) && EveryIdBegins(l, n) && |nodes| <= OFFSET_RANGE
    requires Stored(root, nodes, IdsOf(idBuf), Nodes(l, 0, |l|, 0))
    ensures Read(root, nodes, idBuf, Nodes(l, 0, |l|, 0))
  {
    ListsEntries(l);
    DenseLayer(l, n);
  }

  ghost predicate IsEntry(l: seq<Entry>, ids: seq<u16>, id: nat) {
    exists i :: 0 <= i < |l| && l[i] == Entry(ids, id)
  }

  lemma EntryIsListed(l: seq<Entry>, ids: seq<u16>, id: nat)
    requires SubsetOk(l, 0, |l|, 0)
    ensures Item(ids, id) in Listed(Nodes(l, 0, |l|, 0)) <==> IsEntry(l, ids, id)
  {
    ListsEntries(l);
    var items := Slice(l, 0, |l|, 0);
    forall i | 0 <= i < |l| ensures items[i] == Item(l[i].ids, l[i].id) {
      assert l[i].ids[0..] == l[i].ids;
    }
    hide Slice, Nodes, Listed;
    if Item(ids, id) in items {
      var i :| 0 <= i < |items| && items[i] == Item(ids, id);
      assert l[i] == Entry(ids, id);
    }
    if IsEntry(l, ids, id) {
      var i :| 0 <= i < |l| && l[i] == Entry(ids, id);
      assert items[i] == Item(ids, id);
    }
  }

  /** The ids of the lemmas of the array whose spelling is the asked one, in the order of the array. */
  function Matching(l: seq<Entry>, q: seq<Range>): (ids: seq<nat>) {
    if l == [] then [] else (if Fits(l[0].ids, q) then [l[0].id] else []) + Matching(l[1..], q)
  }

  lemma {:induction false} FilterIsMatching(l: seq<Entry>, s: nat, q: seq<Range>)
    requires s <= |l|
    ensures Filter(Slice(l, s, |l|, 0), q) == Matching(l[s..], q)
    decreases |l| - s
  {
    if s < |l| {
      FilterIsMatching(l, s + 1, q);
      var items := Slice(l, s, |l|, 0);
      assert items[1..] == Slice(l, s + 1, |l|, 0);
      assert items[0].path == l[s].ids && l[s..][0] == l[s] && l[s..][1..] == l[s + 1..];
    }
  }

  /** Lookup in the dictionary that was built: exact lookup finds exactly the lemmas of the array, and lookup by ranges
      gives exactly the ids of those that match, in the order of the array. */
  method BuildThenRead(b: DictBuilder, tops: seq<nat>, spl: HalfIds, uniPsb: nat -> u16, n: nat, ids: seq<u16>, id: nat,
    q: seq<u16>, max: nat)
    returns (found: bool, items: seq<LpiItem>)
    requires b.Empty() && SubsetOk(b.lemmas, 0, |b.lemmas|, 0) && EveryIdBegins(b.lemmas, n) && b.lemmas != []
    requires RoomFor(Nodes(b.lemmas, 0, |b.lemmas|, 0), b.le0.Length, b.ge1.Length, b.homos.Length)
    requires (forall k :: 0 <= k < |b.lemmas| ==> b.lemmas[k].id < OFFSET_RANGE)
      && forall k :: 0 <= k < |tops| ==> tops[k] < OFFSET_RANGE
    requires ids != [] ==> FULL_SPL_ID_START <= ids[0] as nat < FULL_SPL_ID_START + n
    requires 0 < |q| <= MAX_LEMMA_SIZE && max > 0
      && LevelsFit(Nodes(b.lemmas, 0, |b.lemmas|, 0), spl.Ranges(q), MAX_EXTENDBUF_LEN)
    requires spl.expand(q[0]).num > 0 && FULL_SPL_ID_START <= spl.expand(q[0]).start as nat
    requires spl.expand(q[0]).start as nat + spl.expand(q[0]).num <= FULL_SPL_ID_START + n
      && !(|q| == 1 && spl.yunmu(q[0]))
    modifies b`le0Used, b.le0, b.ge1, b.homos, b`ge1Used, b`homoEq1, b`homoGt1
    ensures found <==> IsEntry(b.lemmas, ids, id)
    ensures items == Take(Lpis(Matching(b.lemmas, spl.Ranges(q)), |q|, uniPsb), max)
  {
    hide *;
    hide DictBuilder.Empty, DictTrie.Loaded, DictTrie.Standing;
    ghost var l, ts := b.lemmas, Nodes(b.lemmas, 0, |b.lemmas|, 0);
    SizesOk(ts, b.le0.Length, b.ge1.Length, b.homos.Length);
    var ok, root, nodes, buf := b.BuildDict(tops);
    BuiltIsRead(l, n, root, nodes, buf[..]);
    DenseLayer(l, n);
    var d := new DictTrie(root, nodes, buf[..], spl, uniPsb, ts);
    SameRange(ts, spl.expand(q[0]));
    EntryIsListed(l, ids, id);
    ListsEntries(l);
    FilterIsMatching(l, 0, spl.Ranges(q));
    assert l[0..] == l;
    found := d.TryExtend(ids, id);
    items := d.GetLpis(q, max);
  }

  lemma SizesOk(ts: seq<Trie>, size0: nat, size1: nat, idSize: nat)
    requires RoomFor(ts, size0, size1, idSize)
    ensures size1 <= OFFSET_RANGE
  {
  }

  lemma SameRange(ts: seq<Trie>, r: Range)
    requires r.num > 0 && FULL_SPL_ID_START <= r.start as nat && r.start as nat + r.num <= FULL_SPL_ID_START + |ts|
    ensures FullRange(ts, r)
  {
  }
}
