/** The system dictionary as a trie of spelling ids, and what it says about the sorted lemma array it is built from. */
module LemmaTrie {
  import opened Bytes

  /** A lemma: the spelling ids still to go, and its id. */
  datatype Item = Item(path: seq<u16>, id: nat)

  /** A node with the lemmas that end there and its sons. */
  datatype Trie = Trie(spl: u16, homos: seq<nat>, sons: seq<Trie>)

  // ---- The order of the lemma array: zero-terminated spelling ids, compared from the left ----

  predicate PathLe(a: seq<u16>, b: seq<u16>)
    decreases |a|
  {
    a == [] || (b != [] && (a[0] < b[0] || (a[0] == b[0] && PathLe(a[1..], b[1..]))))
  }

  ghost predicate Sorted(items: seq<Item>) {
    forall i, j :: 0 <= i < j < |items| ==> PathLe(items[i].path, items[j].path)
  }

  ghost predicate NonEmpty(items: seq<Item>) {
    forall i :: 0 <= i < |items| ==> items[i].path != []
  }

  function Size(items: seq<Item>): (n: nat)
    ensures n == 0 ==> forall i :: 0 <= i < |items| ==> items[i].path == []
  {
    if items == [] then 0 else |items[0].path| + Size(items[1..])
  }

  // ---- construct_subset ----

  /** The first group: the items that begin with the same spelling id. */
  function GroupEnd(items: seq<Item>, k: nat): (e: nat)
    requires NonEmpty(items) && 0 < k <= |items|
    requires forall i :: 0 <= i < k ==> items[i].path[0] == items[0].path[0]
    ensures k <= e <= |items| && forall i :: 0 <= i < e ==> items[i].path[0] == items[0].path[0]
    ensures e < |items| ==> items[e].path[0] != items[0].path[0]
    decreases |items| - k
  {
    if k == |items| || items[k].path[0] != items[0].path[0] then k else GroupEnd(items, k + 1)
  }

  /** How many items of a group end at its node. */
  function HomoNum(items: seq<Item>): (h: nat)
    ensures h <= |items|
  {
    if items == [] then 0 else (if |items[0].path| == 1 then 1 else 0) + HomoNum(items[1..])
  }

  function Ids(items: seq<Item>): (r: seq<nat>)
    ensures |r| == |items|
  {
    seq(|items|, i requires 0 <= i < |items| => items[i].id)
  }

  function Tails(items: seq<Item>): (r: seq<Item>)
    requires NonEmpty(items)
    ensures |r| == |items| && forall i :: 0 <= i < |items| ==> r[i] == Item(items[i].path[1..], items[i].id)
  {
    seq(|items|, i requires 0 <= i < |items| => Item(items[i].path[1..], items[i].id))
  }

  /** Of the items of a group, those that go on are behind those that end. */
  ghost predicate HomosLead(items: seq<Item>) {
    forall i :: 0 <= i < |items| ==> (|items[i].path| == 1 <==> i < HomoNum(items))
  }

  lemma {:induction false} SizeSplit(items: seq<Item>, k: nat)
    requires k <= |items|
    ensures Size(items) == Size(items[..k]) + Size(items[k..])
  {
    if k == 0 {
      assert items[..0] == [] && items[0..] == items;
    } else {
      SizeSplit(items[1..], k - 1);
      assert items[..k][1..] == items[1..][..k - 1] && items[k..] == items[1..][k - 1..];
    }
  }

  lemma {:induction false} SizeTails(items: seq<Item>)
    requires NonEmpty(items)
    ensures Size(Tails(items)) + |items| == Size(items)
  {
    if items != [] {
      SizeTails(items[1..]);
      assert Tails(items)[1..] == Tails(items[1..]);
    }
  }

  lemma BuildSmaller(items: seq<Item>, e: nat, h: nat)
    requires NonEmpty(items) && 0 < e <= |items| && h <= e
    ensures NonEmpty(items[h..e]) && Size(Tails(items[h..e])) < Size(items) && Size(items[e..]) < Size(items)
  {
    PartNonEmpty(items, e, h);
    hide *;
    SizeSplit(items, e);
    SizeSplit(items[..e], h);
    assert items[..e][h..] == items[h..e];
    SizeTails(items[h..e]);
    SizeTails(items[..e]);
  }

  lemma PartNonEmpty(items: seq<Item>, e: nat, h: nat)
    requires NonEmpty(items) && e <= |items| && h <= e
    ensures NonEmpty(items[h..e]) && NonEmpty(items[..e])
  {
  }

  lemma {:induction false} LeadingCount(items: seq<Item>)
    requires NonEmpty(items) && forall i, j :: 0 <= i < j < |items| && |items[j].path| == 1 ==> |items[i].path| == 1
    ensures HomosLead(items)
  {
    if items != [] {
      LeadingCount(items[1..]);
      forall i | 0 <= i < |items| ensures |items[i].path| == 1 <==> i < HomoNum(items) {
        if i > 0 {
          assert items[1..][i - 1] == items[i];
          assert |items[i].path| == 1 <==> i - 1 < HomoNum(items[1..]);
        } else if |items[0].path| != 1 {
          NoHomos(items[1..]);
        }
      }
    }
  }

  lemma {:induction false} NoHomos(items: seq<Item>)
    requires forall i :: 0 <= i < |items| ==> |items[i].path| != 1
    ensures HomoNum(items) == 0
  {
    if items != [] {
      NoHomos(items[1..]);
    }
  }

  /** The parts of a sorted array are sorted, and the group's lemmas that end at the node come first. */
  lemma GroupOk(items: seq<Item>)
    requires Sorted(items) && NonEmpty(items) && items != []
    ensures var e := GroupEnd(items, 1); var h := HomoNum(items[..e]);
            && h <= e && HomosLead(items[..e]) && NonEmpty(items[h..e])
            && Sorted(Tails(items[h..e])) && NonEmpty(Tails(items[h..e])) && Sorted(items[e..]) && NonEmpty(items[e..])
            && Size(Tails(items[h..e])) < Size(items) && Size(items[e..]) < Size(items)
  {
    var e := GroupEnd(items, 1);
    LeadsOf(items, e);
    var h := HomoNum(items[..e]);
    BuildSmaller(items, e, h);
    RestOk(items, e, h);
  }

  lemma LeadsOf(items: seq<Item>, e: nat)
    requires Sorted(items) && NonEmpty(items) && items != [] && e == GroupEnd(items, 1)
    ensures HomosLead(items[..e])
  {
    var g := items[..e];
    forall i, j | 0 <= i < j < |g| && |g[j].path| == 1 ensures |g[i].path| == 1 {
      assert PathLe(items[i].path, items[j].path);
      EndsToo(items[i].path, items[j].path);
    }
    LeadingCount(g);
  }

  lemma EndsToo(a: seq<u16>, b: seq<u16>)
    requires a != [] && |b| == 1 && a[0] == b[0] && PathLe(a, b)
    ensures |a| == 1
  {
    assert PathLe(a[1..], b[1..]) && b[1..] == [];
  }

  lemma RestOk(items: seq<Item>, e: nat, h: nat)
    requires Sorted(items) && NonEmpty(items) && items != [] && e == GroupEnd(items, 1)
    requires h == HomoNum(items[..e]) && HomosLead(items[..e])
    ensures NonEmpty(items[h..e]) && NonEmpty(Tails(items[h..e])) && Sorted(Tails(items[h..e]))
  {
    var r := items[h..e];
    forall i | 0 <= i < |r| ensures r[i] == items[h + i] && |r[i].path| > 1 {
      RestLonger(items[..e], h + i);
    }
    hide GroupEnd, HomoNum, HomosLead;
    forall i, j | 0 <= i < j < |r| ensures PathLe(r[i].path[1..], r[j].path[1..]) {
      assert PathLe(items[h + i].path, items[h + j].path);
      assert items[h + i].path[0] == items[h + j].path[0];
    }
  }

  lemma RestLonger(g: seq<Item>, i: nat)
    requires HomosLead(g) && NonEmpty(g) && HomoNum(g) <= i < |g|
    ensures |g[i].path| > 1
  {
    assert |g[i].path| == 1 <==> i < HomoNum(g);
  }

  /** What the recursion of `construct_subset` builds: one node for each group; the ids of the first HomoNum items of
      the group; and below it the rest of the group, without the first spelling id. */
  ghost function Build(items: seq<Item>): (ts: seq<Trie>)
    requires Sorted(items) && NonEmpty(items)
    decreases Size(items)
  {
    if items == [] then []
    else
      GroupOk(items);
      var e := GroupEnd(items, 1);
      var h := HomoNum(items[..e]);
      [Trie(items[0].path[0], Ids(items[..h]), Build(Tails(items[h..e])))] + Build(items[e..])
  }

  // ---- The trie lists the lemma array ----

  function Prefixed(x: u16, items: seq<Item>): (r: seq<Item>)
    ensures |r| == |items| && forall i :: 0 <= i < |items| ==> r[i] == Item([x] + items[i].path, items[i].id)
  {
    seq(|items|, i requires 0 <= i < |items| => Item([x] + items[i].path, items[i].id))
  }

  function Ending(x: u16, homos: seq<nat>): (r: seq<Item>)
    ensures |r| == |homos| && forall i :: 0 <= i < |homos| ==> r[i] == Item([x], homos[i])
  {
    seq(|homos|, i requires 0 <= i < |homos| => Item([x], homos[i]))
  }

  /** All lemmas below these nodes, in the order of a walk. */
  function Listed(ts: seq<Trie>): (r: seq<Item>) {
    if ts == [] then [] else ListedNode(ts[0]) + Listed(ts[1..])
  }

  function ListedNode(t: Trie): (r: seq<Item>) {
    Ending(t.spl, t.homos) + Prefixed(t.spl, Listed(t.sons))
  }

  /** Building loses nothing: the trie lists exactly the lemma array, in its order. */
  lemma {:induction false} BuildLists(items: seq<Item>)
    requires Sorted(items) && NonEmpty(items)
    ensures Listed(Build(items)) == items
    decreases Size(items)
  {
    hide *;
    BuildEmpty();
    if items != [] {
      BuildUnfolds(items);
      GroupOk(items);
      var e := GroupEnd(items, 1);
      var h := HomoNum(items[..e]);
      BuildLists(Tails(items[h..e]));
      BuildLists(items[e..]);
      GroupPaths(items, e);
      GroupListed(items, e, h, items[0].path[0]);
      assert items == items[..e] + items[e..];
    }
  }

  lemma BuildEmpty()
    ensures Sorted([]) && NonEmpty([]) && Listed(Build([])) == []
  {
  }

  lemma GroupPaths(items: seq<Item>, e: nat)
    requires items != [] && NonEmpty(items) && e == GroupEnd(items, 1)
    ensures 0 < e <= |items| && items[0].path != []
      && forall i :: 0 <= i < e ==> items[i].path != [] && items[i].path[0] == items[0].path[0]
  {
  }

  lemma BuildUnfolds(items: seq<Item>)
    requires Sorted(items) && NonEmpty(items) && items != []
    ensures var e := GroupEnd(items, 1); var h := HomoNum(items[..e]);
            && h <= e && NonEmpty(items[h..e]) && Sorted(Tails(items[h..e])) && NonEmpty(Tails(items[h..e]))
               && Sorted(items[e..]) && NonEmpty(items[e..])
            && var t, rest := Trie(items[0].path[0], Ids(items[..h]), Build(Tails(items[h..e]))), Build(items[e..]);
            && Build(items) == [t] + rest
            && Listed(Build(items)) == (Ending(t.spl, t.homos) + Prefixed(t.spl, Listed(t.sons))) + Listed(rest)
  {
    GroupOk(items);
    var e := GroupEnd(items, 1);
    var h := HomoNum(items[..e]);
    var t, rest := Trie(items[0].path[0], Ids(items[..h]), Build(Tails(items[h..e]))), Build(items[e..]);
    assert ([t] + rest)[1..] == rest;
  }

  lemma GroupListed(items: seq<Item>, e: nat, h: nat, x: u16)
    requires 0 < e <= |items| && h <= e && NonEmpty(items) && NonEmpty(items[h..e]) && HomosLead(items[..e])
      && h == HomoNum(items[..e])
    requires forall i :: 0 <= i < e ==> items[i].path[0] == x
    ensures Ending(x, Ids(items[..h])) + Prefixed(x, Tails(items[h..e])) == items[..e]
  {
    var r := Ending(x, Ids(items[..h])) + Prefixed(x, Tails(items[h..e]));
    forall i | 0 <= i < e ensures r[i] == items[i] {
      assert items[..e][i] == items[i];
      if i < h {
        assert items[i].path == [x];
      } else {
        assert items[h..e][i - h] == items[i];
        assert [x] + items[i].path[1..] == items[i].path;
      }
    }
  }

  // ---- Searching the trie is filtering the list ----

  /** An asked spelling: the full ids from start on, num of them. */
  datatype Range = Range(start: u16, num: nat)

  predicate InRange(x: u16, r: Range) {
    r.start <= x < r.start + r.num
  }

  predicate Fits(path: seq<u16>, q: seq<Range>) {
    |path| == |q| && forall i :: 0 <= i < |q| ==> InRange(path[i], q[i])
  }

  /** The ids of the lemmas with this spelling, in order. */
  function Filter(items: seq<Item>, q: seq<Range>): (r: seq<nat>) {
    if items == [] then [] else (if Fits(items[0].path, q) then [items[0].id] else []) + Filter(items[1..], q)
  }

  /** The nodes of a level whose spelling is in the range. */
  function Selected(ts: seq<Trie>, r: Range): (s: seq<Trie>)
    ensures forall t :: t in s ==> t in ts
  {
    if ts == [] then [] else (if InRange(ts[0].spl, r) then [ts[0]] else []) + Selected(ts[1..], r)
  }

  function SonsOf(ts: seq<Trie>): (s: seq<Trie>) {
    if ts == [] then [] else ts[0].sons + SonsOf(ts[1..])
  }

  function HomosOf(ts: seq<Trie>): (s: seq<nat>) {
    if ts == [] then [] else ts[0].homos + HomosOf(ts[1..])
  }

  /** The nodes that `get_lpis` reaches, level by level. */
  function Reach(ts: seq<Trie>, q: seq<Range>): (s: seq<Trie>)
    requires q != []
    decreases |q|
  {
    if |q| == 1 then Selected(ts, q[0]) else Reach(SonsOf(Selected(ts, q[0])), q[1..])
  }

  lemma Assoc<T>(a: seq<T>, b: seq<T>, c: seq<T>)
    ensures a + (b + c) == (a + b) + c
  {
  }

  lemma Cons<T>(a: seq<T>, b: seq<T>)
    ensures a == [] ==> a + b == b
    ensures a != [] ==> a + b != [] && (a + b)[0] == a[0] && (a + b)[1..] == a[1..] + b
  {
  }

  lemma {:induction false} FilterConcat(a: seq<Item>, b: seq<Item>, q: seq<Range>)
    ensures Filter(a + b, q) == Filter(a, q) + Filter(b, q)
    decreases a, 1
  {
    hide Fits;
    if a == [] {
      assert a + b == b;
      assert Filter(a, q) == [];
    } else {
      FilterMore(a, b, q);
    }
  }

  lemma {:induction false} FilterMore(a: seq<Item>, b: seq<Item>, q: seq<Range>)
    requires a != []
    ensures Filter(a + b, q) == Filter(a, q) + Filter(b, q)
    decreases a, 0
  {
    hide *;
    FilterConcat(a[1..], b, q);
    Cons(a, b);
    FilterCons(a, q);
    FilterCons(a + b, q);
    assert (a + b)[0] == a[0];
    Assoc(if Fits(a[0].path, q) then [a[0].id] else [], Filter(a[1..], q), Filter(b, q));
  }

  lemma FilterCons(a: seq<Item>, q: seq<Range>)
    requires a != []
    ensures Filter(a, q) == (if Fits(a[0].path, q) then [a[0].id] else []) + Filter(a[1..], q)
  {
    hide Fits;
  }

  lemma {:induction false} ListedConcat(a: seq<Trie>, b: seq<Trie>)
    ensures Listed(a + b) == Listed(a) + Listed(b)
  {
    hide *;
    Cons(a, b);
    ListedCons(a);
    if a != [] {
      ListedConcat(a[1..], b);
      ListedCons(a + b);
      Assoc(ListedNode(a[0]), Listed(a[1..]), Listed(b));
    }
  }

  lemma ListedCons(a: seq<Trie>)
    ensures a == [] ==> Listed(a) == [] && forall b: seq<Item> :: Listed(a) + b == b
    ensures a != [] ==> Listed(a) == ListedNode(a[0]) + Listed(a[1..])
  {
    hide ListedNode;
  }

  lemma {:induction false} FilterEnding(x: u16, homos: seq<nat>, q: seq<Range>)
    requires q != []
    ensures Filter(Ending(x, homos), q) == if |q| == 1 && InRange(x, q[0]) then homos else []
  {
    if homos != [] {
      FilterEnding(x, homos[1..], q);
      assert Ending(x, homos)[1..] == Ending(x, homos[1..]);
      assert homos == [homos[0]] + homos[1..];
    }
  }

  lemma FitsTail(x: u16, path: seq<u16>, q: seq<Range>)
    requires q != []
    ensures Fits([x] + path, q) <==> InRange(x, q[0]) && Fits(path, q[1..])
  {
    if Fits([x] + path, q) {
      forall i | 0 <= i < |q| - 1 ensures InRange(path[i], q[1..][i]) {
        assert InRange(([x] + path)[i + 1], q[i + 1]);
      }
    }
    if InRange(x, q[0]) && Fits(path, q[1..]) {
      forall i | 0 <= i < |q| ensures InRange(([x] + path)[i], q[i]) {
        if i > 0 {
          assert InRange(path[i - 1], q[1..][i - 1]);
        }
      }
    }
  }

  lemma {:induction false} FilterPrefixed(x: u16, items: seq<Item>, q: seq<Range>)
    requires q != []
    ensures Filter(Prefixed(x, items), q) == if InRange(x, q[0]) then Filter(items, q[1..]) else []
  {
    if items != [] {
      FilterPrefixed(x, items[1..], q);
      FitsTail(x, items[0].path, q);
      assert Prefixed(x, items)[1..] == Prefixed(x, items[1..]);
    }
  }

  ghost predicate PathsNonEmpty(items: seq<Item>) {
    forall i :: 0 <= i < |items| ==> items[i].path != []
  }

  lemma {:induction false} FilterNothing(items: seq<Item>)
    requires PathsNonEmpty(items)
    ensures Filter(items, []) == []
  {
    if items != [] {
      FilterNothing(items[1..]);
    }
  }

  lemma {:induction false} ListedNonEmpty(ts: seq<Trie>)
    ensures PathsNonEmpty(Listed(ts))
  {
    if ts != [] {
      ListedNonEmpty(ts[1..]);
    }
  }

  /** One level: what a filter leaves of a list of nodes is what it leaves of the selected ones. */
  lemma {:induction false} FilterLevel(ts: seq<Trie>, q: seq<Range>)
    requires q != []
    ensures Filter(Listed(ts), q) ==
            if |q| == 1 then HomosOf(Selected(ts, q[0])) else Filter(Listed(SonsOf(Selected(ts, q[0]))), q[1..])
  {
    hide *;
    LevelUnfolds(ts, q[0]);
    if ts != [] {
      var t, s := ts[0], Selected(ts[1..], q[0]);
      FilterLevel(ts[1..], q);
      FilterConcat(Ending(t.spl, t.homos) + Prefixed(t.spl, Listed(t.sons)), Listed(ts[1..]), q);
      FilterConcat(Ending(t.spl, t.homos), Prefixed(t.spl, Listed(t.sons)), q);
      FilterEnding(t.spl, t.homos, q);
      FilterPrefixed(t.spl, Listed(t.sons), q);
      if InRange(t.spl, q[0]) {
        if |q| == 1 {
          ListedNonEmpty(t.sons);
          FilterNothing(Listed(t.sons));
          assert q[1..] == [] && t.homos + [] == t.homos;
        } else {
          ListedConcat(t.sons, SonsOf(s));
          FilterConcat(Listed(t.sons), Listed(SonsOf(s)), q[1..]);
        }
      }
    } else {
      NothingListed(q);
      NothingListed(q[1..]);
    }
  }

  lemma NothingListed(q: seq<Range>)
    ensures Filter([], q) == [] && Listed([]) == [] && SonsOf([]) == [] && HomosOf([]) == []
  {
  }

  lemma LevelUnfolds(ts: seq<Trie>, r: Range)
    ensures ts == [] ==> Listed(ts) == [] && Selected(ts, r) == []
    ensures ts != [] ==>
              var t, s := ts[0], Selected(ts[1..], r);
              && Listed(ts) == (Ending(t.spl, t.homos) + Prefixed(t.spl, Listed(t.sons))) + Listed(ts[1..])
              && (!InRange(t.spl, r) ==> Selected(ts, r) == s)
              && (InRange(t.spl, r) ==>
                    Selected(ts, r) == [t] + s && HomosOf([t] + s) == t.homos + HomosOf(s)
                    && SonsOf([t] + s) == t.sons + SonsOf(s))
  {
    if ts != [] {
      var t, s := ts[0], Selected(ts[1..], r);
      assert ([t] + s)[1..] == s;
    }
  }

  /** Going down the trie level by level finds exactly the lemmas with the asked spelling, in their order. */
  lemma {:induction false} ReachFilters(ts: seq<Trie>, q: seq<Range>)
    requires q != []
    ensures HomosOf(Reach(ts, q)) == Filter(Listed(ts), q)
    decreases |q|
  {
    FilterLevel(ts, q);
    if |q| > 1 {
      ReachFilters(SonsOf(Selected(ts, q[0])), q[1..]);
    }
  }

  /** Lookup in the built trie is a filter of the lemma array. */
  lemma LookupIsFilter(items: seq<Item>, q: seq<Range>)
    requires Sorted(items) && NonEmpty(items) && q != []
    ensures HomosOf(Reach(Build(items), q)) == Filter(items, q)
  {
    BuildLists(items);
    ReachFilters(Build(items), q);
  }

  // ---- try_extend ----

  /** The first node with this spelling, or the length. */
  function FirstWith(ts: seq<Trie>, x: u16): (k: nat)
    ensures k <= |ts| && (k < |ts| ==> ts[k].spl == x) && forall i :: 0 <= i < k ==> ts[i].spl != x
  {
    if ts == [] || ts[0].spl == x then 0 else 1 + FirstWith(ts[1..], x)
  }

  /** Descending by the first node with each spelling finds the id among the lemmas of the last node. */
  predicate HasLemma(ts: seq<Trie>, ids: seq<u16>, id: nat)
    decreases |ids|
  {
    ids != [] &&
    var k := FirstWith(ts, ids[0]);
    k < |ts| && if |ids| == 1 then id in ts[k].homos else HasLemma(ts[k].sons, ids[1..], id)
  }

  /** Brothers have different spellings, in increasing order. */
  ghost predicate Ordered(ts: seq<Trie>) {
    && (forall i, j :: 0 <= i < j < |ts| ==> ts[i].spl < ts[j].spl)
    && (forall i :: 0 <= i < |ts| ==> Ordered(ts[i].sons))
  }

  lemma OrderedCons(t: Trie, rest: seq<Trie>)
    requires Ordered(t.sons) && Ordered(rest) && (rest != [] ==> t.spl < rest[0].spl)
    ensures Ordered([t] + rest)
  {
    var ts := [t] + rest;
    forall i, j | 0 <= i < j < |ts| ensures ts[i].spl < ts[j].spl {
      assert j > 1 ==> rest[0].spl < rest[j - 1].spl;
    }
  }

  lemma {:induction false} BuildOrdered(items: seq<Item>)
    requires Sorted(items) && NonEmpty(items)
    ensures Ordered(Build(items)) && (items != [] ==> Build(items) != [] && Build(items)[0].spl == items[0].path[0])
    decreases Size(items)
  {
    hide *;
    OrderedEmpty();
    if items != [] {
      BuildUnfolds(items);
      GroupOk(items);
      var e := GroupEnd(items, 1);
      var h := HomoNum(items[..e]);
      BuildOrdered(Tails(items[h..e]));
      BuildOrdered(items[e..]);
      NextGroup(items, e);
      OrderedCons(Trie(items[0].path[0], Ids(items[..h]), Build(Tails(items[h..e]))), Build(items[e..]));
    }
  }

  lemma OrderedEmpty()
    ensures Sorted([]) && NonEmpty([]) && Ordered(Build([])) && Build([]) == []
  {
  }

  lemma NextGroup(items: seq<Item>, e: nat)
    requires Sorted(items) && NonEmpty(items) && items != [] && e == GroupEnd(items, 1)
    ensures items[0].path != []
      && (e < |items| ==> items[e..] != [] && items[e..][0].path != [] && items[0].path[0] < items[e..][0].path[0])
    ensures e == |items| ==> items[e..] == []
    ensures Sorted(items[e..]) && NonEmpty(items[e..]) && (e == |items| ==> Build(items[e..]) == [])
  {
    if e < |items| {
      assert PathLe(items[0].path, items[e].path);
    }
  }

  lemma {:induction false} PrefixedHas(x: u16, items: seq<Item>, ids: seq<u16>, id: nat)
    ensures Item(ids, id) in Prefixed(x, items) <==> ids != [] && ids[0] == x && Item(ids[1..], id) in items
  {
    if Item(ids, id) in Prefixed(x, items) {
      var i :| 0 <= i < |items| && Prefixed(x, items)[i] == Item(ids, id);
      assert items[i] == Item(ids[1..], id);
    }
    if ids != [] && ids[0] == x && Item(ids[1..], id) in items {
      var i :| 0 <= i < |items| && items[i] == Item(ids[1..], id);
      assert [x] + ids[1..] == ids;
      assert Prefixed(x, items)[i] == Item(ids, id);
    }
  }

  lemma {:induction false} EndingHas(x: u16, homos: seq<nat>, ids: seq<u16>, id: nat)
    ensures Item(ids, id) in Ending(x, homos) <==> ids == [x] && id in homos
  {
    if ids == [x] && id in homos {
      var i :| 0 <= i < |homos| && homos[i] == id;
      assert Ending(x, homos)[i] == Item(ids, id);
    }
  }

  lemma NodeHas(t: Trie, ids: seq<u16>, id: nat)
    ensures Item(ids, id) in ListedNode(t) <==>
            ids != [] && ids[0] == t.spl && (if |ids| == 1 then id in t.homos else Item(ids[1..], id) in Listed(t.sons))
  {
    EndingHas(t.spl, t.homos, ids, id);
    PrefixedHas(t.spl, Listed(t.sons), ids, id);
    ListedNonEmpty(t.sons);
    forall x | x in Listed(t.sons) ensures x.path != [] {
      var i :| 0 <= i < |Listed(t.sons)| && Listed(t.sons)[i] == x;
    }
  }

  lemma {:induction false} ListedHas(ts: seq<Trie>, x: Item)
    ensures x in Listed(ts) <==> exists k :: 0 <= k < |ts| && x in ListedNode(ts[k])
  {
    hide ListedNode;
    if ts != [] {
      ListedHas(ts[1..], x);
      if k :| 0 <= k < |ts| && x in ListedNode(ts[k]) {
        if k > 0 {
          assert ts[1..][k - 1] == ts[k];
        }
      }
      if k :| 0 <= k < |ts[1..]| && x in ListedNode(ts[1..][k]) {
        assert ts[k + 1] == ts[1..][k];
      }
    }
  }

  /** Among ordered brothers the first node with a spelling is the only one, so the descent misses nothing. */
  lemma {:induction false} DescentIsMembership(ts: seq<Trie>, ids: seq<u16>, id: nat)
    requires Ordered(ts)
    ensures HasLemma(ts, ids, id) <==> Item(ids, id) in Listed(ts)
    decreases |ids|
  {
    hide Listed, ListedNode;
    ListedHas(ts, Item(ids, id));
    if ids == [] {
      forall k | 0 <= k < |ts| ensures Item(ids, id) !in ListedNode(ts[k]) {
        NodeHas(ts[k], ids, id);
      }
    } else {
      var k := FirstWith(ts, ids[0]);
      forall i | 0 <= i < |ts| ensures Item(ids, id) in ListedNode(ts[i]) ==> i == k {
        NodeHas(ts[i], ids, id);
      }
      if k < |ts| {
        NodeHas(ts[k], ids, id);
        DescentIsMembership(ts[k].sons, ids[1..], id);
      }
    }
  }

  /** The descent in the built trie succeeds exactly for the lemmas of the array. */
  lemma DescentFindsLemmas(items: seq<Item>, ids: seq<u16>, id: nat)
    requires Sorted(items) && NonEmpty(items)
    ensures HasLemma(Build(items), ids, id) <==> Item(ids, id) in items
  {
    BuildOrdered(items);
    BuildLists(items);
    DescentIsMembership(Build(items), ids, id);
  }
}
