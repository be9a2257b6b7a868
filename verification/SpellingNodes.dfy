/** The spellings of Pinyin, their ids, and the trie that the parser walks. */
module SpellingNodes {
  import opened Bytes
  import opened LemmaTrie
  import opened TrieWalk
  import opened DictBuilding

  // ---- Characters ----

  const LOWER_H: u16 := 104
  const SPL_ID_START: nat := 30

  predicate Upper(c: u16) {
    65 <= c <= 90
  }

  /** `is_valid_spl_char`. */
  predicate Letter(c: u16) {
    65 <= c <= 90 || 97 <= c <= 122
  }

  function Fold(c: u16): (d: u16) {
    if 97 <= c <= 122 then c - 32 else c
  }

  /** `is_same_spl_char`. */
  predicate Same(c: u16, d: u16) {
    c == d || c as int - d as int == 32 || d as int - c as int == 32
  }

  lemma SameIsFold(c: u16, d: u16)
    requires Letter(c) && Letter(d)
    ensures Same(c, d) <==> Fold(c) == Fold(d)
  {
  }

  /** A, E, O. */
  predicate Yunmu(c: u16) {
    c == 65 || c == 69 || c == 79
  }

  /** All other letters but I, U, V. */
  predicate Shengmu(c: u16) {
    Upper(c) && !Yunmu(c) && c != 73 && c != 85 && c != 86
  }

  predicate Szm(c: u16) {
    Shengmu(c) || Yunmu(c)
  }

  /** C, S, Z: there are also Ch, Sh, Zh. */
  predicate Zcs(c: u16) {
    c == 67 || c == 83 || c == 90
  }

  // ---- Half ids ----

  /** The half id of a letter; those of Ch and Sh come in between. */
  function HalfOf(c: u16): (id: nat)
    requires Upper(c)
    ensures 1 <= id <= 28
  {
    c as nat - 64 + (if c > 67 then 1 else 0) + (if c > 83 then 1 else 0)
  }

  /** The half id of Ch, Sh, Zh. */
  function PartOf(c: u16): (id: nat)
    requires Zcs(c)
    ensures 1 <= id <= 29
  {
    if c == 67 then 4 else if c == 83 then 21 else 29
  }

  predicate IsPart(id: nat) {
    id == 4 || id == 21 || id == 29
  }

  /** The letter of a half id, `kHalfId2Sc_` in upper case. */
  function LetterOf(id: nat): (c: u16)
    requires 1 <= id <= 29
    ensures Upper(c) && (IsPart(id) ==> Zcs(c) && PartOf(c) == id) && (!IsPart(id) ==> HalfOf(c) == id)
  {
    if id <= 3 then 64 + id
    else if id == 4 then 67
    else if id <= 20 then 63 + id
    else if id == 21 then 83
    else if id <= 28 then 62 + id
    else 90
  }

  /** `kHalfId2Sc_`. */
  const HALF_ID_CHARS: string := "0ABCcDEFGHIJKLMNOPQRSsTUVWXYZz"

  /** The letters of the half ids are those of the table; the lower-case ones are Ch, Sh, Zh. */
  lemma HalfIdLetters(id: nat)
    requires 1 <= id <= 29
    ensures |HALF_ID_CHARS| == 30 && (IsPart(id) <==> HALF_ID_CHARS[id] > 'Z')
    ensures LetterOf(id) as int == HALF_ID_CHARS[id] as int - if IsPart(id) then 32 else 0
  {
  }

  lemma HalfIdsDiffer(c: u16, d: u16)
    requires Upper(c) && Upper(d)
    ensures (HalfOf(c) == HalfOf(d) <==> c == d) && !IsPart(HalfOf(c))
      && (Zcs(d) ==> IsPart(PartOf(d)) && HalfOf(c) != PartOf(d))
    ensures LetterOf(HalfOf(c)) == c && (Zcs(d) ==> LetterOf(PartOf(d)) == d)
  {
  }

  /** What `get_spelling_str` gives for a half id. */
  function HalfStr(id: nat): (w: seq<u16>)
    requires 1 <= id <= 29
  {
    if IsPart(id) then [LetterOf(id), LOWER_H] else [LetterOf(id)]
  }

  /** The half id stands for the spellings that begin like it. */
  predicate Covers(id: nat, w: seq<u16>)
    requires 1 <= id <= 29
  {
    HalfStr(id) <= w && Szm(LetterOf(id))
  }

  // ---- The table ----

  /** Upper case, but h in Ch, Sh, Zh, which are never written with H. */
  predicate TidyAt(w: seq<u16>, i: nat)
    requires i < |w|
  {
    if i == 1 && Zcs(w[0]) then (Upper(w[1]) && w[1] != 72) || w[1] == LOWER_H else Upper(w[i])
  }

  predicate Tidy(w: seq<u16>) {
    w != [] && forall i :: 0 <= i < |w| ==> TidyAt(w, i)
  }

  /** Distinct tidy spellings in order; the id of a spelling is its place. */
  ghost predicate Table(l: seq<Entry>) {
    && 0 < |l| && SPL_ID_START + |l| < 0x800 && SubsetOk(l, 0, |l|, 0)
    && (forall i :: 0 <= i < |l| ==> l[i].id == i && Tidy(l[i].ids))
    && (forall i, j :: 0 <= i < j < |l| ==> l[i].ids != l[j].ids)
  }

  /** `get_spelling_str`. */
  function SpellingStr(l: seq<Entry>, id: nat): (w: seq<u16>)
    requires 1 <= id < SPL_ID_START + |l|
  {
    if id >= SPL_ID_START then l[id - SPL_ID_START].ids else HalfStr(id)
  }

  // ---- The nodes ----

  datatype SplNode = SplNode(ch: u16, idx: nat, sons: seq<SplNode>)

  /** The id of the node that this path leads to: a half id takes the place of a full one. */
  function NodeIdx(path: seq<u16>, homos: seq<nat>): (id: nat) {
    if |path| == 1 && Szm(path[0]) then HalfOf(path[0])
    else if |path| == 2 && Zcs(path[0]) && path[1] == LOWER_H then PartOf(path[0])
    else if homos != [] then SPL_ID_START + homos[0] else 0
  }

  /** The nodes for a trie of spellings below this path. */
  function Spelled(ts: seq<Trie>, path: seq<u16>): (ns: seq<SplNode>)
    ensures |ns| == |ts|
  {
    if ts == [] then []
    else
      var p := path + [ts[0].spl];
      [SplNode(ts[0].spl, NodeIdx(p, ts[0].homos), Spelled(ts[0].sons, p))] + Spelled(ts[1..], path)
  }

  lemma {:induction false} SpelledAt(ts: seq<Trie>, path: seq<u16>, k: nat)
    requires k < |ts|
    ensures Spelled(ts, path)[k] == SplNode(ts[k].spl, NodeIdx(path + [ts[k].spl], ts[k].homos),
              Spelled(ts[k].sons, path + [ts[k].spl]))
  {
    if k > 0 {
      SpelledAt(ts[1..], path, k - 1);
      assert ts[k] == ts[1..][k - 1];
    }
  }

  /** Some spelling of the table begins like this. */
  ghost predicate Begun(l: seq<Entry>, p: seq<u16>) {
    exists i :: 0 <= i < |l| && p <= l[i].ids
  }

  /** Every node that has an id has the id of the spelling that leads to it, and leads on to some spelling of the table;
      a half id is that of a Shengmu or Yunmu. */
  ghost predicate Right(l: seq<Entry>, ns: seq<SplNode>, path: seq<u16>) {
    forall k :: 0 <= k < |ns| ==> RightNode(l, ns[k], path)
  }

  ghost predicate RightNode(l: seq<Entry>, n: SplNode, path: seq<u16>) {
    && Upper(Fold(n.ch)) && Letter(n.ch) && n.idx < SPL_ID_START + |l|
    && (n.idx > 0 ==> SpellingStr(l, n.idx) == path + [n.ch] && Begun(l, path + [n.ch]))
    && (0 < n.idx < SPL_ID_START ==> Szm(LetterOf(n.idx)))
    && Right(l, n.sons, path + [n.ch])
  }

  /** No two brothers are the same letter. */
  ghost predicate Apart(ns: seq<SplNode>) {
    && (forall i, j :: 0 <= i < j < |ns| ==> Fold(ns[i].ch) != Fold(ns[j].ch))
    && (forall k :: 0 <= k < |ns| ==> Apart(ns[k].sons))
  }

  // ---- The nodes of the table are right and apart ----

  lemma TidyPrefix(w: seq<u16>, k: nat)
    requires Tidy(w) && 0 < k <= |w|
    ensures Tidy(w[..k])
  {
    forall i | 0 <= i < k ensures TidyAt(w[..k], i) {
      assert TidyAt(w, i);
    }
  }

  /** Every path is the beginning of a tidy spelling. */
  ghost predicate TidyTrie(ts: seq<Trie>, path: seq<u16>) {
    forall k :: 0 <= k < |ts| ==> TidyNode(ts[k], path)
  }

  ghost predicate TidyNode(t: Trie, path: seq<u16>) {
    Tidy(path + [t.spl]) && TidyTrie(t.sons, path + [t.spl])
  }

  ghost predicate TidyItems(items: seq<Item>, path: seq<u16>) {
    forall i :: 0 <= i < |items| ==> Tidy(path + items[i].path)
  }

  lemma {:induction false} BuildTidy(items: seq<Item>, path: seq<u16>)
    requires Sorted(items) && NonEmpty(items) && TidyItems(items, path)
    ensures TidyTrie(Build(items), path)
    decreases Size(items)
  {
    hide *;
    TidyNothing(path);
    if items != [] {
      BuildUnfolds(items);
      GroupOk(items);
      GroupPaths(items, GroupEnd(items, 1));
      var e := GroupEnd(items, 1);
      var h := HomoNum(items[..e]);
      var x := items[0].path[0];
      TidyParts(items, path, e, h, x);
      BuildTidy(Tails(items[h..e]), path + [x]);
      BuildTidy(items[e..], path);
      TidyCons(Trie(x, Ids(items[..h]), Build(Tails(items[h..e]))), Build(items[e..]), path);
    }
  }

  lemma TidyNothing(path: seq<u16>)
    ensures Sorted([]) && NonEmpty([]) && TidyTrie(Build([]), path)
  {
  }

  lemma TidyCons(t: Trie, rest: seq<Trie>, path: seq<u16>)
    requires Tidy(path + [t.spl]) && TidyTrie(t.sons, path + [t.spl]) && TidyTrie(rest, path)
    ensures TidyTrie([t] + rest, path)
  {
    hide Tidy;
    assert TidyNode(t, path);
    forall k | 0 <= k < |[t] + rest| ensures TidyNode(([t] + rest)[k], path) {
      if k > 0 {
        assert TidyNode(rest[k - 1], path);
      }
    }
  }

  lemma TidyParts(items: seq<Item>, path: seq<u16>, e: nat, h: nat, x: u16)
    requires TidyItems(items, path) && h <= e <= |items| && 0 < e && NonEmpty(items) && NonEmpty(items[h..e])
    requires forall i :: 0 <= i < e ==> items[i].path[0] == x
    ensures Tidy(path + [x]) && TidyItems(Tails(items[h..e]), path + [x]) && TidyItems(items[e..], path)
  {
    assert Tidy(path + items[0].path);
    TidyPrefix(path + items[0].path, |path| + 1);
    assert (path + items[0].path)[..|path| + 1] == path + [x];
    hide Tidy;
    var ts := Tails(items[h..e]);
    forall i | 0 <= i < |ts| ensures Tidy(path + [x] + ts[i].path) {
      assert items[h..e][i] == items[h + i] && path + items[h + i].path == path + [x] + ts[i].path;
      assert Tidy(path + items[h + i].path);
    }
    forall i | 0 <= i < |items[e..]| ensures Tidy(path + items[e..][i].path) {
      assert items[e..][i] == items[e + i];
    }
  }

  lemma FoldApart(path: seq<u16>, c: u16, d: u16)
    requires Tidy(path + [c]) && Tidy(path + [d]) && c != d
    ensures Fold(c) != Fold(d) && Letter(c) && Upper(Fold(c))
  {
    assert TidyAt(path + [c], |path|) && TidyAt(path + [d], |path|);
  }

  lemma {:induction false} SpelledApart(ts: seq<Trie>, path: seq<u16>)
    requires Ordered(ts) && TidyTrie(ts, path)
    ensures Apart(Spelled(ts, path))
  {
    var ns := Spelled(ts, path);
    hide Spelled, Tidy;
    forall i, j | 0 <= i < j < |ns| ensures Fold(ns[i].ch) != Fold(ns[j].ch) {
      SpelledAt(ts, path, i);
      SpelledAt(ts, path, j);
      assert TidyNode(ts[i], path) && TidyNode(ts[j], path);
      FoldApart(path, ts[i].spl, ts[j].spl);
    }
    forall k | 0 <= k < |ns| ensures Apart(ns[k].sons) {
      SpelledAt(ts, path, k);
      assert TidyNode(ts[k], path);
      SpelledApart(ts[k].sons, path + [ts[k].spl]);
    }
  }

  /** Every node lists some lemma. */
  ghost predicate Bearing(ts: seq<Trie>) {
    forall k :: 0 <= k < |ts| ==> ListedNode(ts[k]) != [] && Bearing(ts[k].sons)
  }

  lemma {:induction false} BuildBears(items: seq<Item>)
    requires Sorted(items) && NonEmpty(items)
    ensures Bearing(Build(items))
    decreases Size(items)
  {
    hide *;
    BearingNothing();
    if items != [] {
      BuildUnfolds(items);
      GroupOk(items);
      var e := GroupEnd(items, 1);
      var h := HomoNum(items[..e]);
      GroupNonEmpty(items);
      BuildBears(Tails(items[h..e]));
      BuildBears(items[e..]);
      BuildLists(Tails(items[h..e]));
      BearingCons(Trie(items[0].path[0], Ids(items[..h]), Build(Tails(items[h..e]))),
        Build(items[e..]), h, items[h..e]);
    }
  }

  lemma GroupNonEmpty(items: seq<Item>)
    requires items != [] && NonEmpty(items)
    ensures GroupEnd(items, 1) > 0
  {
  }

  lemma BearingNothing()
    ensures Sorted([]) && NonEmpty([]) && Bearing(Build([]))
  {
  }

  lemma BearingCons(t: Trie, rest: seq<Trie>, h: nat, deeper: seq<Item>)
    requires |t.homos| == h && h + |deeper| > 0 && NonEmpty(deeper) && Listed(t.sons) == Tails(deeper)
      && Bearing(t.sons) && Bearing(rest)
    ensures Bearing([t] + rest)
  {
    assert |ListedNode(t)| == h + |deeper|;
    hide ListedNode;
    forall k | 0 <= k < |[t] + rest| ensures ListedNode(([t] + rest)[k]) != [] && Bearing(([t] + rest)[k].sons) {
      if k > 0 {
        assert ([t] + rest)[k] == rest[k - 1];
      }
    }
  }

  /** A node that lists a lemma leads on to a spelling of the table. */
  lemma BearingBegins(l: seq<Entry>, ts: seq<Trie>, path: seq<u16>, k: nat)
    requires Belongs(l, ts, path) && Bearing(ts) && k < |ts|
    ensures Begun(l, path + [ts[k].spl]) && Bearing(ts[k].sons)
  {
    assert Bearing(ts[k].sons) && ListedNode(ts[k]) != [];
    hide *;
    var x := ListedNode(ts[k])[0];
    assert x in ListedNode(ts[k]);
    NodeHas(ts[k], x.path, x.id);
    ListedHas(ts, x);
    BelongsAt(l, ts, path, x);
    BegunIs(l, path + [ts[k].spl], x.id, x.path[1..]);
  }

  lemma BelongsAt(l: seq<Entry>, ts: seq<Trie>, path: seq<u16>, x: Item)
    requires Belongs(l, ts, path) && x in Listed(ts)
    ensures x.id < |l| && l[x.id].ids == path + x.path
    ensures x.path != [] ==> l[x.id].ids == path + [x.path[0]] + x.path[1..]
  {
    hide Listed;
    if x.path != [] {
      assert x.path == [x.path[0]] + x.path[1..];
    }
  }

  lemma BegunIs(l: seq<Entry>, p: seq<u16>, i: nat, rest: seq<u16>)
    requires i < |l| && l[i].ids == p + rest
    ensures Begun(l, p)
  {
  }

  /** The listed lemmas are the spellings below this path. */
  ghost predicate Belongs(l: seq<Entry>, ts: seq<Trie>, path: seq<u16>) {
    forall x :: x in Listed(ts) ==> x.id < |l| && l[x.id].ids == path + x.path
  }

  lemma BelongsBelow(l: seq<Entry>, ts: seq<Trie>, path: seq<u16>, k: nat)
    requires Belongs(l, ts, path) && k < |ts|
    ensures Belongs(l, ts[k].sons, path + [ts[k].spl])
    ensures forall id :: id in ts[k].homos ==> id < |l| && l[id].ids == path + [ts[k].spl]
  {
    var t := ts[k];
    hide Listed, ListedNode;
    forall x | x in Listed(t.sons) ensures x.id < |l| && l[x.id].ids == path + [t.spl] + x.path {
      var y := Item([t.spl] + x.path, x.id);
      ListedNonEmpty(t.sons);
      BelowIsListed(ts, k, x);
      assert path + y.path == path + [t.spl] + x.path;
    }
    forall id | id in t.homos ensures id < |l| && l[id].ids == path + [t.spl] {
      NodeHas(t, [t.spl], id);
      ListedHas(ts, Item([t.spl], id));
    }
  }

  lemma BelowIsListed(ts: seq<Trie>, k: nat, x: Item)
    requires k < |ts| && x in Listed(ts[k].sons)
    ensures x.path != [] && Item([ts[k].spl] + x.path, x.id) in Listed(ts)
  {
    var t := ts[k];
    ListedNonEmpty(t.sons);
    var i :| 0 <= i < |Listed(t.sons)| && Listed(t.sons)[i] == x;
    hide Listed, ListedNode;
    var y := Item([t.spl] + x.path, x.id);
    NodeHas(t, y.path, y.id);
    assert y.path[1..] == x.path;
    ListedHas(ts, y);
  }

  lemma {:induction false} SpelledRight(l: seq<Entry>, ts: seq<Trie>, path: seq<u16>)
    requires Table(l) && TidyTrie(ts, path) && Belongs(l, ts, path) && Bearing(ts)
    ensures Right(l, Spelled(ts, path), path)
  {
    var ns := Spelled(ts, path);
    hide Spelled, Belongs, Tidy, Table, SpellingStr, NodeIdx, Begun;
    forall k | 0 <= k < |ns| ensures RightNode(l, ns[k], path) {
      SpelledAt(ts, path, k);
      assert TidyNode(ts[k], path);
      BelongsBelow(l, ts, path, k);
      BearingBegins(l, ts, path, k);
      IdxSpells(l, path + [ts[k].spl], ts[k].homos);
      FoldIsUpper(path, ts[k].spl);
      SpelledRight(l, ts[k].sons, path + [ts[k].spl]);
    }
  }

  lemma FoldIsUpper(path: seq<u16>, c: u16)
    requires Tidy(path + [c])
    ensures Upper(Fold(c)) && Letter(c)
  {
    assert TidyAt(path + [c], |path|);
  }

  /** The id of a node is that of the spelling on its path. */
  lemma IdxSpells(l: seq<Entry>, p: seq<u16>, homos: seq<nat>)
    requires Table(l) && Tidy(p) && forall id :: id in homos ==> id < |l| && l[id].ids == p
    ensures NodeIdx(p, homos) < SPL_ID_START + |l| && (NodeIdx(p, homos) > 0 ==> SpellingStr(l, NodeIdx(p, homos)) == p)
    ensures 0 < NodeIdx(p, homos) < SPL_ID_START ==> Szm(LetterOf(NodeIdx(p, homos)))
  {
    hide SubsetOk;
    assert TidyAt(p, 0);
    if |p| == 1 && Szm(p[0]) {
      HalfIdsDiffer(p[0], p[0]);
      assert p == [p[0]];
    } else if |p| == 2 && Zcs(p[0]) && p[1] == LOWER_H {
      HalfIdsDiffer(p[0], p[0]);
      assert p == [p[0], LOWER_H];
    } else if homos != [] {
      assert homos[0] in homos;
    }
  }

  // ---- Walking as far as possible ----

  /** The first son for this character, or the number of sons. */
  function SonFor(ns: seq<SplNode>, c: u16): (k: nat)
    ensures k <= |ns| && (k < |ns| ==> Same(ns[k].ch, c)) && forall i :: 0 <= i < k ==> !Same(ns[i].ch, c)
  {
    if ns == [] || Same(ns[0].ch, c) then 0 else 1 + SonFor(ns[1..], c)
  }

  /** How many characters the longest path takes, and the id of its last node. */
  function Walk(ns: seq<SplNode>, idx: nat, s: seq<u16>): (r: (nat, nat))
    ensures r.0 <= |s| && (forall i :: 0 <= i < r.0 ==> Letter(s[i]))
    decreases |s|
  {
    if s == [] || !Letter(s[0]) || SonFor(ns, s[0]) == |ns| then (0, idx)
    else
      var k := SonFor(ns, s[0]);
      var r := Walk(ns[k].sons, ns[k].idx, s[1..]);
      (r.0 + 1, r.1)
  }

  function Folded(s: seq<u16>): (r: seq<u16>)
    ensures |r| == |s| && forall i :: 0 <= i < |s| ==> r[i] == Fold(s[i])
  {
    seq(|s|, i requires 0 <= i < |s| => Fold(s[i]))
  }

  /** The id at which the walk ends spells what the walk has read, up to case. */
  lemma {:induction false} WalkSpells(l: seq<Entry>, ns: seq<SplNode>, path: seq<u16>, idx: nat, s: seq<u16>)
    requires Right(l, ns, path) && idx < SPL_ID_START + |l|
      && (idx > 0 ==> SpellingStr(l, idx) == path && Begun(l, path))
    requires 0 < idx < SPL_ID_START ==> Szm(LetterOf(idx))
    ensures var r := Walk(ns, idx, s);
            r.1 < SPL_ID_START + |l| && (r.1 > 0 ==> Folded(SpellingStr(l, r.1)) == Folded(path + s[..r.0]))
    ensures var r := Walk(ns, idx, s);
            (r.1 > 0 ==> Begun(l, SpellingStr(l, r.1))) && (0 < r.1 < SPL_ID_START ==> Szm(LetterOf(r.1)))
    decreases |s|
  {
    hide *;
    WalkIs(ns, idx, s);
    if s == [] || !Letter(s[0]) || SonFor(ns, s[0]) == |ns| {
      assert path + s[..0] == path;
    } else {
      var k := SonFor(ns, s[0]);
      SonGivesRight(l, ns, path, s[0]);
      WalkSpells(l, ns[k].sons, path + [ns[k].ch], ns[k].idx, s[1..]);
      FoldedStep(path, ns[k].ch, s, Walk(ns[k].sons, ns[k].idx, s[1..]).0);
    }
  }

  lemma SonGivesRight(l: seq<Entry>, ns: seq<SplNode>, path: seq<u16>, c: u16)
    requires Right(l, ns, path) && Letter(c) && SonFor(ns, c) < |ns|
    ensures var n := ns[SonFor(ns, c)];
            && Fold(n.ch) == Fold(c) && Right(l, n.sons, path + [n.ch]) && n.idx < SPL_ID_START + |l|
            && (n.idx > 0 ==> SpellingStr(l, n.idx) == path + [n.ch] && Begun(l, path + [n.ch]))
            && (0 < n.idx < SPL_ID_START ==> Szm(LetterOf(n.idx)))
  {
    hide SpellingStr, Begun;
    var k := SonFor(ns, c);
    assert RightNode(l, ns[k], path);
    SameIsFold(ns[k].ch, c);
  }

  lemma FoldedStep(path: seq<u16>, c: u16, s: seq<u16>, n: nat)
    requires s != [] && Fold(c) == Fold(s[0]) && n + 1 <= |s|
    ensures Folded(path + [c] + s[1..][..n]) == Folded(path + s[..n + 1])
  {
    assert s[..n + 1] == [s[0]] + s[1..][..n];
  }

  /** A spelling of the trie is walked to its end. */
  lemma {:induction false} WalkReaches(l: seq<Entry>, ts: seq<Trie>, path: seq<u16>, idx: nat, w: seq<u16>, id: nat)
    requires Table(l) && Ordered(ts) && TidyTrie(ts, path) && Belongs(l, ts, path) && Item(w, id) in Listed(ts)
    ensures Walk(Spelled(ts, path), idx, w) == (|w|, NodeIdx(path + w, [id]))
    decreases |w|
  {
    hide *;
    ListedHas(ts, Item(w, id));
    var k :| 0 <= k < |ts| && Item(w, id) in ListedNode(ts[k]);
    var t := ts[k];
    NodeHas(t, w, id);
    SonIs(ts, path, k);
    BelongsBelow(l, ts, path, k);
    SpelledAt(ts, path, k);
    WalkIs(Spelled(ts, path), idx, w);
    TidyGives(ts, path, k);
    var p := path + [t.spl];
    assert path + w == p + w[1..] by {
      assert w == [w[0]] + w[1..];
    }
    if |w| == 1 {
      assert w[1..] == [] && path + w == p;
      OnlyHomo(l, p, t.homos, id);
      WalkIs(Spelled(t.sons, p), NodeIdx(p, t.homos), w[1..]);
    } else {
      WalkReaches(l, t.sons, p, NodeIdx(p, t.homos), w[1..], id);
    }
  }

  lemma WalkIs(ns: seq<SplNode>, idx: nat, s: seq<u16>)
    ensures s == [] ==> Walk(ns, idx, s) == (0, idx)
    ensures s != [] && Letter(s[0]) && SonFor(ns, s[0]) < |ns| ==>
              var k := SonFor(ns, s[0]);
              var r := Walk(ns[k].sons, ns[k].idx, s[1..]);
              Walk(ns, idx, s) == (r.0 + 1, r.1)
    ensures s != [] && (!Letter(s[0]) || SonFor(ns, s[0]) == |ns|) ==> Walk(ns, idx, s) == (0, idx)
  {
  }

  lemma TidyGives(ts: seq<Trie>, path: seq<u16>, k: nat)
    requires TidyTrie(ts, path) && Ordered(ts) && k < |ts|
    ensures TidyTrie(ts[k].sons, path + [ts[k].spl]) && Ordered(ts[k].sons)
  {
    assert TidyNode(ts[k], path);
  }

  lemma SonIs(ts: seq<Trie>, path: seq<u16>, k: nat)
    requires TidyTrie(ts, path) && Ordered(ts) && k < |ts|
    ensures SonFor(Spelled(ts, path), ts[k].spl) == k && Letter(ts[k].spl)
  {
    hide Spelled, Tidy;
    var ns := Spelled(ts, path);
    SpelledAt(ts, path, k);
    assert TidyNode(ts[k], path);
    FoldIsUpper(path, ts[k].spl);
    forall i | 0 <= i < k ensures !Same(ns[i].ch, ts[k].spl) {
      SpelledAt(ts, path, i);
      assert TidyNode(ts[i], path);
      FoldApart(path, ts[i].spl, ts[k].spl);
      FoldIsUpper(path, ts[i].spl);
      SameIsFold(ts[i].spl, ts[k].spl);
    }
  }

  lemma OnlyHomo(l: seq<Entry>, p: seq<u16>, homos: seq<nat>, id: nat)
    requires Table(l) && id in homos && forall x :: x in homos ==> x < |l| && l[x].ids == p
    ensures NodeIdx(p, homos) == NodeIdx(p, [id])
  {
    hide *;
    assert homos[0] in homos;
    SameSpelling(l, homos[0], id);
    IdxOfFirst(p, homos, id);
  }

  lemma SameSpelling(l: seq<Entry>, i: nat, j: nat)
    requires Table(l) && i < |l| && j < |l| && l[i].ids == l[j].ids
    ensures i == j
  {
    hide SubsetOk, Tidy;
  }

  lemma IdxOfFirst(p: seq<u16>, homos: seq<nat>, id: nat)
    requires homos != [] && homos[0] == id
    ensures NodeIdx(p, homos) == NodeIdx(p, [id])
  {
  }

  // ---- The trie of a table ----

  /** The nodes below the root. */
  ghost function Root(l: seq<Entry>): (ns: seq<SplNode>)
    requires Table(l)
  {
    Spelled(Nodes(l, 0, |l|, 0), [])
  }

  lemma TableTrie(l: seq<Entry>)
    requires Table(l)
    ensures var ts := Nodes(l, 0, |l|, 0);
            Ordered(ts) && TidyTrie(ts, []) && Belongs(l, ts, []) && Bearing(ts) && Listed(ts) == Slice(l, 0, |l|, 0)
  {
    hide *;
    TableItems(l);
    var items := Slice(l, 0, |l|, 0);
    NodesIs(l, 0, |l|, 0);
    BuildLists(items);
    BuildOrdered(items);
    BuildTidy(items, []);
    BuildBears(items);
    AllBelong(l, items, Build(items));
  }

  lemma TableItems(l: seq<Entry>)
    requires Table(l)
    ensures SubsetOk(l, 0, |l|, 0) && TidyItems(Slice(l, 0, |l|, 0), [])
    ensures forall i :: 0 <= i < |l| ==> Slice(l, 0, |l|, 0)[i] == Item(l[i].ids, i)
  {
    hide Tidy;
    var items := Slice(l, 0, |l|, 0);
    forall i | 0 <= i < |l| ensures items[i] == Item(l[i].ids, i) && Tidy([] + items[i].path) {
      assert l[i].ids[0..] == l[i].ids && [] + l[i].ids == l[i].ids;
    }
  }

  lemma AllBelong(l: seq<Entry>, items: seq<Item>, ts: seq<Trie>)
    requires Listed(ts) == items && |items| == |l| && forall i :: 0 <= i < |l| ==> items[i] == Item(l[i].ids, i)
    ensures Belongs(l, ts, [])
  {
    hide Listed;
    forall x | x in items ensures x.id < |l| && l[x.id].ids == [] + x.path {
      var i :| 0 <= i < |items| && items[i] == x;
      assert [] + x.path == x.path;
    }
  }

  /** What the parser needs of the trie. */
  lemma RootOk(l: seq<Entry>)
    requires Table(l)
    ensures Right(l, Root(l), []) && Apart(Root(l))
  {
    TableTrie(l);
    SpelledRight(l, Nodes(l, 0, |l|, 0), []);
    SpelledApart(Nodes(l, 0, |l|, 0), []);
  }

  /** From the root each spelling of the table leads to its node. */
  lemma SpellingReached(l: seq<Entry>, i: nat)
    requires Table(l) && i < |l|
    ensures Walk(Root(l), 0, l[i].ids) == (|l[i].ids|, NodeIdx(l[i].ids, [i]))
  {
    hide *;
    TableTrie(l);
    TableItems(l);
    assert Slice(l, 0, |l|, 0)[i] == Item(l[i].ids, i);
    assert [] + l[i].ids == l[i].ids;
    WalkReaches(l, Nodes(l, 0, |l|, 0), [], 0, l[i].ids, i);
    RootIs(l);
  }

  lemma RootIs(l: seq<Entry>)
    requires Table(l)
    ensures SubsetOk(l, 0, |l|, 0) && Root(l) == Spelled(Nodes(l, 0, |l|, 0), [])
  {
  }
}
