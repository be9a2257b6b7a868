/** Building the trie of the spelling table, and the half ids, each of which stands for a range of full ids. */
module SpellingTries {
  import opened Bytes
  import opened LemmaTrie
  import opened TrieNodes
  import opened TrieWalk
  import opened DictBuilding
  import opened SpellingNodes

  const HALF_IDS: nat := 30

  // ---- Groups of spellings ----

  ghost predicate Shared(l: seq<Entry>, s: nat, e: nat, level: nat) {
    s < e <= |l| && (forall i :: s <= i < e ==> level < |l[i].ids|)
    && forall i :: s <= i < e ==> l[i].ids[..level] == l[s].ids[..level]
  }

  lemma GroupChars(l: seq<Entry>, s: nat, e: nat, level: nat, m: nat, h: nat)
    requires IsGroup(l, s, e, level, m, h)
    ensures s < m <= e <= |l| && forall i :: s <= i < e ==> level < |l[i].ids|
    ensures forall i :: s <= i < m ==> l[i].ids[level] == l[s].ids[level]
    ensures m < e ==> l[s].ids[level] < l[m].ids[level]
  {
    hide *;
    GroupFacts(l, s, e, level, m, h);
    var items := Slice(l, s, e, level);
    EndFacts(items, m - s);
    forall i | s <= i < m ensures l[i].ids[level] == l[s].ids[level] {
      assert items[i - s].path[0] == items[0].path[0];
    }
    if m < e {
      NextGroup(items, m - s);
      assert items[m - s..][0] == items[m - s];
    }
  }

  lemma EndFacts(items: seq<Item>, e: nat)
    requires NonEmpty(items) && items != [] && e == GroupEnd(items, 1)
    ensures e <= |items| && forall i :: 0 <= i < |items| ==> items[i].path != []
    ensures forall i :: 0 <= i < e ==> items[i].path[0] == items[0].path[0]
  {
  }

  /** Of distinct spellings at most one ends at a node, and it is the first of its group. */
  lemma OneEnds(l: seq<Entry>, s: nat, e: nat, level: nat, m: nat, h: nat)
    requires Table(l) && Shared(l, s, e, level) && IsGroup(l, s, e, level, m, h)
    ensures level < |l[s].ids| && h == (if |l[s].ids| == level + 1 then 1 else 0) && (h == 0 || m - s > 0)
    ensures Ids(Slice(l, s, s + h, level)) == if h == 1 then [s] else []
    ensures h < m - s ==> Shared(l, s + h, m, level + 1)
    ensures h == m - s ==> h == 1
  {
    GroupChars(l, s, e, level, m, h);
    EndsCounted(l, s, e, level, m, h);
    hide IsGroup, SubsetOk, Slice, Ids, Tidy;
    forall i, j | s <= i < m && s <= j < m ensures l[i].ids[..level + 1] == l[j].ids[..level + 1] {
      PrefixSnoc(l[i].ids, level);
      PrefixSnoc(l[j].ids, level);
    }
    if m - s > 1 {
      PrefixWhole(l[s].ids, l[s + 1].ids, level + 1);
    }
    assert h <= 1;
    HomoIds(l, s, h, level);
  }

  lemma PrefixWhole(a: seq<u16>, b: seq<u16>, k: nat)
    requires k <= |a| && k <= |b| && a[..k] == b[..k]
    ensures |a| == k && |b| == k ==> a == b
  {
  }

  lemma PrefixSnoc(w: seq<u16>, k: nat)
    requires k < |w|
    ensures w[..k + 1] == w[..k] + [w[k]]
  {
  }

  lemma EndsCounted(l: seq<Entry>, s: nat, e: nat, level: nat, m: nat, h: nat)
    requires IsGroup(l, s, e, level, m, h)
    ensures s < m <= e <= |l| && h <= m - s && (forall i :: s <= i < e ==> level < |l[i].ids|)
    ensures forall i :: s <= i < m ==> (|l[i].ids| == level + 1 <==> i < s + h)
  {
    hide *;
    GroupFacts(l, s, e, level, m, h);
    var items := Slice(l, s, e, level);
    LeadsOf(items, m - s);
    forall i | s <= i < m ensures |l[i].ids| == level + 1 <==> i < s + h {
      LeadAt(items[..m - s], i - s);
    }
  }

  lemma LeadAt(g: seq<Item>, i: nat)
    requires HomosLead(g) && i < |g|
    ensures |g[i].path| == 1 <==> i < HomoNum(g)
  {
  }

  lemma HomoIds(l: seq<Entry>, s: nat, h: nat, level: nat)
    requires h <= 1 && s + h <= |l| && (forall i :: s <= i < s + h ==> level <= |l[i].ids|)
      && forall i :: 0 <= i < |l| ==> l[i].id == i
    ensures Ids(Slice(l, s, s + h, level)) == if h == 1 then [s] else []
  {
  }

  // ---- The ranges of the half ids ----

  /** Of the first n spellings exactly those in the range begin like the half id. */
  ghost predicate RangeUpTo(l: seq<Entry>, n: nat, id: nat, start: nat, num: nat) {
    && n <= |l| && 1 <= id <= 29
    && (forall i :: 0 <= i < n ==> (Covers(id, l[i].ids) <==> start <= SPL_ID_START + i < start + num))
    && (num > 0 ==> SPL_ID_START <= start && start + num <= SPL_ID_START + n) && (num == 0 ==> start == 0)
  }

  ghost predicate HalfDone(l: seq<Entry>, n: nat, hs: seq<u16>, hn: seq<u16>) {
    |hs| == |hn| == HALF_IDS && forall id :: 1 <= id <= 29 ==> RangeUpTo(l, n, id, hs[id], hn[id])
  }

  ghost predicate HasH(l: seq<Entry>, s: nat, e: nat) {
    exists i :: s <= i < e && i < |l| && |l[i].ids| > 1 && l[i].ids[1] == LOWER_H
  }

  /** What the second level does to the ranges: the spellings of [s, e) that go on with h get the half id of Ch, Sh, Zh.
      */
  ghost predicate PartDone(l: seq<Entry>, s: nat, e: nat, c: u16, hs: seq<u16>, hn: seq<u16>,
    hs': seq<u16>, hn': seq<u16>) {
    && |hs| == |hn| == |hs'| == |hn'| == HALF_IDS && e <= |l|
    && (forall id ::
          0 <= id < HALF_IDS && !(Zcs(c) && id == PartOf(c) && HasH(l, s, e)) ==>
            hs'[id] == hs[id] && hn'[id] == hn[id])
    && (Zcs(c) && HasH(l, s, e) ==>
          && hn'[PartOf(c)] > 0 && SPL_ID_START + s <= hs'[PartOf(c)] as nat
          && hs'[PartOf(c)] as nat + hn'[PartOf(c)] as nat <= SPL_ID_START + e
          && forall i ::
               s <= i < e ==>
                 (|l[i].ids| > 1 && l[i].ids[1] == LOWER_H <==>
                  hs'[PartOf(c)] as nat <= SPL_ID_START + i < hs'[PartOf(c)] as nat + hn'[PartOf(c)] as nat))
  }

  lemma PartNone(l: seq<Entry>, s: nat, c: u16, hs: seq<u16>, hn: seq<u16>)
    requires |hs| == |hn| == HALF_IDS && s <= |l|
    ensures PartDone(l, s, s, c, hs, hn, hs, hn)
  {
  }

  /** The group [g, m) was entered under Ch, Sh, Zh, if it goes on with h there. */
  ghost predicate PartWritten(l: seq<Entry>, g: nat, m: nat, hs: seq<u16>, hn: seq<u16>, hs': seq<u16>, hn': seq<u16>) {
    && g < m <= |l| && SPL_ID_START + |l| < 0x800 && |l[g].ids| > 1 && |hs| == |hn| == HALF_IDS
    && if Zcs(l[g].ids[0]) && l[g].ids[1] == LOWER_H
       then hs' == hs[PartOf(l[g].ids[0]) := SPL_ID_START + g] && hn' == hn[PartOf(l[g].ids[0]) := m - g]
       else hs' == hs && hn' == hn
  }

  /** The group [g, m) was entered under its letter, if that has a half id. */
  ghost predicate LetterWritten(l: seq<Entry>, g: nat, m: nat, hs: seq<u16>, hn: seq<u16>,
    hs': seq<u16>, hn': seq<u16>) {
    && g < m <= |l| && SPL_ID_START + |l| < 0x800 && l[g].ids != [] && Upper(l[g].ids[0]) && |hs| == |hn| == HALF_IDS
    && if Szm(l[g].ids[0])
       then hs' == hs[HalfOf(l[g].ids[0]) := SPL_ID_START + g] && hn' == hn[HalfOf(l[g].ids[0]) := m - g]
       else hs' == hs && hn' == hn
  }

  lemma HalfWritten(l: seq<Entry>, g: nat, m: nat, level: nat, szm: bool, id: nat, hs: seq<u16>, hn: seq<u16>,
    hs': seq<u16>, hn': seq<u16>)
    requires g < m <= |l| && SPL_ID_START + |l| < 0x800 && level < |l[g].ids| && Upper(l[g].ids[0])
      && |hs| == |hn| == HALF_IDS
    requires level == 0 ==> (szm <==> Szm(l[g].ids[0]))
    requires id ==
               if level == 0 && szm then
                 HalfOf(l[g].ids[0])
               else if level == 1 && l[g].ids[1] == LOWER_H && Zcs(l[g].ids[0]) then PartOf(l[g].ids[0]) else 0
    requires id > 0 ==> id < HALF_IDS && hs' == hs[id := SPL_ID_START + g] && hn' == hn[id := m - g]
    requires id == 0 ==> hs' == hs && hn' == hn
    ensures level >= 2 ==> hs' == hs && hn' == hn
    ensures level == 1 ==> PartWritten(l, g, m, hs, hn, hs', hn')
    ensures level == 0 ==> LetterWritten(l, g, m, hs, hn, hs', hn')
  {
  }

  /** One group of the second level. */
  lemma PartStep(l: seq<Entry>, s: nat, g: nat, m: nat, c: u16, x: u16, hs: seq<u16>, hn: seq<u16>, hs1: seq<u16>,
    hn1: seq<u16>, hs2: seq<u16>, hn2: seq<u16>)
    requires PartDone(l, s, g, c, hs, hn, hs1, hn1) && s <= g < m <= |l| && SPL_ID_START + |l| < 0x800 && x <= LOWER_H
    requires forall i :: s <= i < g ==> |l[i].ids| > 1 && l[i].ids[1] < x
    requires forall i :: g <= i < m ==> |l[i].ids| > 1 && l[i].ids[1] == x
    requires l[g].ids[0] == c && PartWritten(l, g, m, hs1, hn1, hs2, hn2)
    ensures PartDone(l, s, m, c, hs, hn, hs2, hn2)
  {
    assert !HasH(l, s, g);
    if x == LOWER_H {
      assert l[g].ids[1] == LOWER_H;
      assert HasH(l, s, m);
    } else {
      assert !HasH(l, s, m);
    }
  }

  /** One group of the first level: its letter and, if it has one, its h get their ranges. */
  lemma HalfStep(l: seq<Entry>, g: nat, k: nat, m: nat, c: u16, hs: seq<u16>, hn: seq<u16>, hs1: seq<u16>,
    hn1: seq<u16>, hs2: seq<u16>, hn2: seq<u16>)
    requires HalfDone(l, g, hs, hn) && PartDone(l, k, m, c, hs, hn, hs1, hn1) && g <= k <= m <= |l| && g < m
      && SPL_ID_START + |l| < 0x800
    requires Upper(c) && (forall i :: 0 <= i < g ==> l[i].ids != [] && l[i].ids[0] != c)
    requires forall i :: g <= i < m ==> l[i].ids != [] && l[i].ids[0] == c && (i < k ==> |l[i].ids| == 1)
    requires LetterWritten(l, g, m, hs1, hn1, hs2, hn2)
    ensures HalfDone(l, m, hs2, hn2)
  {
    forall id | 1 <= id <= 29 ensures RangeUpTo(l, m, id, hs2[id], hn2[id]) {
      assert RangeUpTo(l, g, id, hs[id], hn[id]);
      HalfStepFor(l, g, k, m, c, id, hs, hn, hs1, hn1, hs2, hn2);
    }
  }

  lemma RangeHit(l: seq<Entry>, n: nat, id: nat, start: nat, num: nat)
    requires RangeUpTo(l, n, id, start, num)
    ensures num > 0 ==> 0 <= start - SPL_ID_START < n && Covers(id, l[start - SPL_ID_START].ids)
  {
  }

  lemma CoversIs(id: nat, w: seq<u16>)
    requires 1 <= id <= 29 && w != []
    ensures Covers(id, w) <==> w[0] == LetterOf(id) && Szm(w[0]) && (IsPart(id) ==> |w| > 1 && w[1] == LOWER_H)
  {
  }

  lemma HalfStepFor(l: seq<Entry>, g: nat, k: nat, m: nat, c: u16, id: nat, hs: seq<u16>, hn: seq<u16>, hs1: seq<u16>,
    hn1: seq<u16>, hs2: seq<u16>, hn2: seq<u16>)
    requires 1 <= id <= 29 && |hs| == |hn| == HALF_IDS && RangeUpTo(l, g, id, hs[id], hn[id])
    requires PartDone(l, k, m, c, hs, hn, hs1, hn1) && g <= k <= m <= |l| && g < m && SPL_ID_START + |l| < 0x800
    requires Upper(c) && (forall i :: 0 <= i < g ==> l[i].ids != [] && l[i].ids[0] != c)
    requires forall i :: g <= i < m ==> l[i].ids != [] && l[i].ids[0] == c && (i < k ==> |l[i].ids| == 1)
    requires if Szm(c) then
               hs2 == hs1[HalfOf(c) := SPL_ID_START + g] && hn2 == hn1[HalfOf(c) := m - g]
             else hs2 == hs1 && hn2 == hn1
    ensures RangeUpTo(l, m, id, hs2[id], hn2[id])
  {
    forall i | 0 <= i < m
      ensures Covers(id, l[i].ids) <==>
                l[i].ids[0] == LetterOf(id) && Szm(l[i].ids[0])
                && (IsPart(id) ==> |l[i].ids| > 1 && l[i].ids[1] == LOWER_H)
    {
      CoversIs(id, l[i].ids);
    }
    HalfIdsDiffer(c, LetterOf(id));
    HalfIdsDiffer(LetterOf(id), c);
    hide Covers, LetterOf, HalfOf, PartOf;
    if LetterOf(id) == c && Szm(c) {
      RangeHit(l, g, id, hs[id], hn[id]);
    }
  }

  // ---- The quick index of the first level ----

  /** For each letter the place of its node plus one, or 0. */
  ghost predicate Quick(level1: seq<nat>, ns: seq<SplNode>) {
    && |level1| == 26 && (forall k :: 0 <= k < |ns| ==> Upper(ns[k].ch) && level1[ns[k].ch as nat - 65] == k + 1)
    && (forall c :: 0 <= c < 26 && level1[c] != 0 ==> level1[c] <= |ns| && ns[level1[c] - 1].ch as nat == 65 + c)
  }

  lemma QuickMore(level1: seq<nat>, ns: seq<SplNode>, n: SplNode)
    requires Quick(level1, ns) && Upper(n.ch) && forall k :: 0 <= k < |ns| ==> ns[k].ch != n.ch
    ensures Quick(level1[n.ch as nat - 65 := |ns| + 1], ns + [n])
  {
  }

  lemma SpelledCons(t: Trie, rest: seq<Trie>, path: seq<u16>)
    ensures Spelled([t] + rest, path)
              == [SplNode(t.spl, NodeIdx(path + [t.spl], t.homos), Spelled(t.sons, path + [t.spl]))]
              + Spelled(rest, path)
  {
    assert ([t] + rest)[1..] == rest;
  }

  /** The groups so far lie before the rest in the order of this level. */
  ghost predicate Passed(l: seq<Entry>, s: nat, start: nat, e: nat, level: nat) {
    && s <= start <= e <= |l| && (forall i :: s <= i < e ==> level < |l[i].ids|)
    && forall i :: s <= i < start && start < e ==> l[i].ids[level] < l[start].ids[level]
  }

  lemma PassGroup(l: seq<Entry>, s: nat, start: nat, e: nat, level: nat, m: nat, h: nat)
    requires Passed(l, s, start, e, level) && IsGroup(l, start, e, level, m, h)
    ensures Passed(l, s, m, e, level) && start < m
      && forall i :: s <= i < start ==> l[i].ids[level] < l[start].ids[level]
  {
    GroupChars(l, start, e, level, m, h);
    hide IsGroup;
  }

  lemma SharedFrom(l: seq<Entry>, s: nat, e: nat, level: nat, start: nat)
    requires Shared(l, s, e, level) && s <= start < e
    ensures Shared(l, start, e, level) && l[start].ids[..level] == l[s].ids[..level]
  {
  }

  lemma TableGives(l: seq<Entry>, i: nat)
    requires Table(l) && i < |l|
    ensures SPL_ID_START + |l| < 0x800 && l[i].ids != [] && Upper(l[i].ids[0]) && 65 <= l[i].ids[0] <= 90
      && forall k :: 0 <= k < |l[i].ids| ==> Letter(l[i].ids[k]) && l[i].ids[k] <= LOWER_H
  {
    hide SubsetOk;
    assert TidyAt(l[i].ids, 0);
    forall k | 0 <= k < |l[i].ids| ensures Letter(l[i].ids[k]) && l[i].ids[k] <= LOWER_H {
      assert TidyAt(l[i].ids, k);
    }
  }

  /** The node of the group [start, m), of which the first h are its own spelling. */
  ghost predicate NodeMade(l: seq<Entry>, start: nat, m: nat, level: nat, h: nat, node: SplNode) {
    && start < m <= |l| && h <= 1 && start + h <= m && level < |l[start].ids| && SubsetOk(l, start + h, m, level + 1)
    && node == SplNode(l[start].ids[level], NodeIdx(l[start].ids[..level + 1], if h == 1 then [start] else []),
                       Spelled(Nodes(l, start + h, m, level + 1), l[start].ids[..level + 1]))
  }

  lemma NodeMadeIs(l: seq<Entry>, start: nat, m: nat, level: nat, h: nat, node: SplNode)
    requires start < m <= |l| && h <= 1 && start + h <= m && level < |l[start].ids|
      && SubsetOk(l, start + h, m, level + 1)
    ensures NodeMade(l, start, m, level, h, node) <==>
            node == SplNode(l[start].ids[level], NodeIdx(l[start].ids[..level + 1], if h == 1 then [start] else []),
                            Spelled(Nodes(l, start + h, m, level + 1), l[start].ids[..level + 1]))
  {
  }

  class SpellingTrie {
    const words: seq<Entry>
    const level1: array<nat>
    const h2fStart: array<u16>
    const h2fNum: array<u16>
    const f2h: array<u16>
    var root: seq<SplNode>
    var shm: bool
    var ym: bool

    ghost predicate Shape() {
      && Table(words) && level1.Length == 26 && h2fStart.Length == h2fNum.Length == HALF_IDS && f2h.Length == |words|
      && h2fStart != h2fNum && h2fStart != f2h && h2fNum != f2h
    }

    /** The half id of a node, if it has one: the table of ranges gets the range of its group. */
    method SetHalf(level: nat, start: nat, end: nat, ch: u16, first: u16, szm: bool) returns (id: nat)
      requires Shape() && start < end <= |words| && (level == 0 ==> Upper(ch))
      modifies h2fStart, h2fNum
      ensures id ==
                if level == 0 && szm then
                  HalfOf(ch)
                else if level == 1 && ch == LOWER_H && Zcs(first) then PartOf(first) else 0
      ensures id > 0 ==> id < HALF_IDS && SPL_ID_START + |words| < 0x800
                         && h2fStart[..] == old(h2fStart[..])[id := SPL_ID_START + start]
                            && h2fNum[..] == old(h2fNum[..])[id := end - start]
      ensures id == 0 ==> h2fStart[..] == old(h2fStart[..]) && h2fNum[..] == old(h2fNum[..])
    {
      id := 0;
      if level == 0 && szm {
        id := ch as nat - 64;
        if ch > 67 {
          id := id + 1;
        }
        if ch > 83 {
          id := id + 1;
        }
      } else if level == 1 && ch == LOWER_H {
        if first == 67 {
          id := 4;
        } else if first == 83 {
          id := 21;
        } else if first == 90 {
          id := 29;
        }
      }
      if id > 0 {
        h2fNum[id] := end - start;
        h2fStart[id] := start + SPL_ID_START;
      }
    }

    /** `szm_is_enabled`. */
    predicate SzmIsEnabled(ch: u16)
      reads this
    {
      (Shengmu(ch) && shm) || (Yunmu(ch) && ym)
    }

    /** `szm_enable_shm`, `szm_enable_ym`. */
    method EnableSzm(shm: bool, ym: bool)
      modifies this`shm, this`ym
      ensures this.shm == shm && this.ym == ym
      ensures forall c: u16 :: SzmIsEnabled(c) <==> (Shengmu(c) && shm) || (Yunmu(c) && ym)
    {
      this.shm := shm;
      this.ym := ym;
    }

    /** One node of `construct_spellings_subset`: what lies below it, its id, and the range of its half id. */
    method BuildNode(start: nat, m: nat, level: nat, szm: bool, ghost e: nat, ghost h: nat)
      returns (node: SplNode, ghost hs1: seq<u16>, ghost hn1: seq<u16>)
      requires Shape() && level < MAX_LEMMA_SIZE && shm && ym && Shared(words, start, e, level)
        && IsGroup(words, start, e, level, m, h)
      requires SubsetOk(words, start + h, m, level + 1) && (level == 0 ==> (szm <==> Szm(FirstOf(words, start))))
        && start < |words|
      modifies h2fStart, h2fNum, level1
      ensures level1[..] == old(level1[..]) && NodeMade(words, start, m, level, h, node)
      ensures level >= 2 ==> h2fStart[..] == old(h2fStart[..]) && h2fNum[..] == old(h2fNum[..])
      ensures level == 1 ==> PartWritten(words, start, m, old(h2fStart[..]), old(h2fNum[..]), h2fStart[..], h2fNum[..])
      ensures level == 0 ==> LetterWritten(words, start, m, hs1, hn1, h2fStart[..], h2fNum[..])
                             && PartDone(words, start + h, m, FirstOf(words, start), old(h2fStart[..]),
                                  old(h2fNum[..]), hs1, hn1)
      decreases MAX_LEMMA_SIZE - level, 0
    {
      hide *;
      hide SpellingTrie.Shape;
      ShapeGives();
      GroupChars(words, start, e, level, m, h);
      OneEnds(words, start, e, level, m, h);
      TableGives(words, start);
      FirstIs(words, start);
      ghost var hs, hn := h2fStart[..], h2fNum[..];
      PartNone(words, m, words[start].ids[0], hs, hn);
      var w := words[start].ids;
      var endable := SplAt(words[start], level + 1) == 0;
      Endable(words, start, level);
      var idx: nat := 0;
      if endable {
        idx := SPL_ID_START + start;
      }
      var sons: seq<SplNode> := [];
      if !endable || m - start > 1 {
        var realStart := start;
        if endable {
          realStart := realStart + 1;
        }
        SharedFrom(words, realStart, m, level + 1, realStart);
        SonsAre(words, start + h, m, level + 1, Nodes(words, start + h, m, level + 1));
        SameStart(words, start, m, level, realStart, e);
        sons := ConstructSubset(realStart, m, level + 1);
      } else {
        NoMoreNodes(words, start + h, m, level + 1, w[..level + 1]);
      }
      hs1, hn1 := h2fStart[..], h2fNum[..];
      var half := SetHalf(level, start, m, w[level], w[0], szm);
      HalfWritten(words, start, m, level, szm, half, hs1, hn1, h2fStart[..], h2fNum[..]);
      if half > 0 {
        idx := half;
      }
      IdxIs(w, level, h, start, half, idx, szm);
      node := SplNode(w[level], idx, sons);
      NodeMadeIs(words, start, m, level, h, node);
    }

    lemma ShapeGives()
      requires Shape()
      ensures Table(words) && level1.Length == 26 && h2fStart.Length == h2fNum.Length == HALF_IDS == 30
        && h2fStart != h2fNum && SPL_ID_START == 30 && f2h.Length == |words|
      ensures MAX_LEMMA_SIZE == 8
    {
    }

    /** `construct_spellings_subset`: the nodes of the spellings [s, e), and the ranges of the half ids among them. */
    method ConstructSubset(s: nat, e: nat, level: nat) returns (sons: seq<SplNode>)
      requires Shape() && level <= MAX_LEMMA_SIZE && shm && ym && s < e && Shared(words, s, e, level)
        && SubsetOk(words, s, e, level)
      requires level == 0 ==> s == 0 && Quick(level1[..], []) && HalfDone(words, 0, h2fStart[..], h2fNum[..])
      modifies h2fStart, h2fNum, level1
      ensures level < |words[s].ids| && sons == Spelled(Nodes(words, s, e, level), words[s].ids[..level])
      ensures level >= 2 ==> h2fStart[..] == old(h2fStart[..]) && h2fNum[..] == old(h2fNum[..])
      ensures level == 1 ==>
                PartDone(words, s, e, words[s].ids[0], old(h2fStart[..]), old(h2fNum[..]), h2fStart[..], h2fNum[..])
      ensures level == 0 ==> HalfDone(words, e, h2fStart[..], h2fNum[..]) && Quick(level1[..], sons)
      ensures level > 0 ==> level1[..] == old(level1[..])
      decreases MAX_LEMMA_SIZE - level, 2
    {
      hide *;
      hide SpellingTrie.Shape;
      ShapeGives();
      SharedGives(words, s, e, level);
      SonsAre(words, s, e, level, Nodes(words, s, e, level));
      TableGives(words, s);
      ghost var hs, hn, path, ts := h2fStart[..], h2fNum[..], words[s].ids[..level], Nodes(words, s, e, level);
      PartNone(words, s, words[s].ids[0], hs, hn);
      sons := [];
      var start := s;
      AddingStart(s, e, level, ts, path, hs, hn);
      while start < e
        invariant s <= start <= e && level1.Length == 26 && Adding(s, start, e, level, sons, ts, path, hs, hn)
        invariant level > 0 ==> level1[..] == old(level1[..])
        decreases e - start
      {
        AddingGives(s, start, e, level, sons, ts, path, hs, hn);
        var m, h := ScanGroup(words, start, e, level);
        sons := AddNode(s, start, e, level, m, h, sons, ts, path, hs, hn);
        start := m;
      }
      AddingEnd(s, e, level, sons, ts, path, hs, hn);
    }

    /** The nodes of the groups before `start` are made. */
    ghost predicate Adding(s: nat, start: nat, e: nat, level: nat, sons: seq<SplNode>, ts: seq<Trie>, path: seq<u16>,
      hs: seq<u16>, hn: seq<u16>)
      reads this, h2fStart, h2fNum, level1
    {
      && SubsetOk(words, start, e, level) && Passed(words, s, start, e, level) && s < e
      && Spelled(ts, path) == sons + Spelled(Nodes(words, start, e, level), path)
      && (start < e ==> forall k :: 0 <= k < |sons| ==> sons[k].ch < words[start].ids[level])
      && (level >= 2 ==> h2fStart[..] == hs && h2fNum[..] == hn)
      && (level == 1 ==> PartDone(words, s, start, words[s].ids[0], hs, hn, h2fStart[..], h2fNum[..]))
      && (level == 0 ==> s == 0 && HalfDone(words, start, h2fStart[..], h2fNum[..]) && Quick(level1[..], sons))
    }

    lemma AddingStart(s: nat, e: nat, level: nat, ts: seq<Trie>, path: seq<u16>, hs: seq<u16>, hn: seq<u16>)
      requires SubsetOk(words, s, e, level) && s < e && Shared(words, s, e, level) && ts == Nodes(words, s, e, level)
        && h2fStart[..] == hs && h2fNum[..] == hn
      requires |hs| == |hn| == HALF_IDS
        && (level == 0 ==> s == 0 && Quick(level1[..], []) && HalfDone(words, 0, hs, hn))
      ensures Adding(s, s, e, level, [], ts, path, hs, hn)
    {
      hide SubsetOk, Spelled, PartDone, HalfDone, Quick, Nodes;
      if level == 1 {
        PartNone(words, s, words[s].ids[0], hs, hn);
      }
      assert Spelled(ts, path) == [] + Spelled(ts, path);
    }

    lemma AddingGives(s: nat, start: nat, e: nat, level: nat, sons: seq<SplNode>, ts: seq<Trie>, path: seq<u16>,
      hs: seq<u16>, hn: seq<u16>)
      requires Adding(s, start, e, level, sons, ts, path, hs, hn)
      ensures SubsetOk(words, start, e, level) && Passed(words, s, start, e, level) && s <= start <= e <= |words|
      ensures Spelled(ts, path) == sons + Spelled(Nodes(words, start, e, level), path)
      ensures start < e ==>
                level < |words[start].ids| && forall k :: 0 <= k < |sons| ==> sons[k].ch < words[start].ids[level]
      ensures level >= 2 ==> h2fStart[..] == hs && h2fNum[..] == hn
      ensures level == 1 ==>
                s < |words| && words[s].ids != []
                && PartDone(words, s, start, words[s].ids[0], hs, hn, h2fStart[..], h2fNum[..])
      ensures level == 0 ==> s == 0 && HalfDone(words, start, h2fStart[..], h2fNum[..]) && Quick(level1[..], sons)
    {
      hide SubsetOk, Spelled, PartDone, HalfDone, Quick, Nodes;
    }

    lemma AddingEnd(s: nat, e: nat, level: nat, sons: seq<SplNode>, ts: seq<Trie>, path: seq<u16>,
      hs: seq<u16>, hn: seq<u16>)
      requires Adding(s, e, e, level, sons, ts, path, hs, hn)
      ensures s < e <= |words| && words[s].ids != [] && sons == Spelled(ts, path)
      ensures level >= 2 ==> h2fStart[..] == hs && h2fNum[..] == hn
      ensures level == 1 ==> PartDone(words, s, e, words[s].ids[0], hs, hn, h2fStart[..], h2fNum[..])
      ensures level == 0 ==> HalfDone(words, e, h2fStart[..], h2fNum[..]) && Quick(level1[..], sons)
    {
      NothingBuilt(words, e, level);
      hide SubsetOk, PartDone, HalfDone, Quick, Nodes;
      assert sons + Spelled([], path) == sons;
    }

    /** One group more: its node, the quick index, and what it does to the ranges. */
    method AddNode(s: nat, start: nat, e: nat, level: nat, m: nat, ghost h: nat, had: seq<SplNode>, ghost ts: seq<Trie>,
      ghost path: seq<u16>, ghost hs: seq<u16>, ghost hn: seq<u16>)
      returns (sons: seq<SplNode>)
      requires Shape() && level < MAX_LEMMA_SIZE && shm && ym && s <= start < e && Shared(words, s, e, level)
        && IsGroup(words, start, e, level, m, h)
      requires path == words[s].ids[..level] && Adding(s, start, e, level, had, ts, path, hs, hn)
      modifies h2fStart, h2fNum, level1
      ensures start < m <= e && Adding(s, m, e, level, sons, ts, path, hs, hn)
        && (level > 0 ==> level1[..] == old(level1[..]))
      decreases MAX_LEMMA_SIZE - level, 1
    {
      hide *;
      hide SpellingTrie.Shape, SpellingTrie.Adding, SpellingTrie.SzmIsEnabled;
      ShapeGives();
      AddingGives(s, start, e, level, had, ts, path, hs, hn);
      GroupParts(words, start, e, level, m, h);
      GroupChars(words, start, e, level, m, h);
      SharedFrom(words, s, e, level, start);
      TableGives(words, start);
      PassGroup(words, s, start, e, level, m, h);
      OneEnds(words, start, e, level, m, h);
      PrefixSnoc(words[start].ids, level);
      ghost var hs0, hn0 := h2fStart[..], h2fNum[..];
      ghost var q0: seq<nat> := level1[..];
      var szm := if m == e then SzmIsEnabled(words[start].ids[level]) else Szm(words[start].ids[level]);
      SzmIs(words[start].ids[level]);
      FirstIs(words, start);
      var node; ghost var hs1, hn1;
      node, hs1, hn1 := BuildNode(start, m, level, szm, e, h);
      NodeMadeIs(words, start, m, level, h, node);
      ghost var t := Trie(words[start].ids[level], Ids(Slice(words, start, start + h, level)),
        Nodes(words, start + h, m, level + 1));
      SpelledCons(t, Nodes(words, m, e, level), path);
      Assoc(had, [node], Spelled(Nodes(words, m, e, level), path));
      sons := had + [node];
      if level == 0 {
        FirstChars(words, start, m, h, s, e);
        HalfStep(words, start, start + h, m, node.ch, hs0, hn0, hs1, hn1, h2fStart[..], h2fNum[..]);
        QuickMore(q0, had, node);
        level1[node.ch as nat - 65] := |sons|;
        ghost var n: nat := |sons|;
        assert level1[..] == q0[node.ch as nat - 65 := n];
      } else if level == 1 {
        SecondChars(words, s, start, m, e);
        PartStep(words, s, start, m, words[s].ids[0], node.ch, hs, hn, hs0, hn0, h2fStart[..], h2fNum[..]);
      }
      AddingIs(s, m, e, level, sons, ts, path, hs, hn);
    }

    lemma SzmIs(c: u16)
      ensures shm && ym ==> (SzmIsEnabled(c) <==> Szm(c))
    {
    }

    lemma AddingIs(s: nat, start: nat, e: nat, level: nat, sons: seq<SplNode>, ts: seq<Trie>, path: seq<u16>,
      hs: seq<u16>, hn: seq<u16>)
      requires SubsetOk(words, start, e, level) && Passed(words, s, start, e, level) && s < e
      requires Spelled(ts, path) == sons + Spelled(Nodes(words, start, e, level), path)
      requires start < e ==>
                 level < |words[start].ids| && forall k :: 0 <= k < |sons| ==> sons[k].ch < words[start].ids[level]
      requires level >= 2 ==> h2fStart[..] == hs && h2fNum[..] == hn
      requires level == 1 ==>
                 s < |words| && words[s].ids != []
                 && PartDone(words, s, start, words[s].ids[0], hs, hn, h2fStart[..], h2fNum[..])
      requires level == 0 ==> s == 0 && HalfDone(words, start, h2fStart[..], h2fNum[..]) && Quick(level1[..], sons)
      ensures Adding(s, start, e, level, sons, ts, path, hs, hn)
    {
      hide SubsetOk, Spelled, PartDone, HalfDone, Quick, Nodes;
    }

    /** What construction has established. */
    ghost predicate Built()
      reads this, h2fStart, h2fNum, level1, f2h
    {
      && Shape() && root == Root(words) && Quick(level1[..], root) && HalfDone(words, |words|, h2fStart[..], h2fNum[..])
      && forall i :: 0 <= i < |words| ==> Named(i, f2h[i])
    }

    ghost predicate Named(i: nat, half: nat)
      requires i < |words|
    {
      Last(HALF_IDS, words[i].ids) > 0 ==> half == Last(HALF_IDS, words[i].ids)
    }

    /** `construct`, for a sorted table. */
    constructor (words: seq<Entry>)
      requires Table(words)
      ensures this.words == words && Built() && shm && ym
      ensures fresh(level1) && fresh(h2fStart) && fresh(h2fNum) && fresh(f2h)
    {
      this.words := words;
      shm := true;
      ym := true;
      root := [];
      level1 := new nat[26](i => 0);
      h2fStart := new u16[HALF_IDS](i => 0);
      h2fNum := new u16[HALF_IDS](i => 0);
      f2h := new u16[|words|](i => 0);
      new;
      Fill();
    }

    method Fill()
      requires Shape() && shm && ym && (forall i :: 0 <= i < 26 ==> level1[i] == 0)
        && forall i :: 0 <= i < HALF_IDS ==> h2fStart[i] == h2fNum[i] == 0
      modifies this`root, h2fStart, h2fNum, level1, f2h
      ensures Built()
    {
      hide *;
      hide SpellingTrie.Shape, SpellingTrie.Built, SpellingTrie.Named;
      ShapeGives();
      StartOk(words, level1[..], h2fStart[..], h2fNum[..]);
      var sons := ConstructSubset(0, |words|, 0);
      root := sons;
      RootIs(words);
      RootPath(words);
      ghost var hs, hn := h2fStart[..], h2fNum[..];
      HalfZero(words, |words|, hs, hn);
      h2fStart[0] := 0;
      h2fNum[0] := 0;
      assert h2fStart[..] == hs[0 := 0] && h2fNum[..] == hn[0 := 0];
      BuildF2h();
      BuiltIs();
    }

    lemma BuiltIs()
      requires Shape() && root == Root(words) && Quick(level1[..], root)
        && HalfDone(words, |words|, h2fStart[..], h2fNum[..])
      requires f2h.Length == |words| && forall i :: 0 <= i < |words| ==> Named(i, f2h[i])
      ensures Built()
    {
      hide Table, Root, Quick, HalfDone, SpellingTrie.Named, SpellingTrie.Shape;
    }

    /** `build_f2h`: later half ids overwrite earlier ones. */
    method BuildF2h()
      requires Shape() && h2fStart[0] == 0 && h2fNum[0] == 0
      requires HalfDone(words, |words|, h2fStart[..], h2fNum[..])
      modifies f2h
      ensures HalfDone(words, |words|, h2fStart[..], h2fNum[..]) && forall i :: 0 <= i < |words| ==> Named(i, f2h[i])
    {
      hide Table, HalfDone, Last, Covers;
      ghost var hs, hn := h2fStart[..], h2fNum[..];
      NoneNamed(words);
      var hid := 0;
      while hid < HALF_IDS
        invariant hid <= HALF_IDS
          && forall i :: 0 <= i < |words| && Last(hid, words[i].ids) > 0 ==> f2h[i] as nat == Last(hid, words[i].ids)
      {
        if hid > 0 {
          RangeGives(words, hid, hs, hn);
        }
        ghost var was := f2h[..];
        var fid: nat := h2fStart[hid];
        while fid < h2fStart[hid] as nat + h2fNum[hid] as nat
          invariant h2fStart[hid] as nat <= fid <= h2fStart[hid] as nat + h2fNum[hid] as nat
          invariant forall i ::
                      0 <= i < |words| ==>
                        f2h[i] as nat == if h2fStart[hid] as nat <= SPL_ID_START + i < fid then hid else was[i]
        {
          f2h[fid - SPL_ID_START] := hid;
          fid := fid + 1;
        }
        forall i | 0 <= i < |words| && Last(hid + 1, words[i].ids) > 0
          ensures f2h[i] as nat == Last(hid + 1, words[i].ids)
        {
          LastIs(hid, words[i].ids);
        }
        hid := hid + 1;
      }
    }

    /** `half_to_full`. */
    method HalfToFull(half: nat) returns (start: u16, num: u16)
      requires Built() && half < HALF_IDS
      ensures start == h2fStart[half] && num == h2fNum[half]
      ensures half > 0 ==> RangeUpTo(words, |words|, half, start, num)
    {
      start, num := h2fStart[half], h2fNum[half];
    }

    /** `full_to_half`, for a full id: of the half ids that stand for it, the one that says most. */
    method FullToHalf(full: nat) returns (half: nat)
      requires Built() && full != SPL_ID_START + |words|
      ensures full < SPL_ID_START || full >= SPL_ID_START + |words| ==> half == 0
      ensures SPL_ID_START <= full < SPL_ID_START + |words| && Szm(FirstOf(words, full - SPL_ID_START)) ==>
                && 1 <= half <= 29 && Covers(half, words[full - SPL_ID_START].ids)
                && forall id ::
                     1 <= id <= 29 && Covers(id, words[full - SPL_ID_START].ids) ==> HalfStr(id) <= HalfStr(half)
    {
      if full < SPL_ID_START || full > SPL_ID_START + |words| {
        return 0;
      }
      half := f2h[full - SPL_ID_START];
      hide *;
      BuiltGives();
      assert Named(full - SPL_ID_START, half);
      TableGives(words, full - SPL_ID_START);
      MostSpecific(words[full - SPL_ID_START].ids);
      NamedGives(full - SPL_ID_START, half);
      FirstIs(words, full - SPL_ID_START);
    }

    lemma BuiltGives()
      requires Built()
      ensures Table(words) && f2h.Length == |words| && forall i :: 0 <= i < |words| ==> Named(i, f2h[i])
    {
    }

    lemma NamedGives(i: nat, half: nat)
      requires i < |words| && Named(i, half)
      ensures Last(HALF_IDS, words[i].ids) > 0 ==> half == Last(HALF_IDS, words[i].ids)
    {
    }
  }

  /** The blocks of the letters divide the full ids: every spelling that begins with a Shengmu or Yunmu is in the block
      of exactly one letter, any other in none. */
  lemma LettersPartition(l: seq<Entry>, i: nat, id: nat)
    requires Table(l) && i < |l| && 1 <= id <= 29 && !IsPart(id)
    ensures l[i].ids != [] && Upper(l[i].ids[0])
      && (Covers(id, l[i].ids) <==> Szm(l[i].ids[0]) && id == HalfOf(l[i].ids[0]))
  {
    TableGives(l, i);
    CoversIs(id, l[i].ids);
    HalfIdsDiffer(l[i].ids[0], LetterOf(id));
  }

  /** Looking up the range of a half id is looking up the full ids that begin like it. */
  lemma HalfIdIsRange(l: seq<Entry>, hs: seq<u16>, hn: seq<u16>, id: nat, x: u16)
    requires HalfDone(l, |l|, hs, hn) && 1 <= id <= 29
    ensures |hs| == |hn| == HALF_IDS
    ensures InRange(x, Range(hs[id], hn[id])) <==>
              SPL_ID_START <= x as nat < SPL_ID_START + |l| && Covers(id, l[x as nat - SPL_ID_START].ids)
  {
    RangeGives(l, id, hs, hn);
    hide Covers, HalfDone;
    if SPL_ID_START <= x as nat < SPL_ID_START + |l| {
      var i: nat := x as nat - SPL_ID_START;
      assert Covers(id, l[i].ids) <==> hs[id] as nat <= SPL_ID_START + i < hs[id] as nat + hn[id] as nat;
    }
  }

  function FirstOf(l: seq<Entry>, i: nat): (c: u16)
    requires i < |l|
  {
    if l[i].ids == [] then 0 else l[i].ids[0]
  }

  lemma FirstIs(l: seq<Entry>, i: nat)
    requires i < |l| && l[i].ids != []
    ensures FirstOf(l, i) == l[i].ids[0]
  {
  }

  /** The last half id before k that stands for the spelling. */
  function Last(k: nat, w: seq<u16>): (id: nat)
    requires k <= HALF_IDS
    ensures id < k || id == 0
    ensures id > 0 ==> Covers(id, w)
    ensures forall j :: id < j < k ==> !Covers(j, w)
  {
    if k <= 1 then 0 else if Covers(k - 1, w) then k - 1 else Last(k - 1, w)
  }

  lemma LastIs(k: nat, w: seq<u16>)
    requires k < HALF_IDS
    ensures Last(k + 1, w) == if k > 0 && Covers(k, w) then k else Last(k, w)
  {
  }

  lemma NoneNamed(l: seq<Entry>)
    ensures forall i :: 0 <= i < |l| ==> Last(0, l[i].ids) == 0
  {
  }

  lemma RangeGives(l: seq<Entry>, id: nat, hs: seq<u16>, hn: seq<u16>)
    requires HalfDone(l, |l|, hs, hn) && 1 <= id <= 29
    ensures |hs| == |hn| == HALF_IDS && RangeUpTo(l, |l|, id, hs[id], hn[id])
    ensures forall i ::
              0 <= i < |l| ==>
                (Covers(id, l[i].ids) <==> hs[id] as nat <= SPL_ID_START + i < hs[id] as nat + hn[id] as nat)
    ensures hn[id] > 0 ==> SPL_ID_START <= hs[id] as nat && hs[id] as nat + hn[id] as nat <= SPL_ID_START + |l|
    ensures hn[id] == 0 ==> hs[id] == 0
  {
    hide Covers;
  }

  /** For a spelling that begins with a Shengmu or Yunmu the last half id is that of its letter, or of Ch, Sh, Zh. */
  lemma MostSpecific(w: seq<u16>)
    requires w != [] && Upper(w[0])
    ensures Szm(w[0]) ==> 1 <= Last(HALF_IDS, w) <= 29 && Covers(Last(HALF_IDS, w), w)
    ensures Szm(w[0]) ==> forall id :: 1 <= id <= 29 && Covers(id, w) ==> HalfStr(id) <= HalfStr(Last(HALF_IDS, w))
  {
    if Szm(w[0]) {
      HalfIdsDiffer(w[0], w[0]);
      CoversIs(HalfOf(w[0]), w);
      var r := Last(HALF_IDS, w);
      assert r >= HalfOf(w[0]);
      CoversIs(r, w);
      forall id | 1 <= id <= 29 && Covers(id, w) ensures HalfStr(id) <= HalfStr(r) {
        CoversIs(id, w);
      }
    }
  }

  lemma StartOk(l: seq<Entry>, q: seq<nat>, hs: seq<u16>, hn: seq<u16>)
    requires Table(l) && |q| == 26 && |hs| == |hn| == HALF_IDS && (forall i :: 0 <= i < 26 ==> q[i] == 0)
      && forall i :: 0 <= i < HALF_IDS ==> hs[i] == hn[i] == 0
    ensures 0 < |l| && SubsetOk(l, 0, |l|, 0) && Shared(l, 0, |l|, 0) && Quick(q, []) && HalfDone(l, 0, hs, hn)
  {
    forall i | 0 <= i < |l| ensures 0 < |l[i].ids| {
    }
  }

  lemma HalfZero(l: seq<Entry>, n: nat, hs: seq<u16>, hn: seq<u16>)
    requires HalfDone(l, n, hs, hn)
    ensures |hs| == |hn| == HALF_IDS && HalfDone(l, n, hs[0 := 0], hn[0 := 0])
  {
    hide RangeUpTo;
  }

  lemma RootPath(l: seq<Entry>)
    requires Table(l)
    ensures |l| > 0 && l[0].ids[..0] == []
  {
  }

  lemma SharedGives(l: seq<Entry>, s: nat, e: nat, level: nat)
    requires Shared(l, s, e, level)
    ensures s < e <= |l| && level < |l[s].ids|
  {
  }

  lemma Endable(l: seq<Entry>, start: nat, level: nat)
    requires Table(l) && start < |l| && level < |l[start].ids|
    ensures SplAt(l[start], level + 1) == 0 <==> |l[start].ids| == level + 1
  {
    hide Tidy, Sorted, Slice;
    if level + 1 < |l[start].ids| {
      TableGives(l, start);
    }
  }

  lemma NoMoreNodes(l: seq<Entry>, s: nat, m: nat, level: nat, path: seq<u16>)
    requires SubsetOk(l, s, m, level) && s == m
    ensures Spelled(Nodes(l, s, m, level), path) == []
  {
    NothingBuilt(l, s, level);
  }

  lemma SameStart(l: seq<Entry>, start: nat, m: nat, level: nat, k: nat, e: nat)
    requires start <= k < m <= e && Shared(l, start, e, level)
      && forall i :: start <= i < m ==> l[i].ids[level] == l[start].ids[level]
    ensures level < |l[k].ids| && l[k].ids[..level + 1] == l[start].ids[..level + 1]
  {
    PrefixSnoc(l[k].ids, level);
    PrefixSnoc(l[start].ids, level);
  }

  /** The id of the node. */
  lemma IdxIs(w: seq<u16>, level: nat, h: nat, start: nat, half: nat, idx: nat, szm: bool)
    requires level < |w| && h <= 1 && Upper(w[0]) && (level == 0 ==> (szm <==> Szm(w[0])))
    requires half ==
               if level == 0 && szm then
                 HalfOf(w[level])
               else if level == 1 && w[level] == LOWER_H && Zcs(w[0]) then PartOf(w[0]) else 0
    requires idx == if half > 0 then half else if h == 1 then SPL_ID_START + start else 0
    ensures idx == NodeIdx(w[..level + 1], if h == 1 then [start] else [])
  {
  }

  lemma FirstChars(l: seq<Entry>, start: nat, m: nat, h: nat, s: nat, e: nat)
    requires Passed(l, s, start, e, 0) && s == 0 && start < m <= e <= |l| && h <= 1 && start + h <= m
      && (h == 1 ==> |l[start].ids| == 1)
    requires forall i :: start <= i < m ==> l[i].ids[0] == l[start].ids[0]
    ensures forall i :: 0 <= i < start ==> l[i].ids != [] && l[i].ids[0] != l[start].ids[0]
    ensures forall i ::
              start <= i < m ==> l[i].ids != [] && l[i].ids[0] == l[start].ids[0] && (i < start + h ==> |l[i].ids| == 1)
  {
  }

  lemma SecondChars(l: seq<Entry>, s: nat, start: nat, m: nat, e: nat)
    requires Passed(l, s, start, e, 1) && s <= start < m <= e <= |l| && Shared(l, s, e, 1)
    requires forall i :: start <= i < m ==> l[i].ids[1] == l[start].ids[1]
    ensures forall i :: s <= i < start ==> |l[i].ids| > 1 && l[i].ids[1] < l[start].ids[1]
    ensures forall i :: start <= i < m ==> |l[i].ids| > 1 && l[i].ids[1] == l[start].ids[1]
    ensures l[start].ids[0] == l[s].ids[0]
  {
    assert l[start].ids[..1][0] == l[s].ids[..1][0];
  }
}
