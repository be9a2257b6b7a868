/** The decoder put together: the spelling trie and the built dictionary give what the search of the best sentence
    needs. */
module DecoderParts {
  import opened Bytes
  import opened LemmaTrie
  import opened TrieNodes
  import opened TrieWalk
  import opened DictBuilding
  import opened SystemDictionary
  import opened BuiltDictionary
  import opened Segmentation
  import opened SpellingNodes
  import opened SpellingTries
  import opened SpellingParsing
  import LatticeRow
  import opened WordLookup
  import opened PinyinDecoder
  import Lattice
  import LatticeSteps
  import LatticePaths
  import BestSentence
  import Traceback

  // ---- The parser and the half ids, as the decoder asks them ----

  function Wide(s: seq<u8>): (w: seq<u16>)
    ensures |w| == |s|
  {
    seq(|s|, i requires 0 <= i < |s| => s[i] as u16)
  }

  /** `get_splid_by_str`, and whether the parser says that the string goes on. */
  function ParseChars(root: seq<SplNode>, mode: Mode, s: seq<u8>): (r: (u16, bool))
    requires |mode.starts| == HALF_IDS
  {
    var id := StrId(root, mode, Wide(s));
    (if id < 0x1_0000 then id else 0, StrPre(root, mode, Wide(s)))
  }

  /** What lies outside, with the parser of this trie. */
  function GivensOf(root: seq<SplNode>, mode: Mode, user: (seq<u16>, nat) -> UserAnswer,
    order: seq<LatticeRow.LmaItem> -> seq<LatticeRow.LmaItem>): (g: Givens)
    requires |mode.starts| == HALF_IDS
  {
    Givens((s: seq<u8>) => ParseChars(root, mode, s), (id: u16) => 0 < id as nat < SPL_ID_START,
      (c: u8) => Letter(c as u16), user, order)
  }

  /** The ranges of the half ids; a full id stands for itself. */
  function HalvesOf(hs: seq<u16>, hn: seq<u16>): (h: HalfIds)
    requires |hs| == |hn| == HALF_IDS
  {
    HalfIds((id: u16) => if 0 < id as nat < SPL_ID_START then Range(hs[id], hn[id]) else Range(id, 1),
      (id: u16) => HalfYunmu(id as nat))
  }

  /** No half id stands for more spellings than a mark of a milestone can count. */
  ghost predicate Narrow(l: seq<Entry>) {
    forall id, i, j ::
      1 <= id <= 29 && 0 <= i <= j < |l| && Covers(id, l[i].ids) && Covers(id, l[j].ids) ==> j - i < 0xFF
  }

  // ---- What the parser and the half ids of the decoder are, by the table of spellings ----

  /** A string is read as the longest beginning of a spelling; each complete spelling has its full id, but for the
      single letters and Ch, Sh, Zh, which have their half ids; a half id stands for the spellings that begin like it.
      */
  ghost predicate ReadsTable(l: seq<Entry>, w: Words) {
    && (forall s: seq<u8> :: WholeAs(l, true, true, Wide(s), w.given.parse(s).0 as nat, w.given.parse(s).1))
    && (forall s: seq<u8>, i: nat :: i < |l| && Folded(Wide(s)) == Folded(l[i].ids) ==>
          w.given.parse(s).1 && w.given.parse(s).0 as nat == IdOf(l[i].ids, i))
    && (forall id: u16 :: w.given.half(id) <==> 0 < id as nat < 30)
    && (forall c: u8 :: w.given.letter(c) <==> 65 <= c as nat <= 90 || 97 <= c as nat <= 122)
    && (forall id: nat, i: nat :: 1 <= id <= 29 && i < |l| && 30 + i < 0x1_0000 ==>
          (InRange((30 + i) as u16, w.spl.expand(id as u16)) <==> Covers(id, l[i].ids)))
    && (forall id: u16 :: id as nat >= 30 ==> w.spl.expand(id) == Range(id, 1))
    && (forall id: u16 :: w.spl.yunmu(id) <==> id as nat == 1 || id as nat == 6 || id as nat == 16)
  }

  /** The id of a spelling: a half id for a Shengmu or Yunmu alone and for Ch, Sh, Zh. */
  function IdOf(w: seq<u16>, i: nat): (id: nat) {
    if |w| == 1 && Szm(w[0]) then HalfOf(w[0])
    else if |w| == 2 && Zcs(w[0]) && w[1] == LOWER_H then PartOf(w[0])
    else 30 + i
  }

  // ---- Every id that the parser gives stands for full ids ----

  /** The node where a walk ends has spellings below it, so its half id has a range. */
  lemma WalkSpeaks(l: seq<Entry>, mode: Mode, hn: seq<u16>, s: seq<u16>)
    requires Table(l) && HalfDone(l, |l|, mode.starts, hn) && (mode.ym || YunmusSpelled(l, mode.starts))
    ensures |hn| == |mode.starts| == HALF_IDS
    ensures var id := ValidId(mode, Walk(Root(l), 0, s).1);
            id > 0 ==> id < SPL_ID_START + |l| && (id < SPL_ID_START ==> hn[id] > 0)
  {
    hide *;
    RootOk(l);
    FirstIdsOk(l);
    WalkSpells(l, Root(l), [], 0, s);
    HalvesGive(l, mode.starts, hn);
    IdSpeaks(l, mode, hn, Walk(Root(l), 0, s).1);
  }

  lemma FirstIdsOk(l: seq<Entry>)
    ensures 0 < SPL_ID_START
  {
  }

  lemma HalvesGive(l: seq<Entry>, hs: seq<u16>, hn: seq<u16>)
    requires HalfDone(l, |l|, hs, hn)
    ensures |hs| == |hn| == HALF_IDS
  {
  }

  lemma IdSpeaks(l: seq<Entry>, mode: Mode, hn: seq<u16>, idx: nat)
    requires HalfDone(l, |l|, mode.starts, hn) && (mode.ym || YunmusSpelled(l, mode.starts)) && idx < SPL_ID_START + |l|
    requires (idx > 0 ==> Begun(l, SpellingStr(l, idx))) && (0 < idx < SPL_ID_START ==> Szm(LetterOf(idx)))
    ensures |hn| == |mode.starts| == HALF_IDS
    ensures var id := ValidId(mode, idx); id > 0 ==> id < SPL_ID_START + |l| && (id < SPL_ID_START ==> hn[id] > 0)
  {
    ValidSpells(l, mode, idx);
    if 0 < idx < SPL_ID_START {
      RangeGives(l, idx, mode.starts, hn);
      var i :| 0 <= i < |l| && SpellingStr(l, idx) <= l[i].ids;
      assert Covers(idx, l[i].ids);
      hide HalfDone, Covers, RangeUpTo;
      if !mode.ym && HalfYunmu(idx) {
        assert SPL_ID_START <= mode.starts[idx] as nat;
      }
    }
  }

  lemma ParseSpeaks(l: seq<Entry>, mode: Mode, hn: seq<u16>, s: seq<u16>)
    requires Table(l) && HalfDone(l, |l|, mode.starts, hn) && (mode.ym || YunmusSpelled(l, mode.starts))
    ensures |hn| == |mode.starts| == HALF_IDS
    ensures var id := StrId(Root(l), mode, s); id > 0 ==> id < SPL_ID_START + |l| && (id < SPL_ID_START ==> hn[id] > 0)
  {
    WalkSpeaks(l, mode, hn, s);
    hide HalfDone, Table, YunmusSpelled;
    if s != [] && Letter(s[0]) {
      ParseIs(Root(l), mode, s, 0, false, 2);
      assert s[0..] == s;
      hide Parse, Walk, ValidId;
    }
  }

  lemma HalfIsRange(l: seq<Entry>, hs: seq<u16>, hn: seq<u16>, id: nat)
    requires HalfDone(l, |l|, hs, hn) && Narrow(l) && 1 <= id <= 29
    ensures |hs| == |hn| == HALF_IDS
    ensures hn[id] > 0 ==>
              hn[id] < 0x100 && SPL_ID_START <= hs[id] as nat && hs[id] as nat + hn[id] as nat <= SPL_ID_START + |l|
  {
    RangeGives(l, id, hs, hn);
    hide Covers, HalfDone, RangeUpTo;
    if hn[id] > 0 {
      var i: nat, j: nat := hs[id] as nat - SPL_ID_START, hs[id] as nat + hn[id] as nat - 1 - SPL_ID_START;
      assert Covers(id, l[i].ids) && Covers(id, l[j].ids);
    }
  }

  /** The parser of the table and the dictionary over the same spellings speak the same language. */
  lemma PartsFit(l: seq<Entry>, mode: Mode, hn: seq<u16>, trie: seq<Trie>, uniPsb: nat -> u16,
                 user: (seq<u16>, nat) -> UserAnswer, order: seq<LatticeRow.LmaItem> -> seq<LatticeRow.LmaItem>)
    requires Table(l) && HalfDone(l, |l|, mode.starts, hn) && (mode.ym || YunmusSpelled(l, mode.starts)) && Narrow(l)
    requires |trie| == |l| && |hn| == |mode.starts| == HALF_IDS && GivensOf(Root(l), mode, user, order).Sorts()
    ensures Words(GivensOf(Root(l), mode, user, order), HalvesOf(mode.starts, hn), trie, uniPsb).Valid()
  {
    var w := Words(GivensOf(Root(l), mode, user, order), HalvesOf(mode.starts, hn), trie, uniPsb);
    forall s: seq<u8> | w.given.parse(s).0 > 0 ensures w.Speaks(w.given.parse(s).0) {
      ParseSpeaks(l, mode, hn, Wide(s));
      var id := w.given.parse(s).0;
      IdRange(l, mode, hn, id);
      hide HalfDone, Table, YunmusSpelled, Narrow, StrId, Parse;
    }
  }

  lemma IdRange(l: seq<Entry>, mode: Mode, hn: seq<u16>, id: u16)
    requires HalfDone(l, |l|, mode.starts, hn) && Narrow(l) && |hn| == |mode.starts| == HALF_IDS
      && 0 < id as nat < SPL_ID_START + |l|
    requires id as nat < SPL_ID_START ==> hn[id] > 0
    ensures var r := HalvesOf(mode.starts, hn).expand(id);
            0 < r.num < 0x100 && SPL_ID_START <= r.start as nat && r.start as nat + r.num <= SPL_ID_START + |l|
  {
    if id as nat < SPL_ID_START {
      HalfIsRange(l, mode.starts, hn, id);
    }
  }

  // ---- What it reads ----

  lemma SpellingId(l: seq<Entry>, s: seq<u16>, i: nat, id: nat, pre: bool)
    requires Table(l) && i < |l| && Folded(s) == Folded(l[i].ids) && WholeAs(l, true, true, s, id, pre)
    ensures pre && id == IdOf(l[i].ids, i)
  {
    hide *;
    SpelledLetters(l, s, i);
    WholeLongest(l, s);
    WholeIs(l, true, true, s, id, pre, |s|);
    assert s[..|s|] == s;
    SpellingReads(l, s, i, id);
  }

  lemma SpelledLetters(l: seq<Entry>, s: seq<u16>, i: nat)
    requires Table(l) && i < |l| && Folded(s) == Folded(l[i].ids)
    ensures s != [] && Letter(s[0]) && Segmentation.Begins(l, s) && forall k :: 0 <= k < |s| ==> Letter(s[k])
  {
    hide SubsetOk;
    var v := l[i].ids;
    assert |Folded(s)| == |Folded(v)| == |s| == |v|;
    forall k | 0 <= k < |s|
      ensures Letter(s[k])
    {
      assert Folded(s)[k] == Folded(v)[k] && TidyAt(v, k);
    }
    assert v[..|s|] == v;
    assert StartsLike(v, s);
  }

  lemma SpellingReads(l: seq<Entry>, s: seq<u16>, i: nat, id: nat)
    requires Table(l) && i < |l| && Folded(s) == Folded(l[i].ids) && ReadAs(l, true, true, s, id)
    ensures id == IdOf(l[i].ids, i)
  {
    hide SubsetOk;
    var v := l[i].ids;
    assert |Folded(s)| == |Folded(v)| == |s| == |v| && Tidy(v);
    TidyFolds(v, s);
    hide Tidy;
    assert SpelledAs(l, Folded(s), i);
    if id >= SPL_ID_START && SpelledAs(l, Folded(s), id - SPL_ID_START) {
      TableTidy(l, i);
      TableTidy(l, id - SPL_ID_START);
      TidyFold(l[id - SPL_ID_START].ids, v);
      SameSpelling(l, id - SPL_ID_START, i);
    }
  }

  lemma TableTidy(l: seq<Entry>, i: nat)
    requires Table(l) && i < |l|
    ensures Tidy(l[i].ids)
  {
    hide Tidy, SubsetOk;
  }

  lemma PartsRead(l: seq<Entry>, mode: Mode, hn: seq<u16>, trie: seq<Trie>, uniPsb: nat -> u16,
    user: (seq<u16>, nat) -> UserAnswer, order: seq<LatticeRow.LmaItem> -> seq<LatticeRow.LmaItem>)
    requires Table(l) && HalfDone(l, |l|, mode.starts, hn) && mode.shm && mode.ym && |hn| == |mode.starts| == HALF_IDS
    ensures ReadsTable(l, Words(GivensOf(Root(l), mode, user, order), HalvesOf(mode.starts, hn), trie, uniPsb))
  {
    var w := Words(GivensOf(Root(l), mode, user, order), HalvesOf(mode.starts, hn), trie, uniPsb);
    forall s: seq<u8>
      ensures WholeAs(l, true, true, Wide(s), w.given.parse(s).0 as nat, w.given.parse(s).1)
    {
      CharsRead(l, mode, hn, s);
    }
    forall s: seq<u8>, i: nat | i < |l| && Folded(Wide(s)) == Folded(l[i].ids)
      ensures w.given.parse(s).1 && w.given.parse(s).0 as nat == IdOf(l[i].ids, i)
    {
      CharsRead(l, mode, hn, s);
      SpellingId(l, Wide(s), i, w.given.parse(s).0 as nat, w.given.parse(s).1);
    }
    forall id: nat, i: nat | 1 <= id <= 29 && i < |l| && 30 + i < 0x1_0000
      ensures InRange((30 + i) as u16, w.spl.expand(id as u16)) <==> Covers(id, l[i].ids)
    {
      RangeGives(l, id, mode.starts, hn);
    }
    hide Table, HalfDone, WholeAs, Covers, ParseChars, IdOf;
    forall id: u16
      ensures w.spl.yunmu(id) <==> id as nat == 1 || id as nat == 6 || id as nat == 16
    {
      YunmuIds(id as nat);
    }
  }

  lemma YunmuIds(id: nat)
    ensures HalfYunmu(id) <==> id == 1 || id == 6 || id == 16
  {
  }

  lemma CharsRead(l: seq<Entry>, mode: Mode, hn: seq<u16>, s: seq<u8>)
    requires Table(l) && HalfDone(l, |l|, mode.starts, hn) && mode.shm && mode.ym && |hn| == |mode.starts| == HALF_IDS
    ensures var r := ParseChars(Root(l), mode, s); WholeAs(l, true, true, Wide(s), r.0 as nat, r.1)
  {
    StrIsWhole(l, mode, hn, Wide(s));
    ParseSpeaks(l, mode, hn, Wide(s));
    assert SPL_ID_START + |l| < 0x800;
    hide Table, HalfDone, WholeAs, StrId, StrPre;
  }

  // ---- What it finds ----

  /** The lemmas that the lattice is offered for some spelling ids are those of the lemma array that match them, in the
      order of the array, but for the one-letter Yunmus. */
  lemma FindsTheArray(w: Words, lemmas: seq<Entry>, ids: seq<u16>)
    requires SubsetOk(lemmas, 0, |lemmas|, 0) && w.trie == Nodes(lemmas, 0, |lemmas|, 0)
    requires ids != [] && !(|ids| == 1 && w.spl.yunmu(ids[0]))
    ensures w.System(ids) == Shown(Take(Lpis(Matching(lemmas, w.spl.Ranges(ids)), |ids|, w.uniPsb), MAX_LMA_PSB_ITEMS))
  {
    w.SystemIsFilter(ids);
    ListsEntries(lemmas);
    FilterIsMatching(lemmas, 0, w.spl.Ranges(ids));
    assert lemmas[0..] == lemmas;
  }

  /** A full spelling with which some lemma of the array is written alone has items: a row where it can start leads to
      one where it ends. */
  lemma SpellingHasItems(w: Words, lemmas: seq<Entry>, table: seq<Entry>, id: u16, j: nat)
    requires SubsetOk(lemmas, 0, |lemmas|, 0) && w.trie == Nodes(lemmas, 0, |lemmas|, 0) && w.given.Sorts()
    requires ReadsTable(table, w) && id as nat >= 30 && j < |lemmas| && lemmas[j].ids == [id]
    ensures w.Items([id]) != []
  {
    FullStands(table, w, id);
    hide *;
    FindsTheArray(w, lemmas, [id]);
    RangesOf(w.spl, id);
    MatchingHas(lemmas, [Range(id, 1)], j);
    SomeShown(Matching(lemmas, [Range(id, 1)]), w.uniPsb);
    ItemsKept(w, id);
  }

  lemma FullStands(table: seq<Entry>, w: Words, id: u16)
    requires ReadsTable(table, w) && id as nat >= 30
    ensures w.spl.expand(id) == Range(id, 1) && !w.spl.yunmu(id) && !w.given.half(id)
  {
    hide WholeAs, Folded, IdOf, Covers;
  }

  lemma RangesOf(spl: HalfIds, id: u16)
    ensures spl.Ranges([id]) == [spl.expand(id)]
  {
  }

  lemma {:induction false} MatchingHas(l: seq<Entry>, q: seq<Range>, j: nat)
    requires j < |l| && |q| == 1 && |l[j].ids| == 1 && InRange(l[j].ids[0], q[0])
    ensures Matching(l, q) != []
  {
    if j > 0 {
      MatchingHas(l[1..], q, j - 1);
    }
  }

  lemma SomeShown(ids: seq<nat>, uniPsb: nat -> u16)
    requires ids != []
    ensures Shown(Take(Lpis(ids, 1, uniPsb), MAX_LMA_PSB_ITEMS)) != []
  {
  }

  lemma ItemsKept(w: Words, id: u16)
    requires w.given.Sorts() && !w.given.half(id) && w.System([id]) != []
    ensures w.Items([id]) != []
  {
    hide Words.System, Words.User;
    var all := w.System([id]) + w.User([id]);
    assert |w.given.order(all)| == |multiset(w.given.order(all))| == |multiset(all)| == |all|;
  }

  /** A decoder over the spelling trie of a table and the dictionary built from a lemma array: everything the search of
      the best sentence asks of its parts holds of them. */
  method NewDecoder(b: DictBuilder, tops: seq<nat>, table: seq<Entry>, uniPsb: nat -> u16,
    user: (seq<u16>, nat) -> UserAnswer, order: seq<LatticeRow.LmaItem> -> seq<LatticeRow.LmaItem>, xiAn: bool)
    returns (m: MatrixSearch)
    requires b.Empty() && SubsetOk(b.lemmas, 0, |b.lemmas|, 0) && EveryIdBegins(b.lemmas, |table|) && b.lemmas != []
    requires RoomFor(Nodes(b.lemmas, 0, |b.lemmas|, 0), b.le0.Length, b.ge1.Length, b.homos.Length)
    requires (forall k :: 0 <= k < |b.lemmas| ==> b.lemmas[k].id < OFFSET_RANGE)
      && forall k :: 0 <= k < |tops| ==> tops[k] < OFFSET_RANGE
    requires Table(table) && Narrow(table)
    requires forall s :: LatticeRow.SortedItems(order(s)) && multiset(order(s)) == multiset(s)
    modifies b`le0Used, b.le0, b.ge1, b.homos, b`ge1Used, b`homoEq1, b`homoGt1
    ensures m.Valid() && m.Linked() && m.Buffers() && m.fixedHzs == 0 && m.Shape()
      && m.View(m.nodeUsed) == LatticeSteps.EMPTY
    ensures m.words.trie == Nodes(b.lemmas, 0, |b.lemmas|, 0) && m.words.uniPsb == uniPsb && m.lex == m.words.Lex()
      && m.words.Valid()
    ensures ReadsTable(table, m.words) && m.words.given.user == user && m.words.given.order == order
    ensures exists mode: Mode, hn ::
              HalfDone(table, |table|, mode.starts, hn) && |hn| == |mode.starts| == HALF_IDS && mode.shm && mode.ym
              && m.words.given == GivensOf(Root(table), mode, user, order)
              && m.words.spl == HalvesOf(mode.starts, hn)
  {
    hide *;
    hide DictBuilder.Empty, DictTrie.Loaded, DictTrie.Standing, MatrixSearch.Valid, MatrixSearch.Linked,
      MatrixSearch.Buffers, MatrixSearch.Shape,
         SpellingTrie.Built, Words.Valid;
    ghost var l, ts := b.lemmas, Nodes(b.lemmas, 0, |b.lemmas|, 0);
    SizesOk(ts, b.le0.Length, b.ge1.Length, b.homos.Length);
    var ok, root, nodes, buf := b.BuildDict(tops);
    BuiltIsRead(l, |table|, root, nodes, buf[..]);
    DenseLayer(l, |table|);
    var t := new SpellingTrie(table);
    TrieGives(t);
    var mode := Mode(t.shm, t.ym, t.h2fStart[..]);
    var given, halves := GivensOf(t.root, mode, user, order), HalvesOf(t.h2fStart[..], t.h2fNum[..]);
    GivenSorts(t.root, mode, user, order);
    PartsFit(table, mode, t.h2fNum[..], ts, uniPsb, user, order);
    PartsRead(table, mode, t.h2fNum[..], ts, uniPsb, user, order);
    var d := new DictTrie(root, nodes, buf[..], halves, uniPsb, ts);
    m := new MatrixSearch(given, d, xiAn);
    m.ValidFacts();
  }

  lemma TrieGives(t: SpellingTrie)
    requires t.Built()
    ensures |t.h2fStart[..]| == |t.h2fNum[..]| == HALF_IDS && t.root == Root(t.words)
      && HalfDone(t.words, |t.words|, t.h2fStart[..], t.h2fNum[..])
    ensures Table(t.words)
  {
  }

  lemma GivenSorts(root: seq<SplNode>, mode: Mode, user: (seq<u16>, nat) -> UserAnswer,
    order: seq<LatticeRow.LmaItem> -> seq<LatticeRow.LmaItem>)
    requires |mode.starts| == HALF_IDS
      && forall s :: LatticeRow.SortedItems(order(s)) && multiset(order(s)) == multiset(s)
    ensures GivensOf(root, mode, user, order).Sorts()
    ensures GivensOf(root, mode, user, order).user == user && GivensOf(root, mode, user, order).order == order
  {
  }

  /** What is shown first: the lemmas and spellings in the buffers are those of a path through the whole input, and no
      path through the whole input has a smaller total score. */
  method FirstSentence(m: MatrixSearch) returns (ghost best: LatticePaths.Path)
    requires m.Valid() && m.Buffers() && m.fixedHzs == 0 && m.Shape() && 0 < m.pysLen && m.matrix[m.pysLen].ndNum > 0
    modifies m.splStart, m.splId, m.lmaStart, m.lmaId, m`splIdNum, m`lmaIdNum, m`fixedHzs
    ensures m.Valid() && m.Buffers() && m.Shape() && m.View(m.nodeUsed) == old(m.View(m.nodeUsed))
    ensures m.splIdNum <= m.splId.Length && m.lmaIdNum <= m.lmaId.Length
    ensures var l := m.View(m.nodeUsed);
            && LatticePaths.IsPath(m.lex, l, best) && LatticePaths.End(best) == |l.pys|
            && m.lmaId[..m.lmaIdNum] == BestSentence.PathLemmas(m.lex, l, best)
               && m.splId[..m.splIdNum] == BestSentence.PathSpellings(m.lex, l, best)
            && forall p: LatticePaths.Path :: LatticePaths.IsPath(m.lex, l, p) && LatticePaths.End(p) == |l.pys| ==>
                 LatticePaths.Total(m.lex, l, best) <= LatticePaths.Total(m.lex, l, p)
  {
    hide *;
    hide MatrixSearch.Valid, MatrixSearch.Buffers, MatrixSearch.Shape;
    m.ValidFacts();
    m.BuffersFacts();
    ghost var l, n := m.View(m.nodeUsed), m.matrix[m.pysLen].ndPos;
    assert l.rows[m.pysLen] == m.matrix[m.pysLen];
    m.GetSplStartId();
    m.ValidFacts();
    m.BuffersFacts();
    DecodedGives(m.lex, l, n, m.splStart[..m.splIdNum + 1], m.splId[..m.splIdNum], m.lmaStart[..m.lmaIdNum + 1],
      m.lmaId[..m.lmaIdNum]);
    best := BestSentence.FirstSentenceIsBest(m.lex, l);
  }

  lemma DecodedGives(lex: Lattice.Lexicon, l: Lattice.Lat, n: nat, splStart: seq<nat>, splId: seq<nat>,
    lmaStart: seq<nat>, lmaId: seq<nat>)
    requires Traceback.Decoded(lex, l, n, splStart, splId, lmaStart, lmaId)
    ensures splId == Traceback.SplIdsTo(l, n, 0) && lmaId == Traceback.LmaIdsTo(l, n, 0)
  {
  }
}
