/** The parser of spelling strings: greedy, without backtracking. */
module SpellingParsing {
  import opened Bytes
  import opened LemmaTrie
  import opened TrieWalk
  import opened DictBuilding
  import opened Segmentation
  import opened SpellingNodes
  import opened SpellingTries

  /** What decides whether a half id is accepted: the modes, and where the ranges of the half ids start. */
  datatype Mode = Mode(shm: bool, ym: bool, starts: seq<u16>)

  /** `if_valid_id_update`: 0, or the id that the node stands for. */
  function ValidId(mode: Mode, id: nat): (v: nat)
    requires |mode.starts| == HALF_IDS
  {
    if id == 0 || id >= SPL_ID_START || IsPart(id) then id
    else if (Shengmu(LetterOf(id)) && mode.shm) || (Yunmu(LetterOf(id)) && mode.ym) then id
    else if Yunmu(LetterOf(id)) then mode.starts[id] else 0
  }

  /** `is_half_id_yunmu`. */
  predicate HalfYunmu(id: nat) {
    0 < id < SPL_ID_START && !IsPart(id) && Yunmu(LetterOf(id))
  }

  // ---- The segmentation ----

  /** Where the first segment begins, the ids, where the segment after each begins, and whether the end may go on. */
  datatype Parsed = Parsed(begin: nat, ids: seq<nat>, ends: seq<nat>, pre: bool)
  {
    function All(): (ps: seq<nat>) {
      [begin] + ends
    }
  }

  /** Segmentation by longest paths in the trie, at most max of them, from pos on; `split` when a splitter comes before.
      */
  function Parse(root: seq<SplNode>, mode: Mode, s: seq<u16>, pos: nat, split: bool, max: nat): (r: Parsed)
    requires pos <= |s| && max > 0 && |mode.starts| == HALF_IDS
    ensures |r.ids| == |r.ends| <= max
    decreases |s| - pos
  {
    if pos == |s| then Parsed(pos, [], [], !split)
    else if !Letter(s[pos]) then
      if split then Parse(root, mode, s, pos + 1, true, max) else Parsed(pos, [], [], false)
    else
      var w := Walk(root, 0, s[pos..]);
      var id := ValidId(mode, w.1);
      if pos + w.0 == |s| then if id > 0 then Parsed(pos, [id], [pos + w.0], true) else Parsed(pos, [], [], true)
      else if id == 0 || w.0 == 0 then Parsed(pos, [], [], false)
      else
        var next := if Letter(s[pos + w.0]) then pos + w.0 else pos + w.0 + 1;
        if max == 1 then Parsed(pos, [id], [next], false)
        else
          var r := Parse(root, mode, s, next, !Letter(s[pos + w.0]), max - 1);
          Parsed(pos, [id] + r.ids, [r.begin] + r.ends, r.pre)
  }

  /** One segment: letters that spell the id, up to case, and then only splitters. */
  ghost predicate Segment(l: seq<Entry>, s: seq<u16>, id: nat, from: nat, next: nat) {
    && 1 <= id < SPL_ID_START + |l|
    && exists n :: Spells(l, s, id, from, n, next)
  }

  ghost predicate Spells(l: seq<Entry>, s: seq<u16>, id: nat, from: nat, n: nat, next: nat) {
    && n > 0 && from + n <= next <= |s| && 1 <= id < SPL_ID_START + |l|
    && (forall i :: from <= i < from + n ==> Letter(s[i])) && (forall i :: from + n <= i < next ==> !Letter(s[i]))
    && Folded(SpellingStr(l, id)) == Folded(s[from..from + n])
  }

  /** The one-letter Yunmus are spellings of the table, first of their letter. */
  ghost predicate YunmusSpelled(l: seq<Entry>, starts: seq<u16>) {
    |starts| == HALF_IDS
    && forall id: nat ::
         HalfYunmu(id) ==>
           SPL_ID_START <= starts[id] as nat < SPL_ID_START + |l|
           && l[starts[id] as nat - SPL_ID_START].ids == HalfStr(id)
  }

  /** A node's id and the id that is accepted for it spell the same. */
  lemma ValidSpells(l: seq<Entry>, mode: Mode, id: nat)
    requires |mode.starts| == HALF_IDS && (mode.ym || YunmusSpelled(l, mode.starts)) && id < SPL_ID_START + |l|
    ensures var v := ValidId(mode, id);
            v > 0 ==> id > 0 && v < SPL_ID_START + |l| && SpellingStr(l, v) == SpellingStr(l, id)
  {
    if 0 < id < SPL_ID_START && !mode.ym && HalfYunmu(id) {
      assert SPL_ID_START <= mode.starts[id] as nat < SPL_ID_START + |l|;
    }
  }

  lemma ParseIs(root: seq<SplNode>, mode: Mode, s: seq<u16>, pos: nat, split: bool, max: nat)
    requires pos <= |s| && max > 0 && |mode.starts| == HALF_IDS
    ensures Parse(root, mode, s, pos, split, max) ==
            if pos == |s| then Parsed(pos, [], [], !split)
            else if !Letter(s[pos]) then
              if split then Parse(root, mode, s, pos + 1, true, max) else Parsed(pos, [], [], false)
            else
              var w := Walk(root, 0, s[pos..]);
              var id := ValidId(mode, w.1);
              if pos + w.0 == |s| then
                if id > 0 then Parsed(pos, [id], [pos + w.0], true) else Parsed(pos, [], [], true)
              else if id == 0 || w.0 == 0 then Parsed(pos, [], [], false)
              else
                var next := if Letter(s[pos + w.0]) then pos + w.0 else pos + w.0 + 1;
                if max == 1 then Parsed(pos, [id], [next], false)
                else
                  var r := Parse(root, mode, s, next, !Letter(s[pos + w.0]), max - 1);
                  Parsed(pos, [id] + r.ids, [r.begin] + r.ends, r.pre)
  {
    hide Walk, ValidId, Letter;
  }

  lemma WalkNothing(root: seq<SplNode>, s: seq<u16>)
    ensures Walk(root, 0, s).0 == 0 ==> Walk(root, 0, s).1 == 0
  {
  }

  lemma FirstSegment(l: seq<Entry>, root: seq<SplNode>, mode: Mode, s: seq<u16>, pos: nat)
    requires pos < |s| && Right(l, root, []) && |mode.starts| == HALF_IDS && (mode.ym || YunmusSpelled(l, mode.starts))
    ensures var w := Walk(root, 0, s[pos..]); var id := ValidId(mode, w.1);
            id > 0 ==>
              0 < w.0 && pos + w.0 <= |s| && 1 <= id < SPL_ID_START + |l|
              && (forall i :: pos <= i < pos + w.0 ==> Letter(s[i]))
                       && Folded(SpellingStr(l, id)) == Folded(s[pos..pos + w.0])
  {
    hide *;
    var t := s[pos..];
    var w := Walk(root, 0, t);
    StartsAtRoot(l);
    WalkSpells(l, root, [], 0, t);
    WalkNothing(root, t);
    ValidSpells(l, mode, w.1);
    forall i | pos <= i < pos + w.0 ensures Letter(s[i]) {
      assert s[i] == t[i - pos];
    }
    assert [] + t[..w.0] == s[pos..pos + w.0];
    ValidZero(mode);
  }

  lemma StartsAtRoot(l: seq<Entry>)
    ensures SPL_ID_START == 30
  {
  }

  lemma ValidZero(mode: Mode)
    requires |mode.starts| == HALF_IDS
    ensures ValidId(mode, 0) == 0
  {
  }

  lemma NextAt(l: seq<Entry>, s: seq<u16>, id: nat, pos: nat, n: nat, next: nat, end: nat)
    requires n > 0 && pos + n <= next <= end <= |s| && 1 <= id < SPL_ID_START + |l|
      && (forall i :: pos <= i < pos + n ==> Letter(s[i]))
    requires Folded(SpellingStr(l, id)) == Folded(s[pos..pos + n])
    requires (forall i :: pos + n <= i < next ==> !Letter(s[i])) && forall i :: next <= i < end ==> !Letter(s[i])
    ensures Segment(l, s, id, pos, end)
  {
    hide Letter, SpellingStr;
    assert Spells(l, s, id, pos, n, end);
  }

  lemma OneSegment(l: seq<Entry>, s: seq<u16>, id: nat, pos: nat, end: nat, pre: bool)
    requires Segment(l, s, id, pos, end)
    ensures var r := Parsed(pos, [id], [end], pre);
            |r.All()| == 2 && forall k :: 0 <= k < |r.ids| ==> Segment(l, s, r.ids[k], r.All()[k], r.All()[k + 1])
  {
    hide Segment;
  }

  lemma MoreSegments(l: seq<Entry>, s: seq<u16>, id: nat, pos: nat, r: Parsed)
    requires |r.ids| == |r.ends| && Segment(l, s, id, pos, r.begin)
      && forall k :: 0 <= k < |r.ids| ==> Segment(l, s, r.ids[k], r.All()[k], r.All()[k + 1])
    ensures var q := Parsed(pos, [id] + r.ids, [r.begin] + r.ends, r.pre);
            |q.All()| == |r.All()| + 1
            && forall k :: 0 <= k < |q.ids| ==> Segment(l, s, q.ids[k], q.All()[k], q.All()[k + 1])
  {
    hide Segment;
    var q := Parsed(pos, [id] + r.ids, [r.begin] + r.ends, r.pre);
    assert q.All() == [pos] + r.All();
  }

  /** The parser is sound: the segments follow each other, and each id spells its segment. */
  lemma {:induction false} ParseIsSound(l: seq<Entry>, root: seq<SplNode>, mode: Mode, s: seq<u16>, pos: nat,
    split: bool, max: nat)
    requires pos <= |s| && max > 0 && |mode.starts| == HALF_IDS && Right(l, root, [])
      && (mode.ym || YunmusSpelled(l, mode.starts))
    ensures var r := Parse(root, mode, s, pos, split, max);
            && pos <= r.begin <= |s| && (forall i :: pos <= i < r.begin ==> !Letter(s[i]))
            && forall k :: 0 <= k < |r.ids| ==> Segment(l, s, r.ids[k], r.All()[k], r.All()[k + 1])
    decreases |s| - pos
  {
    hide *;
    ParseIs(root, mode, s, pos, split, max);
    if pos < |s| {
      if !Letter(s[pos]) {
        if split {
          ParseIsSound(l, root, mode, s, pos + 1, true, max);
        }
      } else {
        var w := Walk(root, 0, s[pos..]);
        var id := ValidId(mode, w.1);
        FirstSegment(l, root, mode, s, pos);
        WalkNothing(root, s[pos..]);
        ValidZero(mode);
        if id > 0 {
          if pos + w.0 == |s| {
            NextAt(l, s, id, pos, w.0, |s|, |s|);
            OneSegment(l, s, id, pos, |s|, true);
          } else {
            var next := if Letter(s[pos + w.0]) then pos + w.0 else pos + w.0 + 1;
            if max == 1 {
              NextAt(l, s, id, pos, w.0, next, next);
              OneSegment(l, s, id, pos, next, false);
            } else {
              ParseIsSound(l, root, mode, s, next, !Letter(s[pos + w.0]), max - 1);
              var r := Parse(root, mode, s, next, !Letter(s[pos + w.0]), max - 1);
              NextAt(l, s, id, pos, w.0, next, r.begin);
              MoreSegments(l, s, id, pos, r);
            }
          }
        }
      }
    }
  }

  // ---- The segmentation, by the table ----

  /** The id that is accepted for a node is what its letters are read as. */
  lemma ValidReads(l: seq<Entry>, mode: Mode, hn: seq<u16>, w: seq<u16>, idx: nat)
    requires Table(l) && HalfDone(l, |l|, mode.starts, hn) && NumberOf(l, w, idx) && (w != [] ==> Begins(l, w))
    ensures |mode.starts| == HALF_IDS && ReadAs(l, mode.shm, mode.ym, w, ValidId(mode, idx))
  {
    hide SubsetOk, HalfDone;
    HalvesLong(l, mode.starts, hn);
    if |w| == 1 && Szm(Folded(w)[0]) {
      var c := Folded(w)[0];
      HalfIdsDiffer(c, c);
      if Yunmu(c) && !mode.ym {
        var i :| 0 <= i < |l| && StartsLike(l[i].ids, w);
        FirstSpelling(l, w, i);
        YunmuStart(l, c, mode.starts, hn, i);
      }
    } else if |w| == 2 && Zcs(Folded(w)[0]) && Folded(w)[1] == 72 {
      HalfIdsDiffer(Folded(w)[0], Folded(w)[0]);
    }
  }

  lemma HalvesLong(l: seq<Entry>, hs: seq<u16>, hn: seq<u16>)
    requires HalfDone(l, |l|, hs, hn)
    ensures |hs| == |hn| == HALF_IDS == 30
  {
  }

  lemma FirstSpelling(l: seq<Entry>, w: seq<u16>, i: nat)
    requires Table(l) && i < |l| && |w| == 1 && StartsLike(l[i].ids, w)
    ensures l[i].ids != [] && l[i].ids[0] == Folded(w)[0]
  {
    TableGives(l, i);
    assert Folded(l[i].ids[..1])[0] == Folded(w)[0];
  }

  /** The range of a Yunmu starts with the first spelling that begins with it. */
  lemma YunmuStart(l: seq<Entry>, c: u16, hs: seq<u16>, hn: seq<u16>, i: nat)
    requires Table(l) && HalfDone(l, |l|, hs, hn) && Yunmu(c) && i < |l| && l[i].ids != [] && l[i].ids[0] == c
    ensures |hs| == HALF_IDS && hs[HalfOf(c)] as nat >= SPL_ID_START
      && FirstSuch(l, c, hs[HalfOf(c)] as nat - SPL_ID_START)
  {
    hide SubsetOk, Tidy;
    var id := HalfOf(c);
    RangeGives(l, id, hs, hn);
    HalfIdsDiffer(c, c);
    forall j | 0 <= j < |l|
      ensures l[j].ids != [] && (Covers(id, l[j].ids) <==> l[j].ids[0] == c)
    {
      TableGives(l, j);
      CoversIs(id, l[j].ids);
    }
    hide Covers, HalfDone;
    assert Covers(id, l[i].ids);
  }

  /** One step: the longest path, and what it is read as. */
  lemma StepReads(l: seq<Entry>, mode: Mode, hn: seq<u16>, s: seq<u16>, pos: nat)
    requires Table(l) && HalfDone(l, |l|, mode.starts, hn) && pos <= |s|
    ensures |mode.starts| == HALF_IDS
    ensures var w := Walk(Root(l), 0, s[pos..]);
            Longest(l, s, pos, w.0) && ReadAs(l, mode.shm, mode.ym, s[pos..pos + w.0], ValidId(mode, w.1))
  {
    hide *;
    WalkIsLongest(l, s, pos);
    var w := Walk(Root(l), 0, s[pos..]);
    LongestBegins(l, s, pos, w.0);
    ValidReads(l, mode, hn, s[pos..pos + w.0], w.1);
  }

  lemma LongestBegins(l: seq<Entry>, s: seq<u16>, pos: nat, n: nat)
    requires Longest(l, s, pos, n)
    ensures pos + n <= |s| && (s[pos..pos + n] != [] ==> Begins(l, s[pos..pos + n]))
    ensures forall i :: pos <= i < pos + n ==> Letter(s[i])
  {
    hide Begins;
  }

  /** The segmentation from pos on; a splitter comes before, or a letter follows. */
  ghost predicate SegmentedFrom(l: seq<Entry>, mode: Mode, s: seq<u16>, pos: nat, split: bool, max: nat, r: Parsed) {
    && |r.ids| == |r.ends| <= max && pos <= r.begin <= |s|
    && (if split then (forall i :: pos <= i < r.begin ==> !Letter(s[i])) && (r.begin < |s| ==> Letter(s[r.begin]))
        else r.begin == pos)
    && (forall k :: 0 <= k < |r.ids| ==>
          SegmentAt(l, mode.shm, mode.ym, s, r.ids[k], r.All()[k], r.All()[k + 1], k + 1 == max))
    && Ends(l, mode, s, pos, split, max, r)
  }

  /** Why the segmentation ends where it does. */
  ghost predicate Ends(l: seq<Entry>, mode: Mode, s: seq<u16>, pos: nat, split: bool, max: nat, r: Parsed)
    requires |r.ids| == |r.ends|
  {
    var e := r.All()[|r.ids|];
    && e <= |s|
    && if e == |s| then r.pre <==> if s == [] || pos >= |s| then !split else Letter(s[|s| - 1])
       else if |r.ids| == max then !r.pre
       else StuckAt(l, mode.shm, mode.ym, s, e, r.pre)
  }

  lemma {:induction false} ParseSegments(l: seq<Entry>, mode: Mode, hn: seq<u16>, s: seq<u16>, pos: nat, split: bool,
    max: nat)
    requires Table(l) && HalfDone(l, |l|, mode.starts, hn) && pos <= |s| && max > 0 && |mode.starts| == HALF_IDS
    requires split || pos == |s| || Letter(s[pos])
    ensures SegmentedFrom(l, mode, s, pos, split, max, Parse(Root(l), mode, s, pos, split, max))
    decreases |s| - pos
  {
    hide *;
    ParseIs(Root(l), mode, s, pos, split, max);
    if pos == |s| {
      NothingLeft(l, mode, s, split, max);
    } else if !Letter(s[pos]) {
      ParseSegments(l, mode, hn, s, pos + 1, true, max);
      SplitterSkipped(l, mode, s, pos, max, Parse(Root(l), mode, s, pos + 1, true, max));
    } else {
      var w := Walk(Root(l), 0, s[pos..]);
      var id := ValidId(mode, w.1);
      StepReads(l, mode, hn, s, pos);
      WalkNothing(Root(l), s[pos..]);
      ValidZero(mode);
      LongestBegins(l, s, pos, w.0);
      if id == 0 {
        StuckHere(l, mode, s, pos, split, max, w.0);
      } else if pos + w.0 == |s| {
        LastSegment(l, mode, s, pos, split, max, id, w.0, |s|, true);
      } else {
        var next := if Letter(s[pos + w.0]) then pos + w.0 else pos + w.0 + 1;
        if max == 1 {
          LastSegment(l, mode, s, pos, split, max, id, w.0, next, false);
        } else {
          ParseSegments(l, mode, hn, s, next, !Letter(s[pos + w.0]), max - 1);
          FirstOfMore(l, mode, s, pos, split, max, id, w.0, next,
            Parse(Root(l), mode, s, next, !Letter(s[pos + w.0]), max - 1));
        }
      }
    }
  }

  lemma NothingLeft(l: seq<Entry>, mode: Mode, s: seq<u16>, split: bool, max: nat)
    ensures SegmentedFrom(l, mode, s, |s|, split, max, Parsed(|s|, [], [], !split))
  {
  }

  lemma SplitterSkipped(l: seq<Entry>, mode: Mode, s: seq<u16>, pos: nat, max: nat, r: Parsed)
    requires pos < |s| && !Letter(s[pos]) && SegmentedFrom(l, mode, s, pos + 1, true, max, r)
    ensures SegmentedFrom(l, mode, s, pos, true, max, r)
  {
    hide SegmentAt, Letter;
    if pos + 1 == |s| {
      assert r.begin == |s|;
      if |r.ids| > 0 {
        assert SegmentAt(l, mode.shm, mode.ym, s, r.ids[0], r.All()[0], r.All()[0 + 1], 0 + 1 == max);
        SegmentGives(l, mode.shm, mode.ym, s, r.ids[0], |s|, r.All()[1], 1 == max);
      }
    }
  }

  lemma SegmentGives(l: seq<Entry>, shm: bool, ym: bool, s: seq<u16>, id: nat, start: nat, next: nat, last: bool)
    requires SegmentAt(l, shm, ym, s, id, start, next, last)
    ensures start < next <= |s| && Letter(s[start])
  {
    hide ReadAs, Begins;
  }

  lemma StuckHere(l: seq<Entry>, mode: Mode, s: seq<u16>, pos: nat, split: bool, max: nat, n: nat)
    requires pos < |s| && Letter(s[pos]) && max > 0 && Longest(l, s, pos, n)
      && ReadAs(l, mode.shm, mode.ym, s[pos..pos + n], 0)
    ensures SegmentedFrom(l, mode, s, pos, split, max, Parsed(pos, [], [], pos + n == |s|))
  {
    hide ReadAs, Longest, Letter;
    assert Stuck(l, mode.shm, mode.ym, s, pos, pos + n == |s|, n);
  }

  lemma LastSegment(l: seq<Entry>, mode: Mode, s: seq<u16>, pos: nat, split: bool, max: nat, id: nat, n: nat, next: nat,
    pre: bool)
    requires pos < |s| && Letter(s[pos]) && max > 0 && id > 0 && n > 0 && Longest(l, s, pos, n) && pos + n <= |s|
      && ReadAs(l, mode.shm, mode.ym, s[pos..pos + n], id) && forall i :: pos <= i < pos + n ==> Letter(s[i])
    requires if pos + n == |s| then next == |s| && pre
             else max == 1 && !pre && next == if Letter(s[pos + n]) then pos + n else pos + n + 1
    ensures SegmentedFrom(l, mode, s, pos, split, max, Parsed(pos, [id], [next], pre))
  {
    hide ReadAs, Longest, Letter;
    var r := Parsed(pos, [id], [next], pre);
    assert r.All() == [pos, next];
    assert SegmentUpTo(l, mode.shm, mode.ym, s, id, pos, next, 1 == max, n);
  }

  lemma FirstOfMore(l: seq<Entry>, mode: Mode, s: seq<u16>, pos: nat, split: bool, max: nat, id: nat, n: nat, next: nat,
    q: Parsed)
    requires max > 1 && id > 0 && n > 0 && Longest(l, s, pos, n) && pos + n < |s| && Letter(s[pos])
      && ReadAs(l, mode.shm, mode.ym, s[pos..pos + n], id)
    requires next == if Letter(s[pos + n]) then pos + n else pos + n + 1
    requires SegmentedFrom(l, mode, s, next, !Letter(s[pos + n]), max - 1, q)
    ensures SegmentedFrom(l, mode, s, pos, split, max, Parsed(pos, [id] + q.ids, [q.begin] + q.ends, q.pre))
  {
    hide ReadAs, Longest, Letter;
    var r := Parsed(pos, [id] + q.ids, [q.begin] + q.ends, q.pre);
    assert r.All() == [pos] + q.All();
    assert SegmentUpTo(l, mode.shm, mode.ym, s, id, pos, q.begin, false, n);
    forall k | 0 <= k < |r.ids|
      ensures SegmentAt(l, mode.shm, mode.ym, s, r.ids[k], r.All()[k], r.All()[k + 1], k + 1 == max)
    {
      if k > 0 {
        assert SegmentAt(l, mode.shm, mode.ym, s, q.ids[k - 1], q.All()[k - 1], q.All()[k - 1 + 1], k == max - 1);
      }
    }
  }

  /** The segmentation of a string that begins with a letter, said without the trie. */
  lemma ParseIsSegmented(l: seq<Entry>, mode: Mode, hn: seq<u16>, s: seq<u16>, max: nat)
    requires Table(l) && HalfDone(l, |l|, mode.starts, hn) && max > 0 && |mode.starts| == HALF_IDS
      && s != [] && Letter(s[0])
    ensures var r := Parse(Root(l), mode, s, 0, false, max);
            Segmented(l, mode.shm, mode.ym, s, max, r.ids, r.All(), r.pre) && r.begin == 0
  {
    ParseSegments(l, mode, hn, s, 0, false, max);
    hide Parse, Table, HalfDone, SegmentAt, StuckAt;
  }

  // ---- The loop ----

  /** The current segment began at seg, and its path in the trie has come to this node. */
  ghost predicate OnPath(root: seq<SplNode>, s: seq<u16>, seg: nat, split: bool, pos: nat, ns: seq<SplNode>, idx: nat,
    lastIsSplitter: bool) {
    && seg <= pos <= |s|
    && Walk(root, 0, s[seg..]) == (pos - seg + Walk(ns, idx, s[pos..]).0, Walk(ns, idx, s[pos..]).1)
    && (pos > seg ==> Letter(s[seg]) && !lastIsSplitter)
    && (pos == seg ==> ns == root && idx == 0 && lastIsSplitter == split)
  }

  lemma OnPathStart(root: seq<SplNode>, s: seq<u16>, seg: nat, split: bool)
    requires seg <= |s|
    ensures OnPath(root, s, seg, split, seg, root, 0, split)
  {
  }

  lemma OnPathStep(root: seq<SplNode>, s: seq<u16>, seg: nat, split: bool, pos: nat, ns: seq<SplNode>, idx: nat,
    lastIsSplitter: bool)
    requires OnPath(root, s, seg, split, pos, ns, idx, lastIsSplitter) && pos < |s| && Letter(s[pos])
      && SonFor(ns, s[pos]) < |ns|
    ensures var k := SonFor(ns, s[pos]); OnPath(root, s, seg, split, pos + 1, ns[k].sons, ns[k].idx, false)
  {
    assert s[pos..][0] == s[pos] && s[pos..][1..] == s[pos + 1..];
    WalkIs(ns, idx, s[pos..]);
    hide Walk, Letter, SonFor;
  }

  /** The path cannot go on: what the segmentation says then. */
  lemma PathEnds(root: seq<SplNode>, mode: Mode, s: seq<u16>, seg: nat, split: bool, pos: nat, ns: seq<SplNode>,
    idx: nat, lastIsSplitter: bool, max: nat)
    requires OnPath(root, s, seg, split, pos, ns, idx, lastIsSplitter) && |mode.starts| == HALF_IDS && max > 0
    requires pos < |s| ==> !Letter(s[pos]) || SonFor(ns, s[pos]) == |ns|
    ensures var id, r := ValidId(mode, idx), Parse(root, mode, s, seg, split, max);
            && (pos == seg ==> id == 0)
            && (pos == |s| ==>
                  r ==
                    if id > 0 then Parsed(seg, [id], [pos], !lastIsSplitter) else Parsed(seg, [], [], !lastIsSplitter))
            && (pos < |s| && id == 0 && !(lastIsSplitter && !Letter(s[pos])) ==> r == Parsed(seg, [], [], false))
            && (pos < |s| && lastIsSplitter && !Letter(s[pos]) ==>
                  pos == seg && r == Parse(root, mode, s, pos + 1, true, max))
            && (pos < |s| && id > 0 ==>
                  var next := if Letter(s[pos]) then pos else pos + 1;
                  if max == 1 then r == Parsed(seg, [id], [next], false)
                  else var q := Parse(root, mode, s, next, !Letter(s[pos]), max - 1);
                       r == Parsed(seg, [id] + q.ids, [q.begin] + q.ends, q.pre))
  {
    hide *;
    PathFacts(root, s, seg, split, pos, ns, idx, lastIsSplitter);
    ParseIs(root, mode, s, seg, split, max);
    ValidZero(mode);
  }

  lemma PathFacts(root: seq<SplNode>, s: seq<u16>, seg: nat, split: bool, pos: nat, ns: seq<SplNode>, idx: nat,
    lastIsSplitter: bool)
    requires OnPath(root, s, seg, split, pos, ns, idx, lastIsSplitter)
    requires pos < |s| ==> !Letter(s[pos]) || SonFor(ns, s[pos]) == |ns|
    ensures seg <= pos <= |s| && Walk(root, 0, s[seg..]) == (pos - seg, idx)
    ensures pos > seg ==> Letter(s[seg]) && !lastIsSplitter
    ensures pos == seg ==> idx == 0 && lastIsSplitter == split
  {
    hide Walk, Letter, SonFor;
    WalkIs(ns, idx, s[pos..]);
    if pos < |s| {
      assert s[pos..][0] == s[pos];
    }
  }

  /** The ids and starts so far, and what the rest of the segmentation will add, are all of it. */
  ghost predicate Joined(f: Parsed, ids: seq<nat>, starts: seq<nat>, r: Parsed) {
    && |starts| == |ids| + 1 && f.ids == ids + r.ids && f.All() == starts[..|ids|] + r.All() && f.pre == r.pre
  }

  lemma JoinedStart(f: Parsed)
    ensures Joined(f, [], [0], f)
  {
    assert [] + f.ids == f.ids && [0][..0] + f.All() == f.All();
  }

  /** One id emitted. */
  lemma JoinedEmit(f: Parsed, ids: seq<nat>, starts: seq<nat>, seg: nat, id: nat, next: nat, q: Parsed)
    requires Joined(f, ids, starts, Parsed(seg, [id] + q.ids, [q.begin] + q.ends, q.pre)) && starts[|ids|] == seg
    ensures Joined(f, ids + [id], starts + [next], q)
  {
    var r := Parsed(seg, [id] + q.ids, [q.begin] + q.ends, q.pre);
    Assoc(ids, [id], q.ids);
    assert r.All() == [seg] + q.All();
    Assoc(starts[..|ids|], [seg], q.All());
    assert (starts + [next])[..|ids| + 1] == starts[..|ids|] + [seg];
  }

  /** The segmentation is over. */
  lemma JoinedEnd(f: Parsed, ids: seq<nat>, starts: seq<nat>, seg: nat, pre: bool)
    requires Joined(f, ids, starts, Parsed(seg, [], [], pre)) && starts[|ids|] == seg
    ensures f.ids == ids && f.All() == starts && f.pre == pre
  {
    assert ids + [] == ids && starts[..|ids|] + [seg] == starts;
  }

  lemma JoinedLast(f: Parsed, ids: seq<nat>, starts: seq<nat>, seg: nat, id: nat, next: nat, pre: bool)
    requires Joined(f, ids, starts, Parsed(seg, [id], [next], pre)) && starts[|ids|] == seg
    ensures f.ids == ids + [id] && f.All() == starts + [next] && f.pre == pre
  {
    var q := Parsed(next, [], [], pre);
    assert [id] + q.ids == [id] && [q.begin] + q.ends == [next];
    JoinedEmit(f, ids, starts, seg, id, next, q);
    JoinedEnd(f, ids + [id], starts + [next], next, pre);
  }

  lemma JoinedSkip(f: Parsed, ids: seq<nat>, starts: seq<nat>, r: Parsed, pos: nat)
    requires Joined(f, ids, starts, r)
    ensures Joined(f, ids, starts[|ids| := pos], r)
  {
  }

  /** `is_valid_spl_char`, `is_same_spl_char`: the search among the sons of a node. */
  method FindSplSon(ns: seq<SplNode>, c: u16) returns (k: nat)
    ensures k == SonFor(ns, c)
  {
    k := 0;
    while k < |ns| && !Same(ns[k].ch, c)
      invariant k <= |ns| && forall i :: 0 <= i < k ==> !Same(ns[i].ch, c)
    {
      k := k + 1;
    }
  }

  /** The quick index finds what the search would. */
  lemma QuickFinds(level1: seq<nat>, ns: seq<SplNode>, c: u16)
    requires Quick(level1, ns) && Letter(c)
    ensures 65 <= Fold(c) <= 90
      && (if level1[Fold(c) as nat - 65] == 0 then
            SonFor(ns, c) == |ns|
          else SonFor(ns, c) == level1[Fold(c) as nat - 65] - 1)
  {
    var q := level1[Fold(c) as nat - 65];
    forall i | 0 <= i < |ns| ensures Same(ns[i].ch, c) <==> q == i + 1 {
      SameIsFold(ns[i].ch, c);
    }
  }

  /** `if_valid_id_update`. */
  method IfValidIdUpdate(t: SpellingTrie, id: nat) returns (v: nat)
    requires t.Built()
    ensures v == ValidId(Mode(t.shm, t.ym, t.h2fStart[..]), id)
  {
    if id == 0 || id >= SPL_ID_START || IsPart(id) {
      return id;
    }
    var ch := LetterOf(id);
    if t.SzmIsEnabled(ch) {
      return id;
    } else if Yunmu(ch) {
      return t.h2fStart[id];
    }
    return 0;
  }

  /** What the loop keeps. */
  ghost predicate Parsing(root: seq<SplNode>, mode: Mode, s: seq<u16>, max: nat, ids: seq<nat>, starts: seq<nat>,
    seg: nat, split: bool,
                          pos: nat, ns: seq<SplNode>, idx: nat, lastIsSplitter: bool) {
    && |mode.starts| == HALF_IDS && |ids| < max && OnPath(root, s, seg, split, pos, ns, idx, lastIsSplitter)
       && |starts| == |ids| + 1 && starts[|ids|] == seg
    && Joined(Parse(root, mode, s, 0, false, max), ids, starts, Parse(root, mode, s, seg, split, max - |ids|))
  }

  lemma ParsingStart(root: seq<SplNode>, mode: Mode, s: seq<u16>, max: nat)
    requires |mode.starts| == HALF_IDS && max > 0
    ensures Parsing(root, mode, s, max, [], [0], 0, false, 0, root, 0, false)
  {
    hide Parse, Joined, OnPath;
    OnPathStart(root, s, 0, false);
    JoinedStart(Parse(root, mode, s, 0, false, max));
  }

  lemma ParsingSon(root: seq<SplNode>, mode: Mode, s: seq<u16>, max: nat, ids: seq<nat>, starts: seq<nat>,
    seg: nat, split: bool,
                   pos: nat, ns: seq<SplNode>, idx: nat, last: bool)
    requires Parsing(root, mode, s, max, ids, starts, seg, split, pos, ns, idx, last) && pos < |s| && Letter(s[pos])
      && SonFor(ns, s[pos]) < |ns|
    ensures var k := SonFor(ns, s[pos]);
            Parsing(root, mode, s, max, ids, starts, seg, split, pos + 1, ns[k].sons, ns[k].idx, false)
  {
    hide Parse, Joined, OnPath, Letter, SonFor;
    OnPathStep(root, s, seg, split, pos, ns, idx, last);
  }

  /** A node with a valid id where the path ends before the string does: its id is emitted. */
  lemma ParsingEmit(root: seq<SplNode>, mode: Mode, s: seq<u16>, max: nat, ids: seq<nat>, starts: seq<nat>,
    seg: nat, split: bool,
                    pos: nat, ns: seq<SplNode>, idx: nat, last: bool, id: nat)
    requires Parsing(root, mode, s, max, ids, starts, seg, split, pos, ns, idx, last) && pos < |s|
      && (!Letter(s[pos]) || SonFor(ns, s[pos]) == |ns|)
    requires id == ValidId(mode, idx) > 0
    ensures seg < pos
    ensures var next := if Letter(s[pos]) then pos else pos + 1;
            if |ids| + 1 == max then var f := Parse(root, mode, s, 0, false, max);
            f.ids == ids + [id] && f.All() == starts + [next] && !f.pre
            else Parsing(root, mode, s, max, ids + [id], starts + [next], next, !Letter(s[pos]), next, root,
              0, !Letter(s[pos]))
  {
    hide Parse, Joined, Walk, ValidId, Letter, SonFor;
    PathEnds(root, mode, s, seg, split, pos, ns, idx, last, max - |ids|);
    var next := if Letter(s[pos]) then pos else pos + 1;
    var f := Parse(root, mode, s, 0, false, max);
    if |ids| + 1 == max {
      JoinedLast(f, ids, starts, seg, id, next, false);
    } else {
      var q := Parse(root, mode, s, next, !Letter(s[pos]), max - |ids| - 1);
      JoinedEmit(f, ids, starts, seg, id, next, q);
      OnPathStart(root, s, next, !Letter(s[pos]));
    }
  }

  /** Nothing valid where the path ends: a further splitter is skipped, or the parser stops. */
  lemma ParsingStop(root: seq<SplNode>, mode: Mode, s: seq<u16>, max: nat, ids: seq<nat>, starts: seq<nat>,
    seg: nat, split: bool,
                    pos: nat, ns: seq<SplNode>, idx: nat, last: bool)
    requires Parsing(root, mode, s, max, ids, starts, seg, split, pos, ns, idx, last) && pos < |s|
      && (!Letter(s[pos]) || SonFor(ns, s[pos]) == |ns|)
    requires ValidId(mode, idx) == 0
    ensures if last && !Letter(s[pos]) then
              ns == root && idx == 0
              && Parsing(root, mode, s, max, ids, starts[|ids| := pos + 1], pos + 1, true, pos + 1, root, 0, true)
            else var f := Parse(root, mode, s, 0, false, max); f.ids == ids && f.All() == starts && !f.pre
  {
    hide Parse, Joined, Walk, ValidId, Letter, SonFor;
    PathEnds(root, mode, s, seg, split, pos, ns, idx, last, max - |ids|);
    var f := Parse(root, mode, s, 0, false, max);
    if last && !Letter(s[pos]) {
      JoinedSkip(f, ids, starts, Parse(root, mode, s, pos + 1, true, max - |ids|), pos + 1);
      OnPathStart(root, s, pos + 1, true);
    } else {
      JoinedEnd(f, ids, starts, seg, false);
    }
  }

  lemma ParsingEnd(root: seq<SplNode>, mode: Mode, s: seq<u16>, max: nat, ids: seq<nat>, starts: seq<nat>,
    seg: nat, split: bool,
                   pos: nat, ns: seq<SplNode>, idx: nat, last: bool, id: nat)
    requires Parsing(root, mode, s, max, ids, starts, seg, split, pos, ns, idx, last) && pos == |s|
      && id == ValidId(mode, idx)
    ensures var f := Parse(root, mode, s, 0, false, max);
            f.pre == !last
            && if id > 0 then f.ids == ids + [id] && f.All() == starts + [pos] else f.ids == ids && f.All() == starts
  {
    hide Parse, Joined, Walk, ValidId, Letter, SonFor;
    PathEnds(root, mode, s, seg, split, pos, ns, idx, last, max - |ids|);
    var f := Parse(root, mode, s, 0, false, max);
    if id > 0 {
      JoinedLast(f, ids, starts, seg, id, pos, !last);
    } else {
      JoinedEnd(f, ids, starts, seg, !last);
    }
  }

  /** `splstr_to_idxs`: the ids, and where each segment and the rest begin; the flag is cleared before. */
  method SplstrToIdxs(t: SpellingTrie, s: seq<u16>, max: nat) returns (ids: seq<nat>, starts: seq<nat>, lastIsPre: bool)
    requires t.Built()
    ensures max == 0 || s == [] || !Letter(s[0]) ==> ids == [] && !lastIsPre
    ensures max > 0 && s != [] && Letter(s[0]) ==>
              |Mode(t.shm, t.ym, t.h2fStart[..]).starts| == HALF_IDS
              && var r := Parse(t.root, Mode(t.shm, t.ym, t.h2fStart[..]), s, 0, false, max);
                 ids == r.ids && starts == r.All() && lastIsPre == r.pre
    ensures max > 0 && s != [] && Letter(s[0]) ==>
              Segmented(t.words, t.shm, t.ym, s, max, ids, starts, lastIsPre) && starts[0] == 0
  {
    hide *;
    hide SpellingTrie.Built;
    ids, starts, lastIsPre := [], [], false;
    if max == 0 || s == [] || !Letter(s[0]) {
      return;
    }
    ghost var mode := Mode(t.shm, t.ym, t.h2fStart[..]);
    BuiltQuick(t);
    ParseIsSegmented(t.words, mode, t.h2fNum[..], s, max);
    StartsFirst(Parse(t.root, mode, s, 0, false, max));
    starts := [0];
    var ns, idx, strPos, lastIsSplitter := t.root, 0, 0, false;
    ghost var seg, split := 0, false;
    ParsingStart(t.root, mode, s, max);
    while strPos < |s|
      invariant strPos <= |s| && seg <= strPos
        && Parsing(t.root, mode, s, max, ids, starts, seg, split, strPos, ns, idx, lastIsSplitter) && !lastIsPre
      invariant |starts| == |ids| + 1 && |ids| < max && (strPos == 0 ==> ns == t.root)
      decreases |s| - strPos, strPos - seg
    {
      var c := s[strPos];
      if !Letter(c) {
        var id := IfValidIdUpdate(t, idx);
        if id > 0 {
          ParsingEmit(t.root, mode, s, max, ids, starts, seg, split, strPos, ns, idx, lastIsSplitter, id);
          ids := ids + [id];
          strPos := strPos + 1;
          starts := starts + [strPos];
          if |ids| >= max {
            return;
          }
          ns, idx, lastIsSplitter := t.root, 0, true;
          seg, split := strPos, true;
          continue;
        }
        ParsingStop(t.root, mode, s, max, ids, starts, seg, split, strPos, ns, idx, lastIsSplitter);
        if lastIsSplitter {
          strPos := strPos + 1;
          starts := starts[|ids| := strPos];
          seg, split := strPos, true;
          continue;
        }
        return;
      }
      var k: nat;
      if strPos == 0 {
        QuickFinds(t.level1[..], ns, c);
        k := if t.level1[Fold(c) as nat - 65] == 0 then |ns| else t.level1[Fold(c) as nat - 65] - 1;
      } else {
        k := FindSplSon(ns, c);
      }
      SonRange(ns, c);
      if k < |ns| {
        ParsingSon(t.root, mode, s, max, ids, starts, seg, split, strPos, ns, idx, lastIsSplitter);
        idx := ns[k].idx;
        ns := ns[k].sons;
      } else {
        var id := IfValidIdUpdate(t, idx);
        if id == 0 {
          ParsingStop(t.root, mode, s, max, ids, starts, seg, split, strPos, ns, idx, lastIsSplitter);
          return;
        }
        ParsingEmit(t.root, mode, s, max, ids, starts, seg, split, strPos, ns, idx, lastIsSplitter, id);
        ids := ids + [id];
        starts := starts + [strPos];
        if |ids| >= max {
          return;
        }
        ns, idx, lastIsSplitter := t.root, 0, false;
        seg, split := strPos, false;
        continue;
      }
      lastIsSplitter := false;
      strPos := strPos + 1;
    }
    var id := IfValidIdUpdate(t, idx);
    ParsingEnd(t.root, mode, s, max, ids, starts, seg, split, strPos, ns, idx, lastIsSplitter, id);
    if id > 0 {
      ids := ids + [id];
      starts := starts + [strPos];
    }
    lastIsPre := !lastIsSplitter;
  }

  lemma BuiltQuick(t: SpellingTrie)
    requires t.Built()
    ensures Quick(t.level1[..], t.root) && t.level1.Length == 26 && |t.h2fStart[..]| == HALF_IDS
    ensures Table(t.words) && t.root == Root(t.words)
    ensures HalfDone(t.words, |t.words|, t.h2fStart[..], t.h2fNum[..])
  {
  }

  lemma StartsFirst(r: Parsed)
    ensures r.All()[0] == r.begin
  {
  }

  lemma SonRange(ns: seq<SplNode>, c: u16)
    ensures SonFor(ns, c) <= |ns|
  {
  }

  /** `splstr_to_idxs_f`: one-letter Yunmus become the full ids that their ranges start with. */
  method SplstrToIdxsF(t: SpellingTrie, s: seq<u16>, max: nat)
    returns (ids: seq<nat>, starts: seq<nat>, lastIsPre: bool)
    requires t.Built()
    ensures max == 0 || s == [] || !Letter(s[0]) ==> ids == []
    ensures max > 0 && s != [] && Letter(s[0]) ==>
              |Mode(t.shm, t.ym, t.h2fStart[..]).starts| == HALF_IDS
              && var r := Parse(t.root, Mode(t.shm, t.ym, t.h2fStart[..]), s, 0, false, max);
                 && |ids| == |r.ids| && starts == r.All()
                 && (forall k :: 0 <= k < |ids| ==> ids[k] == FullOf(t.h2fStart[..], r.ids[k]))
                 && (lastIsPre <==> r.pre && !(r.ids != [] && HalfYunmu(r.ids[|r.ids| - 1])))
  {
    hide *;
    hide SpellingTrie.Built;
    ids, starts, lastIsPre := SplstrToIdxs(t, s, max);
    ghost var was, pre := ids, lastIsPre;
    BuiltQuick(t);
    var pos := 0;
    while pos < |ids|
      invariant pos <= |ids| == |was| && |t.h2fStart[..]| == HALF_IDS
      invariant forall k :: 0 <= k < |ids| ==> ids[k] == if k < pos then FullOf(t.h2fStart[..], was[k]) else was[k]
      invariant lastIsPre <==> pre && !(pos == |ids| > 0 && HalfYunmu(was[|was| - 1]))
    {
      FullOfIs(t.h2fStart[..], was[pos]);
      if HalfYunmu(ids[pos]) {
        var start, num := t.HalfToFull(ids[pos]);
        ids := ids[pos := start as nat];
        if pos == |ids| - 1 {
          lastIsPre := false;
        }
      }
      pos := pos + 1;
    }
  }

  /** The full id that a one-letter Yunmu stands for. */
  function FullOf(starts: seq<u16>, id: nat): (full: nat)
    requires |starts| == HALF_IDS
  {
    if HalfYunmu(id) then starts[id] else id
  }

  /** A one-letter Yunmu, A, E or O, with the half id 1, 6 or 16, becomes the first full id of its letter; all other ids
      stay. */
  lemma FullIsFirst(l: seq<Entry>, hs: seq<u16>, hn: seq<u16>, id: nat, c: u16, i: nat)
    requires Table(l) && HalfDone(l, |l|, hs, hn) && i < |l| && l[i].ids != [] && l[i].ids[0] == c
    ensures |hs| == HALF_IDS
    ensures (id == 1 && c == 65) || (id == 6 && c == 69) || (id == 16 && c == 79) ==>
              FullOf(hs, id) >= SPL_ID_START && FirstSuch(l, c, FullOf(hs, id) - SPL_ID_START)
    ensures id != 1 && id != 6 && id != 16 ==> FullOf(hs, id) == id
  {
    HalvesLong(l, hs, hn);
    if Yunmu(c) {
      YunmuStart(l, c, hs, hn, i);
    }
  }

  lemma FullOfIs(starts: seq<u16>, id: nat)
    requires |starts| == HALF_IDS
    ensures HalfYunmu(id) ==> 0 < id < HALF_IDS && FullOf(starts, id) == starts[id]
    ensures !HalfYunmu(id) ==> FullOf(starts, id) == id
  {
  }

  /** `get_splid_by_str`: the id if the whole string is one segment, 0 otherwise. */
  function StrId(root: seq<SplNode>, mode: Mode, s: seq<u16>): (id: nat)
    requires |mode.starts| == HALF_IDS
  {
    if s == [] || !Letter(s[0]) then 0
    else
      var r := Parse(root, mode, s, 0, false, 2);
      if |r.ids| == 1 && r.ends[0] == |s| then r.ids[0] else 0
  }

  /** `get_splid_by_str_f`. */
  function StrIdF(root: seq<SplNode>, mode: Mode, s: seq<u16>): (id: nat)
    requires |mode.starts| == HALF_IDS
  {
    FullOf(mode.starts, StrId(root, mode, s))
  }

  /** `get_splid_by_str`, with the flag cleared before. */
  method GetSplidByStr(t: SpellingTrie, s: seq<u16>) returns (id: nat, isPre: bool)
    requires t.Built()
    ensures |Mode(t.shm, t.ym, t.h2fStart[..]).starts| == HALF_IDS
      && id == StrId(t.root, Mode(t.shm, t.ym, t.h2fStart[..]), s)
    ensures isPre == StrPre(t.root, Mode(t.shm, t.ym, t.h2fStart[..]), s)
    ensures WholeAs(t.words, t.shm, t.ym, s, id, isPre)
  {
    hide *;
    hide SpellingTrie.Built;
    BuiltQuick(t);
    ghost var mode := Mode(t.shm, t.ym, t.h2fStart[..]);
    var ids, starts;
    ids, starts, isPre := SplstrToIdxs(t, s, 2);
    StrIdIs(t.root, mode, s);
    StrPreIs(t.root, mode, s);
    StrIsWhole(t.words, mode, t.h2fNum[..], s);
    id := if |ids| == 1 && starts[1] == |s| then ids[0] else 0;
  }

  /** Whether the parser says that the string goes on. */
  function StrPre(root: seq<SplNode>, mode: Mode, s: seq<u16>): (pre: bool)
    requires |mode.starts| == HALF_IDS
  {
    s != [] && Letter(s[0]) && Parse(root, mode, s, 0, false, 2).pre
  }

  lemma StrPreIs(root: seq<SplNode>, mode: Mode, s: seq<u16>)
    requires |mode.starts| == HALF_IDS
    ensures StrPre(root, mode, s) <==> s != [] && Letter(s[0]) && Parse(root, mode, s, 0, false, 2).pre
  {
    hide Parse;
  }

  lemma StrIsWhole(l: seq<Entry>, mode: Mode, hn: seq<u16>, s: seq<u16>)
    requires Table(l) && HalfDone(l, |l|, mode.starts, hn) && |mode.starts| == HALF_IDS
    ensures WholeAs(l, mode.shm, mode.ym, s, StrId(Root(l), mode, s), StrPre(Root(l), mode, s))
  {
    hide *;
    StrIdIs(Root(l), mode, s);
    StrPreIs(Root(l), mode, s);
    if s == [] || !Letter(s[0]) {
      WholeIsNothing(l, mode, s);
    } else {
      var r := Parse(Root(l), mode, s, 0, false, 2);
      ParseIsSegmented(l, mode, hn, s, 2);
      StartsFirst(r);
      WholeIsRead(l, mode.shm, mode.ym, s, r.ids, r.All(), r.pre);
    }
  }

  lemma WholeIsNothing(l: seq<Entry>, mode: Mode, s: seq<u16>)
    requires s == [] || !Letter(s[0])
    ensures WholeAs(l, mode.shm, mode.ym, s, 0, false)
  {
  }

  lemma WholeIsRead(l: seq<Entry>, shm: bool, ym: bool, s: seq<u16>, ids: seq<nat>, starts: seq<nat>, pre: bool)
    requires s != [] && Letter(s[0]) && Segmented(l, shm, ym, s, 2, ids, starts, pre) && starts[0] == 0
    ensures |starts| == |ids| + 1
      && WholeAs(l, shm, ym, s, if |ids| == 1 && starts[1] == |s| then ids[0] else 0, pre)
  {
    hide Letter;
  }

  method GetSplidByStrF(t: SpellingTrie, s: seq<u16>) returns (id: nat, isPre: bool)
    requires t.Built()
    ensures |Mode(t.shm, t.ym, t.h2fStart[..]).starts| == HALF_IDS
      && id == StrIdF(t.root, Mode(t.shm, t.ym, t.h2fStart[..]), s)
    ensures HalfYunmu(StrId(t.root, Mode(t.shm, t.ym, t.h2fStart[..]), s)) ==> !isPre
  {
    hide *;
    hide SpellingTrie.Built;
    BuiltQuick(t);
    ghost var mode := Mode(t.shm, t.ym, t.h2fStart[..]);
    var ids, starts;
    ids, starts, isPre := SplstrToIdxs(t, s, 2);
    StrIdIs(t.root, mode, s);
    FullOfIs(mode.starts, StrId(t.root, mode, s));
    FullOfIs(mode.starts, 0);
    StrIdFIs(t.root, mode, s);
    if |ids| != 1 {
      return 0, isPre;
    }
    if starts[1] != |s| {
      return 0, isPre;
    }
    id := ids[0];
    if HalfYunmu(id) {
      var start, num := t.HalfToFull(id);
      id := start as nat;
      isPre := false;
    }
  }

  // ---- Reading back a spelling ----

  /** A spelling of the table is one segment, with the id of its node. */
  lemma SpellingSegment(l: seq<Entry>, mode: Mode, i: nat)
    requires Table(l) && i < |l| && |mode.starts| == HALF_IDS
    ensures StrId(Root(l), mode, l[i].ids) == ValidId(mode, NodeIdx(l[i].ids, [i]))
  {
    hide *;
    var w := l[i].ids;
    TableGives(l, i);
    SpellingReached(l, i);
    assert w[0..] == w;
    ParseIs(Root(l), mode, w, 0, false, 2);
    StrIdIs(Root(l), mode, w);
    AllOf(0, ValidId(mode, NodeIdx(w, [i])), |w|, true);
  }

  lemma AllOf(begin: nat, id: nat, end: nat, pre: bool)
    ensures Parsed(begin, [id], [end], pre).All() == [begin, end]
  {
  }

  lemma StrIdIs(root: seq<SplNode>, mode: Mode, s: seq<u16>)
    requires |mode.starts| == HALF_IDS
    ensures StrId(root, mode, s) ==
            if s == [] || !Letter(s[0]) then 0
            else var r := Parse(root, mode, s, 0, false, 2); if |r.ids| == 1 && r.All()[1] == |s| then r.ids[0] else 0
    ensures |Parse(root, mode, s, 0, false, 2).ids| == 1 ==> |Parse(root, mode, s, 0, false, 2).All()| == 2
  {
    hide Parse;
  }

  lemma StrIdFIs(root: seq<SplNode>, mode: Mode, s: seq<u16>)
    requires |mode.starts| == HALF_IDS
    ensures StrIdF(root, mode, s) == FullOf(mode.starts, StrId(root, mode, s)) && !HalfYunmu(0)
  {
    hide StrId;
  }

  /** The range of a letter starts with the spelling that is only this letter, if there is one. */
  lemma FirstOfLetter(l: seq<Entry>, i: nat, id: nat, start: nat, num: nat)
    requires Table(l) && i < |l| && 1 <= id <= 29 && !IsPart(id) && l[i].ids == [LetterOf(id)] && Szm(LetterOf(id))
      && RangeUpTo(l, |l|, id, start, num)
    ensures start == SPL_ID_START + i
  {
    CoversIs(id, l[i].ids);
    assert Covers(id, l[i].ids);
    var j: nat := start - SPL_ID_START;
    CoversIs(id, l[j].ids);
    NotBefore(l, j, i);
  }

  lemma NotBefore(l: seq<Entry>, j: nat, i: nat)
    requires Table(l) && j <= i < |l| && |l[i].ids| == 1 && l[j].ids != [] && l[j].ids[0] == l[i].ids[0]
    ensures j == i
  {
    hide *;
    TableItems(l);
    InTableOrder(l, j, i);
    EndsToo(l[j].ids, l[i].ids);
    assert l[j].ids == [l[j].ids[0]] && l[i].ids == [l[i].ids[0]];
    SameSpelling(l, j, i);
  }

  lemma InTableOrder(l: seq<Entry>, j: nat, i: nat)
    requires Table(l) && j <= i < |l|
    ensures PathLe(l[j].ids, l[i].ids)
  {
    var items := Slice(l, 0, |l|, 0);
    assert items[j].path == l[j].ids[0..] == l[j].ids && items[i].path == l[i].ids[0..] == l[i].ids;
    hide Tidy;
    if j == i {
      LeRefl(l[i].ids);
    }
  }

  lemma {:induction false} LeRefl(w: seq<u16>)
    ensures PathLe(w, w)
  {
    if w != [] {
      LeRefl(w[1..]);
    }
  }

  /** Reading the spelling of a full id gives the id back exactly for all spellings but single Shengmus and Ch, Sh, Zh.
      */
  lemma SpellingIsRead(l: seq<Entry>, mode: Mode, hn: seq<u16>, i: nat)
    requires Table(l) && i < |l| && HalfDone(l, |l|, mode.starts, hn)
    ensures |mode.starts| == HALF_IDS && l[i].ids != []
    ensures StrIdF(Root(l), mode, SpellingStr(l, SPL_ID_START + i)) == SPL_ID_START + i <==>
            !(|l[i].ids| == 1 && Shengmu(l[i].ids[0]))
            && !(|l[i].ids| == 2 && Zcs(l[i].ids[0]) && l[i].ids[1] == LOWER_H)
  {
    var w := l[i].ids;
    TableGives(l, i);
    SpellingSegment(l, mode, i);
    HalfIdsDiffer(w[0], w[0]);
    hide Table, Root, StrId, HalfDone;
    if |w| == 1 && Yunmu(w[0]) {
      RangeGives(l, HalfOf(w[0]), mode.starts, hn);
      assert w == [w[0]];
      FirstOfLetter(l, i, HalfOf(w[0]), mode.starts[HalfOf(w[0])], hn[HalfOf(w[0])]);
    }
  }
}
