/** What the parser should read, said of the table of spellings alone: from each start the longest beginning of a
    spelling, and for its letters one id. */
module Segmentation {
  import opened Bytes
  import opened LemmaTrie
  import opened TrieWalk
  import opened DictBuilding
  import opened SpellingNodes

  /** The spelling begins with these letters, up to case. */
  predicate StartsLike(v: seq<u16>, w: seq<u16>) {
    |w| <= |v| && Folded(v[..|w|]) == Folded(w)
  }

  ghost predicate Begins(l: seq<Entry>, w: seq<u16>) {
    exists i :: 0 <= i < |l| && StartsLike(l[i].ids, w)
  }

  /** The n letters from pos on are the most with which some spelling begins. */
  ghost predicate Longest(l: seq<Entry>, s: seq<u16>, pos: nat, n: nat) {
    && pos + n <= |s| && (forall i :: pos <= i < pos + n ==> Letter(s[i]))
    && (n > 0 ==> Begins(l, s[pos..pos + n]))
    && (pos + n < |s| && Letter(s[pos + n]) ==> !Begins(l, s[pos..pos + n + 1]))
  }

  /** The first spelling that begins with the letter. */
  ghost predicate FirstSuch(l: seq<Entry>, c: u16, i: nat) {
    && i < |l| && l[i].ids != [] && l[i].ids[0] == c
    && forall j :: 0 <= j < i ==> l[j].ids == [] || l[j].ids[0] != c
  }

  ghost predicate SpelledAs(l: seq<Entry>, f: seq<u16>, i: nat) {
    i < |l| && Folded(l[i].ids) == f
  }

  /** Which id such letters are read as, 0 if none: a Shengmu its half id, if these are enabled; a Yunmu its half id, or
      else the first full id with this letter; Ch, Sh, Zh always their half ids; other letters the full id of the
      spelling, if it is complete. */
  ghost predicate ReadAs(l: seq<Entry>, shm: bool, ym: bool, w: seq<u16>, id: nat) {
    var f := Folded(w);
    if |w| == 1 && Shengmu(f[0]) then id == if shm then HalfOf(f[0]) else 0
    else if |w| == 1 && Yunmu(f[0]) then
      if ym then id == HalfOf(f[0]) else id >= SPL_ID_START && FirstSuch(l, f[0], id - SPL_ID_START)
    else if |w| == 2 && Zcs(f[0]) && f[1] == 72 then id == PartOf(f[0])
    else if exists i :: SpelledAs(l, f, i) then id >= SPL_ID_START && SpelledAs(l, f, id - SPL_ID_START)
    else id == 0
  }

  /** Where the next segment starts when one ends at e: behind the splitters; only one of them is skipped if no further
      segment is wanted. */
  ghost predicate NextStart(s: seq<u16>, e: nat, next: nat, last: bool) {
    && e <= next <= |s| && (forall i :: e <= i < next ==> !Letter(s[i]))
    && if e == |s| || Letter(s[e]) then next == e
       else if last then next == e + 1
       else e < next && (next < |s| ==> Letter(s[next]))
  }

  ghost predicate SegmentRead(l: seq<Entry>, shm: bool, ym: bool, s: seq<u16>, id: nat, start: nat, n: nat) {
    n > 0 && id > 0 && Longest(l, s, start, n) && ReadAs(l, shm, ym, s[start..start + n], id)
  }

  ghost predicate SegmentUpTo(l: seq<Entry>, shm: bool, ym: bool, s: seq<u16>, id: nat, start: nat, next: nat,
    last: bool, n: nat)
  {
    SegmentRead(l, shm, ym, s, id, start, n) && NextStart(s, start + n, next, last)
  }

  ghost predicate SegmentAt(l: seq<Entry>, shm: bool, ym: bool, s: seq<u16>, id: nat, start: nat, next: nat, last: bool)
  {
    exists n :: SegmentUpTo(l, shm, ym, s, id, start, next, last, n)
  }

  /** Here the letters lead to no id; they may lead to the end of the string. */
  ghost predicate Stuck(l: seq<Entry>, shm: bool, ym: bool, s: seq<u16>, start: nat, pre: bool, n: nat) {
    Longest(l, s, start, n) && ReadAs(l, shm, ym, s[start..start + n], 0) && (pre <==> start + n == |s|)
  }

  ghost predicate StuckAt(l: seq<Entry>, shm: bool, ym: bool, s: seq<u16>, start: nat, pre: bool) {
    exists n :: Stuck(l, shm, ym, s, start, pre, n)
  }

  /** The segmentation of a string that begins with a letter, at most max segments: each is the longest one, and it ends
      at the end of the string, with max segments, or where nothing can be read. The flag says that the string was read
      to its end, and by letters. */
  ghost predicate Segmented(l: seq<Entry>, shm: bool, ym: bool, s: seq<u16>, max: nat, ids: seq<nat>,
    starts: seq<nat>, pre: bool)
  {
    && |starts| == |ids| + 1 && |ids| <= max
    && (forall k :: 0 <= k < |ids| ==>
          SegmentAt(l, shm, ym, s, ids[k], starts[k], starts[k + 1], k + 1 == max))
    && starts[|ids|] <= |s|
    && if starts[|ids|] == |s| then pre <==> s == [] || Letter(s[|s| - 1])
       else if |ids| == max then !pre
       else StuckAt(l, shm, ym, s, starts[|ids|], pre)
  }

  // ---- What it means for single strings ----

  lemma BeginsPrefix(l: seq<Entry>, w: seq<u16>, n: nat)
    requires Begins(l, w) && n <= |w|
    ensures Begins(l, w[..n])
  {
    var i :| 0 <= i < |l| && StartsLike(l[i].ids, w);
    FoldedPart(l[i].ids[..|w|], w, n);
    assert l[i].ids[..|w|][..n] == l[i].ids[..n];
    assert StartsLike(l[i].ids, w[..n]);
  }

  /** The longest beginning is only one. */
  lemma OneLongest(l: seq<Entry>, s: seq<u16>, pos: nat, n: nat, m: nat)
    requires Longest(l, s, pos, n) && Longest(l, s, pos, m)
    ensures n == m
  {
    hide Begins;
    if n < m {
      BeginsShorter(l, s, pos, n, m);
    } else if m < n {
      BeginsShorter(l, s, pos, m, n);
    }
  }

  lemma BeginsShorter(l: seq<Entry>, s: seq<u16>, pos: nat, a: nat, b: nat)
    requires a < b && pos + b <= |s| && Begins(l, s[pos..pos + b])
    ensures Begins(l, s[pos..pos + a + 1])
  {
    hide Begins;
    BeginsPrefix(l, s[pos..pos + b], a + 1);
    assert s[pos..pos + b][..a + 1] == s[pos..pos + a + 1];
  }

  /** Each segment starts with a letter. */
  lemma SegmentStarts(l: seq<Entry>, shm: bool, ym: bool, s: seq<u16>, max: nat, ids: seq<nat>, starts: seq<nat>,
    pre: bool, k: nat)
    requires Segmented(l, shm, ym, s, max, ids, starts, pre) && k < |ids|
    ensures k < |starts| && starts[k] < |s| && Letter(s[starts[k]])
  {
    hide ReadAs, Begins, Letter;
    assert SegmentAt(l, shm, ym, s, ids[k], starts[k], starts[k + 1], k + 1 == max);
    var n :| SegmentUpTo(l, shm, ym, s, ids[k], starts[k], starts[k + 1], k + 1 == max, n);
  }

  lemma WholeLongest(l: seq<Entry>, s: seq<u16>)
    requires s != [] && Begins(l, s) && forall i :: 0 <= i < |s| ==> Letter(s[i])
    ensures Longest(l, s, 0, |s|)
  {
    assert s[0..0 + |s|] == s;
  }

  /** Letters with which some spelling begins are one segment, or none if they are no id; the flag is set. */
  lemma WholeSegment(l: seq<Entry>, shm: bool, ym: bool, s: seq<u16>, max: nat, ids: seq<nat>, starts: seq<nat>,
    pre: bool)
    requires s != [] && Begins(l, s) && (forall i :: 0 <= i < |s| ==> Letter(s[i])) && max > 0
    requires Segmented(l, shm, ym, s, max, ids, starts, pre) && starts[0] == 0
    ensures pre && if ids == [] then ReadAs(l, shm, ym, s, 0)
                   else ids[0] > 0 && ReadAs(l, shm, ym, s, ids[0]) && ids == [ids[0]] && starts == [0, |s|]
  {
    hide ReadAs, Begins, Letter;
    WholeLongest(l, s);
    assert s[0..0 + |s|] == s;
    if ids == [] {
      var n :| Stuck(l, shm, ym, s, 0, pre, n);
      OneLongest(l, s, 0, n, |s|);
    } else {
      assert SegmentAt(l, shm, ym, s, ids[0], starts[0], starts[0 + 1], 0 + 1 == max);
      var n :| SegmentUpTo(l, shm, ym, s, ids[0], 0, starts[1], 1 == max, n);
      OneLongest(l, s, 0, n, |s|);
      if |ids| > 1 {
        SegmentStarts(l, shm, ym, s, max, ids, starts, pre, 1);
      }
    }
  }

  /** A single letter: a Shengmu is read as its half id if that is enabled, and else not at all; a Yunmu as its half id,
      or else as a full id. */
  lemma LetterIsRead(l: seq<Entry>, shm: bool, ym: bool, c: u16, max: nat, ids: seq<nat>, starts: seq<nat>, pre: bool)
    requires Letter(c) && Begins(l, [c]) && max > 0
    requires Segmented(l, shm, ym, [c], max, ids, starts, pre) && starts[0] == 0
    ensures Shengmu(Fold(c)) ==> ids == if shm then [HalfOf(Fold(c))] else []
    ensures Yunmu(Fold(c)) ==> |ids| == 1
    ensures Yunmu(Fold(c)) && ym ==> ids == [HalfOf(Fold(c))]
    ensures Yunmu(Fold(c)) && !ym ==> ids[0] >= SPL_ID_START && FirstSuch(l, Fold(c), ids[0] - SPL_ID_START)
    ensures pre && (ids != [] ==> starts == [0, 1])
  {
    WholeSegment(l, shm, ym, [c], max, ids, starts, pre);
    assert Folded([c])[0] == Fold(c);
  }

  /** Ch, Sh and Zh are always read as their half ids. */
  lemma PartIsRead(l: seq<Entry>, shm: bool, ym: bool, c: u16, h: u16, max: nat, ids: seq<nat>, starts: seq<nat>,
    pre: bool)
    requires Letter(c) && Letter(h) && Zcs(Fold(c)) && Fold(h) == 72 && Begins(l, [c, h]) && max > 0
    requires Segmented(l, shm, ym, [c, h], max, ids, starts, pre) && starts[0] == 0
    ensures ids == [PartOf(Fold(c))] && starts == [0, 2] && pre
  {
    WholeSegment(l, shm, ym, [c, h], max, ids, starts, pre);
    assert Folded([c, h])[0] == Fold(c) && Folded([c, h])[1] == Fold(h);
  }

  /** Two Shengmus with which no spelling begins are two segments, like "nh". */
  lemma TwoShengmus(l: seq<Entry>, ym: bool, c: u16, d: u16, max: nat, ids: seq<nat>, starts: seq<nat>, pre: bool)
    requires Letter(c) && Letter(d) && Shengmu(Fold(c)) && Shengmu(Fold(d)) && max > 1
    requires Begins(l, [c]) && Begins(l, [d]) && !Begins(l, [c, d])
    requires Segmented(l, true, ym, [c, d], max, ids, starts, pre) && starts[0] == 0
    ensures ids == [HalfOf(Fold(c)), HalfOf(Fold(d))] && starts == [0, 1, 2] && pre
  {
    hide Begins, FirstSuch, SpelledAs, Shengmu, Yunmu, Letter;
    var s := [c, d];
    assert s[0..0 + 1] == [c] && s[0..0 + 1 + 1] == [c, d] && s[1..1 + 1] == [d];
    assert Longest(l, s, 0, 1) && Longest(l, s, 1, 1);
    assert Folded([c])[0] == Fold(c) && Folded([d])[0] == Fold(d);
    ShengmuReads(l, ym, [c]);
    ShengmuReads(l, ym, [d]);
    NotStuck(l, ym, s, 0, pre);
    NotStuck(l, ym, s, 1, pre);
    hide ReadAs, StuckAt;
    if ids != [] {
      assert SegmentAt(l, true, ym, s, ids[0], starts[0], starts[0 + 1], 0 + 1 == max);
      var n :| SegmentUpTo(l, true, ym, s, ids[0], 0, starts[1], 1 == max, n);
      OneLongest(l, s, 0, n, 1);
      assert starts[1] == 1;
      if |ids| != 1 {
        assert SegmentAt(l, true, ym, s, ids[1], starts[1], starts[1 + 1], 1 + 1 == max);
        var m :| SegmentUpTo(l, true, ym, s, ids[1], 1, starts[2], 2 == max, m);
        OneLongest(l, s, 1, m, 1);
        if |ids| > 2 {
          SegmentStarts(l, true, ym, s, max, ids, starts, pre, 2);
        }
      }
    }
  }

  lemma NotStuck(l: seq<Entry>, ym: bool, s: seq<u16>, start: nat, pre: bool)
    requires Longest(l, s, start, 1) && !ReadAs(l, true, ym, s[start..start + 1], 0)
    ensures !StuckAt(l, true, ym, s, start, pre)
  {
    hide Longest, ReadAs;
    if StuckAt(l, true, ym, s, start, pre) {
      var n :| Stuck(l, true, ym, s, start, pre, n);
      OneLongest(l, s, start, n, 1);
    }
  }

  lemma ShengmuReads(l: seq<Entry>, ym: bool, w: seq<u16>)
    requires |w| == 1 && Shengmu(Folded(w)[0])
    ensures forall id :: ReadAs(l, true, ym, w, id) <==> id == HalfOf(Folded(w)[0])
  {
  }

  /** What a whole string is read as, and whether it is read to its end by letters. */
  ghost predicate WholeAs(l: seq<Entry>, shm: bool, ym: bool, s: seq<u16>, id: nat, pre: bool) {
    if s == [] || !Letter(s[0]) then id == 0 && !pre
    else exists ids, starts ::
           Segmented(l, shm, ym, s, 2, ids, starts, pre) && starts[0] == 0
           && id == if |ids| == 1 && starts[1] == |s| then ids[0] else 0
  }

  /** The whole string has an id exactly if behind its longest beginning there are only splitters. */
  lemma WholeIs(l: seq<Entry>, shm: bool, ym: bool, s: seq<u16>, id: nat, pre: bool, n: nat)
    requires WholeAs(l, shm, ym, s, id, pre) && s != [] && Letter(s[0]) && Longest(l, s, 0, n)
    ensures if forall i :: n <= i < |s| ==> !Letter(s[i]) then ReadAs(l, shm, ym, s[..n], id) else id == 0
    ensures n == |s| ==> pre
  {
    hide ReadAs, Begins, Letter;
    var ids, starts :| Segmented(l, shm, ym, s, 2, ids, starts, pre) && starts[0] == 0
                       && id == if |ids| == 1 && starts[1] == |s| then ids[0] else 0;
    assert s[0..0 + n] == s[..n];
    if ids == [] {
      var m :| Stuck(l, shm, ym, s, 0, pre, m);
      OneLongest(l, s, 0, n, m);
      if exists i :: n <= i < |s| && Letter(s[i]) {
        assert id == 0;
      }
    } else {
      assert SegmentAt(l, shm, ym, s, ids[0], starts[0], starts[0 + 1], 0 + 1 == 2);
      var m :| SegmentUpTo(l, shm, ym, s, ids[0], 0, starts[1], false, m);
      OneLongest(l, s, 0, n, m);
      if |ids| > 1 {
        SegmentStarts(l, shm, ym, s, 2, ids, starts, pre, 1);
      }
    }
  }

  // ---- The trie of the table leads along the longest beginnings ----

  /** What the node at the end of a path is numbered, by the table. */
  ghost predicate Named(l: seq<Entry>, p: seq<u16>, idx: nat) {
    if p == [] then idx == 0
    else if |p| == 1 && Szm(p[0]) then idx == HalfOf(p[0])
    else if |p| == 2 && Zcs(p[0]) && p[1] == LOWER_H then idx == PartOf(p[0])
    else if idx == 0 then forall i :: 0 <= i < |l| ==> l[i].ids != p
    else SPL_ID_START <= idx < SPL_ID_START + |l| && l[idx - SPL_ID_START].ids == p
  }

  /** All spellings that go on behind the path are listed. */
  ghost predicate Complete(l: seq<Entry>, ts: seq<Trie>, path: seq<u16>) {
    forall i :: 0 <= i < |l| && path < l[i].ids ==> Item(l[i].ids[|path|..], i) in Listed(ts)
  }

  lemma ListedAt(l: seq<Entry>, ts: seq<Trie>, path: seq<u16>, i: nat) returns (k: nat)
    requires Complete(l, ts, path) && i < |l| && path < l[i].ids
    ensures k < |ts| && ts[k].spl == l[i].ids[|path|] && Item(l[i].ids[|path|..], i) in ListedNode(ts[k])
  {
    hide Listed, ListedNode;
    var x := Item(l[i].ids[|path|..], i);
    ListedHas(ts, x);
    k :| 0 <= k < |ts| && x in ListedNode(ts[k]);
    NodeHas(ts[k], x.path, x.id);
  }

  lemma CompleteBelow(l: seq<Entry>, ts: seq<Trie>, path: seq<u16>, k: nat)
    requires Complete(l, ts, path) && Ordered(ts) && k < |ts|
    ensures Complete(l, ts[k].sons, path + [ts[k].spl])
    ensures forall i :: 0 <= i < |l| && l[i].ids == path + [ts[k].spl] ==> i in ts[k].homos
  {
    hide Listed, ListedNode;
    var p := path + [ts[k].spl];
    forall i | 0 <= i < |l| && p <= l[i].ids
      ensures if l[i].ids == p then i in ts[k].homos else Item(l[i].ids[|p|..], i) in Listed(ts[k].sons)
    {
      assert path < l[i].ids && l[i].ids[|path|] == ts[k].spl;
      var m := ListedAt(l, ts, path, i);
      assert m == k;
      var w := l[i].ids[|path|..];
      NodeHas(ts[k], w, i);
      assert w[1..] == l[i].ids[|p|..];
    }
  }

  /** Tidy spellings that are the same up to case are the same. */
  lemma {:induction false} TidyFold(p: seq<u16>, q: seq<u16>)
    requires (p == [] || Tidy(p)) && (q == [] || Tidy(q)) && Folded(p) == Folded(q)
    ensures p == q
  {
    assert |p| == |Folded(p)| == |Folded(q)| == |q|;
    forall i | 0 <= i < |p|
      ensures p[i] == q[i]
    {
      assert Folded(p)[i] == Folded(q)[i] && Folded(p)[0] == Folded(q)[0];
      assert TidyAt(p, i) && TidyAt(q, i) && TidyAt(p, 0) && TidyAt(q, 0);
    }
  }

  /** The walk below a path: the path that it makes, its id, and that no spelling goes on as the string does. */
  ghost predicate WalkedTo(l: seq<Entry>, path: seq<u16>, s: seq<u16>, r: (nat, nat), p: seq<u16>) {
    && r.0 <= |s| && |p| == |path| + r.0 && path <= p && Folded(p) == Folded(path + s[..r.0]) && Named(l, p, r.1)
    && (r.0 > 0 ==> Tidy(p) && Begun(l, p))
    && (r.0 < |s| && Letter(s[r.0]) ==>
          forall i :: 0 <= i < |l| && p < l[i].ids ==> Fold(l[i].ids[|p|]) != Fold(s[r.0]))
  }

  lemma {:induction false} WalkNamed(l: seq<Entry>, ts: seq<Trie>, path: seq<u16>, idx: nat, s: seq<u16>)
    returns (p: seq<u16>)
    requires Table(l) && Ordered(ts) && TidyTrie(ts, path) && Belongs(l, ts, path) && Bearing(ts)
      && Complete(l, ts, path) && Named(l, path, idx)
    ensures WalkedTo(l, path, s, Walk(Spelled(ts, path), idx, s), p)
    decreases |s|
  {
    hide *;
    var ns := Spelled(ts, path);
    WalkIs(ns, idx, s);
    if s == [] || !Letter(s[0]) || SonFor(ns, s[0]) == |ns| {
      p := path;
      if s != [] && Letter(s[0]) {
        NoSon(l, ts, path, s[0]);
      }
      StaysHere(l, path, idx, s);
    } else {
      var k := SonFor(ns, s[0]);
      SpelledAt(ts, path, k);
      TidyGives(ts, path, k);
      TidySon(ts, path, k);
      CompleteBelow(l, ts, path, k);
      BelongsBelow(l, ts, path, k);
      BearingBegins(l, ts, path, k);
      SonSame(ts, path, s[0]);
      var q := path + [ts[k].spl];
      NodeNamed(l, q, ts[k].homos);
      p := WalkNamed(l, ts[k].sons, q, NodeIdx(q, ts[k].homos), s[1..]);
      GoesOn(l, path, ts[k].spl, s, Walk(Spelled(ts[k].sons, q), NodeIdx(q, ts[k].homos), s[1..]), p);
    }
  }

  lemma TidySon(ts: seq<Trie>, path: seq<u16>, k: nat)
    requires TidyTrie(ts, path) && k < |ts|
    ensures Tidy(path + [ts[k].spl])
  {
    hide Tidy;
    assert TidyNode(ts[k], path);
  }

  lemma StaysHere(l: seq<Entry>, path: seq<u16>, idx: nat, s: seq<u16>)
    requires Named(l, path, idx)
    requires s != [] && Letter(s[0]) ==>
               forall i :: 0 <= i < |l| && path < l[i].ids ==> Fold(l[i].ids[|path|]) != Fold(s[0])
    ensures WalkedTo(l, path, s, (0, idx), path)
  {
    hide Named;
    assert path + s[..0] == path;
  }

  /** No son for the letter: no spelling goes on with it. */
  lemma NoSon(l: seq<Entry>, ts: seq<Trie>, path: seq<u16>, c: u16)
    requires Complete(l, ts, path) && TidyTrie(ts, path) && Letter(c)
      && SonFor(Spelled(ts, path), c) == |Spelled(ts, path)|
    ensures forall i :: 0 <= i < |l| && path < l[i].ids ==> Fold(l[i].ids[|path|]) != Fold(c)
  {
    hide Complete, Spelled, Tidy, ListedNode;
    forall i | 0 <= i < |l| && path < l[i].ids
      ensures Fold(l[i].ids[|path|]) != Fold(c)
    {
      var k := ListedAt(l, ts, path, i);
      SpelledAt(ts, path, k);
      TidySon(ts, path, k);
      FoldIsUpper(path, ts[k].spl);
      SameIsFold(ts[k].spl, c);
      assert !Same(Spelled(ts, path)[k].ch, c);
    }
  }

  lemma SonSame(ts: seq<Trie>, path: seq<u16>, c: u16)
    requires TidyTrie(ts, path) && Letter(c) && SonFor(Spelled(ts, path), c) < |ts|
    ensures Fold(ts[SonFor(Spelled(ts, path), c)].spl) == Fold(c)
  {
    hide Spelled, Tidy;
    var k := SonFor(Spelled(ts, path), c);
    SpelledAt(ts, path, k);
    TidySon(ts, path, k);
    FoldIsUpper(path, ts[k].spl);
    SameIsFold(ts[k].spl, c);
  }

  lemma NodeNamed(l: seq<Entry>, q: seq<u16>, homos: seq<nat>)
    requires q != [] && (forall id :: id in homos ==> id < |l| && l[id].ids == q)
      && forall i :: 0 <= i < |l| && l[i].ids == q ==> i in homos
    ensures Named(l, q, NodeIdx(q, homos))
  {
    if homos != [] {
      assert homos[0] in homos;
    }
  }

  lemma GoesOn(l: seq<Entry>, path: seq<u16>, c: u16, s: seq<u16>, r: (nat, nat), p: seq<u16>)
    requires s != [] && Fold(c) == Fold(s[0]) && WalkedTo(l, path + [c], s[1..], r, p)
    requires Tidy(path + [c]) && Begun(l, path + [c])
    ensures WalkedTo(l, path, s, (r.0 + 1, r.1), p)
  {
    hide Named, Tidy, Begun, Letter;
    FoldedStep(path, c, s, r.0);
    if r.0 == 0 {
      assert p == path + [c];
    }
    if r.0 + 1 < |s| {
      assert s[1..][r.0] == s[r.0 + 1];
    }
  }

  // ---- From the root ----

  /** The number of the node that letters lead to, before the modes are looked at. */
  ghost predicate NumberOf(l: seq<Entry>, w: seq<u16>, idx: nat) {
    var f := Folded(w);
    if |w| == 1 && Szm(f[0]) then idx == HalfOf(f[0])
    else if |w| == 2 && Zcs(f[0]) && f[1] == 72 then idx == PartOf(f[0])
    else if exists i :: SpelledAs(l, f, i) then idx >= SPL_ID_START && SpelledAs(l, f, idx - SPL_ID_START)
    else idx == 0
  }

  lemma WalkIsLongest(l: seq<Entry>, s: seq<u16>, pos: nat)
    requires Table(l) && pos <= |s|
    ensures var r := Walk(Root(l), 0, s[pos..]); Longest(l, s, pos, r.0) && NumberOf(l, s[pos..pos + r.0], r.1)
  {
    hide *;
    TableTrie(l);
    TableItems(l);
    RootIs(l);
    AllComplete(l, Nodes(l, 0, |l|, 0));
    NoName(l);
    var t := s[pos..];
    var p := WalkNamed(l, Nodes(l, 0, |l|, 0), [], 0, t);
    var r := Walk(Root(l), 0, t);
    WalkLetters(Root(l), t);
    WalkedLongest(l, s, pos, r, p);
  }

  lemma NoName(l: seq<Entry>)
    ensures Named(l, [], 0)
  {
  }

  lemma WalkLetters(ns: seq<SplNode>, s: seq<u16>)
    ensures var r := Walk(ns, 0, s); r.0 <= |s| && forall i :: 0 <= i < r.0 ==> Letter(s[i])
  {
  }

  lemma AllComplete(l: seq<Entry>, ts: seq<Trie>)
    requires Listed(ts) == Slice(l, 0, |l|, 0) && |Slice(l, 0, |l|, 0)| == |l|
      && forall i :: 0 <= i < |l| ==> Slice(l, 0, |l|, 0)[i] == Item(l[i].ids, i)
    ensures Complete(l, ts, [])
  {
    hide Listed, Slice;
    forall i | 0 <= i < |l|
      ensures Item(l[i].ids[0..], i) in Listed(ts)
    {
      assert l[i].ids[0..] == l[i].ids && Slice(l, 0, |l|, 0)[i] in Listed(ts);
    }
  }

  lemma WalkedLongest(l: seq<Entry>, s: seq<u16>, pos: nat, r: (nat, nat), p: seq<u16>)
    requires Table(l) && pos <= |s| && WalkedTo(l, [], s[pos..], r, p)
      && forall i :: 0 <= i < r.0 ==> Letter(s[pos..][i])
    ensures Longest(l, s, pos, r.0) && NumberOf(l, s[pos..pos + r.0], r.1)
  {
    hide *;
    WalkedLength(l, s[pos..], r, p);
    var n, w := r.0, s[pos..pos + r.0];
    assert [] + s[pos..][..n] == w;
    WalkedNumber(l, s[pos..], r, p, w);
    forall i | pos <= i < pos + n
      ensures Letter(s[i])
    {
      assert s[pos..][i - pos] == s[i];
    }
    if n > 0 {
      BegunBegins(l, p, w);
    }
    if pos + n < |s| && Letter(s[pos + n]) {
      assert s[pos..][n] == s[pos + n];
      NotLonger(l, s, pos, n, p);
    }
    LongestIs(l, s, pos, n);
  }

  lemma WalkedLength(l: seq<Entry>, t: seq<u16>, r: (nat, nat), p: seq<u16>)
    requires WalkedTo(l, [], t, r, p)
    ensures r.0 <= |t|
  {
  }

  lemma BegunBegins(l: seq<Entry>, p: seq<u16>, w: seq<u16>)
    requires Begun(l, p) && |p| == |w| && Folded(p) == Folded(w)
    ensures Begins(l, w)
  {
    var i :| 0 <= i < |l| && p <= l[i].ids;
    assert StartsLike(l[i].ids, w);
  }

  lemma LongestIs(l: seq<Entry>, s: seq<u16>, pos: nat, n: nat)
    requires pos + n <= |s| && (forall i :: pos <= i < pos + n ==> Letter(s[i]))
    requires n > 0 ==> Begins(l, s[pos..pos + n])
    requires pos + n < |s| && Letter(s[pos + n]) ==> !Begins(l, s[pos..pos + n + 1])
    ensures Longest(l, s, pos, n)
  {
  }

  lemma NotLonger(l: seq<Entry>, s: seq<u16>, pos: nat, n: nat, p: seq<u16>)
    requires Table(l) && pos + n < |s| && |p| == n && Folded(p) == Folded(s[pos..pos + n]) && (n > 0 ==> Tidy(p))
    requires forall i :: 0 <= i < |l| && p < l[i].ids ==> Fold(l[i].ids[|p|]) != Fold(s[pos + n])
    ensures !Begins(l, s[pos..pos + n + 1])
  {
    hide SubsetOk, Tidy;
    var t := s[pos..pos + n + 1];
    forall i | 0 <= i < |l|
      ensures !StartsLike(l[i].ids, t)
    {
      if StartsLike(l[i].ids, t) {
        LikeGoesOn(l, s, pos, n, p, i);
      }
    }
  }

  lemma LikeGoesOn(l: seq<Entry>, s: seq<u16>, pos: nat, n: nat, p: seq<u16>, i: nat)
    requires Table(l) && pos + n < |s| && |p| == n && Folded(p) == Folded(s[pos..pos + n]) && (n > 0 ==> Tidy(p))
    requires i < |l| && StartsLike(l[i].ids, s[pos..pos + n + 1])
    ensures p < l[i].ids && Fold(l[i].ids[|p|]) == Fold(s[pos + n])
  {
    hide SubsetOk, Tidy;
    var v, t := l[i].ids, s[pos..pos + n + 1];
    FoldedPart(v[..n + 1], t, n);
    assert v[..n + 1][..n] == v[..n] && t[..n] == s[pos..pos + n];
    if n > 0 {
      TidyPrefix(v, n);
    }
    TidyFold(v[..n], p);
    assert Folded(v[..n + 1])[n] == Folded(t)[n];
  }

  lemma FoldedPart(a: seq<u16>, b: seq<u16>, n: nat)
    requires Folded(a) == Folded(b) && n <= |a| && n <= |b|
    ensures Folded(a[..n]) == Folded(b[..n])
  {
    forall i | 0 <= i < n
      ensures Folded(a[..n])[i] == Folded(b[..n])[i]
    {
      assert Folded(a)[i] == Folded(b)[i];
    }
  }

  /** What the node's name says of the letters that were read. */
  lemma WalkedNumber(l: seq<Entry>, t: seq<u16>, r: (nat, nat), p: seq<u16>, w: seq<u16>)
    requires Table(l) && WalkedTo(l, [], t, r, p) && w == [] + t[..r.0]
    ensures NumberOf(l, w, r.1) && |p| == r.0 && Folded(p) == Folded(w) && (r.0 > 0 ==> Tidy(p) && Begun(l, p))
    ensures r.0 < |t| && Letter(t[r.0]) ==>
              forall i :: 0 <= i < |l| && p < l[i].ids ==> Fold(l[i].ids[|p|]) != Fold(t[r.0])
  {
    hide SubsetOk;
    var f := Folded(w);
    if p == [] {
      NoSpelling(l);
    } else {
      TidyFolds(p, w);
      forall i | 0 <= i < |l|
        ensures SpelledAs(l, f, i) <==> l[i].ids == p
      {
        if SpelledAs(l, f, i) {
          TidyFold(l[i].ids, p);
        }
      }
    }
  }

  lemma NoSpelling(l: seq<Entry>)
    requires Table(l)
    ensures NumberOf(l, [], 0)
  {
    hide SubsetOk;
    forall i | 0 <= i < |l|
      ensures !SpelledAs(l, Folded([]), i)
    {
      assert Tidy(l[i].ids);
    }
  }

  lemma TidyFolds(p: seq<u16>, w: seq<u16>)
    requires Tidy(p) && Folded(p) == Folded(w)
    ensures |w| == |p| && p[0] == Folded(w)[0]
    ensures |p| == 2 && Zcs(p[0]) ==> (p[1] == LOWER_H <==> Folded(w)[1] == 72)
  {
    assert |Folded(p)| == |Folded(w)| && Folded(p)[0] == Folded(w)[0] && TidyAt(p, 0);
    if |p| == 2 {
      assert Folded(p)[1] == Folded(w)[1] && TidyAt(p, 1);
    }
  }
}
