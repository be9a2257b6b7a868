/** Compaction preserves the dictionary. */
module Defragment {
  import opened Bytes
  import opened LemmaBlock
  import opened Partition
  import opened BlockFacts
  import opened SpellingOrder
  import opened DictModel
  import opened DictInvariants

  // ---- The marked block has the records of the old one ----

  lemma MarkedTiled(b: seq<u8>, offs: seq<u32>)
    requires Tiled(b) && OnStarts(b, offs)
    ensures Tiled(Marked(b, offs))
  {
    MarkedChain(b, offs, 0, |b|);
  }

  lemma {:induction false} MarkedChainBack(b: seq<u8>, offs: seq<u32>, p: nat, x: nat)
    requires Tiled(b) && OnStarts(b, offs) && Chain(b, 0, p) && Chain(Marked(b, offs), p, x)
    ensures Chain(b, p, x)
    decreases x - p
  {
    hide Marked, Kept, IsStart, OnStarts;
    if p < x {
      MarkedFits(b, offs, p);
      ChainSnocPlain(b, p);
      MarkedChainBack(b, offs, p + Size(b, p), x);
    }
  }

  lemma MarkedStarts(b: seq<u8>, offs: seq<u32>, p: nat)
    requires Tiled(b) && OnStarts(b, offs)
    ensures IsStart(Marked(b, offs), p) <==> IsStart(b, p)
  {
    if IsStart(b, p) {
      MarkedChain(b, offs, 0, p);
      MarkedChain(b, offs, p, |b|);
    }
    if IsStart(Marked(b, offs), p) {
      MarkedChainBack(b, offs, 0, p);
      ChainRest(b, 0, p, |b|);
    }
  }

  /** An entry that is not flagged stands on a record that is not marked. */
  lemma LiveNotDead(b: seq<u8>, offs: seq<u32>, i: nat)
    requires Tiled(b) && Clean(b) && Indexed(b, offs) && i < |offs|
    ensures IsStart(Marked(b, offs), Pos(offs[i]))
    ensures Dead(Marked(b, offs), Pos(offs[i])) <==> Removed(offs[i])
  {
    hide Chain;
    MarkedStarts(b, offs, Pos(offs[i]));
    MarkedDead(b, offs, Pos(offs[i]));
    if Pos(offs[i]) as nat in DeadSet(offs) {
      var o :| o in offs && Removed(o) && Pos(o) == Pos(offs[i]);
      var j :| 0 <= j < |offs| && offs[j] == o;
      assert i == j;
    }
    if Removed(offs[i]) {
      assert offs[i] in offs;
    }
  }

  /** The block after the sweep. */
  ghost function Packed(b: seq<u8>, offs: seq<u32>): (k: seq<u8>)
    requires Tiled(b) && OnStarts(b, offs)
    ensures |k| <= |b|
  {
    MarkedTiled(b, offs);
    Kept(Marked(b, offs), 0, |b|)
  }

  ghost function MovedTo(b: seq<u8>, offs: seq<u32>, x: u32): (y: u32)
    requires Tiled(b) && OnStarts(b, offs)
    ensures y <= x
  {
    MarkedTiled(b, offs);
    Relocated(Marked(b, offs), x)
  }

  /** A live lemma is found again, unchanged, at its new offset. */
  lemma LiveMoved(spl: Spellings, b: seq<u8>, offs: seq<u32>, i: nat)
    requires Tiled(b) && Clean(b) && Indexed(b, offs) && i < |offs| && !Removed(offs[i])
    ensures var k, y := Packed(b, offs), MovedTo(b, offs, offs[i]);
            && !Removed(y) && y < |k| && IsStart(k, y) && k[y] == 0
            && SplidsOf(k, y) == SplidsOf(b, offs[i]) && WordOf(k, y) == WordOf(b, offs[i])
            && KeyOf(spl, k, y) == KeyOf(spl, b, offs[i])
  {
    MarkedTiled(b, offs);
    LiveNotDead(b, offs, i);
    hide Chain, Kept, Relocated, SplidsAt, WordAt, Marked;
    MarkedFits(b, offs, offs[i]);
    MarkedFlag(b, offs, offs[i]);
    KeptReads(Marked(b, offs), offs[i]);
  }

  lemma MarkedFlag(b: seq<u8>, offs: seq<u32>, p: nat)
    requires IsStart(b, p) && Clean(b) && !Dead(Marked(b, offs), p)
    ensures Marked(b, offs)[p] == 0
  {
  }

  lemma MovedInjective(b: seq<u8>, offs: seq<u32>, i: nat, j: nat)
    requires Tiled(b) && Clean(b) && Indexed(b, offs) && i < |offs| && j < |offs| && i != j
    requires !Removed(offs[i]) && !Removed(offs[j])
    ensures MovedTo(b, offs, offs[i]) != MovedTo(b, offs, offs[j])
  {
    MarkedTiled(b, offs);
    LiveNotDead(b, offs, i);
    LiveNotDead(b, offs, j);
    hide Chain, Kept, Relocated, Marked, IsStart;
    if offs[i] < offs[j] {
      RelocatedInjective(Marked(b, offs), offs[i], offs[j]);
    } else {
      assert Pos(offs[i]) != Pos(offs[j]);
      RelocatedInjective(Marked(b, offs), offs[j], offs[i]);
    }
  }

  /** Every record of the packed block is the moved copy of a live entry. */
  lemma PackedOnly(b: seq<u8>, offs: seq<u32>, y: nat) returns (i: nat)
    requires Tiled(b) && Clean(b) && Indexed(b, offs) && IsStart(Packed(b, offs), y)
    ensures i < |offs| && !Removed(offs[i]) && MovedTo(b, offs, offs[i]) == y
  {
    MarkedTiled(b, offs);
    var x := KeptOnly(Marked(b, offs), 0, y);
    hide Chain, Kept, Relocated, Marked;
    MarkedStarts(b, offs, x);
    assert x in Positions(offs);
    i :| 0 <= i < |offs| && Pos(offs[i]) == x;
    LiveNotDead(b, offs, i);
    RelocatedStart(Marked(b, offs), x);
  }

  // ---- The index after the sweep ----

  ghost function MovedAll(b: seq<u8>, offs: seq<u32>, s: seq<u32>): (r: seq<u32>)
    requires Tiled(b) && OnStarts(b, offs)
    ensures |r| == |s| && forall j :: 0 <= j < |s| ==> r[j] == MovedTo(b, offs, s[j])
  {
    MarkedTiled(b, offs);
    RelocatedAll(Marked(b, offs), s)
  }

  /** The k-th entry after compaction is the k-th live entry before it. */
  lemma NewEntry(spl: Spellings, b: seq<u8>, offs: seq<u32>, k: nat)
    requires Tiled(b) && Clean(b) && Indexed(b, offs) && k < LiveCount(offs)
    ensures var o, n := offs[LiveAt(offs, k)], MovedAll(b, offs, SelectLive(offs))[k];
            && n == MovedTo(b, offs, o) && !Removed(n) && n < |Packed(b, offs)|
            && IsStart(Packed(b, offs), n) && Packed(b, offs)[n] == 0
            && SplidsOf(Packed(b, offs), n) == SplidsOf(b, o) && WordOf(Packed(b, offs), n) == WordOf(b, o)
            && KeyOf(spl, Packed(b, offs), n) == KeyOf(spl, b, o)
  {
    hide IsStart, Tiled, Clean, Packed, MovedTo, MovedAll, SplidsOf, WordOf, KeyOf;
    SelectAt(offs, offs, k);
    LiveMoved(spl, b, offs, LiveAt(offs, k));
  }

  lemma PackedTiled(b: seq<u8>, offs: seq<u32>)
    requires Tiled(b) && OnStarts(b, offs)
    ensures Tiled(Packed(b, offs))
  {
    MarkedTiled(b, offs);
    KeptTiled(Marked(b, offs), 0, |b|);
  }

  lemma NewIndexed(spl: Spellings, b: seq<u8>, offs: seq<u32>)
    requires Tiled(b) && Clean(b) && Indexed(b, offs)
    ensures Indexed(Packed(b, offs), MovedAll(b, offs, SelectLive(offs)))
    ensures Clean(Packed(b, offs))
  {
    hide IsStart, Tiled, Packed, MovedTo, MovedAll, Marked, Kept;
    var k, news := Packed(b, offs), MovedAll(b, offs, SelectLive(offs));
    forall j | 0 <= j < |news| ensures IsStart(k, Pos(news[j])) {
      NewEntry(spl, b, offs, j);
    }
    forall i, j | 0 <= i < j < |news| ensures Pos(news[i]) != Pos(news[j]) {
      NewEntry(spl, b, offs, i);
      NewEntry(spl, b, offs, j);
      LiveAtMonotone(offs, i, j);
      MovedInjective(b, offs, LiveAt(offs, i), LiveAt(offs, j));
    }
    forall y: nat | IsStart(k, y) ensures y in Positions(news) && y < |k| && k[y] == 0 {
      var i := PackedOnly(b, offs, y);
      var j := LiveAtOnto(offs, i);
      NewEntry(spl, b, offs, j);
      assert Pos(news[j]) == y;
    }
  }

  lemma NewSorted(spl: Spellings, b: seq<u8>, offs: seq<u32>)
    requires Tiled(b) && Clean(b) && Indexed(b, offs) && Sorted(spl, b, offs) && Distinct(b, offs)
    ensures Sorted(spl, Packed(b, offs), MovedAll(b, offs, SelectLive(offs)))
    ensures Distinct(Packed(b, offs), MovedAll(b, offs, SelectLive(offs)))
  {
    hide IsStart, Tiled, Clean, Packed, MovedTo, MovedAll, KeyOf, Compare, SplidsOf, WordOf;
    var k, news := Packed(b, offs), MovedAll(b, offs, SelectLive(offs));
    forall i, j | 0 <= i < j < |news|
      ensures Compare(KeyOf(spl, k, news[i]), KeyOf(spl, k, news[j])) <= 0 && !SameLemma(k, news[i], news[j])
    {
      NewEntry(spl, b, offs, i);
      NewEntry(spl, b, offs, j);
      LiveAtMonotone(offs, i, j);
      assert !SameLemma(b, offs[LiveAt(offs, i)], offs[LiveAt(offs, j)]);
    }
  }

  // ---- Multisets: `predicts_` stays a permutation of `offsets_` ----

  lemma {:induction false} SelectMultiset(s: seq<u32>, x: u32)
    ensures multiset(SelectLive(s))[x] == if Removed(x) then 0 else multiset(s)[x]
  {
    if s != [] {
      var n := |s| - 1;
      SelectMultiset(s[..n], x);
      assert s == s[..n] + [s[n]];
      SelectSnoc(s, s, n);
      assert s[..n + 1] == s;
    }
  }

  lemma SelectSameMultiset(s: seq<u32>, t: seq<u32>)
    requires multiset(s) == multiset(t)
    ensures multiset(SelectLive(s)) == multiset(SelectLive(t)) && LiveCount(s) == LiveCount(t)
  {
    forall x: u32 ensures multiset(SelectLive(s))[x] == multiset(SelectLive(t))[x] {
      SelectMultiset(s, x);
      SelectMultiset(t, x);
    }
    assert multiset(SelectLive(s)) == multiset(SelectLive(t));
    assert |multiset(SelectLive(s))| == |multiset(SelectLive(t))|;
  }

  lemma {:induction false} MovedSameMultiset(b: seq<u8>, offs: seq<u32>, s: seq<u32>, t: seq<u32>)
    requires Tiled(b) && OnStarts(b, offs) && multiset(s) == multiset(t)
    ensures multiset(MovedAll(b, offs, s)) == multiset(MovedAll(b, offs, t))
    decreases |s|
  {
    hide Tiled, OnStarts, MovedTo;
    assert |multiset(s)| == |multiset(t)|;
    if s != [] {
      var n := |s| - 1;
      assert s[n] in multiset(s);
      var j :| 0 <= j < |t| && t[j] == s[n];
      DropOne(s, t, j);
      MovedSameMultiset(b, offs, s[..n], t[..j] + t[j + 1..]);
      MovedSplit(b, offs, s, n);
      MovedSplit(b, offs, t, j);
      assert s[n + 1..] == [] && s[..n] + s[n + 1..] == s[..n];
    }
  }

  lemma DropOne(s: seq<u32>, t: seq<u32>, j: nat)
    requires s != [] && multiset(s) == multiset(t) && j < |t| && t[j] == s[|s| - 1]
    ensures multiset(t[..j] + t[j + 1..]) == multiset(s[..|s| - 1])
  {
    var n := |s| - 1;
    assert s == s[..n] + [s[n]];
    assert t == t[..j] + [t[j]] + t[j + 1..];
    assert multiset(s) == multiset(s[..n]) + multiset{s[n]};
    assert multiset(t) == multiset(t[..j]) + multiset{t[j]} + multiset(t[j + 1..]);
    var x, y := multiset(t[..j] + t[j + 1..]), multiset(s[..n]);
    assert x + multiset{s[n]} == y + multiset{s[n]};
    forall v: u32 ensures x[v] == y[v] {
      assert (x + multiset{s[n]})[v] == (y + multiset{s[n]})[v];
    }
  }

  lemma MovedSplit(b: seq<u8>, offs: seq<u32>, s: seq<u32>, j: nat)
    requires Tiled(b) && OnStarts(b, offs) && j < |s|
    ensures multiset(MovedAll(b, offs, s)) ==
            multiset(MovedAll(b, offs, s[..j] + s[j + 1..])) + multiset{MovedTo(b, offs, s[j])}
  {
    hide Tiled, OnStarts, MovedTo;
    var m, r := MovedAll(b, offs, s), MovedAll(b, offs, s[..j] + s[j + 1..]);
    assert r == m[..j] + m[j + 1..];
    assert m == m[..j] + [m[j]] + m[j + 1..];
  }

  // ---- The main results ----

  ghost predicate AnyRemoved(offs: seq<u32>) {
    exists i :: 0 <= i < |offs| && Removed(offs[i])
  }

  /** `defragment`: nothing happens unless some entry is removed. */
  ghost function Defragged(d: Dict): (r: Dict)
    requires Tiled(d.block) && OnStarts(d.block, d.offsets)
    requires |d.scores| == |d.offsets| && d.startId + |d.offsets| <= WORD_RANGE
  {
    var b, offs := d.block, d.offsets;
    if !AnyRemoved(offs) then d
    else d.(block := Packed(b, offs),
            offsets := MovedAll(b, offs, SelectLive(offs)),
            scores := Select(d.scores, offs),
            ids := CountUp(d.startId, LiveCount(offs)),
            predicts := MovedAll(b, offs, SelectLive(d.predicts)),
            syncs := MovedAll(b, offs, d.syncs),
            byId := MovedAll(b, offs, SelectLive(offs)),
            freeCount := 0, freeSize := 0,
            sizeLeft := d.sizeLeft + (|b| - |Packed(b, offs)|),
            level := Level.Defragmented)
  }

  lemma NewIds(startId: u32, offs: seq<u32>)
    requires startId + |offs| <= WORD_RANGE
    ensures IdsOk(startId, CountUp(startId, |offs|), offs, offs)
  {
    var ids := CountUp(startId, |offs|);
    hide CountUp, Pos;
    forall i | 0 <= i < |ids|
      ensures startId <= ids[i] < startId + |ids| && Pos(offs[ids[i] - startId]) == Pos(offs[i])
    {
      assert ids[i] == startId + i;
    }
  }

  /** `defragment` keeps the index well formed. */
  lemma DefragKeepsInv(spl: Spellings, d: Dict)
    requires Inv(spl, d) && d.startId + |d.offsets| <= WORD_RANGE
    ensures Inv(spl, Defragged(d))
  {
    if AnyRemoved(d.offsets) {
      var b, offs := d.block, d.offsets;
      NewIndexed(spl, b, offs);
      NewSorted(spl, b, offs);
      PackedTiled(b, offs);
      SelectSameMultiset(d.predicts, offs);
      MovedSameMultiset(b, offs, SelectLive(d.predicts), SelectLive(offs));
      NewIds(d.startId, MovedAll(b, offs, SelectLive(offs)));
      hide Tiled, Clean, Indexed, Sorted, Distinct, IdsOk, Packed, MovedAll, MovedTo, CountUp, Select,
        SelectLive, AnyRemoved;
    }
  }

  /** The bytes of the records of [p, q) that no flagged offset names, in order. */
  ghost function LiveBytes(b: seq<u8>, dead: set<nat>, p: nat, q: nat): (r: seq<u8>)
    requires Chain(b, p, q)
    decreases q - p
  {
    if p == q then []
    else (if p in dead then [] else b[p..p + Size(b, p)]) + LiveBytes(b, dead, p + Size(b, p), q)
  }

  lemma {:induction false} PackedFrom(b: seq<u8>, offs: seq<u32>, p: nat)
    requires Tiled(b) && Clean(b) && OnStarts(b, offs) && Chain(b, 0, p) && Chain(b, p, |b|)
    ensures Chain(Marked(b, offs), p, |b|)
    ensures Kept(Marked(b, offs), p, |b|) == LiveBytes(b, DeadSet(offs), p, |b|)
    decreases |b| - p
  {
    hide *;
    MarkedChain(b, offs, p, |b|);
    MarkedSame(b, offs);
    if p < |b| {
      StartIs(b, p);
      MarkedFits(b, offs, p);
      MarkedDead(b, offs, p);
      ChainOne(b, p);
      ChainSnocPlain(b, p);
      PackedFrom(b, offs, p + Size(b, p));
      KeptCons(Marked(b, offs), p, |b|);
      LiveCons(b, DeadSet(offs), p);
      if p !in DeadSet(offs) {
        MarkedRecord(b, offs, p);
      }
    } else {
      PackedEnd(b, offs, p);
    }
  }

  lemma StartIs(b: seq<u8>, p: nat)
    requires p < |b| && Chain(b, 0, p) && Chain(b, p, |b|)
    ensures IsStart(b, p)
  {
    hide Chain;
  }

  lemma LiveCons(b: seq<u8>, dead: set<nat>, p: nat)
    requires Chain(b, p, |b|) && p < |b|
    ensures Fits(b, p) && Chain(b, p + Size(b, p), |b|)
    ensures LiveBytes(b, dead, p, |b|) == (if p in dead then [] else b[p..p + Size(b, p)])
              + LiveBytes(b, dead, p + Size(b, p), |b|)
  {
  }

  lemma PackedEnd(b: seq<u8>, offs: seq<u32>, p: nat)
    requires Chain(b, p, |b|) && p >= |b| && Chain(Marked(b, offs), p, |b|)
    ensures Kept(Marked(b, offs), p, |b|) == LiveBytes(b, DeadSet(offs), p, |b|)
  {
  }

  lemma MarkedRecord(b: seq<u8>, offs: seq<u32>, p: nat)
    requires IsStart(b, p) && Clean(b) && OnStarts(b, offs) && p !in DeadSet(offs)
    ensures Marked(b, offs)[p..p + Size(b, p)] == b[p..p + Size(b, p)]
  {
    var n := Size(b, p);
    hide OnStarts, Chain;
    forall i | p <= i < p + n ensures Marked(b, offs)[i] == b[i] {
      if i > p {
        MarkedInside(b, offs, p, i);
      }
    }
  }

  /** The same lemma, before at offset x and after at offset y. */
  ghost predicate SameRecord(d: Dict, e: Dict, x: u32, y: u32) {
    SplidsOf(e.block, y) == SplidsOf(d.block, x) && WordOf(e.block, y) == WordOf(d.block, x)
  }

  /** Compaction preserves the dictionary: the block is exactly the live records in their physical
      order, and the index lists the same live lemmas in the same order, with their scores. */
  lemma CompactionPreserves(spl: Spellings, d: Dict)
    requires Inv(spl, d) && d.startId + |d.offsets| <= WORD_RANGE && AnyRemoved(d.offsets)
    ensures var e := Defragged(d);
            && e.block == LiveBytes(d.block, DeadSet(d.offsets), 0, |d.block|)
            && |e.offsets| == |e.scores| == LiveCount(d.offsets)
            && (forall k :: 0 <= k < LiveCount(d.offsets) ==>
                  && !Removed(e.offsets[k])
                  && SameRecord(d, e, d.offsets[LiveAt(d.offsets, k)], e.offsets[k])
                  && e.scores[k] == d.scores[LiveAt(d.offsets, k)]
                  && e.ids[k] == d.startId + k && e.byId[k] == e.offsets[k])
  {
    hide Tiled, Clean, SplidsOf, WordOf, Packed, MovedTo, DeadSet, AnyRemoved;
    PackedIsLive(d.block, d.offsets);
    forall k | 0 <= k < LiveCount(d.offsets)
      ensures var e := Defragged(d);
              && !Removed(e.offsets[k])
              && SameRecord(d, e, d.offsets[LiveAt(d.offsets, k)], e.offsets[k])
              && e.scores[k] == d.scores[LiveAt(d.offsets, k)]
    {
      NewEntry(spl, d.block, d.offsets, k);
      SelectAt(d.scores, d.offsets, k);
    }
  }

  lemma PackedIsLive(b: seq<u8>, offs: seq<u32>)
    requires Tiled(b) && Clean(b) && OnStarts(b, offs)
    ensures Packed(b, offs) == LiveBytes(b, DeadSet(offs), 0, |b|)
  {
    PackedFrom(b, offs, 0);
  }

  /** Every other list that points into the block follows: each entry of `predicts_`, and each entry
      of `syncs_` that pointed at a live lemma, points at that lemma's moved copy. */
  lemma CompactionFollows(spl: Spellings, d: Dict, k: nat)
    requires Inv(spl, d) && d.startId + |d.offsets| <= WORD_RANGE && AnyRemoved(d.offsets)
    ensures var e := Defragged(d);
            && |e.predicts| == LiveCount(d.predicts) == |e.offsets| && |e.syncs| == |d.syncs|
            && (k < |e.predicts| ==> SameRecord(d, e, d.predicts[LiveAt(d.predicts, k)], e.predicts[k]))
            && (k < |d.syncs| && d.syncs[k] in d.offsets && !Removed(d.syncs[k]) ==>
                  e.syncs[k] in e.offsets && SameRecord(d, e, d.syncs[k], e.syncs[k]))
            && |e.block| + e.sizeLeft == |d.block| + d.sizeLeft && e.countLeft == d.countLeft
  {
    var b, offs := d.block, d.offsets;
    SelectSameMultiset(d.predicts, offs);
    if k < LiveCount(d.predicts) {
      var o := d.predicts[LiveAt(d.predicts, k)];
      assert o in multiset(d.predicts);
      SelectAt(d.predicts, d.predicts, k);
      EntryFollows(spl, b, offs, o);
    }
    if k < |d.syncs| && d.syncs[k] in offs && !Removed(d.syncs[k]) {
      EntryFollows(spl, b, offs, d.syncs[k]);
    }
    hide Tiled, Clean, SplidsOf, WordOf, Packed, MovedTo, AnyRemoved, Indexed, Sorted, Distinct, IdsOk;
  }

  lemma EntryFollows(spl: Spellings, b: seq<u8>, offs: seq<u32>, o: u32)
    requires Tiled(b) && Clean(b) && Indexed(b, offs) && o in offs && !Removed(o)
    ensures var y := MovedTo(b, offs, o);
            && y in MovedAll(b, offs, SelectLive(offs))
            && SplidsOf(Packed(b, offs), y) == SplidsOf(b, o) && WordOf(Packed(b, offs), y) == WordOf(b, o)
  {
    hide Tiled, Clean, SplidsOf, WordOf, Packed, MovedTo;
    var i :| 0 <= i < |offs| && offs[i] == o;
    var k := LiveAtOnto(offs, i);
    NewEntry(spl, b, offs, k);
    assert MovedAll(b, offs, SelectLive(offs))[k] == MovedTo(b, offs, o);
  }

  // ---- The loops of `defragment`, against this specification ----

  lemma NoneRemoved(b: seq<u8>, offs: seq<u32>)
    requires !AnyRemoved(offs)
    ensures Marked(b, offs) == b
  {
    assert DeadSet(offs) == {} by {
      forall o | o in offs ensures !Removed(o) {
        var i :| 0 <= i < |offs| && offs[i] == o;
      }
    }
  }

  lemma {:induction false} SelectAll(xs: seq<u32>, offs: seq<u32>)
    requires |xs| == |offs| && !AnyRemoved(offs)
    ensures Select(xs, offs) == xs
  {
    if offs != [] {
      var n := |offs| - 1;
      forall i | 0 <= i < n ensures !Removed(offs[..n][i]) {
        assert offs[..n][i] == offs[i];
      }
      SelectAll(xs[..n], offs[..n]);
      assert !Removed(offs[n]);
      assert xs == xs[..n] + [xs[n]];
    }
  }

  lemma SameFlags(offs: seq<u32>, predicts: seq<u32>)
    requires multiset(offs) == multiset(predicts)
    ensures AnyRemoved(offs) <==> AnyRemoved(predicts)
  {
    if AnyRemoved(offs) {
      var i :| 0 <= i < |offs| && Removed(offs[i]);
      assert offs[i] in multiset(predicts);
    }
    if AnyRemoved(predicts) {
      var i :| 0 <= i < |predicts| && Removed(predicts[i]);
      assert predicts[i] in multiset(offs);
    }
  }

  /** A block without removed records is live throughout. */
  lemma {:induction false} AllLive(b: seq<u8>, p: nat)
    requires Clean(b) && Chain(b, 0, p) && Chain(b, p, |b|)
    ensures Kept(b, p, |b|) == b[p..]
    decreases |b| - p
  {
    if p < |b| {
      CleanLive(b, p);
      hide Chain, Kept, Clean;
      KeptCons(b, p, |b|);
      ChainSnocPlain(b, p);
      AllLive(b, p + Size(b, p));
    }
  }

  lemma CleanLive(b: seq<u8>, p: nat)
    requires Clean(b) && Chain(b, 0, p) && Chain(b, p, |b|) && p < |b|
    ensures !Dead(b, p)
  {
    assert IsStart(b, p);
  }

  /** A dead record makes the packed block shorter. */
  lemma DeadShortens(b: seq<u8>, p: nat)
    requires Tiled(b) && IsStart(b, p) && Dead(b, p)
    ensures |Kept(b, 0, |b|)| < |b|
  {
    KeptJoin(b, 0, p, |b|);
    KeptCons(b, p, |b|);
  }

  /** The first scan over the marked block reaches the end exactly when nothing is removed. */
  lemma FirstScan(b: seq<u8>, offs: seq<u32>, q: nat)
    requires Tiled(b) && Clean(b) && Indexed(b, offs)
    requires var m := Marked(b, offs);
             Chain(m, 0, q) && Chain(m, q, |m|) && Kept(m, 0, q) == m[0..q] && (q < |m| ==> Dead(m, q))
    ensures q == |b| <==> !AnyRemoved(offs)
  {
    var m := Marked(b, offs);
    MarkedTiled(b, offs);
    if AnyRemoved(offs) {
      var i :| 0 <= i < |offs| && Removed(offs[i]);
      LiveNotDead(b, offs, i);
      DeadShortens(m, Pos(offs[i]));
    } else {
      NoneRemoved(b, offs);
      AllLive(b, 0);
      if q < |b| {
        DeadShortens(b, q);
      }
    }
  }

  /** What the loops need before they start. */
  lemma DefragReady(spl: Spellings, d: Dict)
    requires Inv(spl, d)
    ensures Tiled(d.block) && OnStarts(d.block, d.offsets) && Tiled(Marked(d.block, d.offsets))
    ensures Clean(d.block) && Indexed(d.block, d.offsets) && AllBelow(d.offsets, |d.block|)
    ensures |d.scores| == |d.offsets| && LiveCount(d.predicts) == LiveCount(d.offsets)
    ensures Chain(Marked(d.block, d.offsets), 0, 0) && Kept(Marked(d.block, d.offsets), 0, 0) == []
  {
    MarkedTiled(d.block, d.offsets);
    SelectSameMultiset(d.predicts, d.offsets);
  }

  lemma DefragNothing(spl: Spellings, d: Dict)
    requires Inv(spl, d) && !AnyRemoved(d.offsets) && d.startId + |d.offsets| <= WORD_RANGE
    ensures Defragged(d) == d && Marked(d.block, d.offsets) == d.block && |d.ids| == |d.offsets| == |d.predicts|
    ensures SelectLive(d.offsets) == d.offsets && Select(d.scores, d.offsets) == d.scores
    ensures Select(d.ids, d.offsets) == d.ids && SelectLive(d.predicts) == d.predicts
  {
    NoneRemoved(d.block, d.offsets);
    SameFlags(d.offsets, d.predicts);
    SelectAll(d.offsets, d.offsets);
    SelectAll(d.scores, d.offsets);
    SelectAll(d.ids, d.offsets);
    SelectAll(d.predicts, d.predicts);
    assert |multiset(d.predicts)| == |multiset(d.offsets)|;
    hide Tiled, Clean, Indexed, Sorted, Distinct, Marked, Select, SelectLive;
  }

  lemma DefragIs(spl: Spellings, d: Dict)
    requires Inv(spl, d) && AnyRemoved(d.offsets) && d.startId + |d.offsets| <= WORD_RANGE
    requires Tiled(Marked(d.block, d.offsets))
    ensures LiveCount(d.offsets) <= |d.offsets|
    ensures var m := Marked(d.block, d.offsets);
            var offs := RelocatedAll(m, SelectLive(d.offsets));
            Defragged(d) ==
            Dict(Kept(m, 0, |m|), offs, Select(d.scores, d.offsets), CountUp(d.startId, LiveCount(d.offsets)),
                 RelocatedAll(m, SelectLive(d.predicts)), RelocatedAll(m, d.syncs), offs, d.startId,
                 d.reclaimRatio, d.limitCount, d.limitSize, 0, 0, d.totalFreq, d.countLeft,
                 d.sizeLeft + (|d.block| - |Kept(m, 0, |m|)|), Level.Defragmented)
  {
    hide Tiled, Clean, Indexed, Sorted, Distinct, Marked, Select, SelectLive, Kept, RelocatedAll, CountUp,
      AnyRemoved, LiveCount;
  }
}
