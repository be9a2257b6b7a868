/** Every operation keeps the index well formed. */
module DictInvariants {
  import opened Bytes
  import opened LemmaBlock
  import opened Partition
  import opened BlockFacts
  import opened SpellingOrder
  import opened DictModel

  // ---- append_a_lemma ----

  lemma InsertedAt(s: seq<u32>, i: nat, x: u32, k: nat)
    requires i <= |s| && k <= |s|
    ensures Inserted(s, i, x)[k] == if k < i then s[k] else if k == i then x else s[k - 1]
  {
  }

  lemma InsertedMultiset(s: seq<u32>, i: nat, x: u32)
    requires i <= |s|
    ensures multiset(Inserted(s, i, x)) == multiset(s) + multiset{x}
  {
    assert s == s[..i] + s[i..];
  }

  /** An old entry reads the same in the longer block. */
  lemma AppendOld(spl: Spellings, b: seq<u8>, r: seq<u8>, o: u32)
    requires IsStart(b, Pos(o))
    ensures SplidsOf(b + r, o) == SplidsOf(b, o) && WordOf(b + r, o) == WordOf(b, o)
    ensures KeyOf(spl, b + r, o) == KeyOf(spl, b, o)
  {
    AppendReads(b, r, Pos(o));
  }

  lemma AppendNew(spl: Spellings, b: seq<u8>, splids: seq<u16>, word: seq<u16>)
    requires 1 <= |splids| == |word| <= MAX_LEMMA_SIZE && |b| < REMOVE_FLAG
    ensures var c := b + Record(splids, word);
            SplidsOf(c, |b|) == splids && WordOf(c, |b|) == word && KeyOf(spl, c, |b|) == spl.Initials(splids)
  {
    AppendReadsNew(b, splids, word);
  }

  lemma AppendIndexed(b: seq<u8>, r: seq<u8>, offs: seq<u32>, i: nat)
    requires Tiled(b) && Indexed(b, offs) && Fits(r, 0) && Size(r, 0) == |r| && |b| < REMOVE_FLAG && i <= |offs|
    ensures Indexed(b + r, Inserted(offs, i, |b|))
  {
    hide Chain, Tiled, IsStart;
    var c, news := b + r, Inserted(offs, i, |b|);
    AppendStarts(b, r);
    InsertedPositions(offs, i, |b|);
    StartsBelow(b, offs);
    forall k | 0 <= k < |news| ensures IsStart(c, Pos(news[k])) {
      InsertedAt(offs, i, |b|, k);
    }
    forall j, k | 0 <= j < k < |news| ensures Pos(news[j]) != Pos(news[k]) {
      InsertedAt(offs, i, |b|, j);
      InsertedAt(offs, i, |b|, k);
    }
    forall p: nat | IsStart(c, p) ensures p in Positions(news) {
    }
  }

  lemma StartsBelow(b: seq<u8>, offs: seq<u32>)
    requires OnStarts(b, offs)
    ensures forall i :: 0 <= i < |offs| ==> Pos(offs[i]) < |b|
  {
  }

  lemma InsertedPositions(offs: seq<u32>, i: nat, x: u32)
    requires i <= |offs|
    ensures Positions(Inserted(offs, i, x)) == Positions(offs) + {Pos(x) as nat}
  {
    var news := Inserted(offs, i, x);
    forall p | p in Positions(offs) ensures p in Positions(news) {
      var k :| 0 <= k < |offs| && Pos(offs[k]) == p;
      InsertedAt(offs, i, x, if k < i then k else k + 1);
    }
    InsertedAt(offs, i, x, i);
    forall p | p in Positions(news) ensures p in Positions(offs) + {Pos(x) as nat} {
      var k :| 0 <= k < |news| && Pos(news[k]) == p;
      InsertedAt(offs, i, x, k);
    }
  }

  lemma AppendSorted(spl: Spellings, b: seq<u8>, splids: seq<u16>, word: seq<u16>, offs: seq<u32>)
    requires 1 <= |splids| == |word| <= MAX_LEMMA_SIZE && |b| < REMOVE_FLAG
    requires OnStarts(b, offs) && Sorted(spl, b, offs)
    ensures Sorted(spl, b + Record(splids, word),
                   Inserted(offs, InsertPos(spl, b + Record(splids, word), offs, spl.Initials(splids)), |b|))
  {
    hide IsStart, Record;
    var c, k := b + Record(splids, word), spl.Initials(splids);
    var i := InsertPos(spl, c, offs, k);
    var news := Inserted(offs, i, |b|);
    AppendNew(spl, b, splids, word);
    forall j | 0 <= j < |offs| ensures KeyOf(spl, c, offs[j]) == KeyOf(spl, b, offs[j]) {
      AppendOld(spl, b, Record(splids, word), offs[j]);
    }
    hide KeyOf, SplidsOf, Compare;
    forall x, y | 0 <= x < y < |news|
      ensures Compare(KeyOf(spl, c, news[x]), KeyOf(spl, c, news[y])) <= 0
    {
      InsertedAt(offs, i, |b|, x);
      InsertedAt(offs, i, |b|, y);
      if x == i {
        CompareOrder(k, KeyOf(spl, c, offs[i]), KeyOf(spl, c, offs[y - 1]));
      }
    }
  }

  lemma AppendIds(startId: u32, ids: seq<u32>, byId: seq<u32>, offs: seq<u32>, i: nat, x: u32, id: u32)
    requires IdsOk(startId, ids, byId, offs) && i <= |offs| && id == startId + |offs|
    ensures IdsOk(startId, Inserted(ids, i, id), byId + [x], Inserted(offs, i, x))
  {
    var news, nids := Inserted(offs, i, x), Inserted(ids, i, id);
    forall k | 0 <= k < |nids|
      ensures startId <= nids[k] < startId + |nids| && Pos((byId + [x])[nids[k] - startId]) == Pos(news[k])
    {
      InsertedAt(offs, i, x, k);
      InsertedAt(ids, i, id, k);
    }
  }

  lemma AppendDistinct(spl: Spellings, b: seq<u8>, splids: seq<u16>, word: seq<u16>, offs: seq<u32>, i: nat)
    requires 1 <= |splids| == |word| <= MAX_LEMMA_SIZE && |b| < REMOVE_FLAG && i <= |offs|
    requires OnStarts(b, offs) && Distinct(b, offs)
    requires forall k :: 0 <= k < |offs| && !Removed(offs[k]) ==> !Holds(b, offs[k], splids, word)
    ensures Distinct(b + Record(splids, word), Inserted(offs, i, |b|))
  {
    hide IsStart, Record;
    var c := b + Record(splids, word);
    var news := Inserted(offs, i, |b|);
    AppendNew(spl, b, splids, word);
    forall j | 0 <= j < |offs|
      ensures SplidsOf(c, offs[j]) == SplidsOf(b, offs[j]) && WordOf(c, offs[j]) == WordOf(b, offs[j])
    {
      AppendOld(spl, b, Record(splids, word), offs[j]);
    }
    hide SplidsOf, WordOf;
    forall x, y | 0 <= x < y < |news| && !Removed(news[x]) && !Removed(news[y])
      ensures !SameLemma(c, news[x], news[y])
    {
      InsertedAt(offs, i, |b|, x);
      InsertedAt(offs, i, |b|, y);
    }
  }

  /** The entry holds exactly this spelling and word. */
  ghost predicate Holds(b: seq<u8>, o: u32, splids: seq<u16>, word: seq<u16>) {
    SplidsOf(b, o) == splids && WordOf(b, o) == word
  }

  lemma AppendClean(b: seq<u8>, splids: seq<u16>, word: seq<u16>)
    requires 1 <= |splids| == |word| <= MAX_LEMMA_SIZE && Tiled(b) && Clean(b)
    ensures Tiled(b + Record(splids, word)) && Clean(b + Record(splids, word))
  {
    var r := Record(splids, word);
    RecordReads(splids, word);
    AppendReadsNew(b, splids, word);
    hide Chain, Tiled, IsStart, Record;
    AppendStarts(b, r);
    forall p: nat | IsStart(b + r, p) ensures (b + r)[p] == 0 {
      if p != |b| {
        AppendReads(b, r, p);
      }
    }
  }

  /** `append_a_lemma` keeps the index well formed, when the word was not there. */
  lemma AppendKeepsInv(spl: Spellings, d: Dict, splids: seq<u16>, word: seq<u16>, count: u16, score: u32, j: nat)
    requires Inv(spl, d) && |splids| == |word| && CanAppend(d, word) && j <= |d.offsets|
    requires forall k :: 0 <= k < |d.offsets| && !Removed(d.offsets[k]) ==> !Holds(d.block, d.offsets[k], splids, word)
    ensures Inv(spl, Appended(spl, d, splids, word, count, score, j))
  {
    var r, off: u32, id := Record(splids, word), |d.block|, NextId(d);
    var i := InsertPos(spl, d.block + r, d.offsets, spl.Initials(splids));
    RecordReads(splids, word);
    AppendClean(d.block, splids, word);
    hide Chain, Tiled, IsStart, OnStarts, Record, Clean, Holds, Inserted, InsertPos, Sorted, IdsOk, Distinct,
      Raise, Fits, Positions;
    AppendIndexed(d.block, r, d.offsets, i);
    AppendSorted(spl, d.block, splids, word, d.offsets);
    AppendIds(d.startId, d.ids, d.byId, d.offsets, i, off, id);
    AppendDistinct(spl, d.block, splids, word, d.offsets, i);
    InsertedMultiset(d.offsets, i, off);
    InsertedMultiset(d.predicts, j, off);
  }

  // ---- remove_lemma_by_offset_index ----

  lemma FlaggedPositions(offs: seq<u32>, i: nat)
    requires i < |offs|
    ensures var f := offs[i := SetRemoved(offs[i])];
            Positions(f) == Positions(offs) && forall k :: 0 <= k < |offs| ==> Pos(f[k]) == Pos(offs[k])
  {
    var f := offs[i := SetRemoved(offs[i])];
    assert forall k :: 0 <= k < |offs| ==> Pos(f[k]) == Pos(offs[k]);
    forall p | p in Positions(offs) ensures p in Positions(f) {
      var k :| 0 <= k < |offs| && Pos(offs[k]) == p;
      assert Pos(f[k]) == p;
    }
    forall p | p in Positions(f) ensures p in Positions(offs) {
      var k :| 0 <= k < |f| && Pos(f[k]) == p;
      assert Pos(offs[k]) == p;
    }
  }

  lemma FlaggedIndexed(spl: Spellings, b: seq<u8>, offs: seq<u32>, i: nat)
    requires i < |offs| && Indexed(b, offs) && Sorted(spl, b, offs) && Distinct(b, offs)
    ensures var f := offs[i := SetRemoved(offs[i])]; Indexed(b, f) && Sorted(spl, b, f) && Distinct(b, f)
  {
    hide IsStart, Compare;
    FlaggedPositions(offs, i);
    var f := offs[i := SetRemoved(offs[i])];
    assert forall k :: 0 <= k < |offs| ==> KeyOf(spl, b, f[k]) == KeyOf(spl, b, offs[k]);
  }

  /** Distinct positions: at most one entry of the multiset has a given position. */
  lemma FlaggedPredicts(offs: seq<u32>, predicts: seq<u32>, i: nat)
    requires i < |offs| && multiset(predicts) == multiset(offs)
    requires forall j, k :: 0 <= j < k < |offs| ==> Pos(offs[j]) != Pos(offs[k])
    ensures multiset(PredictFlagged(predicts, Pos(offs[i]))) == multiset(offs[i := SetRemoved(offs[i])])
  {
    var o := offs[i];
    var k := FindPos(predicts, Pos(o), 0);
    assert o in multiset(offs);
    var j :| 0 <= j < |predicts| && predicts[j] == o;
    assert k < |predicts|;
    assert predicts[k] in multiset(predicts);
    assert predicts[k] in offs;
  }

  lemma FlaggedIds(startId: u32, ids: seq<u32>, byId: seq<u32>, offs: seq<u32>, i: nat)
    requires i < |offs| && IdsOk(startId, ids, byId, offs)
    ensures IdsOk(startId, ids, byId, offs[i := SetRemoved(offs[i])])
  {
    FlaggedPositions(offs, i);
    hide SetRemoved, Pos, Positions;
  }

  lemma RemovedFields(d: Dict, off: nat)
    requires off < |d.offsets|
    ensures var e := RemovedAt(d, off);
            && e.block == d.block && e.offsets == d.offsets[off := SetRemoved(d.offsets[off])] && e.scores == d.scores
               && e.ids == d.ids
            && e.byId == d.byId && e.startId == d.startId
               && e.predicts == PredictFlagged(d.predicts, Pos(d.offsets[off]))
  {
  }

  lemma RemoveKeepsInv(spl: Spellings, d: Dict, off: nat)
    requires Inv(spl, d) && off < |d.offsets|
    ensures Inv(spl, RemovedAt(d, off))
  {
    hide *;
    InvGives(spl, d);
    RemovedFields(d, off);
    IndexedApart(d.block, d.offsets);
    FlaggedIndexed(spl, d.block, d.offsets, off);
    FlaggedPredicts(d.offsets, d.predicts, off);
    FlaggedIds(d.startId, d.ids, d.byId, d.offsets, off);
    InvIs(spl, RemovedAt(d, off));
  }

  lemma IndexedApart(b: seq<u8>, offs: seq<u32>)
    requires Indexed(b, offs)
    ensures forall i, j :: 0 <= i < j < |offs| ==> Pos(offs[i]) != Pos(offs[j])
  {
    hide OnStarts, IsStart, Positions;
  }

  /** Removal hides one entry and nothing else. */
  lemma RemoveEffect(d: Dict, off: nat, i: nat)
    requires off < |d.offsets| && i < |d.offsets|
    ensures var e := RemovedAt(d, off);
            && Pos(e.offsets[i]) == Pos(d.offsets[i])
            && (Removed(e.offsets[i]) <==> i == off || Removed(d.offsets[i]))
            && e.scores == d.scores && e.ids == d.ids && e.block == d.block
  {
  }

  // ---- flush_cache: write back and load ----

  lemma ReloadKeepsInv(spl: Spellings, d: Dict)
    requires Inv(spl, d) && d.startId + |d.offsets| <= WORD_RANGE
    ensures Inv(spl, Reloaded(d))
  {
    hide *;
    InvGives(spl, d);
    ReloadedFields(d);
    CountUpIds(d.startId, d.offsets);
    InvIs(spl, Reloaded(d));
  }

  lemma ReloadedFields(d: Dict)
    requires d.startId + |d.offsets| <= WORD_RANGE
    ensures var e := Reloaded(d);
            && e.block == d.block && e.offsets == d.offsets && e.scores == d.scores && e.predicts == d.predicts
               && e.startId == d.startId
            && e.ids == CountUp(d.startId, |d.offsets|) && e.byId == d.offsets
  {
    hide CountUp;
  }

  lemma CountUpIds(startId: u32, offs: seq<u32>)
    requires startId + |offs| <= WORD_RANGE
    ensures IdsOk(startId, CountUp(startId, |offs|), offs, offs)
  {
    var ids := CountUp(startId, |offs|);
    assert forall i :: 0 <= i < |ids| ==> ids[i] == startId + i;
    hide CountUp;
    CountedOk(startId, ids, offs);
  }

  lemma CountedOk(startId: u32, ids: seq<u32>, offs: seq<u32>)
    requires |ids| == |offs| && forall i :: 0 <= i < |ids| ==> ids[i] == startId + i
    ensures IdsOk(startId, ids, offs, offs)
  {
    hide Pos;
  }

  lemma RescoreKeepsInv(spl: Spellings, d: Dict, off: nat, score: u32, delta: int)
    requires Inv(spl, d) && off < |d.scores|
    ensures Inv(spl, Rescored(d, off, score, delta))
  {
    hide *;
    InvGives(spl, d);
    RescoredKeeps(d, off, score, delta);
    InvIs(spl, Rescored(d, off, score, delta));
  }

  lemma RescoredKeeps(d: Dict, off: nat, score: u32, delta: int)
    requires off < |d.scores|
    ensures var e := Rescored(d, off, score, delta);
            && e.block == d.block && e.offsets == d.offsets && |e.scores| == |d.scores| && e.predicts == d.predicts
               && e.startId == d.startId
            && e.ids == d.ids && e.byId == d.byId
  {
  }
}
