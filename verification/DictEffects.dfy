/** What the operations of the user dictionary leave in its index and in its sync list, entry by entry. */
module DictEffects {
  import opened Bytes
  import opened LemmaBlock
  import opened SpellingOrder
  import opened BlockFacts
  import opened DictModel
  import opened DictFile
  import opened DictCalls

  // ---- Scores ----

  /** A built score: the low half is the frequency, the high half the week since 2009 (in years of 365 days). */
  lemma BuiltScore(lmt: nat, freq: int)
    ensures BuildScore(lmt, freq) % 0x1_0000 == freq % 0x1_0000
    ensures 1229904000 <= lmt < 0x1_0000_0000_0000_0000 ==>
              BuildScore(lmt, freq) / 0x1_0000 == (lmt - 1229904000) / 604800 % 0x1_0000
  {
    assert LMT_SINCE == 1229904000 && LMT_GRANULARITY == 604800;
  }

  lemma BuiltCount(lmt: nat, count: u16)
    ensures BuildScore(lmt, count) % 0x1_0000 == count
    ensures 1229904000 <= lmt < 0x1_0000_0000_0000_0000 ==>
              BuildScore(lmt, count) / 0x1_0000 == (lmt - 1229904000) / 604800 % 0x1_0000
  {
    BuiltScore(lmt, count);
  }

  /** The score that `update_lemma` stores: the step is added to the frequency, which saturates; the time stays, or
      becomes that of the selection. */
  lemma UpdatedHalves(s: u32, delta: int, selected: bool, now: nat)
    requires -0x8000 <= delta < 0x8000
    ensures UpdatedScore(s, delta, selected, now) % 0x1_0000 ==
            if 0 <= delta && s % 0x1_0000 + delta <= 0xFFFF then s % 0x1_0000 + delta else 0xFFFF
    ensures !selected ==> UpdatedScore(s, delta, selected, now) / 0x1_0000 == s / 0x1_0000
    ensures selected && 1229904000 <= now < 0x1_0000_0000_0000_0000 ==>
              UpdatedScore(s, delta, selected, now) / 0x1_0000 == (now - 1229904000) / 604800 % 0x1_0000
  {
    hide BuildScore;
    var f, lmt := ScoreFreq(s), if selected then now else ScoreTime(s);
    var freq := f + Delta(f, delta);
    UpdateSaturates(f, delta, lmt);
    BuiltScore(lmt, freq);
    if !selected {
      ScoreRoundTrip(s);
      BuiltScore(lmt, f);
    }
  }

  /** `update_lemma`: one score changes, and the position of the lemma is queued for synchronisation, last. */
  lemma UpdateLeaves(spl: Spellings, d: Dict, off: nat, delta: int, selected: bool, now: nat)
    requires Inv(spl, d) && off < |d.offsets| && -0x8000 <= delta < 0x8000
    ensures |d.offsets| == |d.scores| == |d.ids| == |d.byId| && d.startId <= d.ids[off] < d.startId + |d.byId|
    ensures var e, s := Updated(d, off, delta, selected, now), d.scores[off];
            && |e.scores| == |d.scores| && (forall i :: 0 <= i < |d.scores| && i != off ==> e.scores[i] == d.scores[i])
            && e.scores[off] % 0x1_0000 ==
               (if 0 <= delta && s % 0x1_0000 + delta <= 0xFFFF then s % 0x1_0000 + delta else 0xFFFF)
            && (!selected ==> e.scores[off] / 0x1_0000 == s / 0x1_0000)
            && (selected && 1229904000 <= now < 0x1_0000_0000_0000_0000 ==>
                  e.scores[off] / 0x1_0000 == (now - 1229904000) / 604800 % 0x1_0000)
            && e.block == d.block && e.offsets == d.offsets && e.predicts == d.predicts && e.ids == d.ids
            && |e.syncs| == |d.syncs| + 1 && e.syncs[..|d.syncs|] == d.syncs
            && Pos(e.syncs[|d.syncs|]) == Pos(d.offsets[off])
  {
    hide Tiled, Indexed, Sorted, Distinct, UpdatedScore, Delta;
    UpdatedHalves(d.scores[off], delta, selected, now);
  }

  // ---- The sync list ----

  /** `remove_lemma_from_sync_list`: the first occurrence of the position is gone, and the last entry is in its place;
      all others stay where they are. */
  lemma DroppedOnce(s: seq<u32>, p: nat)
    ensures (forall k :: 0 <= k < |s| ==> Pos(s[k]) != p) ==> SyncDropped(s, p) == s
    ensures forall i :: 0 <= i < |s| && Pos(s[i]) == p && (forall k :: 0 <= k < i ==> Pos(s[k]) != p) ==>
              && |SyncDropped(s, p)| == |s| - 1 && multiset(SyncDropped(s, p)) + multiset{s[i]} == multiset(s)
              && forall k :: 0 <= k < |s| - 1 ==> SyncDropped(s, p)[k] == s[if k == i then |s| - 1 else k]
  {
    hide *;
    var i := FindPos(s, p, 0);
    DroppedIs(s, p, i);
    if i < |s| {
      LastMoved(s, i);
    }
    forall m | 0 <= m < |s| && Pos(s[m]) == p && (forall k :: 0 <= k < m ==> Pos(s[k]) != p)
      ensures m == i
    {
    }
  }

  lemma DroppedIs(s: seq<u32>, p: nat, i: nat)
    requires i == FindPos(s, p, 0)
    ensures i <= |s| && (i < |s| ==> Pos(s[i]) == p) && (forall k :: 0 <= k < i ==> Pos(s[k]) != p)
    ensures SyncDropped(s, p) == if i < |s| then s[i := s[|s| - 1]][..|s| - 1] else s
  {
  }

  lemma LastMoved(s: seq<u32>, i: nat)
    requires i < |s|
    ensures var r := s[i := s[|s| - 1]][..|s| - 1];
            && |r| == |s| - 1 && multiset(r) + multiset{s[i]} == multiset(s)
            && forall k :: 0 <= k < |s| - 1 ==> r[k] == s[if k == i then |s| - 1 else k]
  {
    LastCounted(s, i, |s| - 1, s[|s| - 1]);
  }

  lemma LastCounted(s: seq<u32>, i: nat, n: nat, x: u32)
    requires i <= n && |s| == n + 1 && x == s[n]
    ensures multiset(s[i := x][..n]) + multiset{s[i]} == multiset(s)
  {
    var front := s[..n];
    assert s == front + [x];
    if i < n {
      assert s[i := x][..n] == front[i := x] && front[i] == s[i];
    } else {
      assert s[i := x][..n] == front;
    }
  }

  /** `remove_lemma`: of the index only the flag of one entry changes, here and in `predicts_`; the sync list loses one
      occurrence of the lemma, if it has any. */
  lemma RemoveLeaves(spl: Spellings, d: Dict, off: nat)
    requires Inv(spl, d) && off < |d.offsets|
    ensures var e := RemovedAt(d, off);
            && e.block == d.block && e.scores == d.scores && e.ids == d.ids && |e.offsets| == |d.offsets|
            && (forall i :: 0 <= i < |d.offsets| ==> Pos(e.offsets[i]) == Pos(d.offsets[i]))
            && (forall i :: 0 <= i < |d.offsets| ==> (Removed(e.offsets[i]) <==> Removed(d.offsets[i]) || i == off))
            && e.syncs == SyncDropped(d.syncs, Pos(d.offsets[off]))
            && e.freeCount == (d.freeCount + 1) % 0x1_0000_0000
            && e.freeSize == (d.freeSize + 2 + 4 * |SplidsOf(d.block, d.offsets[off])|) % 0x1_0000_0000
  {
    RecordLength(spl, d, off);
    hide SyncDropped, PredictFlagged, Inv, SplidsOf;
  }

  lemma RecordLength(spl: Spellings, d: Dict, off: nat)
    requires Inv(spl, d) && off < |d.offsets|
    ensures Fits(d.block, Pos(d.offsets[off]))
      && NChar(d.block, Pos(d.offsets[off])) == |SplidsOf(d.block, d.offsets[off])|
  {
    assert IsStart(d.block, Pos(d.offsets[off]));
  }

  /** `append_a_lemma`: what the block and the index gain, their reserves lose; the frequency is added to the total. */
  lemma AppendLeaves(spl: Spellings, d: Dict, splids: seq<u16>, word: seq<u16>, count: u16, score: u32, j: nat)
    requires |splids| == |word| && CanAppend(d, word) && j <= |d.offsets|
    ensures var e := Appended(spl, d, splids, word, count, score, j);
            && |e.block| == |d.block| + 2 + 4 * |word| && |e.block| + e.sizeLeft == |d.block| + d.sizeLeft
            && |e.offsets| == |d.offsets| + 1 && |e.offsets| + e.countLeft == |d.offsets| + d.countLeft
            && |e.scores| == |e.ids| == |e.predicts| == |e.byId| == |e.offsets|
            && e.totalFreq == (d.totalFreq + count) % 0x1_0000_0000 && e.syncs == d.syncs
            && multiset(e.predicts) == multiset(d.predicts) + multiset{|d.block| as u32}
  {
    hide InsertPos;
    assert d.predicts == d.predicts[..j] + d.predicts[j..];
  }

  /** A new lemma is put after a flush exactly when the reserve of entries or of bytes is used up. */
  lemma FlushedFirst(d: Dict, n: nat)
    requires d.startId + |d.offsets| <= WORD_RANGE
    ensures NeedsFlush(d, n) <==> d.countLeft == 0 || d.sizeLeft < 2 + 4 * n
    ensures Roomy(d, n).countLeft > 0 && (n <= 8 ==> Roomy(d, n).sizeLeft >= 2 + 4 * n)
    ensures Roomy(d, n).offsets == d.offsets && Roomy(d, n).block == d.block && Roomy(d, n).scores == d.scores
  {
    hide CountUp;
  }

  /** `clear_sync_lemmas`: the entries from start to end are gone, what is behind them moves up. */
  lemma ClearLeaves(d: Dict, start: nat, end: nat)
    requires start <= end && start <= |d.syncs|
    ensures var e, n := SyncCleared(d, start, end).syncs, if end > |d.syncs| then |d.syncs| else end;
            && |e| == |d.syncs| - (n - start)
            && (forall k :: 0 <= k < start ==> e[k] == d.syncs[k])
            && (forall k :: start <= k < |e| ==> e[k] == d.syncs[k + (n - start)])
    ensures SyncCleared(d, start, end).(syncs := d.syncs, level := d.level) == d
  {
  }

  /** `put_lemma`: a known lemma is not queued again; a new one is queued last, and its id is the returned one. */
  lemma PutLeaves(spl: Spellings, d: Dict, splids: seq<u16>, word: seq<u16>, count: u16, lmt: nat, off: int, j: nat,
    e: Dict, id: u32)
    requires Inv(spl, d) && |splids| == |word| && PutOutcome(spl, d, splids, word, count, lmt, off, j, e, id)
    ensures |e.offsets| == |d.offsets| ==> e.syncs == d.syncs && (off < 0 ==> id == 0)
    ensures |e.offsets| != |d.offsets| ==>
              && off < 0 && id == e.startId + |d.offsets| && |e.byId| == |d.offsets| + 1
              && e.syncs == d.syncs + [e.byId[|d.offsets|]] && e.byId[|d.offsets|] == |d.block|
  {
    InvLengths(spl, d);
    hide Inv, BuildScore, LimitReached, NeedsFlush, InsertPos;
  }
}
