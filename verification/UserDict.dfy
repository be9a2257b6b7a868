/** The user dictionary object: arrays that are changed in place, and the file behind them. */
module UserDictionary {
  import opened Bytes
  import opened LemmaBlock
  import opened Partition
  import opened BlockFacts
  import opened SpellingOrder
  import opened DictModel
  import opened DictInvariants
  import opened Defragment
  import opened DictFile
  import opened DictQuery
  import opened LookupCache
  import opened DictLocate
  import opened DictCalls
  import opened DictEffects
  import opened ArrayOps
  import opened Disk
  import ScoreHeap

  /** UserDictInfo. */
  datatype Info = Info(
    reclaimRatio: u32, limitCount: u32, limitSize: u32, lemmaCount: nat, lemmaSize: nat,
    freeCount: u32, freeSize: u32, syncCount: nat, totalFreq: u32)

  class UserDict {
    const spl: Spellings
    const disk: DiskFile
    var lemmas: array<u8>
    var offsets: array<u32>
    var scores: array<u32>
    var ids: array<u32>
    var predicts: array<u32>
    var syncs: array<u32>
    var byId: array<u32>
    var info: Info
    var countLeft: nat
    var sizeLeft: nat
    var startId: u32
    var state: Level
    var caches: Caches

    /** The arrays in use. */
    ghost function Arrays(): (s: set<object>)
      reads this
    {
      {lemmas as object, offsets, scores, ids, predicts, syncs, byId}
    }

    /** The buffers are large enough for what is used and what is left, and they are different buffers. */
    ghost predicate Shape()
      reads this
    {
      && info.lemmaSize + sizeLeft <= lemmas.Length
      && info.lemmaCount + countLeft <= offsets.Length && info.lemmaCount + countLeft <= scores.Length
      && info.lemmaCount + countLeft <= ids.Length && info.lemmaCount + countLeft <= predicts.Length
      && info.lemmaCount + countLeft <= byId.Length
      && info.syncCount <= syncs.Length
      && Separate(offsets, scores, ids, predicts, syncs, byId)
    }

    static ghost predicate Separate(o: array<u32>, s: array<u32>, i: array<u32>, p: array<u32>,
      y: array<u32>, b: array<u32>) {
      && o != s && o != i && o != p && o != y && o != b && s != i && s != p && s != y && s != b
      && i != p && i != y && i != b && p != y && p != b && y != b
    }

    /** The used parts of the buffers, as a value. */
    function Snapshot(): (d: Dict)
      requires Shape()
      reads this, Arrays()
    {
      Dict(lemmas[..info.lemmaSize], offsets[..info.lemmaCount], scores[..info.lemmaCount], ids[..info.lemmaCount],
        predicts[..info.lemmaCount],
           syncs[..info.syncCount], byId[..info.lemmaCount], startId, info.reclaimRatio, info.limitCount,
             info.limitSize, info.freeCount, info.freeSize,
           info.totalFreq, countLeft, sizeLeft, state)
    }

    /** What `Shape` and `Snapshot` say, field by field. */
    lemma Open()
      requires Shape()
      ensures info.lemmaSize + sizeLeft <= lemmas.Length
      ensures info.lemmaCount + countLeft <= offsets.Length && info.lemmaCount + countLeft <= scores.Length
      ensures info.lemmaCount + countLeft <= ids.Length && info.lemmaCount + countLeft <= predicts.Length
      ensures info.lemmaCount + countLeft <= byId.Length && info.syncCount <= syncs.Length
      ensures offsets != scores && offsets != ids && offsets != predicts && offsets != syncs && offsets != byId
      ensures scores != ids && scores != predicts && scores != syncs && scores != byId
      ensures ids != predicts && ids != syncs && ids != byId
      ensures predicts != syncs && predicts != byId && syncs != byId
      ensures Separate(offsets, scores, ids, predicts, syncs, byId)
    {
    }

    lemma Writable()
      ensures Arrays() == {lemmas as object, offsets, scores, ids, predicts, syncs, byId}
    {
    }

    lemma ReadBack()
      requires Shape()
      ensures info.lemmaSize <= lemmas.Length && info.lemmaCount <= offsets.Length && info.lemmaCount <= scores.Length
      ensures info.lemmaCount <= ids.Length && info.lemmaCount <= predicts.Length && info.lemmaCount <= byId.Length
        && info.syncCount <= syncs.Length
      ensures Snapshot() ==
              Dict(lemmas[..info.lemmaSize], offsets[..info.lemmaCount], scores[..info.lemmaCount],
                ids[..info.lemmaCount], predicts[..info.lemmaCount],
                   syncs[..info.syncCount], byId[..info.lemmaCount], startId, info.reclaimRatio, info.limitCount,
                     info.limitSize, info.freeCount, info.freeSize,
                   info.totalFreq, countLeft, sizeLeft, state)
    {
    }

    lemma Close()
      requires info.lemmaSize + sizeLeft <= lemmas.Length
      requires info.lemmaCount + countLeft <= offsets.Length && info.lemmaCount + countLeft <= scores.Length
      requires info.lemmaCount + countLeft <= ids.Length && info.lemmaCount + countLeft <= predicts.Length
      requires info.lemmaCount + countLeft <= byId.Length && info.syncCount <= syncs.Length
      requires Separate(offsets, scores, ids, predicts, syncs, byId)
      ensures Shape()
    {
    }

    /** What holds of a loaded dictionary between calls. */
    ghost predicate Valid()
      reads this, Arrays(), disk
    {
      && Shape() && spl.Valid() && state != NotLoaded && startId < REMOVE_FLAG
      && SysInv(spl, Sys(Snapshot(), disk.data))
    }

    /** The caches answer as the index would; only `defragment`, which must be followed by `flush_cache`, and a
        query that fills its buffer break this. */
    ghost predicate Coherent()
      requires Shape()
      reads this, Arrays()
    {
      CachesInRange(Snapshot(), caches) && CachesOk(spl, Snapshot(), caches)
    }

    /** A dictionary that is not loaded, or one that is in order. */
    ghost predicate Ready()
      reads this, Arrays(), disk
    {
      Shape() && (state != NotLoaded ==> Valid() && Coherent())
    }

    lemma IsReady()
      requires Shape() && (state != NotLoaded ==> Valid() && Coherent())
      ensures Ready()
    {
    }

    lemma InOrder()
      requires Valid() && Coherent()
      ensures Ready()
    {
    }

    lemma ReadyGives()
      requires Ready()
      ensures Shape() && (state != NotLoaded ==> Valid() && Coherent())
    {
    }

    lemma IsValid()
      requires Shape() && spl.Valid() && state != NotLoaded && startId < REMOVE_FLAG
      requires SysInv(spl, Sys(Snapshot(), disk.data))
      ensures Valid()
    {
    }

    lemma CoherentIs()
      requires Shape()
      ensures Coherent() <==> CachesInRange(Snapshot(), caches) && CachesOk(spl, Snapshot(), caches)
    {
    }

    lemma ValidGives()
      requires Valid()
      ensures Shape() && spl.Valid() && state != NotLoaded && startId < REMOVE_FLAG
      ensures SysInv(spl, Sys(Snapshot(), disk.data))
    {
    }

    /** The state before `load_dict`. */
    constructor (spl: Spellings, disk: DiskFile)
      ensures this.spl == spl && this.disk == disk && state == NotLoaded && Shape() && fresh(Arrays())
      ensures caches == EmptyCaches()
    {
      this.spl, this.disk := spl, disk;
      lemmas, offsets, scores, ids := new u8[0](_ => 0), new u32[0](_ => 0), new u32[0](_ => 0), new u32[0](_ => 0);
      predicts, syncs, byId := new u32[0](_ => 0), new u32[0](_ => 0), new u32[0](_ => 0);
      info, countLeft, sizeLeft, startId := Info(0, 0, 0, 0, 0, 0, 0, 0, 0), 0, 0, 0;
      state, caches := NotLoaded, EmptyCaches();
    }

    // ---- append_a_lemma ----

    /** The binary search by word that `locate_where_to_insert_in_predicts` runs over `offsets_`. */
    static method WhereInPredicts(b: seq<u8>, offsets: array<u32>, word: seq<u16>, n: nat) returns (j: nat)
      requires n < offsets.Length
      ensures j <= n
    {
      var begin, end := 0, n;
      j := end;
      while begin <= end
        invariant 0 <= begin <= end + 1 <= n + 1 && j <= n
        decreases end - begin + 1
      {
        var middle: nat := (begin + end) / 2;
        var ws := WordOf(b, offsets[middle]);
        var cmp := CompareWords(ws, word);
        if cmp < 0 {
          begin := middle + 1;
          j := middle;
        } else if cmp > 0 {
          end := middle - 1;
        } else {
          end := middle - 1;
          j := middle;
        }
      }
    }

    static method CompareWords(ws: seq<u16>, words: seq<u16>) returns (cmp: int)
      ensures cmp == 0 <==> ws == words
    {
      var minl := if |ws| < |words| then |ws| else |words|;
      var k := 0;
      while k < minl
        invariant k <= minl && forall j :: 0 <= j < k ==> ws[j] == words[j]
      {
        if ws[k] < words[k] {
          return -1;
        } else if ws[k] > words[k] {
          return 1;
        }
        k := k + 1;
      }
      cmp := if |ws| < |words| then -1 else if |ws| > |words| then 1 else 0;
    }

    /** The sort loop: the first old entry whose key is not below the new one. */
    static method SortPosition(spl: Spellings, b: seq<u8>, offs: seq<u32>, splids: seq<u16>) returns (i: nat)
      requires spl.Valid() && |splids| <= MAX_LEMMA_SIZE
      ensures i == InsertPos(spl, b, offs, spl.Initials(splids))
    {
      hide *;
      var q := PrepareLocate(spl, splids);
      i := 0;
      InsertStart(spl, b, offs, spl.Initials(splids));
      while i < |offs|
        invariant i <= |offs|
        invariant forall j :: 0 <= j < i ==> Compare(KeyOf(spl, b, offs[j]), spl.Initials(splids)) < 0
        invariant InsertFrom(spl, b, offs, spl.Initials(splids), i) == InsertPos(spl, b, offs, spl.Initials(splids))
      {
        InsertStep(spl, b, offs, spl.Initials(splids), i);
        var cmp := FuzzyCompare(spl, SplidsOf(b, offs[i]), q, splids);
        if 0 <= cmp {
          return;
        }
        i := i + 1;
      }
      InsertStep(spl, b, offs, spl.Initials(splids), i);
    }

    static lemma InsertStart(spl: Spellings, b: seq<u8>, offs: seq<u32>, k: seq<u8>)
      ensures InsertPos(spl, b, offs, k) == InsertFrom(spl, b, offs, k, 0)
    {
    }

    static lemma InsertStep(spl: Spellings, b: seq<u8>, offs: seq<u32>, k: seq<u8>, i: nat)
      requires i <= |offs| && forall j :: 0 <= j < i ==> Compare(KeyOf(spl, b, offs[j]), k) < 0
      ensures i == |offs| ==> InsertFrom(spl, b, offs, k, i) == i
      ensures i < |offs| ==> KeyOf(spl, b, offs[i]) == spl.Initials(SplidsOf(b, offs[i]))
      ensures i < |offs| && Compare(KeyOf(spl, b, offs[i]), k) >= 0 ==> InsertFrom(spl, b, offs, k, i) == i
      ensures i < |offs| && Compare(KeyOf(spl, b, offs[i]), k) < 0 ==>
                InsertFrom(spl, b, offs, k, i) == InsertFrom(spl, b, offs, k, i + 1)
    {
    }

    /** `append_a_lemma`, for an offset that still fits below the flag bit; `j` is where the new entry went in
        `predicts_`. */
    method AppendLemma(splids: seq<u16>, word: seq<u16>, count: u16, lmt: nat) returns (id: u32, ghost j: nat)
      requires Shape() && spl.Valid() && |splids| == |word| && CanAppend(Snapshot(), word)
      modifies this, Arrays()
      ensures Shape() && caches == EmptyCaches()
      ensures lemmas == old(lemmas) && offsets == old(offsets) && scores == old(scores) && ids == old(ids)
      ensures predicts == old(predicts) && syncs == old(syncs) && byId == old(byId)
      ensures j <= |old(Snapshot()).offsets|
      ensures Snapshot() == Appended(spl, old(Snapshot()), splids, word, count, BuildScore(lmt, count), j)
      ensures id == NextId(old(Snapshot()))
    {
      hide *;
      ghost var d := Snapshot();
      Open();
      ReadBack();
      Writable();
      AppendFits(d, word);
      var off, offset: u32, size, score := info.lemmaCount, info.lemmaSize, 2 + 4 * |word|, BuildScore(lmt, count);
      id := startId + off;
      ghost var i;
      i, j := StoreSorted(spl, lemmas, offset, offsets, scores, ids, predicts, byId, off, splids, word, score, id);
      info := info.(lemmaCount := off + 1, lemmaSize := offset + size,
        totalFreq := (info.totalFreq + count) % WORD_RANGE);
      countLeft, sizeLeft, state, caches := countLeft - 1, sizeLeft - size, Raise(state, LemmaDirty), EmptyCaches();
      Close();
      ReadBack();
      AppendedIs(spl, d, splids, word, count, score, j);
    }

    /** The record, and the new entry at its sorted place in the three parallel arrays. */
    static method StoreSorted(spl: Spellings, lemmas: array<u8>, offset: u32, offsets: array<u32>, scores: array<u32>,
                              ids: array<u32>, predicts: array<u32>, byId: array<u32>, off: nat, splids: seq<u16>,
                              word: seq<u16>, score: u32, id: u32)
      returns (i: nat, j: nat)
      requires spl.Valid() && |splids| == |word| <= MAX_LEMMA_SIZE && offset + 2 + 4 * |word| <= lemmas.Length
      requires off < offsets.Length && off < scores.Length && off < ids.Length && off < predicts.Length
        && off < byId.Length
      requires offsets != scores && offsets != ids && offsets != predicts && offsets != byId
      requires scores != ids && scores != predicts && scores != byId && ids != predicts && ids != byId
        && predicts != byId
      modifies lemmas, offsets, scores, ids, predicts, byId
      ensures i <= off && j <= off && predicts[..off + 1] == Inserted(old(predicts[..off]), j, offset)
      ensures lemmas[..offset + 2 + 4 * |word|] == old(lemmas[..offset]) + Record(splids, word)
      ensures i == InsertPos(spl, lemmas[..offset + 2 + 4 * |word|], old(offsets[..off]), spl.Initials(splids))
      ensures offsets[..off + 1] == Inserted(old(offsets[..off]), i, offset)
      ensures scores[..off + 1] == Inserted(old(scores[..off]), i, score)
      ensures ids[..off + 1] == Inserted(old(ids[..off]), i, id)
      ensures byId[..off + 1] == old(byId[..off]) + [offset]
    {
      hide Inserted, InsertPos, Record;
      StoreRecord(lemmas, offset, splids, word);
      StoreEntry(offsets, scores, ids, byId, off, offset, score, id);
      i := SortPosition(spl, lemmas[..offset + 2 + 4 * |word|], offsets[..off], splids);
      SortEntry(offsets, scores, ids, i, off);
      j := WhereInPredicts(lemmas[..offset + 2 + 4 * |word|], offsets, word, off);
      PutPredict(predicts, j, off, offset);
    }

    /** The new offset at its place in `predicts_`. */
    static method PutPredict(predicts: array<u32>, j: nat, off: nat, offset: u32)
      requires j <= off < predicts.Length
      modifies predicts
      ensures predicts[..off + 1] == Inserted(old(predicts[..off]), j, offset)
    {
      hide *;
      predicts[off] := offset;
      InsertLast(predicts, j, off);
    }

    static lemma AppendFits(d: Dict, word: seq<u16>)
      requires CanAppend(d, word)
      ensures 1 <= |word| <= MAX_LEMMA_SIZE && |d.block| < REMOVE_FLAG < WORD_RANGE
        && d.startId + |d.offsets| < WORD_RANGE
      ensures d.countLeft > 0 && d.sizeLeft >= 2 + 4 * |word| && WORD_RANGE == 0x1_0000_0000
    {
    }

    static lemma AppendedIs(spl: Spellings, d: Dict, splids: seq<u16>, word: seq<u16>, count: u16, score: u32, j: nat)
      requires |splids| == |word| && CanAppend(d, word) && j <= |d.offsets|
      ensures var b, off: u32, id := d.block + Record(splids, word), |d.block|, NextId(d);
              var i := InsertPos(spl, b, d.offsets, spl.Initials(splids));
              Appended(spl, d, splids, word, count, score, j) ==
              Dict(b, Inserted(d.offsets, i, off), Inserted(d.scores, i, score), Inserted(d.ids, i, id),
                   Inserted(d.predicts, j, off), d.syncs, d.byId + [off], d.startId, d.reclaimRatio, d.limitCount,
                   d.limitSize, d.freeCount, d.freeSize, (d.totalFreq + count) % WORD_RANGE, d.countLeft - 1,
                   d.sizeLeft - (2 + 4 * |word|), Raise(d.level, LemmaDirty))
    {
      hide InsertPos, Inserted, Record, Raise, NextId, CanAppend;
    }

    /** The new entry at the end of the index arrays. */
    static method StoreEntry(offsets: array<u32>, scores: array<u32>, ids: array<u32>, byId: array<u32>,
                             off: nat, offset: u32, score: u32, id: u32)
      requires off < offsets.Length && off < scores.Length && off < ids.Length && off < byId.Length
      requires offsets != scores && offsets != ids && offsets != byId && scores != ids && scores != byId && ids != byId
      modifies offsets, scores, ids, byId
      ensures offsets[..off] == old(offsets[..off]) && scores[..off] == old(scores[..off])
        && ids[..off] == old(ids[..off])
      ensures offsets[off] == offset && scores[off] == score && ids[off] == id
      ensures byId[..off + 1] == old(byId[..off]) + [offset]
    {
      offsets[off] := offset;
      scores[off] := score;
      ids[off] := id;
      byId[off] := offset;
    }

    /** The last entry of the three parallel arrays goes to index i. */
    static method SortEntry(offsets: array<u32>, scores: array<u32>, ids: array<u32>, i: nat, off: nat)
      requires i <= off < offsets.Length && off < scores.Length && off < ids.Length
      requires offsets != scores && offsets != ids && scores != ids
      modifies offsets, scores, ids
      ensures offsets[..off + 1] == Inserted(old(offsets[..off]), i, old(offsets[off]))
      ensures scores[..off + 1] == Inserted(old(scores[..off]), i, old(scores[off]))
      ensures ids[..off + 1] == Inserted(old(ids[..off]), i, old(ids[off]))
    {
      hide *;
      if i != off {
        InsertLast(offsets, i, off);
        InsertLast(scores, i, off);
        InsertLast(ids, i, off);
      } else {
        InsertedAtEnd(offsets[..off], offsets[off]);
        InsertedAtEnd(scores[..off], scores[off]);
        InsertedAtEnd(ids[..off], ids[off]);
      }
    }

    static lemma InsertedAtEnd(s: seq<u32>, x: u32)
      ensures s + [x] == Inserted(s, |s|, x)
    {
    }

    // ---- Changes to one entry ----

    /** `scores_[off] = build_score(lmt, count)`, with the frequency total and the dirty level. */
    method Rescore(off: nat, score: u32, delta: int)
      requires Shape() && off < info.lemmaCount
      modifies this, scores
      ensures Shape()
      ensures lemmas == old(lemmas) && offsets == old(offsets) && scores == old(scores) && ids == old(ids)
      ensures predicts == old(predicts) && syncs == old(syncs) && byId == old(byId) && caches == old(caches)
      ensures Snapshot() == Rescored(old(Snapshot()), off, score, delta)
    {
      hide Raise;
      ghost var d := Snapshot();
      scores[off] := score;
      info := info.(totalFreq := (info.totalFreq + delta) % WORD_RANGE);
      state := Raise(state, ScoreDirty);
      assert scores[..info.lemmaCount] == d.scores[off := score];
    }

    /** `queue_lemma_for_sync`: the list grows by PRE_ALLOC entries when it is full. */
    method QueueForSync(id: u32)
      requires Shape() && startId <= id < startId + info.lemmaCount
      modifies this, syncs
      ensures Shape() && (syncs == old(syncs) || fresh(syncs))
      ensures lemmas == old(lemmas) && offsets == old(offsets) && scores == old(scores) && ids == old(ids)
      ensures predicts == old(predicts) && byId == old(byId) && caches == old(caches)
      ensures Snapshot() == Queued(old(Snapshot()), id)
    {
      ghost var d := Snapshot();
      if info.syncCount >= syncs.Length {
        syncs := NewWords(syncs[..info.syncCount], syncs.Length + PRE_ALLOC);
      }
      syncs[info.syncCount] := byId[id - startId];
      info := info.(syncCount := info.syncCount + 1);
      assert syncs[..info.syncCount] == d.syncs + [d.byId[id - startId]];
    }

    /** `remove_lemma_from_sync_list`. */
    method DropFromSync(p: nat)
      requires Shape()
      modifies this`info, syncs
      ensures Shape() && syncs[..info.syncCount] == SyncDropped(old(syncs[..info.syncCount]), p)
      ensures info == old(info).(syncCount := info.syncCount)
    {
      var i := FindIn(syncs, info.syncCount, p);
      ghost var s := syncs[..info.syncCount];
      if i < info.syncCount {
        syncs[i] := syncs[info.syncCount - 1];
        info := info.(syncCount := info.syncCount - 1);
        assert syncs[..info.syncCount] == s[i := s[|s| - 1]][..|s| - 1];
      }
    }

    /** `remove_lemma_from_predict_list`. */
    static method FlagInPredicts(predicts: array<u32>, n: nat, p: nat)
      requires n <= predicts.Length
      modifies predicts
      ensures predicts[..n] == PredictFlagged(old(predicts[..n]), p)
    {
      var i := FindIn(predicts, n, p);
      ghost var s := predicts[..n];
      if i < n {
        predicts[i] := SetRemoved(predicts[i]);
        assert predicts[..n] == s[i := SetRemoved(s[i])];
      }
    }

    /** `remove_lemma_by_offset_index`, for an index that is not -1. */
    method RemoveAt(off: nat)
      requires Shape() && off < info.lemmaCount
      modifies this, offsets, syncs, predicts
      ensures Shape()
      ensures lemmas == old(lemmas) && offsets == old(offsets) && scores == old(scores) && ids == old(ids)
      ensures predicts == old(predicts) && syncs == old(syncs) && byId == old(byId) && caches == old(caches)
      ensures Snapshot() == RemovedAt(old(Snapshot()), off)
    {
      hide Raise, SyncDropped, PredictFlagged;
      ghost var d := Snapshot();
      var o := offsets[off];
      var b := lemmas[..info.lemmaSize];
      var nchar := if Fits(b, Pos(o)) then NChar(b, Pos(o)) else 0;
      offsets[off] := SetRemoved(offsets[off]);
      assert offsets[..info.lemmaCount] == d.offsets[off := SetRemoved(o)];
      DropFromSync(Pos(o));
      FlagInPredicts(predicts, info.lemmaCount, Pos(o));
      info := info.(freeCount := (info.freeCount + 1) % WORD_RANGE,
        freeSize := (info.freeSize + 2 + 4 * nchar) % WORD_RANGE);
      state := Raise(state, OffsetDirty);
    }

    /** `clear_sync_lemmas`. */
    method ClearSyncLemmas(start: nat, end: nat)
      requires Shape() && start <= end && start <= info.syncCount
      modifies this, syncs
      ensures Shape()
      ensures lemmas == old(lemmas) && offsets == old(offsets) && scores == old(scores) && ids == old(ids)
      ensures predicts == old(predicts) && syncs == old(syncs) && byId == old(byId) && caches == old(caches)
      ensures old(state) == NotLoaded ==> Snapshot() == old(Snapshot())
      ensures old(state) != NotLoaded ==> Snapshot() == SyncCleared(old(Snapshot()), start, end)
    {
      hide Raise;
      if state == NotLoaded {
        return;
      }
      var e := if end > info.syncCount then info.syncCount else end;
      DropRange(syncs, start, e, info.syncCount);
      info := info.(syncCount := info.syncCount - (e - start));
      state := Raise(state, SyncDirty);
    }

    // ---- defragment ----

    /** `defragment`. */
    method Defragment()
      requires Shape() && (state != NotLoaded ==> Inv(spl, Snapshot()) && startId + info.lemmaCount <= WORD_RANGE)
      modifies this, Arrays()
      ensures Shape()
      ensures lemmas == old(lemmas) && offsets == old(offsets) && scores == old(scores) && ids == old(ids)
      ensures predicts == old(predicts) && syncs == old(syncs) && byId == old(byId) && caches == old(caches)
      ensures old(state) == NotLoaded ==> Snapshot() == old(Snapshot())
      ensures old(state) != NotLoaded ==> Snapshot() == Defragged(old(Snapshot()))
    {
      if state == NotLoaded {
        return;
      }
      hide *;
      ghost var d := Snapshot();
      Open();
      ReadBack();
      Writable();
      DefragReady(spl, d);
      var realSize, count := info.lemmaSize, info.lemmaCount;
      var inUse, dst, moved := DefragArrays(lemmas, realSize, offsets, scores, ids, predicts, count, byId, syncs,
        info.syncCount, startId, spl, d);
      if !moved {
        NothingMoved(spl, d, lemmas[..realSize], offsets[..count], scores[..count], ids[..count], predicts[..count],
          syncs[..info.syncCount], byId[..count]);
        Close();
        ReadBack();
        return;
      }
      MovedIs(spl, d, lemmas[..dst], offsets[..inUse], scores[..inUse], ids[..inUse], predicts[..inUse],
        syncs[..info.syncCount], byId[..inUse],
              info, countLeft, sizeLeft, startId);
      Close();
      Shrink(inUse, dst, Defragged(d));
    }

    /** The counters after the records have moved. */
    method Shrink(inUse: nat, dst: nat, ghost e: Dict)
      requires inUse <= info.lemmaCount && dst <= info.lemmaSize && Shape()
      requires Shrunk(e, lemmas[..dst], offsets[..inUse], scores[..inUse], ids[..inUse], predicts[..inUse],
        syncs[..info.syncCount], byId[..inUse],
                      info, countLeft, sizeLeft, startId)
      modifies this`info, this`sizeLeft, this`state
      ensures Shape() && Snapshot() == e
      ensures lemmas == old(lemmas) && offsets == old(offsets) && scores == old(scores) && ids == old(ids)
      ensures predicts == old(predicts) && syncs == old(syncs) && byId == old(byId) && caches == old(caches)
    {
      hide *;
      Open();
      ShrunkIs(e, lemmas[..dst], offsets[..inUse], scores[..inUse], ids[..inUse], predicts[..inUse],
        syncs[..info.syncCount], byId[..inUse],
               info, countLeft, sizeLeft, startId);
      var realSize := info.lemmaSize;
      info := info.(lemmaCount := inUse, lemmaSize := dst, freeCount := 0, freeSize := 0);
      sizeLeft, state := sizeLeft + realSize - dst, Level.Defragmented;
      Close();
      ReadBack();
    }

    static ghost predicate Shrunk(e: Dict, block: seq<u8>, o: seq<u32>, s: seq<u32>, i: seq<u32>, p: seq<u32>,
      y: seq<u32>, b: seq<u32>,
                                  info: Info, countLeft: nat, sizeLeft: nat, startId: u32) {
      && |block| <= info.lemmaSize
      && e == Dict(block, o, s, i, p, y, b, startId, info.reclaimRatio, info.limitCount, info.limitSize, 0, 0,
         info.totalFreq, countLeft,
                   sizeLeft + info.lemmaSize - |block|, Level.Defragmented)
    }

    static lemma ShrunkIs(e: Dict, block: seq<u8>, o: seq<u32>, s: seq<u32>, i: seq<u32>, p: seq<u32>,
      y: seq<u32>, b: seq<u32>,
                          info: Info, countLeft: nat, sizeLeft: nat, startId: u32)
      requires Shrunk(e, block, o, s, i, p, y, b, info, countLeft, sizeLeft, startId)
      ensures |block| <= info.lemmaSize
      ensures e == Dict(block, o, s, i, p, y, b, startId, info.reclaimRatio, info.limitCount, info.limitSize, 0, 0,
        info.totalFreq, countLeft,
                        sizeLeft + info.lemmaSize - |block|, Level.Defragmented)
    {
    }

    static lemma MovedIs(spl: Spellings, d: Dict, block: seq<u8>, o: seq<u32>, s: seq<u32>, i: seq<u32>, p: seq<u32>,
      y: seq<u32>, b: seq<u32>,
                         info: Info, countLeft: nat, sizeLeft: nat, startId: u32)
      requires Inv(spl, d) && AnyRemoved(d.offsets) && d.startId + |d.offsets| <= WORD_RANGE
        && MovedArrays(d, block, o, s, i, p, y, b)
      requires |block| <= |d.block|
      requires startId == d.startId && info.reclaimRatio == d.reclaimRatio && info.limitCount == d.limitCount
        && info.limitSize == d.limitSize
      requires info.totalFreq == d.totalFreq && countLeft == d.countLeft && sizeLeft == d.sizeLeft
        && info.lemmaSize == |d.block|
      ensures Tiled(d.block) && OnStarts(d.block, d.offsets) && |d.scores| == |d.offsets|
      ensures Shrunk(Defragged(d), block, o, s, i, p, y, b, info, countLeft, sizeLeft, startId)
    {
      hide Tiled, Clean, Sorted, Distinct, Marked, Select, SelectLive, Kept, RelocatedAll, CountUp, AnyRemoved,
        LiveCount, Defragged;
      DefragIs(spl, d);
    }

    static lemma NothingMoved(spl: Spellings, d: Dict, block: seq<u8>, o: seq<u32>, s: seq<u32>, i: seq<u32>,
      p: seq<u32>, y: seq<u32>, b: seq<u32>)
      requires Inv(spl, d) && !AnyRemoved(d.offsets) && d.startId + |d.offsets| <= WORD_RANGE
        && Unmoved(d, block, o, s, i, p, y, b)
      ensures Tiled(d.block) && OnStarts(d.block, d.offsets) && |d.scores| == |d.offsets|
        && LiveCount(d.offsets) == |d.offsets|
      ensures Defragged(d) ==
              Dict(block, o, s, i, p, y, b, d.startId, d.reclaimRatio, d.limitCount, d.limitSize, d.freeCount,
                d.freeSize, d.totalFreq,
                   d.countLeft, d.sizeLeft, d.level)
    {
      hide Tiled, Clean, Sorted, Distinct, Marked, Select, SelectLive, AnyRemoved, Defragged;
      DefragNothing(spl, d);
      LiveLengths(d.offsets);
    }

    /** The work of `defragment` on the buffers. */
    static method DefragArrays(lemmas: array<u8>, n: nat, offsets: array<u32>, scores: array<u32>, ids: array<u32>,
      predicts: array<u32>,
                               count: nat, byId: array<u32>, syncs: array<u32>, syncCount: nat, startId: u32,
                               ghost spl: Spellings, ghost d: Dict) returns (inUse: nat, dst: nat, moved: bool)
      requires n <= lemmas.Length && count <= offsets.Length && count <= scores.Length && count <= ids.Length
      requires count <= predicts.Length && count <= byId.Length && syncCount <= syncs.Length
      requires Separate(offsets, scores, ids, predicts, syncs, byId)
      requires Inv(spl, d) && d.block == lemmas[..n] && d.offsets == offsets[..count] && d.scores == scores[..count]
      requires d.ids == ids[..count] && d.predicts == predicts[..count] && d.syncs == syncs[..syncCount]
        && d.byId == byId[..count]
      requires startId == d.startId && startId + count <= WORD_RANGE && Tiled(Marked(d.block, d.offsets))
      modifies lemmas, offsets, scores, ids, predicts, byId, syncs
      ensures moved <==> AnyRemoved(d.offsets)
      ensures inUse == LiveCount(d.offsets) <= count
      ensures !moved ==>
                Unmoved(d, lemmas[..n], offsets[..count], scores[..count], ids[..count], predicts[..count],
                  syncs[..syncCount], byId[..count])
      ensures moved ==> dst <= n
                        && MovedArrays(d, lemmas[..dst], offsets[..inUse], scores[..inUse],
        ids[..inUse], predicts[..inUse],
                                                syncs[..syncCount], byId[..inUse])
    {
      hide *;
      Apart(offsets, scores, ids, predicts, syncs, byId);
      DefragReady(spl, d);
      ghost var m := Marked(d.block, d.offsets);
      inUse := PartitionLists(offsets, scores, ids, predicts, count, lemmas, n);
      var start;
      start, dst := SweepLists(lemmas, n, m, offsets, predicts, inUse, syncs, syncCount);
      FirstScan(d.block, d.offsets, start);
      moved := start < n;
      if moved {
        Renumber(startId, ids, byId, offsets, inUse);
        MovedArraysIs(d, lemmas[..dst], offsets[..inUse], scores[..inUse], ids[..inUse], predicts[..inUse],
          syncs[..syncCount], byId[..inUse]);
      } else {
        DefragNothing(spl, d);
        UnmovedIs(d, lemmas[..n], offsets[..count], scores[..count], ids[..count], predicts[..count],
          syncs[..syncCount], byId[..count]);
      }
    }

    static lemma Apart(o: array<u32>, s: array<u32>, i: array<u32>, p: array<u32>, y: array<u32>, b: array<u32>)
      requires Separate(o, s, i, p, y, b)
      ensures o != s && o != i && o != p && o != y && o != b && s != i && s != p && s != y && s != b
      ensures i != p && i != y && i != b && p != y && p != b && y != b
    {
    }

    static ghost predicate Unmoved(d: Dict, block: seq<u8>, o: seq<u32>, s: seq<u32>, i: seq<u32>, p: seq<u32>,
      y: seq<u32>, b: seq<u32>) {
      block == d.block && o == d.offsets && s == d.scores && i == d.ids && p == d.predicts && y == d.syncs
      && b == d.byId
    }

    static lemma UnmovedIs(d: Dict, block: seq<u8>, o: seq<u32>, s: seq<u32>, i: seq<u32>, p: seq<u32>,
      y: seq<u32>, b: seq<u32>)
      requires block == d.block && o == d.offsets && s == d.scores && i == d.ids && p == d.predicts && y == d.syncs
        && b == d.byId
      ensures Unmoved(d, block, o, s, i, p, y, b)
    {
    }

    static ghost predicate MovedArrays(d: Dict, block: seq<u8>, o: seq<u32>, s: seq<u32>, i: seq<u32>, p: seq<u32>,
      y: seq<u32>, b: seq<u32>)
    {
      var m := Marked(d.block, d.offsets);
      && Tiled(m) && |d.scores| == |d.offsets| && d.startId + LiveCount(d.offsets) <= WORD_RANGE
      && block == Kept(m, 0, |m|) && o == RelocatedAll(m, SelectLive(d.offsets)) && s == Select(d.scores, d.offsets)
      && i == CountUp(d.startId, LiveCount(d.offsets)) && p == RelocatedAll(m, SelectLive(d.predicts))
      && y == RelocatedAll(m, d.syncs) && b == o
    }

    static lemma MovedArraysIs(d: Dict, block: seq<u8>, o: seq<u32>, s: seq<u32>, i: seq<u32>, p: seq<u32>,
      y: seq<u32>, b: seq<u32>)
      requires var m := Marked(d.block, d.offsets);
               && Tiled(m) && |d.scores| == |d.offsets| && d.startId + LiveCount(d.offsets) <= WORD_RANGE
               && block == Kept(m, 0, |m|) && o == RelocatedAll(m, SelectLive(d.offsets))
                  && s == Select(d.scores, d.offsets)
               && i == CountUp(d.startId, LiveCount(d.offsets)) && p == RelocatedAll(m, SelectLive(d.predicts))
               && y == RelocatedAll(m, d.syncs) && b == o
      ensures MovedArrays(d, block, o, s, i, p, y, b)
    {
    }

    /** The search for the first removed record, and the sweep from there on if there is one. */
    static method SweepLists(lemmas: array<u8>, n: nat, ghost m: seq<u8>, offsets: array<u32>,
      predicts: array<u32>, inUse: nat,
                             syncs: array<u32>, syncCount: nat) returns (start: nat, dst: nat)
      requires n <= lemmas.Length && lemmas[..n] == m && Tiled(m)
      requires inUse <= offsets.Length && inUse <= predicts.Length && syncCount <= syncs.Length
      requires offsets != predicts && offsets != syncs && predicts != syncs
      modifies lemmas, offsets, predicts, syncs
      ensures start <= |m| && Chain(m, 0, start) && Chain(m, start, |m|) && Kept(m, 0, start) == m[0..start]
      ensures start < |m| ==> Dead(m, start)
      ensures start >= n ==> lemmas[..n] == m && offsets[..inUse] == old(offsets[..inUse])
                             && predicts[..inUse] == old(predicts[..inUse])
                                && syncs[..syncCount] == old(syncs[..syncCount])
      ensures start < n ==> dst <= n && lemmas[..dst] == Kept(m, 0, |m|)
      ensures start < n ==> offsets[..inUse] == RelocatedAll(m, old(offsets[..inUse]))
      ensures start < n ==> predicts[..inUse] == RelocatedAll(m, old(predicts[..inUse]))
      ensures start < n ==> syncs[..syncCount] == RelocatedAll(m, old(syncs[..syncCount]))
    {
      assert Chain(m, 0, 0) && Kept(m, 0, 0) == [];
      hide *;
      start := ScanLive(lemmas, 0, n, m);
      dst := n;
      if start < n {
        assert m[0..start] == m[..start];
        dst := Sweep(lemmas, n, start, offsets, predicts, inUse, syncs, syncCount);
        assert lemmas[..n][..dst] == lemmas[..dst];
      }
    }

    /** Both partition loops; they stop at the same count because the two lists carry the same flags. */
    static method PartitionLists(offsets: array<u32>, scores: array<u32>, ids: array<u32>,
      predicts: array<u32>, count: nat,
                                 lemmas: array<u8>, n: nat) returns (inUse: nat)
      requires count <= offsets.Length && count <= scores.Length && count <= ids.Length && count <= predicts.Length
      requires offsets != scores && offsets != ids && scores != ids
      requires offsets != predicts && scores != predicts && ids != predicts
      requires n <= lemmas.Length && AllBelow(offsets[..count], n)
      requires LiveCount(predicts[..count]) == LiveCount(offsets[..count])
      modifies offsets, scores, ids, predicts, lemmas
      ensures inUse == LiveCount(old(offsets[..count])) <= count
      ensures offsets[..inUse] == SelectLive(old(offsets[..count]))
      ensures scores[..inUse] == Select(old(scores[..count]), old(offsets[..count]))
      ensures ids[..inUse] == Select(old(ids[..count]), old(offsets[..count]))
      ensures predicts[..inUse] == SelectLive(old(predicts[..count]))
      ensures lemmas[..n] == Marked(old(lemmas[..n]), old(offsets[..count]))
    {
      hide *;
      ghost var o, p := offsets[..count], predicts[..count];
      var live := PartitionAll(offsets, scores, ids, count, lemmas, n);
      inUse := PartitionOne(predicts, count);
      LiveLengths(o);
      LiveLengths(p);
      assert offsets[..live] == offsets[..count][..live] && scores[..live] == scores[..count][..live];
      assert ids[..live] == ids[..count][..live] && predicts[..inUse] == predicts[..count][..inUse];
    }

    static lemma LiveLengths(s: seq<u32>)
      ensures |SelectLive(s)| == LiveCount(s)
    {
    }

    /** The last loop of `defragment`. */
    static method Renumber(startId: u32, ids: array<u32>, byId: array<u32>, offsets: array<u32>, n: nat)
      requires n <= ids.Length && n <= byId.Length && n <= offsets.Length && ids != byId && offsets != ids
        && offsets != byId
      requires startId + n <= WORD_RANGE
      modifies ids, byId
      ensures ids[..n] == CountUp(startId, n) && byId[..n] == offsets[..n]
    {
      var i := 0;
      while i < n
        invariant i <= n
        invariant forall k :: 0 <= k < i ==> ids[k] == startId + k && byId[k] == offsets[k]
      {
        ids[i] := startId + i;
        byId[i] := offsets[i];
        i := i + 1;
      }
    }

    // ---- write_back ----

    /** What the file holds up to the descriptor's position. */
    ghost predicate Wrote(b: seq<u8>)
      reads disk
    {
      disk.pos <= |disk.data| && disk.data[..disk.pos] == b
    }

    /** One write of a word array. */
    method WriteWords(a: array<u32>, n: nat, ghost before: seq<u8>)
      requires n <= a.Length && Wrote(before)
      modifies disk
      ensures Wrote(before + Encode(a[..n]))
    {
      disk.Write(Encode(a[..n]));
    }

    /** The lists and the trailer, `write_back_sync` after its seek. */
    method WriteTrailer()
      requires Shape() && Wrote(ThroughScores(Snapshot()))
      modifies disk
      ensures Wrote(Serialize(Snapshot()))
    {
      hide Encode, ThroughScores, Wrote;
      ghost var d := Snapshot();
      ghost var before := ThroughScores(d);
      WriteWords(syncs, info.syncCount, before);
      var w: seq<u32> := [info.reclaimRatio, info.limitCount, info.limitSize, info.lemmaCount % WORD_RANGE,
        info.lemmaSize % WORD_RANGE,
                          info.freeCount, info.freeSize, info.syncCount % WORD_RANGE, info.totalFreq];
      assert w == InfoWords(d);
      WriteInfo(w, before + Encode(d.syncs));
      assert (before + Encode(d.syncs)) + Encode(w) == Serialize(d);
    }

    method WriteInfo(w: seq<u32>, ghost before: seq<u8>)
      requires Wrote(before)
      modifies disk
      ensures Wrote(before + Encode(w))
    {
      disk.Write(Encode(w));
    }

    method WriteScores()
      requires Shape() && Wrote(ThroughIndex(Snapshot()))
      modifies disk
      ensures Wrote(Serialize(Snapshot()))
    {
      hide Encode, ThroughIndex, Wrote, Serialize;
      WriteWords(scores, info.lemmaCount, ThroughIndex(Snapshot()));
      WriteTrailer();
    }

    method WriteIndex()
      requires Shape() && Wrote(ThroughBlock(Snapshot()))
      modifies disk
      ensures Wrote(Serialize(Snapshot()))
    {
      hide Encode, ThroughBlock, Wrote, Serialize;
      ghost var before := ThroughBlock(Snapshot());
      WriteWords(offsets, info.lemmaCount, before);
      WriteWords(predicts, info.lemmaCount, before + Encode(offsets[..info.lemmaCount]));
      assert before + Encode(offsets[..info.lemmaCount]) + Encode(predicts[..info.lemmaCount])
               == ThroughIndex(Snapshot());
      WriteScores();
    }

    /** A seek to the end of the part of the file that is still good. */
    method SeekClean(p: nat, ghost clean: seq<u8>)
      requires clean <= disk.data && p == |clean|
      modifies disk
      ensures Wrote(clean) && disk.data == old(disk.data)
    {
      disk.Seek(p);
    }

    method WriteBackSync()
      requires Shape() && ThroughScores(Snapshot()) <= disk.data
      modifies disk
      ensures Wrote(Serialize(Snapshot()))
    {
      hide Encode, Serialize;
      SeekClean(4 + info.lemmaSize + 8 * info.lemmaCount + 4 * info.lemmaCount, ThroughScores(Snapshot()));
      WriteTrailer();
    }

    method WriteBackScore()
      requires Shape() && ThroughIndex(Snapshot()) <= disk.data
      modifies disk
      ensures Wrote(Serialize(Snapshot()))
    {
      hide Encode, Serialize;
      SeekClean(4 + info.lemmaSize + 4 * info.lemmaCount + 4 * info.lemmaCount, ThroughIndex(Snapshot()));
      WriteScores();
    }

    method WriteBackOffset()
      requires Shape() && ThroughBlock(Snapshot()) <= disk.data
      modifies disk
      ensures Wrote(Serialize(Snapshot()))
    {
      hide Encode, Serialize;
      SeekClean(4 + info.lemmaSize, ThroughBlock(Snapshot()));
      WriteIndex();
    }

    /** Only the bytes appended since the last load are written again. */
    method WriteBackLemma()
      requires Shape() && 0 <= NewBytes(Snapshot()) <= info.lemmaSize
      requires Header() + Snapshot().block[..info.lemmaSize - NewBytes(Snapshot())] <= disk.data
      modifies disk
      ensures Wrote(Serialize(Snapshot()))
    {
      hide Encode, Serialize, Header, ThroughBlock;
      ghost var block := Snapshot().block;
      var needWrite := PRE_ALLOC_SIZE - sizeLeft;
      var p := info.lemmaSize - needWrite;
      SeekClean(4 + p, Header() + block[..p]);
      WriteBytes(p, info.lemmaSize, Header() + block[..p]);
      BlockInParts(Snapshot(), p);
      WriteIndex();
    }

    static lemma BlockInParts(d: Dict, p: nat)
      requires p <= |d.block|
      ensures Header() + d.block[..p] + d.block[p..] == ThroughBlock(d)
    {
      assert d.block == d.block[..p] + d.block[p..];
    }

    method WriteBytes(p: nat, q: nat, ghost before: seq<u8>)
      requires p <= q <= lemmas.Length && Wrote(before)
      modifies disk
      ensures Wrote(before + lemmas[p..q])
    {
      disk.Write(lemmas[p..q]);
    }

    method WriteBackAll()
      requires Shape() && Header() <= disk.data
      modifies disk
      ensures Wrote(Serialize(Snapshot()))
    {
      hide Encode, Serialize;
      SeekClean(4, Header());
      WriteBytes(0, info.lemmaSize, Header());
      WriteIndex();
    }

    method CutHere(ghost b: seq<u8>)
      requires Wrote(b)
      modifies disk
      ensures disk.data == b
    {
      disk.Truncate();
    }

    /** The switch of `write_back`. */
    method WriteDirty()
      requires Shape() && FileInv(Snapshot(), disk.data) && state != Synced
      modifies disk
      ensures Wrote(Serialize(Snapshot()))
    {
      hide Encode, Serialize, ThroughScores, ThroughIndex, ThroughBlock, Header;
      match state {
        case Defragmented => WriteBackAll();
        case LemmaDirty => WriteBackLemma();
        case OffsetDirty => WriteBackOffset();
        case ScoreDirty => WriteBackScore();
        case SyncDirty => WriteBackSync();
      }
    }

    /** `write_back`: the part of the file before the first stale byte is left alone, and still the file ends as
        the full image of memory. */
    method WriteBack()
      requires Shape() && (state != NotLoaded ==> FileInv(Snapshot(), disk.data))
      modifies disk, this`state
      ensures Shape()
      ensures old(state) == NotLoaded ==> state == NotLoaded && disk.data == old(disk.data)
      ensures old(state) != NotLoaded ==> state == Synced && disk.data == Serialize(old(Snapshot()))
      ensures Snapshot() == old(Snapshot()).(level := state)
    {
      if state == NotLoaded || state == Synced {
        return;
      }
      hide OnDisk, Serialize, Wrote;
      WriteDirty();
      CutHere(Serialize(Snapshot()));
      state := Synced;
    }

    // ---- validate, load, flush_cache ----

    /** One `fread` of n words; it fails when the file ends before them. */
    method ReadWords(n: nat) returns (ok: bool, ws: seq<u32>)
      requires disk.pos <= |disk.data|
      modifies disk
      ensures disk.data == old(disk.data) && disk.pos <= |disk.data|
      ensures ok <==> old(disk.pos) + 4 * n <= |disk.data|
      ensures ok ==> ws == WordsAt(disk.data, old(disk.pos), n) && disk.pos == old(disk.pos) + 4 * n
    {
      var b := disk.Read(4 * n);
      ok := |b| == 4 * n;
      ws := if ok then Decode(b) else [];
    }

    /** `validate`. */
    method Validate() returns (ok: bool)
      modifies disk
      ensures disk.data == old(disk.data) && (ok <==> Validates(disk.data))
    {
      hide Decode, BytesWord;
      var size := |disk.data|;
      if size < 4 + INFO_SIZE {
        return false;
      }
      disk.Seek(0);
      var version := disk.Read(4);
      if BytesWord(version) != VERSION {
        return false;
      }
      disk.Seek(size - INFO_SIZE);
      InfoAt(disk.data);
      var w;
      ok, w := ReadWords(INFO_WORDS);
      ok := size == FileSize(w[4], w[3], w[7]) % WORD_RANGE;
    }

    /** `reset`. */
    method Reset()
      modifies disk
      ensures disk.data == Serialize(EmptyDict(0))
    {
      hide Serialize, Encode, WordBytes, Validates, Loadable, Loaded;
      EmptyImage(0);
      disk.Seek(0);
      disk.Truncate();
      disk.Write(WordBytes(VERSION));
      disk.Write(Encode([0, 0, 0, 0, 0, 0, 0, 0, 0]));
    }

    /** The sections of the file. */
    method ReadSections(size: nat, count: nat, syncCount: nat)
      returns (ok: bool, block: seq<u8>, offs: seq<u32>, preds: seq<u32>, scs: seq<u32>, ys: seq<u32>)
      requires |disk.data| >= 4
      modifies disk
      ensures disk.data == old(disk.data)
      ensures ok <==> 4 + size + 12 * count + 4 * syncCount <= |disk.data|
      ensures ok ==> block == disk.data[4..4 + size] && offs == WordsAt(disk.data, 4 + size, count)
                     && preds == WordsAt(disk.data, 4 + size + 4 * count, count)
                        && scs == WordsAt(disk.data, 4 + size + 8 * count, count)
                     && ys == WordsAt(disk.data, 4 + size + 12 * count, syncCount)
    {
      hide WordsAt;
      disk.Seek(4);
      block := disk.Read(size);
      ok, offs, preds, scs, ys := |block| == size, [], [], [], [];
      if !ok {
        return;
      }
      ok, offs := ReadWords(count);
      if !ok {
        return;
      }
      ok, preds := ReadWords(count);
      if !ok {
        return;
      }
      ok, scs := ReadWords(count);
      if !ok {
        return;
      }
      ok, ys := ReadWords(syncCount);
    }

    /** `load`: the buffers are as large as the lists in the file, with room for PRE_ALLOC more lemmas. */
    method Load(start: u32) returns (ok: bool)
      requires start < REMOVE_FLAG && Validates(disk.data)
      modifies this, disk
      ensures disk.data == old(disk.data) && caches == old(caches) && (ok <==> Loadable(disk.data))
      ensures !ok ==> unchanged(this)
      ensures ok ==> Shape() && start + InfoOf(disk.data)[3] <= WORD_RANGE && Snapshot() == Loaded(disk.data, start)
      ensures ok ==>
                fresh(lemmas) && fresh(offsets) && fresh(scores) && fresh(ids) && fresh(predicts) && fresh(syncs)
                && fresh(byId)
    {
      hide *;
      ghost var f := disk.data;
      LoadFacts(f, start);
      disk.Seek(|disk.data| - INFO_SIZE);
      var w;
      ok, w := ReadWords(INFO_WORDS);
      var count, size, syncCount := w[3], w[4], w[7];
      var block, offs, preds, scs, ys;
      ok, block, offs, preds, scs, ys := ReadSections(size, count, syncCount);
      LoadedIs(f, start, w, ok, block, offs, preds, scs, ys);
      if ok {
        Install(start, w, block, offs, preds, scs, ys, Loaded(f, start));
      }
    }

    static lemma LoadFacts(f: seq<u8>, start: u32)
      requires Validates(f) && start < REMOVE_FLAG
      ensures INFO_SIZE == 36 && INFO_WORDS == 9 && |f| >= 40
      ensures WordsAt(f, |f| - INFO_SIZE, INFO_WORDS) == InfoOf(f)
    {
      InfoAt(f);
    }

    static lemma LoadedIs(f: seq<u8>, start: u32, w: seq<u32>, ok: bool, block: seq<u8>, offs: seq<u32>,
      preds: seq<u32>, scs: seq<u32>, ys: seq<u32>)
      requires Validates(f) && start < REMOVE_FLAG && w == InfoOf(f)
      requires ok <==> 4 + w[4] + 12 * w[3] + 4 * w[7] <= |f|
      requires ok ==>
                 block == f[4..4 + w[4]] && offs == WordsAt(f, 4 + w[4], w[3])
                 && preds == WordsAt(f, 4 + w[4] + 4 * w[3], w[3])
                      && scs == WordsAt(f, 4 + w[4] + 8 * w[3], w[3]) && ys == WordsAt(f, 4 + w[4] + 12 * w[3], w[7])
      ensures ok <==> Loadable(f)
      ensures ok ==> start + w[3] <= WORD_RANGE && start + |offs| <= WORD_RANGE && |offs| == |preds| == |scs|
                     && Loaded(f, start) == Dict(block, offs, scs, CountUp(start, |offs|), preds, ys, offs, start,
                                                 w[0], w[1], w[2], w[5], w[6], w[8], PRE_ALLOC, PRE_ALLOC_SIZE, Synced)
    {
      hide InfoOf, WordsAt, CountUp;
      if Loadable(f) {
        ValidatesBound(f);
      }
    }

    /** The new buffers, and the counters of the file. */
    method Install(start: u32, w: seq<u32>, block: seq<u8>, offs: seq<u32>, preds: seq<u32>, scs: seq<u32>,
      ys: seq<u32>, ghost d: Dict)
      requires |w| == 9 && |offs| == |preds| == |scs| && start + |offs| <= WORD_RANGE
      requires d == Dict(block, offs, scs, CountUp(start, |offs|), preds, ys, offs, start,
                         w[0], w[1], w[2], w[5], w[6], w[8], PRE_ALLOC, PRE_ALLOC_SIZE, Synced)
      modifies this
      ensures caches == old(caches) && Shape() && Snapshot() == d
      ensures fresh(lemmas) && fresh(offsets) && fresh(scores) && fresh(ids) && fresh(predicts) && fresh(syncs)
        && fresh(byId)
    {
      hide *;
      var n := |offs|;
      var l, o, p, y, s, i, b := NewBuffers(block, offs, preds, scs, ys, CountUp(start, n));
      Adopt(l, o, p, y, s, i, b);
      Count(Info(w[0], w[1], w[2], n, |block|, w[5], w[6], |ys|, w[8]), PRE_ALLOC, PRE_ALLOC_SIZE, start, Synced);
      Close();
      ReadBack();
      Writable();
    }

    method Adopt(l: array<u8>, o: array<u32>, p: array<u32>, y: array<u32>, s: array<u32>, i: array<u32>, b: array<u32>)
      modifies this
      ensures lemmas == l && offsets == o && predicts == p && syncs == y && scores == s && ids == i && byId == b
      ensures caches == old(caches)
    {
      lemmas, offsets, predicts, syncs, scores, ids, byId := l, o, p, y, s, i, b;
    }

    method Count(i: Info, countLeft: nat, sizeLeft: nat, start: u32, state: Level)
      modifies this
      ensures info == i && this.countLeft == countLeft && this.sizeLeft == sizeLeft && startId == start
        && this.state == state
      ensures lemmas == old(lemmas) && offsets == old(offsets) && scores == old(scores) && ids == old(ids)
      ensures predicts == old(predicts) && syncs == old(syncs) && byId == old(byId) && caches == old(caches)
    {
      info, this.countLeft, this.sizeLeft, startId, this.state := i, countLeft, sizeLeft, start, state;
    }

    static method NewBuffers(block: seq<u8>, offs: seq<u32>, preds: seq<u32>, scs: seq<u32>,
      ys: seq<u32>, idl: seq<u32>)
      returns (l: array<u8>, o: array<u32>, p: array<u32>, y: array<u32>, s: array<u32>, i: array<u32>, b: array<u32>)
      requires |offs| == |preds| == |scs| == |idl|
      ensures fresh(l) && fresh(o) && fresh(p) && fresh(y) && fresh(s) && fresh(i) && fresh(b)
        && Separate(o, s, i, p, y, b)
      ensures l.Length == |block| + PRE_ALLOC_SIZE && y.Length == |ys| + PRE_ALLOC
      ensures o.Length == p.Length == s.Length == i.Length == b.Length == |offs| + PRE_ALLOC
      ensures l[..|block|] == block && o[..|offs|] == offs && p[..|offs|] == preds && y[..|ys|] == ys
      ensures s[..|offs|] == scs && i[..|offs|] == idl && b[..|offs|] == offs
    {
      l := NewBlock(block, |block| + PRE_ALLOC_SIZE);
      o := NewWords(offs, |offs| + PRE_ALLOC);
      p := NewWords(preds, |offs| + PRE_ALLOC);
      y := NewWords(ys, |ys| + PRE_ALLOC);
      s := NewWords(scs, |offs| + PRE_ALLOC);
      i := NewWords(idl, |offs| + PRE_ALLOC);
      b := NewWords(offs, |offs| + PRE_ALLOC);
    }

    /** `load_dict`. */
    method LoadDict(start: u32) returns (ok: bool)
      requires start < REMOVE_FLAG && state == NotLoaded && Shape()
      modifies this, disk
      ensures Shape() && caches == old(caches)
      ensures !Validates(old(disk.data)) ==>
                ok && disk.data == Serialize(EmptyDict(start)) && Snapshot() == EmptyDict(start)
      ensures Validates(old(disk.data)) ==> disk.data == old(disk.data) && (ok <==> Loadable(disk.data))
      ensures Validates(old(disk.data)) && ok ==>
                start + InfoOf(disk.data)[3] <= WORD_RANGE && Snapshot() == Loaded(disk.data, start)
      ensures !ok ==> state == NotLoaded && startId == 0
      ensures ok ==>
                fresh(lemmas) && fresh(offsets) && fresh(scores) && fresh(ids) && fresh(predicts) && fresh(syncs)
                && fresh(byId)
    {
      hide *;
      Open();
      startId := start;
      var valid := Validate();
      if !valid {
        Reset();
        EmptyImage(start);
        EmptyImage(0);
      }
      ok := Load(start);
      if !ok {
        startId := 0;
        Close();
      }
    }

    lemma SyncedOnDisk()
      requires Shape() && state == Synced && FileInv(Snapshot(), disk.data)
      ensures disk.data == Serialize(Snapshot())
    {
      hide Shape, Serialize, OnDisk;
    }

    /** `close_dict`. `newest` says that the file was not written since it was loaded: else what was changed is lost. */
    method CloseDict(newest: bool)
      requires Shape() && (state != NotLoaded ==> FileInv(Snapshot(), disk.data))
      modifies this, disk
      ensures Shape() && state == NotLoaded && caches == old(caches) && startId == old(startId)
      ensures old(state) == NotLoaded || old(state) == Synced || !newest ==> disk.data == old(disk.data)
      ensures old(state) != NotLoaded && (newest || old(state) == Synced) ==> disk.data == Serialize(old(Snapshot()))
    {
      hide *;
      if state == NotLoaded {
        return;
      }
      WriteNewest(newest);
      Release();
    }

    method WriteNewest(newest: bool)
      requires Shape() && state != NotLoaded && FileInv(Snapshot(), disk.data)
      modifies disk, this`state
      ensures Shape() && state != NotLoaded
      ensures old(state) == Synced || !newest ==> disk.data == old(disk.data)
      ensures newest || old(state) == Synced ==> disk.data == Serialize(old(Snapshot()))
    {
      hide *;
      if state == Synced {
        SyncedOnDisk();
      } else if newest {
        WriteBack();
      }
    }

    /** The buffers are freed. */
    method Release()
      requires Shape() && state != NotLoaded
      modifies this
      ensures Shape() && state == NotLoaded && caches == old(caches) && startId == old(startId)
    {
      hide *;
      EmptyIs(startId);
      Install(startId, [0, 0, 0, 0, 0, 0, 0, 0, 0], [], [], [], [], [], EmptyDict(startId));
      Open();
      ReadBack();
      countLeft, sizeLeft, state := 0, 0, NotLoaded;
      Close();
    }

    static lemma EmptyIs(start: u32)
      ensures start + 0 <= WORD_RANGE
      ensures EmptyDict(start) == Dict([], [], [], CountUp(start, 0), [], [], [], start, 0, 0, 0, 0, 0, 0, PRE_ALLOC,
                PRE_ALLOC_SIZE, Synced)
    {
    }

    /** `flush_cache`. */
    method FlushCache()
      requires Valid() && FitsInFile(Snapshot())
      modifies this, disk
      ensures Valid() && Coherent()
      ensures Snapshot() == Reloaded(old(Snapshot())) && disk.data == Serialize(old(Snapshot()))
      ensures fresh(lemmas) && fresh(offsets) && fresh(scores) && fresh(ids) && fresh(predicts) && fresh(syncs)
        && fresh(byId)
    {
      hide *;
      ValidGives();
      ReadBack();
      ghost var d := Snapshot();
      FlushReady(spl, d, disk.data);
      var start := startId;
      CloseDict(true);
      var ok := LoadDict(start);
      Open();
      ReadBack();
      caches := EmptyCaches();
      Close();
      ReadBack();
      IsValid();
      CoherentIs();
    }

    // ---- put_lemma ----

    /** What every call keeps: a dictionary that is well formed, a file that matches it, and right caches. */
    lemma Settled(e: Dict)
      requires Shape() && spl.Valid() && Snapshot() == e && startId < REMOVE_FLAG && e.level != NotLoaded
      requires SysInv(spl, Sys(e, disk.data)) && CachesInRange(e, caches) && CachesOk(spl, e, caches)
      ensures Valid() && Coherent()
    {
    }

    /** What a call may rely on. */
    lemma Relied()
      requires Valid() && Coherent()
      ensures Shape() && spl.Valid() && state != NotLoaded && startId < REMOVE_FLAG
      ensures SysInv(spl, Sys(Snapshot(), disk.data)) && CachesInRange(Snapshot(), caches)
        && CachesOk(spl, Snapshot(), caches)
      ensures Inv(spl, Snapshot()) && OnStarts(Snapshot().block, Snapshot().offsets)
        && Sorted(spl, Snapshot().block, Snapshot().offsets)
      ensures startId + info.lemmaCount <= WORD_RANGE && Snapshot().level == state && Snapshot().startId == startId
      ensures |Snapshot().offsets| == |Snapshot().scores| == |Snapshot().ids| == |Snapshot().byId| == info.lemmaCount
      ensures |Snapshot().block| == info.lemmaSize && |Snapshot().syncs| == info.syncCount
    {
    }

    /** `append_a_lemma` and `queue_lemma_for_sync`, when there is room. */
    method AppendAndQueue(splids: seq<u16>, word: seq<u16>, count: u16, lmt: nat) returns (id: u32, ghost j: nat)
      requires Valid() && Coherent() && 1 <= |splids| == |word| <= MAX_LEMMA_SIZE
      requires info.lemmaSize < REMOVE_FLAG && !NeedsFlush(Snapshot(), |word|) && Unknown(Snapshot(), splids, word)
      modifies this, Arrays()
      ensures Valid() && Coherent()
      ensures CanAppend(old(Snapshot()), word) && id == NextId(old(Snapshot())) && j <= |old(Snapshot()).offsets|
      ensures var a := Appended(spl, old(Snapshot()), splids, word, count, BuildScore(lmt, count), j);
              a.startId <= id < a.startId + |a.byId| && Snapshot() == Queued(a, id)
    {
      hide *;
      Relied();
      Writable();
      ghost var d := Snapshot();
      RoomToAppend(spl, d, disk.data, word);
      id, j := AppendLemma(splids, word, count, lmt);
      ReadBack();
      AppendDone(spl, d, disk.data, splids, word, count, BuildScore(lmt, count), j);
      QueueForSync(id);
      ReadBack();
      Settled(Queued(Appended(spl, d, splids, word, count, BuildScore(lmt, count), j), id));
    }

    /** The branch of `_put_lemma` for a lemma that was found. */
    method Rewrite(off: nat, count: u16, lmt: nat) returns (id: u32)
      requires Valid() && Coherent() && off < info.lemmaCount
      modifies this, Arrays()
      ensures Valid() && Coherent()
      ensures off < |old(Snapshot()).scores| == |old(Snapshot()).ids| && id == old(Snapshot()).ids[off]
      ensures Snapshot() == Rescored(old(Snapshot()), off, BuildScore(lmt, count),
                count as int - old(Snapshot()).scores[off])
    {
      hide *;
      Relied();
      ReadBack();
      Writable();
      ghost var d := Snapshot();
      id := ids[off];
      var delta := count as int - scores[off];
      var score := BuildScore(lmt, count);
      RescoreDone(spl, d, disk.data, caches, off, score, delta);
      Rescore(off, score, delta);
      ReadBack();
      Settled(Rescored(d, off, score, delta));
    }

    /** `_put_lemma`, as called by `put_lemma`. Afterwards the dictionary is one of four: the known lemma has a new
        score; nothing changed because a limit is reached; the lemma was appended and queued, to the dictionary
        as it was or as a flush left it; or the block is too long for another offset. */
    method PutLemma(splids: seq<u16>, word: seq<u16>, count: u16, lmt: nat)
      returns (id: u32, ghost off: int, ghost j: nat)
      requires Ready() && (state != NotLoaded ==> FitsInFile(Snapshot()))
      requires 1 <= |splids| == |word| <= MAX_LEMMA_SIZE && FullIds(splids)
      modifies this, disk, Arrays()
      ensures Ready()
      ensures old(state) == NotLoaded ==> id == 0 && Snapshot() == old(Snapshot()) && disk.data == old(disk.data)
      ensures old(state) != NotLoaded ==>
                && LocateOk(spl, old(Snapshot()), splids, word, off)
                && PutOutcome(spl, old(Snapshot()), splids, word, count, lmt, off, j, Snapshot(), id)
                && disk.data ==
                     if off == -1 && !LimitReached(old(Snapshot()), |word|) && NeedsFlush(old(Snapshot()), |word|)
                                then Serialize(old(Snapshot())) else old(disk.data)
    {
      hide *;
      ReadyGives();
      if state == NotLoaded {
        return 0, -1, 0;
      }
      id, off, j := PutLoaded(splids, word, count, lmt);
      InOrder();
    }

    method PutLoaded(splids: seq<u16>, word: seq<u16>, count: u16, lmt: nat)
      returns (id: u32, ghost off: int, ghost j: nat)
      requires Valid() && Coherent() && FitsInFile(Snapshot())
      requires 1 <= |splids| == |word| <= MAX_LEMMA_SIZE && FullIds(splids)
      modifies this, disk, Arrays()
      ensures Valid() && Coherent()
      ensures LocateOk(spl, old(Snapshot()), splids, word, off)
      ensures PutOutcome(spl, old(Snapshot()), splids, word, count, lmt, off, j, Snapshot(), id)
      ensures disk.data == if off == -1 && !LimitReached(old(Snapshot()), |word|) && NeedsFlush(old(Snapshot()), |word|)
                           then Serialize(old(Snapshot())) else old(disk.data)
    {
      hide *;
      Relied();
      ReadBack();
      Writable();
      ghost var d := Snapshot();
      j := 0;
      var r := LocateInOffsets(spl, Snapshot(), caches, splids, word);
      off := r;
      if r != -1 {
        id := Rewrite(r, count, lmt);
        PutKnown(spl, d, splids, word, count, lmt, r, j, id);
        return;
      }
      NotFoundIsUnknown(spl, d, splids, word);
      if LimitReached(Snapshot(), |word|) {
        PutRefused(spl, d, splids, word, count, lmt, j);
        return 0, off, j;
      }
      if NeedsFlush(Snapshot(), |word|) {
        FlushCache();
      }
      RoomyIs(d, |word|);
      Relied();
      ReadBack();
      Writable();
      if info.lemmaSize >= REMOVE_FLAG {
        PutTooLong(spl, d, splids, word, count, lmt, j);
        return 0, off, j;
      }
      id, j := AppendAndQueue(splids, word, count, lmt);
      PutAppended(spl, d, splids, word, count, lmt, j);
    }

    // ---- Calls that name a lemma by its id ----

    /** The search that `update_lemma` and `remove_lemma` start with: an id that is not valid is not found. */
    method LocateById(id: u32) returns (r: int)
      requires Valid() && Coherent()
      ensures -1 <= r < info.lemmaCount && (r >= 0 ==> ValidId(Snapshot(), id))
      ensures ValidId(Snapshot(), id) ==>
                |Snapshot().byId| == |Snapshot().offsets|
                && LocateOk(spl, Snapshot(), SplidsById(Snapshot(), id), WordById(Snapshot(), id), r)
    {
      hide *;
      Relied();
      ReadBack();
      Writable();
      var d := Snapshot();
      r := -1;
      if ValidId(d, id) {
        ByIdReads(spl, d, id);
        r := LocateInOffsets(spl, d, caches, SplidsById(d, id), WordById(d, id));
      }
    }

    /** `update_lemma`; `now` is the clock. */
    method UpdateLemma(id: u32, delta: int, selected: bool, now: nat) returns (r: u32, ghost off: int)
      requires Ready() && -0x8000 <= delta < 0x8000
      modifies this, Arrays()
      ensures Ready()
      ensures old(state) == NotLoaded ==> off == -1
      ensures old(state) != NotLoaded ==> Located(spl, old(Snapshot()), id, off)
      ensures off == -1 ==> r == 0 && Snapshot() == old(Snapshot())
      ensures off >= 0 ==>
                && off < |old(Snapshot()).offsets| == |old(Snapshot()).scores| == |old(Snapshot()).ids|
                     == |old(Snapshot()).byId|
                && r == old(Snapshot()).ids[off]
                   && old(Snapshot()).startId <= r < old(Snapshot()).startId + |old(Snapshot()).byId|
                && Snapshot() == Updated(old(Snapshot()), off, delta, selected, now)
      ensures off >= 0 ==>
                var s, t := old(Snapshot()).scores[off], Snapshot().scores;
                && |t| == |old(Snapshot()).scores|
                && (forall i :: 0 <= i < |t| && i != off ==> t[i] == old(Snapshot()).scores[i])
                && t[off] % 0x1_0000 ==
                   (if 0 <= delta && s % 0x1_0000 + delta <= 0xFFFF then s % 0x1_0000 + delta else 0xFFFF)
                && (!selected ==> t[off] / 0x1_0000 == s / 0x1_0000)
                && (selected && 1229904000 <= now < 0x1_0000_0000_0000_0000 ==>
                      t[off] / 0x1_0000 == (now - 1229904000) / 604800 % 0x1_0000)
    {
      hide *;
      ReadyGives();
      if state == NotLoaded {
        return 0, -1;
      }
      Relied();
      ReadBack();
      Writable();
      var found := LocateById(id);
      off := found;
      LocatedIs(spl, Snapshot(), id, off);
      if found == -1 {
        InOrder();
        return 0, off;
      }
      UpdateLeaves(spl, Snapshot(), found, delta, selected, now);
      r := UpdateAt(found, delta, selected, now);
      InOrder();
    }

    method UpdateAt(off: nat, delta: int, selected: bool, now: nat) returns (r: u32)
      requires Valid() && Coherent() && off < info.lemmaCount
      modifies this, Arrays()
      ensures Valid() && Coherent()
      ensures off < |old(Snapshot()).offsets| == |old(Snapshot()).scores| == |old(Snapshot()).ids|
                == |old(Snapshot()).byId|
      ensures r == old(Snapshot()).ids[off]
        && old(Snapshot()).startId <= r < old(Snapshot()).startId + |old(Snapshot()).byId|
      ensures Snapshot() == Updated(old(Snapshot()), off, delta, selected, now)
    {
      hide *;
      Relied();
      ReadBack();
      Writable();
      ghost var d := Snapshot();
      UpdateDone(spl, d, disk.data, caches, off, delta, selected, now);
      r := ids[off];
      var s := scores[off];
      var score, step := UpdatedScore(s, delta, selected, now), Delta(ScoreFreq(s), delta);
      Rescore(off, score, step);
      ReadBack();
      QueueForSync(r);
      ReadBack();
      Settled(Updated(d, off, delta, selected, now));
    }

    /** `remove_lemma`. */
    method RemoveLemma(id: u32) returns (ok: bool, ghost off: int)
      requires Ready()
      modifies this, Arrays()
      ensures Ready() && (ok <==> off >= 0)
      ensures old(state) == NotLoaded ==> off == -1
      ensures old(state) != NotLoaded ==> Located(spl, old(Snapshot()), id, off)
      ensures off == -1 ==> Snapshot() == old(Snapshot())
      ensures off >= 0 ==> off < |old(Snapshot()).offsets| && Snapshot() == RemovedAt(old(Snapshot()), off)
    {
      hide *;
      ReadyGives();
      if state == NotLoaded {
        return false, -1;
      }
      Relied();
      ReadBack();
      Writable();
      var found := LocateById(id);
      off := found;
      LocatedIs(spl, Snapshot(), id, off);
      if found == -1 {
        InOrder();
        return false, off;
      }
      RemoveKeeping(found);
      ok := true;
      InOrder();
    }

    /** `remove_lemma_by_offset_index` on a dictionary that is in order. */
    method RemoveKeeping(off: nat)
      requires Valid() && Coherent() && off < info.lemmaCount
      modifies this, Arrays()
      ensures Valid() && Coherent() && off < |old(Snapshot()).offsets| && Snapshot() == RemovedAt(old(Snapshot()), off)
      ensures state != NotLoaded && info.lemmaCount == old(info.lemmaCount)
      ensures lemmas == old(lemmas) && offsets == old(offsets) && scores == old(scores) && ids == old(ids)
      ensures predicts == old(predicts) && syncs == old(syncs) && byId == old(byId)
    {
      hide *;
      Relied();
      ReadBack();
      Writable();
      ghost var d := Snapshot();
      RemoveDone(spl, d, disk.data, caches, off);
      RemoveAt(off);
      ReadBack();
      Settled(RemovedAt(d, off));
    }

    /** `get_lemma_id`. */
    method GetLemmaId(splids: seq<u16>, word: seq<u16>) returns (id: u32)
      requires Valid() && Coherent() && 1 <= |splids| == |word| <= MAX_LEMMA_SIZE
      ensures IdOk(spl, Snapshot(), splids, word, id)
    {
      hide *;
      Relied();
      ReadBack();
      Writable();
      var r := LocateInOffsets(spl, Snapshot(), caches, splids, word);
      id := if r == -1 then 0 else ids[r];
      IdIs(spl, Snapshot(), splids, word, r);
    }

    /** `get_lpis`. */
    method GetLpis(asked: seq<u16>, lpiMax: nat) returns (items: seq<LpiItem>, needExtend: bool)
      requires Ready() && 1 <= |asked| <= MAX_LEMMA_SIZE
      modifies this`caches
      ensures Shape() && Snapshot() == old(Snapshot())
      ensures state == NotLoaded ==> items == [] && !needExtend && caches == old(caches)
      ensures state != NotLoaded ==>
                && Valid() && |Snapshot().offsets| == |Snapshot().scores| == |Snapshot().ids|
                && Answers(spl, Snapshot(), asked, lpiMax, items)
                && (|items| < lpiMax ==> ExtendOk(spl, Snapshot(), asked, needExtend))
                && (items != [] ==> needExtend)
                && (needExtend ==> Extending(spl, Snapshot(), asked, 0, |Snapshot().offsets|))
      ensures |items| < lpiMax ==> Ready()
    {
      hide *;
      ReadyGives();
      if state == NotLoaded {
        return [], false;
      }
      Relied();
      ReadBack();
      Writable();
      CountBelowWord(spl, Snapshot());
      ghost var d := Snapshot();
      var c;
      items, needExtend, c := LookupCache.GetLpis(spl, Snapshot(), caches, asked, lpiMax);
      Open();
      caches := c;
      Close();
      ReadBack();
      IsValid();
      CoherentIs();
      if |items| < lpiMax {
        IsReady();
      }
    }

    // ---- reclaim ----

    /** `reclaim`: `VictimCount` entries are removed, one after the other; if no two scores are equal, exactly those
        that fewer others score below. */
    method Reclaim() returns (ghost victims: seq<nat>)
      requires Ready() && (state != NotLoaded ==> Reclaimable(Snapshot()))
      modifies this, Arrays()
      ensures Ready() && (state == NotLoaded <==> old(state) == NotLoaded)
      ensures lemmas == old(lemmas) && offsets == old(offsets) && scores == old(scores) && ids == old(ids)
      ensures predicts == old(predicts) && syncs == old(syncs) && byId == old(byId)
      ensures old(state) == NotLoaded ==> Snapshot() == old(Snapshot())
      ensures old(state) != NotLoaded ==> Reclaimed(old(Snapshot()), victims, Snapshot())
      ensures old(state) != NotLoaded ==>
                var n, ratio := |old(Snapshot()).offsets|, old(Snapshot()).reclaimRatio;
                && (ratio == 0 || ratio == 100 ==> victims == [])
                && (0 < ratio < 100 && n * ratio < 0x1_0000_0000 ==>
                      100 * |victims| <= n * ratio < 100 * |victims| + 100)
    {
      hide *;
      ReadyGives();
      victims := [];
      if state == NotLoaded {
        return;
      }
      Relied();
      ReadBack();
      Writable();
      if info.reclaimRatio == 0 || info.reclaimRatio == 100 {
        NothingReclaimed(Snapshot());
        VictimShare(Snapshot(), [], Snapshot());
        InOrder();
        return;
      }
      ghost var d := Snapshot();
      victims := ReclaimSome();
      InOrder();
      ReadyGives();
      VictimShare(d, victims, Snapshot());
    }

    method ReclaimSome() returns (ghost victims: seq<nat>)
      requires Valid() && Coherent() && Reclaimable(Snapshot()) && info.reclaimRatio != 0 && info.reclaimRatio != 100
      modifies this, Arrays()
      ensures Valid() && Coherent() && state != NotLoaded
      ensures lemmas == old(lemmas) && offsets == old(offsets) && scores == old(scores) && ids == old(ids)
      ensures predicts == old(predicts) && syncs == old(syncs) && byId == old(byId)
      ensures Reclaimed(old(Snapshot()), victims, Snapshot())
    {
      hide *;
      Relied();
      ReadBack();
      Writable();
      ghost var d := Snapshot();
      var rc := VictimCount(Snapshot());
      CanReclaim(d);
      var sop := ScoreHeap.SelectVictims(Snapshot().scores, rc);
      ghost var picked := sop[..];
      ScoreHeap.PicksAreEntries(d.scores, rc, |d.scores|);
      PickedInRange(d, picked);
      victims := Indexes(picked);
      var i := 0;
      RemovedNone(d);
      Relied();
      ReadBack();
      Writable();
      while i < rc
        invariant i <= rc && sop[..] == picked && Shape() && Valid() && Coherent() && state != NotLoaded
        invariant lemmas == old(lemmas) && offsets == old(offsets) && scores == old(scores) && ids == old(ids)
        invariant predicts == old(predicts) && syncs == old(syncs) && byId == old(byId)
        invariant info.lemmaCount == |d.offsets| && Snapshot() == RemovedAll(d, victims[..i])
      {
        Writable();
        var off := sop[i].index;
        RemovedNext(d, victims, i);
        RemoveKeeping(off);
        ValidGives();
        i := i + 1;
      }
      assert victims[..i] == victims;
      VictimsAre(d, picked);
    }

    /** `reclaim`, `defragment`, `flush_cache`: how room is made once a limit is reached. */
    method MakeRoom() returns (ghost victims: seq<nat>, ghost m: Dict)
      requires Valid() && Coherent() && Reclaimable(Snapshot()) && FitsInFile(Snapshot())
      modifies this, Arrays(), disk
      ensures Valid() && Coherent()
      ensures Reclaimed(old(Snapshot()), victims, m) && Inv(spl, m) && m.startId + |m.offsets| <= WORD_RANGE
      ensures Defragged(m).startId + |Defragged(m).offsets| <= WORD_RANGE && Snapshot() == Reloaded(Defragged(m))
    {
      hide *;
      Relied();
      ReadBack();
      Writable();
      ghost var d := Snapshot();
      InOrder();
      victims := Reclaim();
      ReadyGives();
      m := Snapshot();
      StillFits(d, victims, m);
      Writable();
      DefragmentAndFlush();
    }

    method DefragmentAndFlush()
      requires Valid() && Coherent() && FitsInFile(Snapshot())
      modifies this, Arrays(), disk
      ensures Valid() && Coherent() && Inv(spl, old(Snapshot()))
        && old(Snapshot()).startId + |old(Snapshot()).offsets| <= WORD_RANGE
      ensures var e := Defragged(old(Snapshot())); e.startId + |e.offsets| <= WORD_RANGE && Snapshot() == Reloaded(e)
    {
      hide *;
      Relied();
      ReadBack();
      Writable();
      CompactDone(spl, Snapshot(), disk.data);
      Defragment();
      ReadBack();
      IsValid();
      FlushCache();
    }
  }
}
