/** What the public calls of the user dictionary rely on and preserve, as facts about values. */
module DictCalls {
  import opened Bytes
  import opened LemmaBlock
  import opened Partition
  import opened BlockFacts
  import opened SpellingOrder
  import opened DictModel
  import opened DictInvariants
  import opened Defragment
  import opened DictFile
  import opened DictQuery
  import opened LookupCache
  import opened DictLocate
  import ScoreHeap

  lemma FlushReady(spl: Spellings, d: Dict, f: seq<u8>)
    requires SysInv(spl, Sys(d, f)) && FitsInFile(d)
    ensures FileInv(d, f) && d.startId + |d.offsets| <= WORD_RANGE
    ensures var g := Serialize(d);
            && Validates(g) && Loadable(g) && d.startId + InfoOf(g)[3] <= WORD_RANGE
               && Loaded(g, d.startId) == Reloaded(d)
            && SysInv(spl, Sys(Reloaded(d), g))
    ensures Reloaded(d).level == Synced && Reloaded(d).startId == d.startId
    ensures CachesInRange(Reloaded(d), EmptyCaches()) && CachesOk(spl, Reloaded(d), EmptyCaches())
  {
    hide Inv, FileInv, Serialize, Validates, Loadable, Loaded, FitsInFile, CachesOk;
    InvLengths(spl, d);
    LoadOfImage(d);
    FlushKeepsSys(spl, Sys(d, f));
    EmptyCachesOk(spl, Reloaded(d));
  }

  // ---- put_lemma ----

  /** `set_limit` was called and its limit is reached. */
  predicate LimitReached(d: Dict, n: nat) {
    || (d.limitCount > 0 && |d.offsets| >= d.limitCount)
    || (d.limitSize > 0 && |d.block| + (2 + 4 * n) > d.limitSize)
  }

  predicate NeedsFlush(d: Dict, n: nat) {
    d.countLeft == 0 || d.sizeLeft < 2 + 4 * n
  }

  /** The dictionary a new lemma of length n is appended to. */
  function Roomy(d: Dict, n: nat): (e: Dict)
    requires d.startId + |d.offsets| <= WORD_RANGE
  {
    if NeedsFlush(d, n) then Reloaded(d) else d
  }

  /** No live lemma has this spelling and this word. */
  ghost predicate Unknown(d: Dict, splids: seq<u16>, word: seq<u16>) {
    forall k :: 0 <= k < |d.offsets| && !Removed(d.offsets[k]) ==> !Holds(d.block, d.offsets[k], splids, word)
  }

  lemma NotFoundIsUnknown(spl: Spellings, d: Dict, splids: seq<u16>, word: seq<u16>)
    requires spl.Valid() && FullIds(splids) && LocateOk(spl, d, splids, word, -1)
    ensures Unknown(d, splids, word) && (d.startId + |d.offsets| <= WORD_RANGE ==> Unknown(Reloaded(d), splids, word))
  {
    LocateFullIds(spl, d, splids, word, -1);
  }

  /** The entries name different bytes of the block, so there are no more of them than bytes. */
  lemma CountBelowSize(b: seq<u8>, offs: seq<u32>)
    requires Indexed(b, offs)
    ensures |offs| <= |b|
  {
    StartsBelow(b, offs);
    PositionsSize(offs);
    forall p | p in Positions(offs) ensures p in UpTo(|b|) {
      var i :| 0 <= i < |offs| && Pos(offs[i]) == p;
    }
    ScoreHeap.SubsetSize(Positions(offs), UpTo(|b|));
  }

  ghost function UpTo(n: nat): (s: set<nat>)
    ensures |s| == n && forall p: nat :: p in s <==> p < n
  {
    if n == 0 then {} else UpTo(n - 1) + {n - 1}
  }

  lemma {:induction false} PositionsSize(offs: seq<u32>)
    requires forall i, j :: 0 <= i < j < |offs| ==> Pos(offs[i]) != Pos(offs[j])
    ensures |Positions(offs)| == |offs|
  {
    if offs != [] {
      var n := |offs| - 1;
      PositionsSize(offs[..n]);
      assert Positions(offs) == Positions(offs[..n]) + {Pos(offs[n]) as nat};
    }
  }

  lemma RoomToAppend(spl: Spellings, d: Dict, f: seq<u8>, word: seq<u16>)
    requires SysInv(spl, Sys(d, f)) && d.startId < REMOVE_FLAG && 1 <= |word| <= MAX_LEMMA_SIZE
    requires |d.block| < REMOVE_FLAG && !NeedsFlush(d, |word|)
    ensures CanAppend(d, word)
  {
    CountBelowSize(d.block, d.offsets);
    InvLengths(spl, d);
    hide Inv, FileInv;
  }

  lemma AppendDone(spl: Spellings, d: Dict, f: seq<u8>, splids: seq<u16>, word: seq<u16>, count: u16,
    score: u32, j: nat)
    requires SysInv(spl, Sys(d, f)) && |splids| == |word| && CanAppend(d, word) && j <= |d.offsets|
      && Unknown(d, splids, word)
    ensures var a := Appended(spl, d, splids, word, count, score, j);
            && a.startId == d.startId <= NextId(d) < a.startId + |a.offsets| == a.startId + |a.byId|
            && var e := Queued(a, NextId(d));
            && SysInv(spl, Sys(e, f)) && e.startId == d.startId && e.level != NotLoaded
            && CachesInRange(e, EmptyCaches()) && CachesOk(spl, e, EmptyCaches())
  {
    hide Inv, FileInv, Appended, Queued, CanAppend, CachesOk;
    AppendAndQueue(spl, d, f, splids, word, count, score, j);
    AppendedFields(spl, d, splids, word, count, score, j);
    QueuedFields(Appended(spl, d, splids, word, count, score, j), NextId(d));
    EmptyCachesOk(spl, Queued(Appended(spl, d, splids, word, count, score, j), NextId(d)));
  }

  lemma QueuedFields(d: Dict, id: u32)
    requires d.startId <= id < d.startId + |d.byId|
    ensures var e := Queued(d, id);
            e.startId == d.startId && e.level == d.level && e.offsets == d.offsets && e.block == d.block
  {
  }

  /** A change of scores and lists leaves the caches right. */
  lemma SameIndex(spl: Spellings, d: Dict, e: Dict, c: Caches)
    requires e.block == d.block && e.offsets == d.offsets
    ensures CachesInRange(d, c) ==> CachesInRange(e, c)
    ensures CachesOk(spl, d, c) ==> CachesOk(spl, e, c)
  {
    hide CachesOk;
    if CachesOk(spl, d, c) {
      CachesSurvive(spl, d, e, c);
    }
  }

  lemma RescoreDone(spl: Spellings, d: Dict, f: seq<u8>, c: Caches, off: nat, score: u32, delta: int)
    requires SysInv(spl, Sys(d, f)) && off < |d.offsets|
    ensures |d.scores| == |d.offsets| == |d.ids| == |d.byId|
    ensures var e := Rescored(d, off, score, delta);
            && SysInv(spl, Sys(e, f)) && e.startId == d.startId && e.level != NotLoaded && e.byId == d.byId
            && (CachesInRange(d, c) ==> CachesInRange(e, c)) && (CachesOk(spl, d, c) ==> CachesOk(spl, e, c))
  {
    UpdateKeepsSys(spl, Sys(d, f), off, score, delta);
    RescoredFields(d, off, score, delta);
    InvLengths(spl, d);
    hide Inv, FileInv, CachesOk, CachesInRange;
    SameIndex(spl, d, Rescored(d, off, score, delta), c);
  }

  /** What `put_lemma` makes of d, and the id it returns. */
  ghost predicate PutOutcome(spl: Spellings, d: Dict, splids: seq<u16>, word: seq<u16>, count: u16, lmt: nat, off: int,
    j: nat, e: Dict, id: u32)
    requires |splids| == |word|
  {
    if off >= 0 then
      && off < |d.scores| == |d.ids| && id == d.ids[off]
      && e == Rescored(d, off, BuildScore(lmt, count), count as int - d.scores[off])
    else if LimitReached(d, |word|) then
      id == 0 && e == d
    else
      && d.startId + |d.offsets| <= WORD_RANGE
      && var r := Roomy(d, |word|);
      if |r.block| >= REMOVE_FLAG then id == 0 && e == r
      else
        && CanAppend(r, word) && id == NextId(r) && j <= |r.offsets|
        && var a := Appended(spl, r, splids, word, count, BuildScore(lmt, count), j);
        a.startId <= id < a.startId + |a.byId| && e == Queued(a, id)
  }

  lemma PutKnown(spl: Spellings, d: Dict, splids: seq<u16>, word: seq<u16>, count: u16, lmt: nat,
    off: nat, j: nat, id: u32)
    requires |splids| == |word| && off < |d.scores| == |d.ids| && id == d.ids[off]
    ensures PutOutcome(spl, d, splids, word, count, lmt, off, j,
              Rescored(d, off, BuildScore(lmt, count), count as int - d.scores[off]), id)
  {
  }

  lemma PutRefused(spl: Spellings, d: Dict, splids: seq<u16>, word: seq<u16>, count: u16, lmt: nat, j: nat)
    requires |splids| == |word| && LimitReached(d, |word|)
    ensures PutOutcome(spl, d, splids, word, count, lmt, -1, j, d, 0)
  {
  }

  lemma PutTooLong(spl: Spellings, d: Dict, splids: seq<u16>, word: seq<u16>, count: u16, lmt: nat, j: nat)
    requires |splids| == |word| && !LimitReached(d, |word|) && d.startId + |d.offsets| <= WORD_RANGE
    requires |Roomy(d, |word|).block| >= REMOVE_FLAG
    ensures PutOutcome(spl, d, splids, word, count, lmt, -1, j, Roomy(d, |word|), 0)
  {
  }

  lemma PutAppended(spl: Spellings, d: Dict, splids: seq<u16>, word: seq<u16>, count: u16, lmt: nat, j: nat)
    requires |splids| == |word| && !LimitReached(d, |word|) && d.startId + |d.offsets| <= WORD_RANGE
    requires var r := Roomy(d, |word|);
             && |r.block| < REMOVE_FLAG && CanAppend(r, word) && j <= |r.offsets|
             && var a := Appended(spl, r, splids, word, count, BuildScore(lmt, count), j);
             a.startId <= NextId(r) < a.startId + |a.byId|
    ensures var r := Roomy(d, |word|);
            PutOutcome(spl, d, splids, word, count, lmt, -1, j,
              Queued(Appended(spl, r, splids, word, count, BuildScore(lmt, count), j), NextId(r)), NextId(r))
  {
    hide Appended, Queued, CanAppend;
  }

  lemma RoomyIs(d: Dict, n: nat)
    requires d.startId + |d.offsets| <= WORD_RANGE && n <= MAX_LEMMA_SIZE
    ensures Roomy(d, n) == (if NeedsFlush(d, n) then Reloaded(d) else d) && !NeedsFlush(Roomy(d, n), n)
  {
  }

  // ---- Calls that name a lemma by its id ----

  /** `is_valid_lemma_id`. */
  predicate ValidId(d: Dict, id: u32) {
    d.startId <= id < d.startId + |d.offsets|
  }

  ghost predicate Above(startId: u32, ids: seq<u32>) {
    forall i :: 0 <= i < |ids| ==> ids[i] >= startId
  }

  ghost function IdSet(startId: u32, ids: seq<u32>): (s: set<nat>)
    requires Above(startId, ids)
  {
    set i | 0 <= i < |ids| :: (ids[i] - startId) as nat
  }

  lemma {:induction false} IdSetSize(startId: u32, ids: seq<u32>)
    requires Above(startId, ids) && forall i, j :: 0 <= i < j < |ids| ==> ids[i] != ids[j]
    ensures |IdSet(startId, ids)| == |ids|
  {
    if ids != [] {
      var n := |ids| - 1;
      IdSetSize(startId, ids[..n]);
      IdSetSnoc(startId, ids);
    }
  }

  lemma IdSetSnoc(startId: u32, ids: seq<u32>)
    requires Above(startId, ids) && ids != [] && forall i, j :: 0 <= i < j < |ids| ==> ids[i] != ids[j]
    ensures var n := |ids| - 1;
            var x: nat := ids[n] - startId;
            IdSet(startId, ids) == IdSet(startId, ids[..n]) + {x} && x !in IdSet(startId, ids[..n])
  {
    var n := |ids| - 1;
    var s, t := IdSet(startId, ids), IdSet(startId, ids[..n]);
    forall x | x in t ensures x in s && x != ids[n] - startId {
      var i :| 0 <= i < n && x == ids[..n][i] - startId;
      assert x == ids[i] - startId;
    }
    forall x | x in s && x != ids[n] - startId ensures x in t {
      var i :| 0 <= i < |ids| && x == ids[i] - startId;
      assert x == ids[..n][i] - startId;
    }
    assert ids[n] - startId in s;
  }

  lemma FullSubset(a: set<nat>, b: set<nat>)
    requires a <= b && |a| == |b|
    ensures a == b
  {
    if a != b {
      var x :| x in b && x !in a;
      ScoreHeap.SubsetSize(a, b - {x});
    }
  }

  /** Every issued id belongs to one entry. */
  lemma IdOnto(spl: Spellings, d: Dict, id: u32) returns (i: nat)
    requires Inv(spl, d) && ValidId(d, id)
    ensures i < |d.offsets| == |d.ids| == |d.byId| && d.ids[i] == id && Pos(d.byId[id - d.startId]) == Pos(d.offsets[i])
  {
    hide *;
    InvLengths(spl, d);
    InvGives(spl, d);
    ValidIdIs(d, id);
    forall i, j | 0 <= i < j < |d.ids| ensures d.ids[i] != d.ids[j] {
      IdsArePermutation(spl, d, i, j);
    }
    i := IdIsUsed(d.startId, d.ids, d.byId, d.offsets, id);
  }

  lemma ValidIdIs(d: Dict, id: u32)
    requires ValidId(d, id)
    ensures d.startId <= id < d.startId as nat + |d.offsets|
  {
  }

  /** Different ids from an interval of their number are all of the interval. */
  lemma IdIsUsed(startId: u32, ids: seq<u32>, byId: seq<u32>, offs: seq<u32>, id: u32) returns (i: nat)
    requires IdsOk(startId, ids, byId, offs) && startId <= id < startId as nat + |offs|
      && forall i, j :: 0 <= i < j < |ids| ==> ids[i] != ids[j]
    ensures i < |offs| == |ids| == |byId| && ids[i] == id && Pos(byId[id - startId]) == Pos(offs[i])
  {
    hide *;
    IdsInside(startId, ids, byId, offs);
    IdSetSize(startId, ids);
    FullSubset(IdSet(startId, ids), UpTo(|ids|));
    i := IdFrom(startId, ids, id);
    IdStands(startId, ids, byId, offs, i);
  }

  lemma IdsInside(startId: u32, ids: seq<u32>, byId: seq<u32>, offs: seq<u32>)
    requires IdsOk(startId, ids, byId, offs)
    ensures |ids| == |byId| == |offs| && Above(startId, ids) && IdSet(startId, ids) <= UpTo(|ids|)
  {
    hide UpTo, Pos;
  }

  lemma IdFrom(startId: u32, ids: seq<u32>, id: u32) returns (i: nat)
    requires Above(startId, ids) && startId <= id < startId as nat + |ids| && IdSet(startId, ids) == UpTo(|ids|)
    ensures i < |ids| && ids[i] == id
  {
    hide UpTo;
    var x: nat := id - startId;
    assert x in UpTo(|ids|);
    i :| 0 <= i < |ids| && ids[i] - startId == x;
  }

  lemma IdStands(startId: u32, ids: seq<u32>, byId: seq<u32>, offs: seq<u32>, i: nat)
    requires IdsOk(startId, ids, byId, offs) && i < |ids|
    ensures |ids| == |byId| == |offs| && startId <= ids[i] < startId as nat + |ids|
      && Pos(byId[ids[i] - startId]) == Pos(offs[i])
  {
    hide Pos;
  }

  /** The spelling and the word that an id stands for. */
  function SplidsById(d: Dict, id: u32): (s: seq<u16>)
    requires ValidId(d, id) && |d.byId| == |d.offsets|
  {
    SplidsOf(d.block, d.byId[id - d.startId])
  }

  function WordById(d: Dict, id: u32): (w: seq<u16>)
    requires ValidId(d, id) && |d.byId| == |d.offsets|
  {
    WordOf(d.block, d.byId[id - d.startId])
  }

  lemma ByIdReads(spl: Spellings, d: Dict, id: u32)
    requires Inv(spl, d) && ValidId(d, id)
    ensures |d.byId| == |d.offsets| && 1 <= |SplidsById(d, id)| == |WordById(d, id)| <= MAX_LEMMA_SIZE
  {
    var i := IdOnto(spl, d, id);
    assert IsStart(d.block, Pos(d.offsets[i]));
  }

  /** Searching for the lemma of an id finds the entry with that id, when it is live and its ids are full. */
  lemma ByIdFinds(spl: Spellings, d: Dict, id: u32, r: int, i: nat)
    requires spl.Valid() && Inv(spl, d) && ValidId(d, id) && |d.byId| == |d.offsets| == |d.ids|
    requires i < |d.offsets| && d.ids[i] == id && !Removed(d.offsets[i]) && FullIds(SplidsById(d, id))
    requires LocateOk(spl, d, SplidsById(d, id), WordById(d, id), r)
    ensures r == i
  {
    var asked, word := SplidsById(d, id), WordById(d, id);
    ByIdIs(spl, d, id, i);
    LocateFullIds(spl, d, asked, word, r);
    assert Holds(d.block, d.offsets[i], asked, word);
    LocateLive(spl, d, asked, word, r);
    hide Indexed, Sorted, IdsOk, Tiled, Clean, LocateOk;
  }

  lemma ByIdIs(spl: Spellings, d: Dict, id: u32, i: nat)
    requires Inv(spl, d) && ValidId(d, id) && |d.byId| == |d.offsets| == |d.ids| && i < |d.offsets| && d.ids[i] == id
    ensures SplidsById(d, id) == SplidsOf(d.block, d.offsets[i]) && WordById(d, id) == WordOf(d.block, d.offsets[i])
  {
    assert Pos(d.byId[d.ids[i] - d.startId]) == Pos(d.offsets[i]);
  }

  lemma LocateLive(spl: Spellings, d: Dict, asked: seq<u16>, word: seq<u16>, r: int)
    requires spl.Valid() && LocateOk(spl, d, asked, word, r)
    ensures -1 <= r < |d.offsets| && (r >= 0 ==> !Removed(d.offsets[r]))
  {
  }

  /** What the search for the lemma of an id may return. */
  ghost predicate Located(spl: Spellings, d: Dict, id: u32, r: int) {
    && spl.Valid() && -1 <= r < |d.offsets|
    && (!ValidId(d, id) ==> r == -1)
    && (ValidId(d, id) ==> |d.byId| == |d.offsets| && LocateOk(spl, d, SplidsById(d, id), WordById(d, id), r))
  }

  lemma LocatedIs(spl: Spellings, d: Dict, id: u32, r: int)
    requires spl.Valid() && -1 <= r < |d.offsets| && (r >= 0 ==> ValidId(d, id))
    requires ValidId(d, id) ==> |d.byId| == |d.offsets| && LocateOk(spl, d, SplidsById(d, id), WordById(d, id), r)
    ensures Located(spl, d, id, r)
  {
  }

  // ---- update_lemma, remove_lemma ----

  /** The score that `update_lemma` stores. */
  function UpdatedScore(score: u32, delta: int, selected: bool, now: nat): (s: u32) {
    BuildScore(if selected then now else ScoreTime(score), ScoreFreq(score) + Delta(ScoreFreq(score), delta))
  }

  function Updated(d: Dict, off: nat, delta: int, selected: bool, now: nat): (e: Dict)
    requires off < |d.offsets| == |d.scores| == |d.ids| == |d.byId| && d.startId <= d.ids[off] < d.startId + |d.byId|
  {
    var s := d.scores[off];
    Queued(Rescored(d, off, UpdatedScore(s, delta, selected, now), Delta(ScoreFreq(s), delta)), d.ids[off])
  }

  lemma UpdateDone(spl: Spellings, d: Dict, f: seq<u8>, c: Caches, off: nat, delta: int, selected: bool, now: nat)
    requires SysInv(spl, Sys(d, f)) && off < |d.offsets|
    ensures off < |d.offsets| == |d.scores| == |d.ids| == |d.byId| && d.startId <= d.ids[off] < d.startId + |d.byId|
    ensures var s := d.scores[off];
            var m := Rescored(d, off, UpdatedScore(s, delta, selected, now), Delta(ScoreFreq(s), delta));
            && m.startId == d.startId && m.byId == d.byId
            && var e := Updated(d, off, delta, selected, now);
            && e == Queued(m, d.ids[off])
            && SysInv(spl, Sys(e, f)) && e.startId == d.startId && e.level != NotLoaded
            && (CachesInRange(d, c) ==> CachesInRange(e, c)) && (CachesOk(spl, d, c) ==> CachesOk(spl, e, c))
  {
    IdInRange(spl, d, off);
    hide SysInv, CachesOk, CachesInRange, UpdatedScore, Delta, Rescored;
    UpdateKeepsSys(spl, Sys(d, f), off, UpdatedScore(d.scores[off], delta, selected, now),
      Delta(ScoreFreq(d.scores[off]), delta));
    RescoreDone(spl, d, f, c, off, UpdatedScore(d.scores[off], delta, selected, now),
      Delta(ScoreFreq(d.scores[off]), delta));
    var m := Rescored(d, off, UpdatedScore(d.scores[off], delta, selected, now),
      Delta(ScoreFreq(d.scores[off]), delta));
    SameIndex(spl, m, Queued(m, d.ids[off]), c);
  }

  lemma RemoveDone(spl: Spellings, d: Dict, f: seq<u8>, c: Caches, off: nat)
    requires SysInv(spl, Sys(d, f)) && off < |d.offsets|
    ensures var e := RemovedAt(d, off);
            && SysInv(spl, Sys(e, f)) && e.startId == d.startId && e.level != NotLoaded && |e.offsets| == |d.offsets|
            && (CachesInRange(d, c) ==> CachesInRange(e, c)) && (CachesOk(spl, d, c) ==> CachesOk(spl, e, c))
  {
    RemoveKeepsInv(spl, d, off);
    RemoveKeepsFile(d, off, f);
    RemovedIs(d, off);
    hide Inv, FileInv, CachesOk, RemovedAt;
    if CachesOk(spl, d, c) {
      CachesSurvive(spl, d, RemovedAt(d, off), c);
    }
  }

  lemma RemovedIs(d: Dict, off: nat)
    requires off < |d.offsets|
    ensures var e := RemovedAt(d, off);
            e.startId == d.startId && e.level != NotLoaded && |e.offsets| == |d.offsets| && OnlyRemovals(d, e)
  {
    hide SyncDropped, PredictFlagged;
  }

  lemma CountBelowWord(spl: Spellings, d: Dict)
    requires Inv(spl, d)
    ensures |d.offsets| < WORD_RANGE && |d.offsets| == |d.scores| == |d.ids|
  {
    InvLengths(spl, d);
    PositionsSize(d.offsets);
    hide Tiled, Clean, Sorted, IdsOk, Distinct;
    forall p | p in Positions(d.offsets) ensures p in UpTo(REMOVE_FLAG) {
    }
    ScoreHeap.SubsetSize(Positions(d.offsets), UpTo(REMOVE_FLAG));
  }

  // ---- reclaim ----

  /** The entries at these indices removed one after the other. */
  ghost function RemovedAll(d: Dict, s: seq<nat>): (e: Dict)
    requires forall k :: 0 <= k < |s| ==> s[k] < |d.offsets|
    ensures |e.offsets| == |d.offsets|
  {
    if s == [] then d
    else
      var e := RemovedAll(d, s[..|s| - 1]);
      RemovedIs(e, s[|s| - 1]);
      RemovedAt(e, s[|s| - 1])
  }

  lemma {:induction false} RemovedAllEffect(d: Dict, s: seq<nat>, i: nat)
    requires (forall k :: 0 <= k < |s| ==> s[k] < |d.offsets|) && i < |d.offsets|
    ensures var e := RemovedAll(d, s);
            && Pos(e.offsets[i]) == Pos(d.offsets[i]) && (Removed(e.offsets[i]) <==> Removed(d.offsets[i]) || i in s)
            && e.scores == d.scores && e.ids == d.ids && e.block == d.block
  {
    if s != [] {
      var n := |s| - 1;
      RemovedAllIs(d, s);
      InFront(s, i);
      hide *;
      RemovedAllEffect(d, s[..n], i);
      RemoveEffect(RemovedAll(d, s[..n]), s[n], i);
    }
  }

  lemma RemovedAllIs(d: Dict, s: seq<nat>)
    requires s != [] && forall k :: 0 <= k < |s| ==> s[k] < |d.offsets|
    ensures var n := |s| - 1;
            s[n] < |RemovedAll(d, s[..n]).offsets| == |d.offsets|
            && RemovedAll(d, s) == RemovedAt(RemovedAll(d, s[..n]), s[n])
  {
    hide RemovedAt;
  }

  lemma InFront(s: seq<nat>, i: nat)
    requires s != []
    ensures i in s <==> i in s[..|s| - 1] || i == s[|s| - 1]
  {
    assert s == s[..|s| - 1] + [s[|s| - 1]];
  }

  /** How many entries `reclaim` removes: the product is taken in 32 bits. */
  function VictimCount(d: Dict): (rc: nat) {
    |d.offsets| * d.reclaimRatio % WORD_RANGE / 100
  }

  /** What `reclaim` needs: at least one victim. */
  ghost predicate Reclaimable(d: Dict) {
    d.reclaimRatio == 0 || d.reclaimRatio == 100 || (d.reclaimRatio < 100 && VictimCount(d) > 0)
  }

  /** The victims are rc different entries; if no two scores are equal, exactly those that fewer than rc others score
      below; and e is d without them. */
  ghost predicate Reclaimed(d: Dict, victims: seq<nat>, e: Dict) {
    && |d.scores| == |d.offsets|
    && (forall k :: 0 <= k < |victims| ==> victims[k] < |d.offsets|)
    && (forall k, m :: 0 <= k < m < |victims| ==> victims[k] != victims[m])
    && |victims| == (if d.reclaimRatio == 0 || d.reclaimRatio == 100 then 0 else VictimCount(d))
    && (ScoreHeap.AllDistinct(d.scores) ==>
          forall j :: 0 <= j < |d.offsets| ==> (j in victims <==> ScoreHeap.Rank(d.scores, j) < |victims|))
    && e == RemovedAll(d, victims)
  }

  /** How many there are: the share in per cent, rounded down; the product is cut to 32 bits. */
  lemma VictimShare(d: Dict, victims: seq<nat>, e: Dict)
    requires Reclaimed(d, victims, e)
    ensures d.reclaimRatio == 0 || d.reclaimRatio == 100 ==> victims == []
    ensures d.reclaimRatio != 0 && d.reclaimRatio != 100 ==>
              var n := |d.offsets| * d.reclaimRatio % 0x1_0000_0000; 100 * |victims| <= n < 100 * |victims| + 100
    ensures 0 < d.reclaimRatio < 100 && |d.offsets| * d.reclaimRatio < 0x1_0000_0000 ==>
              100 * |victims| <= |d.offsets| * d.reclaimRatio < 100 * |victims| + 100
  {
    hide *;
    VictimsCounted(d, victims, e);
    if d.reclaimRatio != 0 && d.reclaimRatio != 100 {
      Hundredth(|d.offsets| * d.reclaimRatio % 0x1_0000_0000, |victims|);
      NotCut(|d.offsets|, d.reclaimRatio);
    }
  }

  lemma Hundredth(n: nat, r: nat)
    requires r == n / 100
    ensures 100 * r <= n < 100 * r + 100
  {
  }

  lemma NotCut(n: nat, ratio: nat)
    ensures n * ratio < 0x1_0000_0000 ==> n * ratio % 0x1_0000_0000 == n * ratio
  {
    Product(n, ratio);
  }

  lemma Product(n: nat, ratio: nat)
    ensures n * ratio >= 0
  {
  }

  lemma VictimsCounted(d: Dict, victims: seq<nat>, e: Dict)
    requires Reclaimed(d, victims, e)
    ensures d.reclaimRatio == 0 || d.reclaimRatio == 100 ==> victims == []
    ensures d.reclaimRatio != 0 && d.reclaimRatio != 100 ==>
              |victims| == |d.offsets| * d.reclaimRatio % 0x1_0000_0000 / 100
  {
  }

  lemma NothingReclaimed(d: Dict)
    requires |d.scores| == |d.offsets| && (d.reclaimRatio == 0 || d.reclaimRatio == 100)
    ensures Reclaimed(d, [], d)
  {
  }

  lemma CanReclaim(d: Dict)
    requires Reclaimable(d) && d.reclaimRatio != 0 && d.reclaimRatio != 100
    ensures 0 < VictimCount(d) <= |d.offsets|
  {
    Share(|d.offsets|, d.reclaimRatio);
  }

  lemma Share(n: nat, ratio: nat)
    requires ratio <= 100
    ensures n * ratio % WORD_RANGE / 100 <= n
  {
    assert n * ratio <= n * 100;
  }

  function Indexes(s: seq<ScoreHeap.Pair>): (r: seq<nat>)
    ensures |r| == |s| && forall k :: 0 <= k < |s| ==> r[k] == s[k].index
  {
    seq(|s|, k requires 0 <= k < |s| => s[k].index)
  }

  lemma PickedInRange(d: Dict, s: seq<ScoreHeap.Pair>)
    requires |d.scores| == |d.offsets| && ScoreHeap.Entries(d.scores, s, |d.scores|)
    ensures |Indexes(s)| == |s| && forall k :: 0 <= k < |s| ==> s[k].index < |d.offsets| && Indexes(s)[k] == s[k].index
  {
    forall k | 0 <= k < |s| ensures s[k].index < |d.offsets| {
      assert s[k] in s;
    }
  }

  lemma RemovedNone(d: Dict)
    ensures RemovedAll(d, []) == d
  {
  }

  lemma RemovedNext(d: Dict, s: seq<nat>, i: nat)
    requires i < |s| && forall k :: 0 <= k < |s| ==> s[k] < |d.offsets|
    ensures |RemovedAll(d, s[..i]).offsets| == |d.offsets|
    ensures RemovedAll(d, s[..i + 1]) == RemovedAt(RemovedAll(d, s[..i]), s[i])
  {
    assert s[..i + 1][..i] == s[..i];
  }

  lemma VictimsAre(d: Dict, s: seq<ScoreHeap.Pair>)
    requires |d.scores| == |d.offsets| && d.reclaimRatio != 0 && d.reclaimRatio != 100
    requires 0 < VictimCount(d) <= |d.scores| && s == ScoreHeap.Picks(d.scores, VictimCount(d), |d.scores|)
    ensures (forall k :: 0 <= k < |s| ==> Indexes(s)[k] < |d.offsets|)
      && Reclaimed(d, Indexes(s), RemovedAll(d, Indexes(s)))
  {
    hide ScoreHeap.Picks, ScoreHeap.Rank, VictimCount;
    ScoreHeap.PicksAreEntries(d.scores, VictimCount(d), |d.scores|);
    PickedInRange(d, s);
    if ScoreHeap.AllDistinct(d.scores) {
      ScoreHeap.PicksAreLowest(d.scores, VictimCount(d), |d.scores|);
      forall j | 0 <= j < |d.offsets|
        ensures j in Indexes(s) <==> ScoreHeap.Rank(d.scores, j) < |s|
      {
        ScoreHeap.VictimsAreLowest(d.scores, s, j);
        PickedIs(s, j);
      }
    }
  }

  lemma PickedIs(s: seq<ScoreHeap.Pair>, j: nat)
    ensures ScoreHeap.Picked(s, j) <==> j in Indexes(s)
  {
    if ScoreHeap.Picked(s, j) {
      var p :| p in s && p.index == j;
      var k :| 0 <= k < |s| && s[k] == p;
      assert Indexes(s)[k] == j;
    }
    if j in Indexes(s) {
      var k :| 0 <= k < |s| && Indexes(s)[k] == j;
      assert s[k] in s;
    }
  }

  lemma {:induction false} RemovedAllFits(d: Dict, s: seq<nat>)
    requires FitsInFile(d) && forall k :: 0 <= k < |s| ==> s[k] < |d.offsets|
    ensures FitsInFile(RemovedAll(d, s))
  {
    if s != [] {
      var n := |s| - 1;
      RemovedAllFits(d, s[..n]);
      hide PredictFlagged, SetRemoved;
      RemovedIs(RemovedAll(d, s[..n]), s[n]);
    }
  }

  lemma StillFits(d: Dict, victims: seq<nat>, m: Dict)
    requires FitsInFile(d) && Reclaimed(d, victims, m)
    ensures FitsInFile(m)
  {
    RemovedAllFits(d, victims);
  }

  lemma CompactDone(spl: Spellings, d: Dict, f: seq<u8>)
    requires SysInv(spl, Sys(d, f)) && FitsInFile(d)
    ensures Inv(spl, d) && d.startId + |d.offsets| <= WORD_RANGE
    ensures Tiled(d.block) && OnStarts(d.block, d.offsets) && |d.scores| == |d.offsets|
    ensures var e := Defragged(d);
            SysInv(spl, Sys(e, f)) && FitsInFile(e) && e.startId == d.startId && e.level != NotLoaded
            && e.startId + |e.offsets| <= WORD_RANGE
  {
    CompactKeepsSys(spl, Sys(d, f));
    DefragCount(d);
    hide Inv, FileInv, MovedAll, Packed, Select, CountUp, AnyRemoved, Tiled, OnStarts;
  }
}
