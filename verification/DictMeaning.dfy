/** What the dictionary means to its users, a set of scored lemmas, and what every operation does to it. */
module DictMeaning {
  import opened Bytes
  import opened LemmaBlock
  import opened Partition
  import opened BlockFacts
  import opened SpellingOrder
  import opened DictModel
  import opened DictInvariants
  import opened Defragment
  import opened DictFile
  import opened DictLocate
  import opened DictCalls
  import opened DictEffects
  import ScoreHeap

  datatype Entry = Entry(splids: seq<u16>, word: seq<u16>, score: u32)

  ghost predicate Live(d: Dict, i: nat) {
    i < |d.offsets| == |d.scores| && !Removed(d.offsets[i])
  }

  function EntryAt(d: Dict, i: nat): (e: Entry)
    requires i < |d.offsets| == |d.scores|
  {
    Entry(SplidsOf(d.block, d.offsets[i]), WordOf(d.block, d.offsets[i]), d.scores[i])
  }

  /** The lemmas of the dictionary, wherever they are stored. */
  ghost function Lemmas(d: Dict): (r: set<Entry>) {
    set i | 0 <= i < |d.offsets| && Live(d, i) :: EntryAt(d, i)
  }

  lemma HasLive(d: Dict, e: Entry) returns (i: nat)
    requires e in Lemmas(d)
    ensures Live(d, i) && EntryAt(d, i) == e
  {
    i :| 0 <= i < |d.offsets| && Live(d, i) && EntryAt(d, i) == e;
  }

  lemma Separates(spl: Spellings, d: Dict, i: nat, j: nat)
    requires Inv(spl, d) && i != j && Live(d, i) && j < |d.offsets|
    ensures Live(d, j) ==> EntryAt(d, i).splids != EntryAt(d, j).splids || EntryAt(d, i).word != EntryAt(d, j).word
  {
    hide Tiled, Clean, Indexed, Sorted, IdsOk;
    if Live(d, j) {
      if i < j {
        assert !SameLemma(d.block, d.offsets[i], d.offsets[j]);
      } else {
        assert !SameLemma(d.block, d.offsets[j], d.offsets[i]);
      }
    }
  }

  /** A spelling and a word have at most one score. */
  lemma OneScore(spl: Spellings, d: Dict, x: Entry, y: Entry)
    requires Inv(spl, d) && x in Lemmas(d) && y in Lemmas(d) && x.splids == y.splids && x.word == y.word
    ensures x == y
  {
    hide Inv;
    var i := HasLive(d, x);
    var j := HasLive(d, y);
    if i != j {
      Separates(spl, d, i, j);
    }
  }

  /** Where the entries of the longer index come from. */
  lemma AppendedEntries(spl: Spellings, d: Dict, splids: seq<u16>, word: seq<u16>, count: u16, score: u32, j: nat)
    returns (at: nat)
    requires Inv(spl, d) && |splids| == |word| && CanAppend(d, word) && j <= |d.offsets|
    ensures var a := Appended(spl, d, splids, word, count, score, j);
            && |a.offsets| == |a.scores| == |d.offsets| + 1 && at <= |d.offsets|
            && Live(a, at) && EntryAt(a, at) == Entry(splids, word, score) && a.ids[at] == NextId(d)
            && (forall i :: 0 <= i < |d.offsets| ==>
                  var k := if i < at then i else i + 1;
                  Live(a, k) == Live(d, i) && EntryAt(a, k) == EntryAt(d, i) && a.ids[k] == d.ids[i])
  {
    var r, off: u32 := Record(splids, word), |d.block|;
    at := InsertPos(spl, d.block + r, d.offsets, spl.Initials(splids));
    AppendNew(spl, d.block, splids, word);
    InvLengths(spl, d);
    AppendedAt(spl, d, splids, word, count, score, j);
    var a := Appended(spl, d, splids, word, count, score, j);
    InsertedIs(d.offsets, at, off);
    InsertedIs(d.scores, at, score);
    InsertedIs(d.ids, at, NextId(d));
    hide Record, InsertPos, SplidsOf, WordOf, Inserted, Appended, CanAppend;
    forall i | 0 <= i < |d.offsets|
      ensures var k := if i < at then i else i + 1;
              Live(a, k) == Live(d, i) && EntryAt(a, k) == EntryAt(d, i) && a.ids[k] == d.ids[i]
    {
      StartAt(spl, d, i);
      AppendOld(spl, d.block, r, d.offsets[i]);
    }
  }

  lemma StartAt(spl: Spellings, d: Dict, i: nat)
    requires Inv(spl, d) && i < |d.offsets|
    ensures IsStart(d.block, Pos(d.offsets[i]))
  {
  }

  lemma InsertedIs(s: seq<u32>, i: nat, x: u32)
    requires i <= |s|
    ensures |Inserted(s, i, x)| == |s| + 1 && Inserted(s, i, x)[i] == x
    ensures forall k :: 0 <= k < |s| ==> Inserted(s, i, x)[if k < i then k else k + 1] == s[k]
  {
  }

  lemma AppendedAt(spl: Spellings, d: Dict, splids: seq<u16>, word: seq<u16>, count: u16, score: u32, j: nat)
    requires |splids| == |word| && CanAppend(d, word) && j <= |d.offsets|
    ensures var a, off: u32, i := Appended(spl, d, splids, word, count, score, j), |d.block|,
                                  InsertPos(spl, d.block + Record(splids, word), d.offsets, spl.Initials(splids));
            && a.block == d.block + Record(splids, word) && a.offsets == Inserted(d.offsets, i, off)
            && a.scores == Inserted(d.scores, i, score) && a.ids == Inserted(d.ids, i, NextId(d))
            && 1 <= |word| <= MAX_LEMMA_SIZE && |d.block| < REMOVE_FLAG
  {
    hide InsertPos, Record;
  }

  /** `append_a_lemma` adds exactly the new lemma. */
  lemma AppendMeans(spl: Spellings, d: Dict, splids: seq<u16>, word: seq<u16>, count: u16, score: u32, j: nat)
    requires Inv(spl, d) && |splids| == |word| && CanAppend(d, word) && j <= |d.offsets|
    ensures Lemmas(Appended(spl, d, splids, word, count, score, j)) == Lemmas(d) + {Entry(splids, word, score)}
  {
    var at := AppendedEntries(spl, d, splids, word, count, score, j);
    InvLengths(spl, d);
    var a := Appended(spl, d, splids, word, count, score, j);
    hide Appended, EntryAt, Inv, CanAppend, Live;
    SameLemmasPlus(d, a, at, Entry(splids, word, score));
  }

  lemma SameLemmasPlus(d: Dict, a: Dict, at: nat, e: Entry)
    requires |d.offsets| == |d.scores| && |a.offsets| == |a.scores| == |d.offsets| + 1 && at <= |d.offsets|
    requires Live(a, at) && EntryAt(a, at) == e
    requires forall i :: 0 <= i < |d.offsets| ==>
               var k := if i < at then i else i + 1; Live(a, k) == Live(d, i) && EntryAt(a, k) == EntryAt(d, i)
    ensures Lemmas(a) == Lemmas(d) + {e}
  {
    hide EntryAt;
    forall x | x in Lemmas(a) ensures x in Lemmas(d) + {e} {
      var k := HasLive(a, x);
      if k != at {
        var i := if k < at then k else k - 1;
        assert Live(d, i) && EntryAt(d, i) == x;
      }
    }
    forall x | x in Lemmas(d) ensures x in Lemmas(a) {
      var i := HasLive(d, x);
      var k := if i < at then i else i + 1;
      assert Live(a, k) && EntryAt(a, k) == x;
    }
  }

  /** Removing the entry at index off takes its lemma away, and nothing else. */
  lemma RemoveMeans(spl: Spellings, d: Dict, off: nat)
    requires Inv(spl, d) && off < |d.offsets|
    ensures Lemmas(RemovedAt(d, off)) == if Live(d, off) then Lemmas(d) - {EntryAt(d, off)} else Lemmas(d)
  {
    var e := RemovedAt(d, off);
    forall i | 0 <= i < |d.offsets| ensures Live(e, i) == (Live(d, i) && i != off) && EntryAt(e, i) == EntryAt(d, i) {
      RemoveEffect(d, off, i);
    }
    hide RemovedAt;
    forall x | x in Lemmas(e) ensures x in Lemmas(d) && (Live(d, off) ==> x != EntryAt(d, off)) {
      var i := HasLive(e, x);
      Separates(spl, d, i, off);
    }
    forall x | x in Lemmas(d) && (Live(d, off) ==> x != EntryAt(d, off)) ensures x in Lemmas(e) {
      var i := HasLive(d, x);
      assert Live(e, i);
    }
  }

  /** A new score replaces the old one. */
  lemma RescoreMeans(spl: Spellings, d: Dict, off: nat, score: u32, delta: int)
    requires Inv(spl, d) && off < |d.offsets|
    ensures Lemmas(Rescored(d, off, score, delta)) ==
            if Live(d, off) then Lemmas(d) - {EntryAt(d, off)} + {EntryAt(d, off).(score := score)} else Lemmas(d)
  {
    var e := Rescored(d, off, score, delta);
    forall i | 0 <= i < |d.offsets|
      ensures Live(e, i) == Live(d, i)
              && EntryAt(e, i) == if i == off then EntryAt(d, i).(score := score) else EntryAt(d, i)
    {
    }
    Replaced(spl, d, e, off);
  }

  /** Only the entry at index off differs. */
  lemma Replaced(spl: Spellings, d: Dict, e: Dict, off: nat)
    requires Inv(spl, d) && off < |d.offsets| == |d.scores| == |e.offsets| == |e.scores|
    requires forall i ::
               0 <= i < |d.offsets| ==> Live(e, i) == Live(d, i) && (i != off ==> EntryAt(e, i) == EntryAt(d, i))
    ensures Lemmas(e) == if Live(d, off) then Lemmas(d) - {EntryAt(d, off)} + {EntryAt(e, off)} else Lemmas(d)
  {
    hide EntryAt, Inv;
    forall x | x in Lemmas(e) && !(Live(d, off) && x == EntryAt(e, off))
      ensures x in Lemmas(d) && (Live(d, off) ==> x != EntryAt(d, off))
    {
      var i := HasLive(e, x);
      Separates(spl, d, i, off);
    }
    forall x | x in Lemmas(d) && (Live(d, off) ==> x != EntryAt(d, off)) ensures x in Lemmas(e) {
      var i := HasLive(d, x);
      assert Live(e, i);
    }
    if Live(d, off) {
      assert Live(e, off);
    }
  }

  /** Compaction changes no lemma. */
  lemma CompactMeans(spl: Spellings, d: Dict)
    requires Inv(spl, d) && d.startId + |d.offsets| <= WORD_RANGE
    ensures Lemmas(Defragged(d)) == Lemmas(d)
  {
    if AnyRemoved(d.offsets) {
      var e := Defragged(d);
      CompactionPreserves(spl, d);
      hide Defragged, Inv, LiveCount, AnyRemoved;
      forall x | x in Lemmas(e) ensures x in Lemmas(d) {
        var k := HasLive(e, x);
        assert SameRecord(d, e, d.offsets[LiveAt(d.offsets, k)], e.offsets[k]);
        assert Live(d, LiveAt(d.offsets, k)) && EntryAt(d, LiveAt(d.offsets, k)) == x;
      }
      forall x | x in Lemmas(d) ensures x in Lemmas(e) {
        var i := HasLive(d, x);
        var k := LiveAtOnto(d.offsets, i);
        assert SameRecord(d, e, d.offsets[LiveAt(d.offsets, k)], e.offsets[k]);
        assert Live(e, k) && EntryAt(e, k) == x;
      }
    }
  }

  /** Neither do the sync list, or writing the file and loading it again. */
  lemma SameIndexMeans(d: Dict, e: Dict)
    requires e.block == d.block && e.offsets == d.offsets && e.scores == d.scores
    ensures Lemmas(e) == Lemmas(d)
  {
    assert forall i ::
             0 <= i < |d.offsets| ==> Live(e, i) == Live(d, i) && (Live(d, i) ==> EntryAt(e, i) == EntryAt(d, i));
  }

  // ---- Calls ----

  /** The found entry is the asked lemma, unless that lemma is not there and a longer one begins with it. */
  lemma FoundEntry(spl: Spellings, d: Dict, splids: seq<u16>, word: seq<u16>, off: nat)
    requires spl.Valid() && Inv(spl, d) && |splids| == |word| && FullIds(splids) && LocateOk(spl, d, splids, word, off)
    ensures Live(d, off)
    ensures var x := EntryAt(d, off);
            && splids <= x.splids && word <= x.word
            && (x.splids == splids && x.word == word <==>
                exists y :: y in Lemmas(d) && y.splids == splids && y.word == word)
  {
    var o, x := d.offsets[off], EntryAt(d, off);
    AgreesPrefix(spl, d, splids, word, off);
    if x.splids == splids && x.word == word {
      assert x in Lemmas(d);
    }
    if y :| y in Lemmas(d) && y.splids == splids && y.word == word {
      var i := HasLive(d, y);
      LocateFullIds(spl, d, splids, word, off);
      assert Holds(d.block, d.offsets[i], splids, word);
    }
  }

  lemma AgreesPrefix(spl: Spellings, d: Dict, splids: seq<u16>, word: seq<u16>, off: nat)
    requires spl.Valid() && Inv(spl, d) && |splids| == |word| && FullIds(splids)
    requires off < |d.offsets| && Agrees(spl, d, splids, word, off) && |SplidsOf(d.block, d.offsets[off])| >= |splids|
    ensures Live(d, off) && splids <= SplidsOf(d.block, d.offsets[off]) && word <= WordOf(d.block, d.offsets[off])
  {
    var o, n := d.offsets[off], |splids|;
    StartAt(spl, d, off);
    ReadsPrefix(d.block, o, n);
    FullMatches(spl, IdsRead(d.block, o, n), splids);
  }

  lemma LimitIs(d: Dict, n: nat)
    ensures LimitReached(d, n) <==>
            || (d.limitCount > 0 && |d.offsets| >= d.limitCount)
            || (d.limitSize > 0 && |d.block| + 2 + 4 * n > d.limitSize)
    ensures REMOVE_FLAG == 0x8000_0000
  {
  }

  /** `put_lemma` leaves exactly the old lemmas and the new one, which replaces what was found. */
  lemma PutMeans(spl: Spellings, d: Dict, splids: seq<u16>, word: seq<u16>, count: u16, lmt: nat, off: int,
    j: nat, e: Dict, id: u32)
    requires spl.Valid() && Inv(spl, d) && |splids| == |word| && FullIds(splids)
      && d.startId + |d.offsets| <= WORD_RANGE
    requires LocateOk(spl, d, splids, word, off) && PutOutcome(spl, d, splids, word, count, lmt, off, j, e, id)
    ensures off >= 0 ==> Live(d, off) && splids <= EntryAt(d, off).splids && word <= EntryAt(d, off).word
                         && Lemmas(e) == Lemmas(d) - {EntryAt(d, off)}
                              + {EntryAt(d, off).(score := BuildScore(lmt, count))}
    ensures off == -1 ==> !exists y :: y in Lemmas(d) && y.splids == splids && y.word == word
    ensures off == -1 ==>
              var limited := (d.limitCount > 0 && |d.offsets| >= d.limitCount)
                             || (d.limitSize > 0 && |d.block| + 2 + 4 * |word| > d.limitSize);
              if limited || |d.block| >= 0x8000_0000 then id == 0 && Lemmas(e) == Lemmas(d)
              else Lemmas(e) == Lemmas(d) + {Entry(splids, word, BuildScore(lmt, count))}
    ensures BuildScore(lmt, count) % 0x1_0000 == count
    ensures 1229904000 <= lmt < 0x1_0000_0000_0000_0000 ==>
              BuildScore(lmt, count) / 0x1_0000 == (lmt - 1229904000) / 604800 % 0x1_0000
  {
    hide *;
    PutCases(spl, d, splids, word, count, lmt, off, j, e, id);
    LimitIs(d, |word|);
    BuiltCount(lmt, count);
  }

  lemma PutCases(spl: Spellings, d: Dict, splids: seq<u16>, word: seq<u16>, count: u16, lmt: nat, off: int,
    j: nat, e: Dict, id: u32)
    requires spl.Valid() && Inv(spl, d) && |splids| == |word| && FullIds(splids)
      && d.startId + |d.offsets| <= WORD_RANGE
    requires LocateOk(spl, d, splids, word, off) && PutOutcome(spl, d, splids, word, count, lmt, off, j, e, id)
    ensures off >= 0 ==> Live(d, off) && splids <= EntryAt(d, off).splids && word <= EntryAt(d, off).word
                         && Lemmas(e) == Lemmas(d) - {EntryAt(d, off)}
                              + {EntryAt(d, off).(score := BuildScore(lmt, count))}
    ensures off == -1 ==> !exists y :: y in Lemmas(d) && y.splids == splids && y.word == word
    ensures off == -1 && (LimitReached(d, |word|) || |d.block| >= REMOVE_FLAG) ==> id == 0 && Lemmas(e) == Lemmas(d)
    ensures off == -1 && !LimitReached(d, |word|) && |d.block| < REMOVE_FLAG ==>
              Lemmas(e) == Lemmas(d) + {Entry(splids, word, BuildScore(lmt, count))}
  {
    hide Inv, BuildScore, LimitReached, NeedsFlush, LocateOk, FullIds;
    if off >= 0 {
      FoundEntry(spl, d, splids, word, off);
      RescoreMeans(spl, d, off, BuildScore(lmt, count), count as int - d.scores[off]);
    } else {
      LocateRange(spl, d, splids, word, off);
      NoneKnown(spl, d, splids, word);
      ReloadMeans(spl, d);
      if !LimitReached(d, |word|) && |d.block| < REMOVE_FLAG {
        var r := Roomy(d, |word|);
        hide Reloaded;
        AppendMeans(spl, r, splids, word, count, BuildScore(lmt, count), j);
        QueueMeans(Appended(spl, r, splids, word, count, BuildScore(lmt, count), j), id);
      }
    }
  }

  lemma LocateRange(spl: Spellings, d: Dict, splids: seq<u16>, word: seq<u16>, off: int)
    requires spl.Valid() && LocateOk(spl, d, splids, word, off)
    ensures -1 <= off < |d.offsets|
  {
  }

  lemma NoneKnown(spl: Spellings, d: Dict, splids: seq<u16>, word: seq<u16>)
    requires spl.Valid() && FullIds(splids) && LocateOk(spl, d, splids, word, -1)
    ensures !exists y :: y in Lemmas(d) && y.splids == splids && y.word == word
  {
    LocateFullIds(spl, d, splids, word, -1);
    forall y | y in Lemmas(d) ensures !(y.splids == splids && y.word == word) {
      var i := HasLive(d, y);
      assert !Holds(d.block, d.offsets[i], splids, word);
    }
  }

  lemma ReloadMeans(spl: Spellings, d: Dict)
    requires Inv(spl, d) && d.startId + |d.offsets| <= WORD_RANGE
    ensures Inv(spl, Reloaded(d)) && Lemmas(Reloaded(d)) == Lemmas(d) && Reloaded(d).block == d.block
  {
    ReloadKeepsInv(spl, d);
    SameIndexMeans(d, Reloaded(d));
  }

  lemma QueueMeans(d: Dict, id: u32)
    requires d.startId <= id < d.startId + |d.byId|
    ensures Lemmas(Queued(d, id)) == Lemmas(d)
  {
    SameIndexMeans(d, Queued(d, id));
  }

  /** `update_lemma` changes only the score of the found entry. */
  lemma UpdateMeans(spl: Spellings, d: Dict, off: nat, delta: int, selected: bool, now: nat)
    requires Inv(spl, d) && off < |d.offsets| && Live(d, off)
    ensures |d.offsets| == |d.scores| == |d.ids| == |d.byId| && d.startId <= d.ids[off] < d.startId + |d.byId|
    ensures Lemmas(Updated(d, off, delta, selected, now)) ==
            Lemmas(d) - {EntryAt(d, off)}
              + {EntryAt(d, off).(score := UpdatedScore(d.scores[off], delta, selected, now))}
    ensures -0x8000 <= delta < 0x8000 ==>
              var s, t := d.scores[off], UpdatedScore(d.scores[off], delta, selected, now);
              && t % 0x1_0000 == (if 0 <= delta && s % 0x1_0000 + delta <= 0xFFFF then s % 0x1_0000 + delta else 0xFFFF)
              && (!selected ==> t / 0x1_0000 == s / 0x1_0000)
              && (selected && 1229904000 <= now < 0x1_0000_0000_0000_0000 ==>
                    t / 0x1_0000 == (now - 1229904000) / 604800 % 0x1_0000)
  {
    if -0x8000 <= delta < 0x8000 {
      UpdatedHalves(d.scores[off], delta, selected, now);
    }
    IdInRange(spl, d, off);
    hide Inv, UpdatedScore, Delta, EntryAt, Rescored;
    var s := d.scores[off];
    var score, step := UpdatedScore(s, delta, selected, now), Delta(ScoreFreq(s), delta);
    RescoreMeans(spl, d, off, score, step);
    RescoredFields(d, off, score, step);
    QueueMeans(Rescored(d, off, score, step), d.ids[off]);
  }

  /** `reclaim` takes away exactly the live lemmas among the victims; if no two scores are equal, those are the
      lowest-scored entries. */
  lemma ReclaimMeans(spl: Spellings, d: Dict, victims: seq<nat>, e: Dict)
    requires Inv(spl, d) && Reclaimed(d, victims, e)
    ensures forall x :: x in Lemmas(e) <==>
              exists i :: 0 <= i < |d.offsets| && Live(d, i) && EntryAt(d, i) == x && i !in victims
    ensures ScoreHeap.AllDistinct(d.scores) ==>
              forall x :: x in Lemmas(e) <==>
                exists i ::
                  0 <= i < |d.offsets| && Live(d, i) && EntryAt(d, i) == x && ScoreHeap.Rank(d.scores, i) >= |victims|
  {
    forall i | 0 <= i < |d.offsets|
      ensures |e.offsets| == |e.scores| == |d.offsets| && Live(e, i) == (Live(d, i) && i !in victims)
      ensures EntryAt(e, i) == EntryAt(d, i)
      ensures ScoreHeap.AllDistinct(d.scores) ==> (i in victims <==> ScoreHeap.Rank(d.scores, i) < |victims|)
    {
      RemovedAllEffect(d, victims, i);
    }
    if d.offsets == [] {
      assert e.offsets == [];
    }
    hide Inv, Reclaimed, EntryAt, ScoreHeap.Rank, ScoreHeap.AllDistinct;
    forall x
      ensures x in Lemmas(e) <==>
              exists i :: 0 <= i < |d.offsets| && Live(d, i) && EntryAt(d, i) == x && i !in victims
    {
      if x in Lemmas(e) {
        var i := HasLive(e, x);
        assert Live(d, i) && EntryAt(d, i) == x;
      }
      if i :| 0 <= i < |d.offsets| && Live(d, i) && EntryAt(d, i) == x && i !in victims {
        assert Live(e, i);
      }
    }
  }

  // ---- Runs ----

  /** The operations that should not be seen by the user. */
  predicate Upkeep(op: Op) {
    op.ClearSync? || op.Compact? || op.Flush?
  }

  lemma UpkeepMeans(spl: Spellings, s: Sys, op: Op)
    requires SysInv(spl, s) && Enabled(s.mem, op) && Upkeep(op)
    ensures Lemmas(Step(spl, s, op).mem) == Lemmas(s.mem)
  {
    hide Inv, FileInv;
    match op
    case ClearSync(start, end) => SameIndexMeans(s.mem, SyncCleared(s.mem, start, end));
    case Compact => CompactMeans(spl, s.mem);
    case Flush =>
      FlushIsReload(spl, s);
      ReloadMeans(spl, s.mem);
  }

  /** Over any run of compactions, flushes and sync clearings, the dictionary means the same. */
  lemma {:induction false} UpkeepRun(spl: Spellings, s: Sys, ops: seq<Op>)
    requires SysInv(spl, s) && RunEnabled(spl, s, ops) && forall i :: 0 <= i < |ops| ==> Upkeep(ops[i])
    ensures Lemmas(Run(spl, s, ops).mem) == Lemmas(s.mem)
    decreases |ops|
  {
    hide SysInv, Enabled, Step;
    if ops != [] {
      UpkeepMeans(spl, s, ops[0]);
      StepKeepsSys(spl, s, ops[0]);
      UpkeepRun(spl, Step(spl, s, ops[0]), ops[1..]);
    }
  }
}
