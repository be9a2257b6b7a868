/** The user dictionary as a value: its index arrays, its byte block and its counters, what holds
    of them between calls, and what each operation does to them. */
module DictModel {
  import opened Bytes
  import opened LemmaBlock
  import opened Partition
  import opened BlockFacts
  import opened SpellingOrder

  /** UserDictState, in order. */
  datatype Level = NotLoaded | Synced | SyncDirty | ScoreDirty | OffsetDirty | LemmaDirty | Defragmented

  function Rank(l: Level): (r: nat) {
    match l
    case NotLoaded => 0
    case Synced => 1
    case SyncDirty => 2
    case ScoreDirty => 3
    case OffsetDirty => 4
    case LemmaDirty => 5
    case Defragmented => 6
  }

  /** `if (state_ < to) state_ = to`. */
  function Raise(l: Level, to: Level): (r: Level)
    ensures Rank(r) >= Rank(l) && Rank(r) >= Rank(to)
  {
    if Rank(l) < Rank(to) then to else l
  }

  const PRE_ALLOC: nat := 32
  const AVERAGE_NCHAR: nat := 8
  /** kUserDictPreAlloc * (2 + (kUserDictAverageNchar << 2)). */
  const PRE_ALLOC_SIZE: nat := PRE_ALLOC * (2 + 4 * AVERAGE_NCHAR)

  datatype Dict = Dict(
    block: seq<u8>, offsets: seq<u32>, scores: seq<u32>, ids: seq<u32>, predicts: seq<u32>, syncs: seq<u32>,
    byId: seq<u32>, startId: u32,
    reclaimRatio: u32, limitCount: u32, limitSize: u32, freeCount: u32, freeSize: u32, totalFreq: u32,
    countLeft: nat, sizeLeft: nat, level: Level)

  // ---- Reading through an offset ----

  function SplidsOf(b: seq<u8>, o: u32): (s: seq<u16>) {
    if Fits(b, Pos(o)) then SplidsAt(b, Pos(o)) else []
  }

  function WordOf(b: seq<u8>, o: u32): (s: seq<u16>) {
    if Fits(b, Pos(o)) then WordAt(b, Pos(o)) else []
  }

  function KeyOf(spl: Spellings, b: seq<u8>, o: u32): (k: seq<u8>) {
    spl.Initials(SplidsOf(b, o))
  }

  // ---- The invariant ----

  /** The index names every record of the block, once. */
  ghost predicate Indexed(b: seq<u8>, offs: seq<u32>) {
    && OnStarts(b, offs)
    && (forall i, j :: 0 <= i < j < |offs| ==> Pos(offs[i]) != Pos(offs[j]))
    && (forall p: nat :: IsStart(b, p) ==> p in Positions(offs))
  }

  ghost function Positions(offs: seq<u32>): (s: set<nat>) {
    set i | 0 <= i < |offs| :: Pos(offs[i]) as nat
  }

  ghost predicate Sorted(spl: Spellings, b: seq<u8>, offs: seq<u32>) {
    forall i, j :: 0 <= i < j < |offs| ==> Compare(KeyOf(spl, b, offs[i]), KeyOf(spl, b, offs[j])) <= 0
  }

  ghost predicate IdsOk(startId: u32, ids: seq<u32>, byId: seq<u32>, offs: seq<u32>) {
    && |ids| == |byId| == |offs|
    && forall i :: 0 <= i < |ids| ==>
         startId <= ids[i] < startId + |ids| && Pos(byId[ids[i] - startId]) == Pos(offs[i])
  }

  ghost predicate SameLemma(b: seq<u8>, x: u32, y: u32) {
    SplidsOf(b, x) == SplidsOf(b, y) && WordOf(b, x) == WordOf(b, y)
  }

  /** No two live entries hold the same spelling and word. */
  ghost predicate Distinct(b: seq<u8>, offs: seq<u32>) {
    forall i, j :: 0 <= i < j < |offs| && !Removed(offs[i]) && !Removed(offs[j]) ==> !SameLemma(b, offs[i], offs[j])
  }

  ghost predicate Inv(spl: Spellings, d: Dict) {
    && Tiled(d.block) && Clean(d.block)
    && Indexed(d.block, d.offsets)
    && Sorted(spl, d.block, d.offsets)
    && IdsOk(d.startId, d.ids, d.byId, d.offsets)
    && multiset(d.predicts) == multiset(d.offsets)
    && Distinct(d.block, d.offsets)
    && |d.scores| == |d.offsets|
  }

  lemma InvGives(spl: Spellings, d: Dict)
    requires Inv(spl, d)
    ensures Tiled(d.block) && Clean(d.block) && Indexed(d.block, d.offsets) && Sorted(spl, d.block, d.offsets)
    ensures IdsOk(d.startId, d.ids, d.byId, d.offsets) && multiset(d.predicts) == multiset(d.offsets)
    ensures Distinct(d.block, d.offsets) && |d.scores| == |d.offsets|
  {
    hide Tiled, Clean, Indexed, Sorted, IdsOk, Distinct;
  }

  lemma InvIs(spl: Spellings, d: Dict)
    requires Tiled(d.block) && Clean(d.block) && Indexed(d.block, d.offsets) && Sorted(spl, d.block, d.offsets)
    requires IdsOk(d.startId, d.ids, d.byId, d.offsets) && multiset(d.predicts) == multiset(d.offsets)
    requires Distinct(d.block, d.offsets) && |d.scores| == |d.offsets|
    ensures Inv(spl, d)
  {
    hide Tiled, Clean, Indexed, Sorted, IdsOk, Distinct;
  }

  /** The ids in use are exactly the ids issued, each once. */
  lemma IdsArePermutation(spl: Spellings, d: Dict, i: nat, j: nat)
    requires Inv(spl, d) && i < j < |d.ids|
    ensures d.ids[i] != d.ids[j]
  {
    assert Pos(d.offsets[i]) != Pos(d.offsets[j]);
  }

  // ---- Scores ----

  const LMT_SINCE: nat := (2009 - 1970) * 365 * 24 * 60 * 60
  const LMT_GRANULARITY: nat := 60 * 60 * 24 * 7
  const MAX_FREQUENCY: nat := 0xFFFF

  /** `build_score`: the week number in the high half, the frequency in the low half. */
  function BuildScore(lmt: nat, freq: int): (s: u32) {
    (lmt - LMT_SINCE) % 0x1_0000_0000_0000_0000 / LMT_GRANULARITY % 0x1_0000 * 0x1_0000 + freq % 0x1_0000
  }

  function ScoreFreq(s: u32): (f: u16) {
    s % 0x1_0000
  }

  function ScoreTime(s: u32): (t: nat) {
    s / 0x1_0000 * LMT_GRANULARITY + LMT_SINCE
  }

  lemma ScoreFreqOf(lmt: nat, freq: int)
    ensures ScoreFreq(BuildScore(lmt, freq)) == freq % 0x1_0000
  {
  }

  /** A score survives being taken apart and built again. */
  lemma ScoreRoundTrip(s: u32)
    ensures BuildScore(ScoreTime(s), ScoreFreq(s)) == s
  {
    var t: nat, f := s / 0x1_0000, s % 0x1_0000;
    assert ScoreTime(s) - LMT_SINCE == t * LMT_GRANULARITY < 0x1_0000_0000_0000_0000;
    TimesDivided(t);
    assert t % 0x1_0000 == t && f % 0x1_0000 == f;
  }

  lemma TimesDivided(t: nat)
    ensures t * LMT_GRANULARITY / LMT_GRANULARITY == t
  {
  }

  /** A value stored into an int16. */
  function AsInt16(x: int): (r: int)
    ensures -0x8000 <= r < 0x8000 && (x - r) % 0x1_0000 == 0
  {
    var m := x % 0x1_0000;
    if m < 0x8000 then m else m - 0x1_0000
  }

  /** The step `update_lemma` really adds to a frequency. */
  function Delta(freq: u16, delta: int): (r: int) {
    if freq + delta > MAX_FREQUENCY || freq + delta < freq then AsInt16(MAX_FREQUENCY - freq) else delta
  }

  /** The counter saturates: a step that would leave the range, or a negative one, lands on the maximum. */
  lemma UpdateSaturates(freq: u16, delta: int, lmt: nat)
    requires -0x8000 <= delta < 0x8000
    ensures ScoreFreq(BuildScore(lmt, freq + Delta(freq, delta))) ==
            if 0 <= delta && freq + delta <= MAX_FREQUENCY then freq + delta else MAX_FREQUENCY
  {
    hide BuildScore, ScoreFreq;
    ScoreFreqOf(lmt, freq + Delta(freq, delta));
    if freq + delta > MAX_FREQUENCY || freq + delta < freq {
      var r := AsInt16(MAX_FREQUENCY - freq);
      assert (freq + r) % 0x1_0000 == MAX_FREQUENCY % 0x1_0000;
    }
  }

  // ---- The operations ----

  function Inserted(s: seq<u32>, i: nat, x: u32): (r: seq<u32>)
    requires i <= |s|
    ensures |r| == |s| + 1
  {
    s[..i] + [x] + s[i..]
  }

  /** Where the sort loop of `append_a_lemma` stops. */
  function InsertFrom(spl: Spellings, b: seq<u8>, offs: seq<u32>, k: seq<u8>, i: nat): (r: nat)
    requires i <= |offs|
    requires forall j :: 0 <= j < i ==> Compare(KeyOf(spl, b, offs[j]), k) < 0
    ensures i <= r <= |offs|
    ensures forall j :: 0 <= j < r ==> Compare(KeyOf(spl, b, offs[j]), k) < 0
    ensures r < |offs| ==> Compare(KeyOf(spl, b, offs[r]), k) >= 0
    decreases |offs| - i
  {
    if i == |offs| || Compare(KeyOf(spl, b, offs[i]), k) >= 0 then i else InsertFrom(spl, b, offs, k, i + 1)
  }

  function InsertPos(spl: Spellings, b: seq<u8>, offs: seq<u32>, k: seq<u8>): (r: nat)
    ensures r <= |offs|
  {
    InsertFrom(spl, b, offs, k, 0)
  }

  predicate CanAppend(d: Dict, word: seq<u16>) {
    && 1 <= |word| <= MAX_LEMMA_SIZE
    && |d.block| < REMOVE_FLAG
    && d.startId + |d.offsets| < WORD_RANGE
    && |d.scores| == |d.ids| == |d.predicts| == |d.byId| == |d.offsets|
    && d.countLeft > 0 && d.sizeLeft >= 2 + 4 * |word|
  }

  /** `get_max_lemma_id() + 1`. */
  function NextId(d: Dict): (id: u32)
    requires d.startId + |d.offsets| < WORD_RANGE
    ensures id == d.startId + |d.offsets|
  {
    d.startId + |d.offsets|
  }

  /** `append_a_lemma`; j is where the new entry goes in `predicts_`. */
  function Appended(spl: Spellings, d: Dict, splids: seq<u16>, word: seq<u16>, count: u16,
    score: u32, j: nat): (r: Dict)
    requires |splids| == |word| && CanAppend(d, word) && j <= |d.offsets|
  {
    var b := d.block + Record(splids, word);
    var off: u32 := |d.block|;
    var id := NextId(d);
    var i := InsertPos(spl, b, d.offsets, spl.Initials(splids));
    d.(block := b,
       offsets := Inserted(d.offsets, i, off),
       scores := Inserted(d.scores, i, score),
       ids := Inserted(d.ids, i, id),
       predicts := Inserted(d.predicts, j, off),
       byId := d.byId + [off],
       totalFreq := (d.totalFreq + count) % WORD_RANGE,
       countLeft := d.countLeft - 1,
       sizeLeft := d.sizeLeft - (2 + 4 * |word|),
       level := Raise(d.level, LemmaDirty))
  }

  /** A new score for the entry at index off, and delta added to the frequency total. */
  function Rescored(d: Dict, off: nat, score: u32, delta: int): (r: Dict)
    requires off < |d.scores|
  {
    d.(scores := d.scores[off := score], totalFreq := (d.totalFreq + delta) % WORD_RANGE,
       level := Raise(d.level, ScoreDirty))
  }

  /** `queue_lemma_for_sync`. */
  function Queued(d: Dict, id: u32): (r: Dict)
    requires d.startId <= id < d.startId + |d.byId|
  {
    d.(syncs := d.syncs + [d.byId[id - d.startId]])
  }

  /** The first entry at a position, or the length. */
  function FindPos(s: seq<u32>, p: nat, i: nat): (r: nat)
    requires i <= |s|
    ensures i <= r <= |s| && (r < |s| ==> Pos(s[r]) == p)
    ensures forall k :: i <= k < r ==> Pos(s[k]) != p
    decreases |s| - i
  {
    if i == |s| || Pos(s[i]) == p then i else FindPos(s, p, i + 1)
  }

  /** `remove_lemma_from_sync_list`: the last entry takes the place of the first match. */
  function SyncDropped(s: seq<u32>, p: nat): (r: seq<u32>) {
    var i := FindPos(s, p, 0);
    if i < |s| then s[i := s[|s| - 1]][..|s| - 1] else s
  }

  /** `remove_lemma_from_predict_list`. */
  function PredictFlagged(s: seq<u32>, p: nat): (r: seq<u32>)
    ensures |r| == |s|
  {
    var i := FindPos(s, p, 0);
    if i < |s| then s[i := SetRemoved(s[i])] else s
  }

  /** `remove_lemma_by_offset_index`. */
  function RemovedAt(d: Dict, off: nat): (r: Dict)
    requires off < |d.offsets|
  {
    var o := d.offsets[off];
    var n := if Fits(d.block, Pos(o)) then NChar(d.block, Pos(o)) else 0;
    d.(offsets := d.offsets[off := SetRemoved(o)],
       syncs := SyncDropped(d.syncs, Pos(o)),
       predicts := PredictFlagged(d.predicts, Pos(o)),
       freeCount := (d.freeCount + 1) % WORD_RANGE,
       freeSize := (d.freeSize + 2 + 4 * n) % WORD_RANGE,
       level := Raise(d.level, OffsetDirty))
  }

  /** `clear_sync_lemmas`. */
  function SyncCleared(d: Dict, start: nat, end: nat): (r: Dict)
    requires start <= end && start <= |d.syncs|
  {
    var e := if end > |d.syncs| then |d.syncs| else end;
    d.(syncs := d.syncs[..start] + d.syncs[e..], level := Raise(d.level, SyncDirty))
  }

  function CountUp(start: u32, n: nat): (s: seq<u32>)
    requires start + n <= WORD_RANGE
    ensures |s| == n && forall i :: 0 <= i < n ==> s[i] == start + i
  {
    seq(n, i requires 0 <= i < n => start + i)
  }

  /** What `load` makes of the file that `write_back` left. */
  function Reloaded(d: Dict): (r: Dict)
    requires d.startId + |d.offsets| <= WORD_RANGE
  {
    d.(ids := CountUp(d.startId, |d.offsets|), byId := d.offsets,
       countLeft := PRE_ALLOC, sizeLeft := PRE_ALLOC_SIZE, level := Synced)
  }
}
