/** The image of the user dictionary in its file, and the part of that image that is already on
    disk at each dirty level. */
module DictFile {
  import opened Bytes
  import opened LemmaBlock
  import opened Partition
  import opened SpellingOrder
  import opened BlockFacts
  import opened DictModel
  import opened DictInvariants
  import opened Defragment

  const VERSION: u32 := 0x0ABC_DEF0
  const INFO_WORDS: nat := 9
  const INFO_SIZE: nat := 36

  /** The words of `UserDictInfo`, in declaration order. */
  function InfoWords(d: Dict): (w: seq<u32>)
    ensures |w| == INFO_WORDS
  {
    [d.reclaimRatio, d.limitCount, d.limitSize, |d.offsets| % WORD_RANGE, |d.block| % WORD_RANGE,
     d.freeCount, d.freeSize, |d.syncs| % WORD_RANGE, d.totalFreq]
  }

  // ---- The sections of the file, cumulatively ----

  function Header(): (b: seq<u8>)
    ensures |b| == 4
  {
    WordBytes(VERSION)
  }

  function ThroughBlock(d: Dict): (b: seq<u8>) {
    Header() + d.block
  }

  function ThroughIndex(d: Dict): (b: seq<u8>) {
    ThroughBlock(d) + (Encode(d.offsets) + Encode(d.predicts))
  }

  function ThroughScores(d: Dict): (b: seq<u8>) {
    ThroughIndex(d) + Encode(d.scores)
  }

  /** The whole file. */
  function Serialize(d: Dict): (b: seq<u8>) {
    ThroughScores(d) + (Encode(d.syncs) + Encode(InfoWords(d)))
  }

  /** Bytes appended to the block since the last load. */
  function NewBytes(d: Dict): (n: int) {
    PRE_ALLOC_SIZE - d.sizeLeft
  }

  /** What the file must still begin with: everything before the first stale byte. */
  function OnDisk(d: Dict): (b: seq<u8>) {
    match d.level
    case NotLoaded => []
    case Synced => Serialize(d)
    case SyncDirty => ThroughScores(d)
    case ScoreDirty => ThroughIndex(d)
    case OffsetDirty => ThroughBlock(d)
    case LemmaDirty => if 0 <= NewBytes(d) <= |d.block| then Header() + d.block[..|d.block| - NewBytes(d)] else []
    case Defragmented => Header()
  }

  /** The file matches memory up to the dirty level. */
  ghost predicate FileInv(d: Dict, f: seq<u8>) {
    && d.level != NotLoaded
    && OnDisk(d) <= f
    && (d.level == Synced ==> f == Serialize(d))
    && (Rank(d.level) < Rank(LemmaDirty) ==> NewBytes(d) == 0)
    && (d.level == LemmaDirty ==> 0 <= NewBytes(d) <= |d.block|)
  }

  // ---- write_back ----

  /** The file after `write_back`: the clean part stays, everything from the first stale byte on is
      written, and the file is cut there. */
  function WrittenBack(d: Dict, f: seq<u8>): (g: seq<u8>)
    requires |OnDisk(d)| <= |f| && |OnDisk(d)| <= |Serialize(d)|
  {
    if d.level == NotLoaded || d.level == Synced then f
    else f[..|OnDisk(d)|] + Serialize(d)[|OnDisk(d)|..]
  }

  lemma OnDiskIsPrefix(d: Dict)
    ensures OnDisk(d) <= Serialize(d)
  {
    hide Encode, InfoWords, Header;
    var rest := Encode(d.syncs) + Encode(InfoWords(d));
    assert ThroughIndex(d) <= ThroughScores(d) <= Serialize(d);
    assert ThroughBlock(d) <= ThroughIndex(d);
    assert Header() <= ThroughBlock(d);
    if d.level == LemmaDirty && 0 <= NewBytes(d) <= |d.block| {
      var k := |d.block| - NewBytes(d);
      assert d.block == d.block[..k] + d.block[k..];
      assert ThroughBlock(d) == (Header() + d.block[..k]) + d.block[k..];
    }
  }

  /** Writing only the stale suffix leaves exactly what a full rewrite would. */
  lemma WriteBackIsFullRewrite(d: Dict, f: seq<u8>)
    requires FileInv(d, f)
    ensures |OnDisk(d)| <= |f| && |OnDisk(d)| <= |Serialize(d)|
    ensures WrittenBack(d, f) == Serialize(d)
  {
    hide OnDisk, Serialize;
    OnDiskIsPrefix(d);
    var n := |OnDisk(d)|;
    assert f[..n] == OnDisk(d) == Serialize(d)[..n];
  }

  // ---- Each operation leaves the clean part alone ----

  lemma RescoreKeepsFile(d: Dict, off: nat, score: u32, delta: int, f: seq<u8>)
    requires FileInv(d, f) && off < |d.scores|
    ensures FileInv(Rescored(d, off, score, delta), f)
  {
    hide Encode, InfoWords, Header;
    var e := Rescored(d, off, score, delta);
    assert ThroughIndex(e) == ThroughIndex(d);
    assert ThroughIndex(d) <= ThroughScores(d) <= Serialize(d);
  }

  lemma QueueKeepsFile(d: Dict, id: u32, f: seq<u8>)
    requires FileInv(d, f) && Rank(d.level) >= Rank(SyncDirty) && d.startId <= id < d.startId + |d.byId|
    ensures FileInv(Queued(d, id), f)
  {
    hide Encode, InfoWords, Header;
    var e := Queued(d, id);
    assert ThroughScores(e) == ThroughScores(d);
  }

  lemma RemoveKeepsFile(d: Dict, off: nat, f: seq<u8>)
    requires FileInv(d, f) && off < |d.offsets|
    ensures FileInv(RemovedAt(d, off), f)
  {
    hide Encode, InfoWords, Header, SyncDropped, PredictFlagged;
    var e := RemovedAt(d, off);
    assert ThroughBlock(e) == ThroughBlock(d);
    assert ThroughBlock(d) <= ThroughIndex(d) <= ThroughScores(d) <= Serialize(d);
  }

  lemma ClearKeepsFile(d: Dict, start: nat, end: nat, f: seq<u8>)
    requires FileInv(d, f) && start <= end && start <= |d.syncs|
    ensures FileInv(SyncCleared(d, start, end), f)
  {
    hide Encode, InfoWords, Header;
    var e := SyncCleared(d, start, end);
    assert ThroughScores(e) == ThroughScores(d);
    assert ThroughScores(d) <= Serialize(d);
  }

  lemma AppendKeepsFile(spl: Spellings, d: Dict, splids: seq<u16>, word: seq<u16>, count: u16, score: u32,
    j: nat, f: seq<u8>)
    requires FileInv(d, f) && |splids| == |word| && CanAppend(d, word) && j <= |d.offsets|
    ensures FileInv(Appended(spl, d, splids, word, count, score, j), f)
  {
    hide Encode, InfoWords, Header, InsertPos, Inserted, Record;
    var e := Appended(spl, d, splids, word, count, score, j);
    var r := Record(splids, word);
    if d.level != Level.Defragmented {
      var k := |d.block| - NewBytes(d);
      assert |e.block| - NewBytes(e) == k;
      assert e.block[..k] == d.block[..k];
      if d.level != LemmaDirty {
        assert d.block[..k] == d.block;
        assert ThroughBlock(d) <= ThroughIndex(d) <= ThroughScores(d) <= Serialize(d);
      }
    }
  }

  lemma DefragKeepsFile(d: Dict, f: seq<u8>)
    requires FileInv(d, f) && Tiled(d.block) && LemmaBlockReady(d)
    ensures FileInv(Defragged(d), f)
  {
    hide Encode, InfoWords, Tiled, Packed, MovedAll, Select, SelectLive, CountUp;
    OnDiskIsPrefix(d);
    assert Header() <= ThroughBlock(d);
    if d.level == LemmaDirty {
      assert Header() <= Header() + d.block[..|d.block| - NewBytes(d)];
    }
    assert ThroughBlock(d) <= ThroughIndex(d) <= ThroughScores(d) <= Serialize(d);
  }

  ghost predicate LemmaBlockReady(d: Dict) {
    OnStarts(d.block, d.offsets) && |d.scores| == |d.offsets| && d.startId + |d.offsets| <= WORD_RANGE
  }

  // ---- validate and load ----

  /** `get_dict_file_size`, before it is cut to 32 bits. */
  function FileSize(lemmaSize: nat, lemmaCount: nat, syncCount: nat): (n: nat) {
    4 + lemmaSize + 8 * lemmaCount + 4 * lemmaCount + 4 * syncCount + INFO_SIZE
  }

  predicate FitsInFile(d: Dict) {
    FileSize(|d.block|, |d.offsets|, |d.syncs|) < WORD_RANGE
  }

  function InfoOf(f: seq<u8>): (w: seq<u32>)
    requires |f| >= INFO_SIZE
    ensures |w| == INFO_WORDS
  {
    Decode(f[|f| - INFO_SIZE..])
  }

  /** `validate`. */
  predicate Validates(f: seq<u8>) {
    && |f| >= 4 + INFO_SIZE
    && BytesWord(f[..4]) == VERSION
    && var w := InfoOf(f); |f| == FileSize(w[4], w[3], w[7]) % WORD_RANGE
  }

  /** The little-endian word at p. */
  function WordAtByte(f: seq<u8>, p: nat): (w: nat)
    requires p + 4 <= |f|
  {
    f[p] as nat + 0x100 * f[p + 1] as nat + 0x1_0000 * f[p + 2] as nat + 0x100_0000 * f[p + 3] as nat
  }

  /** Byte by byte: the file begins with the version, and its length is that of the sections that its trailer, the last
      36 bytes, announces. */
  lemma ValidatesExactly(f: seq<u8>)
    ensures Validates(f) <==>
            && |f| >= 40 && f[0] == 0xF0 && f[1] == 0xDE && f[2] == 0xBC && f[3] == 0x0A
            && |f| == (40 + WordAtByte(f, |f| - 20) + 12 * WordAtByte(f, |f| - 24) + 4 * WordAtByte(f, |f| - 8))
                      % 0x1_0000_0000
  {
    if |f| >= 40 {
      var t := f[|f| - 36..];
      hide Decode;
      TrailerWord(f, 3);
      TrailerWord(f, 4);
      TrailerWord(f, 7);
      VersionBytes(f);
    }
  }

  lemma TrailerWord(f: seq<u8>, k: nat)
    requires |f| >= INFO_SIZE && k < INFO_WORDS
    ensures InfoOf(f)[k] as nat == WordAtByte(f, |f| - INFO_SIZE + 4 * k)
  {
    DecodeAt(f[|f| - INFO_SIZE..], k);
  }

  lemma VersionBytes(f: seq<u8>)
    requires |f| >= 4
    ensures BytesWord(f[..4]) == VERSION <==> f[0] == 0xF0 && f[1] == 0xDE && f[2] == 0xBC && f[3] == 0x0A
  {
  }

  /** A file that validates is long enough for every section its trailer announces. */
  predicate Loadable(f: seq<u8>) {
    |f| >= 4 + INFO_SIZE && var w := InfoOf(f); |f| == FileSize(w[4], w[3], w[7])
  }

  function WordsAt(f: seq<u8>, p: nat, n: nat): (w: seq<u32>)
    requires p + 4 * n <= |f|
    ensures |w| == n
  {
    Decode(f[p..p + 4 * n])
  }

  lemma InfoAt(f: seq<u8>)
    requires |f| >= INFO_SIZE
    ensures WordsAt(f, |f| - INFO_SIZE, INFO_WORDS) == InfoOf(f)
  {
    var p := |f| - INFO_SIZE;
    assert f[p..p + 4 * INFO_WORDS] == f[p..];
  }

  /** `load`. */
  function Loaded(f: seq<u8>, startId: u32): (d: Dict)
    requires Loadable(f) && startId + InfoOf(f)[3] <= WORD_RANGE
  {
    var w := InfoOf(f);
    var n: nat, size: nat, m: nat := w[3], w[4], w[7];
    var p: nat := 4 + size;
    var offs := WordsAt(f, p, n);
    Dict(f[4..p], offs, WordsAt(f, p + 8 * n, n), CountUp(startId, n), WordsAt(f, p + 4 * n, n),
         WordsAt(f, p + 12 * n, m), offs, startId,
         w[0], w[1], w[2], w[5], w[6], w[8], PRE_ALLOC, PRE_ALLOC_SIZE, Synced)
  }

  lemma SectionSlices(h: seq<u8>, b: seq<u8>, o: seq<u8>, p: seq<u8>, s: seq<u8>, y: seq<u8>, i: seq<u8>)
    ensures var f := h + b + (o + p) + s + (y + i);
            var k := |h| + |b|;
            && f[..|h|] == h && f[|h|..k] == b && f[k..k + |o|] == o
            && f[k + |o|..k + |o| + |p|] == p
            && f[k + |o| + |p|..k + |o| + |p| + |s|] == s
            && f[k + |o| + |p| + |s|..k + |o| + |p| + |s| + |y|] == y
            && |f| - |i| >= 0 && f[|f| - |i|..] == i
  {
  }

  lemma SerializeSlices(d: Dict)
    requires |d.predicts| == |d.scores| == |d.offsets|
    ensures var f, n, p := Serialize(d), |d.offsets|, 4 + |d.block|;
            && |f| == FileSize(|d.block|, n, |d.syncs|) && f[..4] == Header() && f[4..p] == d.block
            && f[p..p + 4 * n] == Encode(d.offsets) && f[p + 4 * n..p + 4 * n + 4 * n] == Encode(d.predicts)
            && f[p + 8 * n..p + 8 * n + 4 * n] == Encode(d.scores)
            && f[p + 12 * n..p + 12 * n + 4 * |d.syncs|] == Encode(d.syncs)
            && f[|f| - INFO_SIZE..] == Encode(InfoWords(d))
  {
    hide *;
    SerializeIs(d);
    SectionSlices(Header(), d.block, Encode(d.offsets), Encode(d.predicts), Encode(d.scores), Encode(d.syncs),
                  Encode(InfoWords(d)));
  }

  lemma SerializeIs(d: Dict)
    ensures Serialize(d) == Header() + d.block + (Encode(d.offsets) + Encode(d.predicts)) + Encode(d.scores)
              + (Encode(d.syncs) + Encode(InfoWords(d)))
    ensures |Header()| == 4 && |InfoWords(d)| == 9 && INFO_SIZE == 36
    ensures forall n: nat, m: nat :: FileSize(|d.block|, n, m) == 4 + |d.block| + 12 * n + 4 * m + 36
  {
    hide Encode;
  }

  lemma ImageInfo(d: Dict)
    requires |d.predicts| == |d.scores| == |d.offsets| && FitsInFile(d)
    ensures var f := Serialize(d);
            |f| == FileSize(|d.block|, |d.offsets|, |d.syncs|) && f[..4] == Header() && InfoOf(f) == InfoWords(d)
  {
    hide Encode, Decode, Serialize, InfoWords;
    SerializeSlices(d);
    EncodeRoundTrip(InfoWords(d));
  }

  lemma ImageValidates(d: Dict)
    requires |d.predicts| == |d.scores| == |d.offsets| && FitsInFile(d)
    ensures Validates(Serialize(d)) && Loadable(Serialize(d)) && InfoOf(Serialize(d))[3] == |d.offsets|
  {
    hide *;
    ImageInfo(d);
    WordRoundTrip(VERSION);
    HeaderIs();
    InfoFits(d);
    SerializeSlices(d);
    Announced(Serialize(d), InfoWords(d));
  }

  lemma HeaderIs()
    ensures Header() == WordBytes(VERSION) && INFO_SIZE == 36 && INFO_WORDS == 9
  {
  }

  lemma InfoFits(d: Dict)
    requires FitsInFile(d)
    ensures InfoWords(d)[3] == |d.offsets| && InfoWords(d)[4] == |d.block| && InfoWords(d)[7] == |d.syncs|
    ensures FileSize(|d.block|, |d.offsets|, |d.syncs|) < WORD_RANGE
      && FileSize(|d.block|, |d.offsets|, |d.syncs|) >= 40
  {
  }

  lemma Announced(f: seq<u8>, w: seq<u32>)
    requires |f| >= 40 && BytesWord(f[..4]) == VERSION && |w| == INFO_WORDS && InfoOf(f) == w
      && |f| == FileSize(w[4], w[3], w[7]) < WORD_RANGE
    ensures Validates(f) && Loadable(f)
  {
    hide InfoOf, FileSize;
  }

  lemma ImageWords(d: Dict)
    requires |d.predicts| == |d.scores| == |d.offsets|
    ensures var f, n, p := Serialize(d), |d.offsets|, 4 + |d.block|;
            && p + 12 * n + 4 * |d.syncs| <= |f| && f[4..p] == d.block
            && WordsAt(f, p, n) == d.offsets && WordsAt(f, p + 4 * n, n) == d.predicts
            && WordsAt(f, p + 8 * n, n) == d.scores && WordsAt(f, p + 12 * n, |d.syncs|) == d.syncs
  {
    hide Encode, Decode, Serialize, InfoWords;
    SerializeSlices(d);
    EncodeRoundTrip(d.offsets);
    EncodeRoundTrip(d.predicts);
    EncodeRoundTrip(d.scores);
    EncodeRoundTrip(d.syncs);
  }

  /** A full image passes `validate`, and `load` of it gives back the same lemmas, in the same order,
      with the same flags and scores; only the ids are issued anew. */
  lemma LoadOfImage(d: Dict)
    requires |d.predicts| == |d.scores| == |d.offsets| && FitsInFile(d) && d.startId + |d.offsets| <= WORD_RANGE
    ensures var f := Serialize(d);
            && Validates(f) && Loadable(f) && InfoOf(f)[3] == |d.offsets|
            && Loaded(f, d.startId) == Reloaded(d)
  {
    hide Serialize, InfoOf, WordsAt, Validates;
    ImageInfo(d);
    ImageValidates(d);
    ImageWords(d);
  }

  /** A file that validates and is long enough for its sections holds few enough lemmas for their ids. */
  lemma ValidatesBound(f: seq<u8>)
    requires Validates(f) && Loadable(f)
    ensures InfoOf(f)[3] < REMOVE_FLAG
  {
    hide InfoOf, BytesWord;
  }

  /** `reset` writes the image of the empty dictionary. */
  function EmptyDict(startId: u32): (d: Dict) {
    Dict([], [], [], [], [], [], [], startId, 0, 0, 0, 0, 0, 0, PRE_ALLOC, PRE_ALLOC_SIZE, Synced)
  }

  lemma EmptyImage(startId: u32)
    ensures Serialize(EmptyDict(startId)) == WordBytes(VERSION) + Encode([0, 0, 0, 0, 0, 0, 0, 0, 0])
    ensures var f := Serialize(EmptyDict(startId));
            && Validates(f) && Loadable(f) && startId + InfoOf(f)[3] <= WORD_RANGE
               && Loaded(f, startId) == EmptyDict(startId)
  {
    var d := EmptyDict(startId);
    LoadOfImage(d);
    EmptyBytes(d);
    assert Reloaded(d) == d;
  }

  lemma EmptyBytes(d: Dict)
    requires d.block == [] && d.offsets == d.predicts == d.scores == d.syncs == []
      && InfoWords(d) == [0, 0, 0, 0, 0, 0, 0, 0, 0]
    ensures Serialize(d) == WordBytes(VERSION) + Encode([0, 0, 0, 0, 0, 0, 0, 0, 0])
  {
    hide InfoWords, WordBytes;
    assert Encode([]) == [];
    hide Encode;
  }

  // ---- The system: memory and file, over every run ----

  datatype Sys = Sys(mem: Dict, file: seq<u8>)

  /** One call. `Put` is put_lemma of a new word, `Rescore` put_lemma of a known one at index off,
      `Update` is update_lemma, `Flush` is flush_cache. */
  datatype Op =
    | Put(splids: seq<u16>, word: seq<u16>, count: u16, score: u32, j: nat)
    | Rescore(off: nat, score: u32, delta: int)
    | Update(off: nat, score: u32, delta: int)
    | Remove(off: nat)
    | ClearSync(start: nat, end: nat)
    | Compact
    | Flush

  ghost predicate Enabled(d: Dict, op: Op) {
    match op
    case Put(splids, word, _, _, j) =>
      && |splids| == |word| && CanAppend(d, word) && j <= |d.offsets|
      && forall k :: 0 <= k < |d.offsets| && !Removed(d.offsets[k]) ==> !Holds(d.block, d.offsets[k], splids, word)
    case Rescore(off, _, _) => off < |d.offsets|
    case Update(off, _, _) => off < |d.offsets|
    case Remove(off) => off < |d.offsets|
    case ClearSync(start, end) => start <= end && start <= |d.syncs|
    case Compact => true
    case Flush => FitsInFile(d)
  }

  /** The state after one call from a well-formed dictionary. */
  ghost function Step(spl: Spellings, s: Sys, op: Op): (t: Sys)
    requires SysInv(spl, s) && Enabled(s.mem, op)
  {
    var d := s.mem;
    match op
    case Put(splids, word, count, score, j) =>
      Sys(Queued(Appended(spl, d, splids, word, count, score, j), NextId(d)), s.file)
    case Rescore(off, score, delta) => Sys(Rescored(d, off, score, delta), s.file)
    case Update(off, score, delta) => Sys(Queued(Rescored(d, off, score, delta), d.ids[off]), s.file)
    case Remove(off) => Sys(RemovedAt(d, off), s.file)
    case ClearSync(start, end) => Sys(SyncCleared(d, start, end), s.file)
    case Compact => Sys(Defragged(d), s.file)
    case Flush =>
      FlushFile(spl, d, s.file);
      var f := WrittenBack(d, s.file);
      Sys(Loaded(f, d.startId), f)
  }

  ghost predicate SysInv(spl: Spellings, s: Sys) {
    Inv(spl, s.mem) && FileInv(s.mem, s.file) && s.mem.startId + |s.mem.offsets| <= WORD_RANGE
  }

  lemma FlushFile(spl: Spellings, d: Dict, f: seq<u8>)
    requires Inv(spl, d) && FileInv(d, f) && d.startId + |d.offsets| <= WORD_RANGE && FitsInFile(d)
    ensures |OnDisk(d)| <= |f| && |OnDisk(d)| <= |Serialize(d)|
    ensures var g := WrittenBack(d, f);
            g == Serialize(d) && Loadable(g) && InfoOf(g)[3] == |d.offsets| && Loaded(g, d.startId) == Reloaded(d)
  {
    WriteBackIsFullRewrite(d, f);
    InvLengths(spl, d);
    hide *;
    LoadOfImage(d);
  }

  lemma InvLengths(spl: Spellings, d: Dict)
    requires Inv(spl, d)
    ensures |d.predicts| == |d.scores| == |d.offsets| == |d.ids| == |d.byId|
  {
    assert |multiset(d.predicts)| == |multiset(d.offsets)|;
  }

  lemma EmptySys(spl: Spellings, startId: u32)
    ensures SysInv(spl, Sys(EmptyDict(startId), Serialize(EmptyDict(startId))))
  {
  }

  lemma PutKeepsSys(spl: Spellings, s: Sys, splids: seq<u16>, word: seq<u16>, count: u16, score: u32, j: nat)
    requires SysInv(spl, s) && Enabled(s.mem, Put(splids, word, count, score, j))
    ensures SysInv(spl, Sys(Queued(Appended(spl, s.mem, splids, word, count, score, j), NextId(s.mem)), s.file))
  {
    hide Step;
    AppendAndQueue(spl, s.mem, s.file, splids, word, count, score, j);
    hide Inv, FileInv, Appended, Queued, Enabled;
  }

  lemma AppendedFields(spl: Spellings, d: Dict, splids: seq<u16>, word: seq<u16>, count: u16, score: u32, j: nat)
    requires |splids| == |word| && CanAppend(d, word) && j <= |d.offsets|
    ensures var e := Appended(spl, d, splids, word, count, score, j);
            && |e.byId| == |e.offsets| == |d.offsets| + 1 && e.startId == d.startId
            && Rank(e.level) >= Rank(SyncDirty)
  {
    hide InsertPos, Record;
  }

  lemma AppendAndQueue(spl: Spellings, d: Dict, f: seq<u8>, splids: seq<u16>, word: seq<u16>, count: u16,
    score: u32, j: nat)
    requires Inv(spl, d) && FileInv(d, f) && |splids| == |word| && CanAppend(d, word) && j <= |d.offsets|
    requires forall k :: 0 <= k < |d.offsets| && !Removed(d.offsets[k]) ==> !Holds(d.block, d.offsets[k], splids, word)
    ensures var e := Appended(spl, d, splids, word, count, score, j);
            && e.startId <= NextId(d) < e.startId + |e.byId|
            && Inv(spl, Queued(e, NextId(d))) && FileInv(Queued(e, NextId(d)), f)
            && e.startId + |e.offsets| <= WORD_RANGE
  {
    hide Inv, FileInv, Appended, Queued, Holds, Rank;
    AppendKeepsInv(spl, d, splids, word, count, score, j);
    AppendKeepsFile(spl, d, splids, word, count, score, j, f);
    AppendedFields(spl, d, splids, word, count, score, j);
    var id := NextId(d);
    QueueKeeps(spl, Appended(spl, d, splids, word, count, score, j), id, f);
  }

  lemma QueueKeeps(spl: Spellings, d: Dict, id: u32, f: seq<u8>)
    requires Inv(spl, d) && FileInv(d, f) && Rank(d.level) >= Rank(SyncDirty)
    requires d.startId <= id < d.startId + |d.byId|
    ensures Inv(spl, Queued(d, id)) && FileInv(Queued(d, id), f)
  {
    QueueKeepsFile(d, id, f);
    hide Tiled, Clean, Indexed, Sorted, IdsOk, Distinct;
  }

  lemma UpdateKeepsSys(spl: Spellings, s: Sys, off: nat, score: u32, delta: int)
    requires SysInv(spl, s) && off < |s.mem.offsets|
    ensures s.mem.startId <= s.mem.ids[off] < s.mem.startId + |s.mem.byId|
    ensures SysInv(spl, Sys(Rescored(s.mem, off, score, delta), s.file))
    ensures SysInv(spl, Sys(Queued(Rescored(s.mem, off, score, delta), s.mem.ids[off]), s.file))
  {
    hide Inv, FileInv, Rescored, Rank;
    var d := s.mem;
    IdInRange(spl, d, off);
    var e := Rescored(d, off, score, delta);
    RescoredFields(d, off, score, delta);
    RescoreKeepsInv(spl, d, off, score, delta);
    RescoreKeepsFile(d, off, score, delta, s.file);
    QueueKeeps(spl, e, d.ids[off], s.file);
  }

  lemma RescoredFields(d: Dict, off: nat, score: u32, delta: int)
    requires off < |d.scores|
    ensures var e := Rescored(d, off, score, delta);
            && e.byId == d.byId && e.offsets == d.offsets && e.startId == d.startId
            && Rank(e.level) >= Rank(SyncDirty)
  {
  }

  lemma IdInRange(spl: Spellings, d: Dict, off: nat)
    requires Inv(spl, d) && off < |d.offsets|
    ensures |d.ids| == |d.offsets| == |d.byId| == |d.scores| && d.startId <= d.ids[off] < d.startId + |d.byId|
  {
  }

  /** `flush_cache` gives back the dictionary it wrote. */
  lemma FlushIsReload(spl: Spellings, s: Sys)
    requires SysInv(spl, s) && FitsInFile(s.mem)
    ensures Step(spl, s, Flush) == Sys(Reloaded(s.mem), Serialize(s.mem))
  {
    hide Inv, FileInv, OnDisk, Serialize, WrittenBack, Loaded, Loadable, FitsInFile;
    FlushFile(spl, s.mem, s.file);
  }

  lemma FlushKeepsSys(spl: Spellings, s: Sys)
    requires SysInv(spl, s) && FitsInFile(s.mem)
    ensures SysInv(spl, Sys(Reloaded(s.mem), Serialize(s.mem)))
  {
    ReloadKeepsInv(spl, s.mem);
    ReloadedImage(s.mem);
    hide Inv, FileInv, Serialize;
  }

  lemma ReloadedImage(d: Dict)
    requires d.startId + |d.offsets| <= WORD_RANGE
    ensures Serialize(Reloaded(d)) == Serialize(d) && FileInv(Reloaded(d), Serialize(d))
  {
    hide Encode;
    assert InfoWords(Reloaded(d)) == InfoWords(d);
  }

  lemma StepKeepsSys(spl: Spellings, s: Sys, op: Op)
    requires SysInv(spl, s) && Enabled(s.mem, op)
    ensures SysInv(spl, Step(spl, s, op))
  {
    var d, f := s.mem, s.file;
    match op
    case Put(splids, word, count, score, j) => PutKeepsSys(spl, s, splids, word, count, score, j);
    case Rescore(off, score, delta) => UpdateKeepsSys(spl, s, off, score, delta);
    case Update(off, score, delta) => UpdateKeepsSys(spl, s, off, score, delta);
    case Remove(off) =>
      RemoveKeepsInv(spl, d, off);
      RemoveKeepsFile(d, off, f);
    case ClearSync(start, end) => ClearKeepsSys(spl, s, start, end);
    case Compact => CompactKeepsSys(spl, s);
    case Flush =>
      FlushKeepsSys(spl, s);
      FlushIsReload(spl, s);
  }

  lemma ClearKeepsSys(spl: Spellings, s: Sys, start: nat, end: nat)
    requires SysInv(spl, s) && start <= end && start <= |s.mem.syncs|
    ensures SysInv(spl, Sys(SyncCleared(s.mem, start, end), s.file))
  {
    ClearKeepsFile(s.mem, start, end, s.file);
    hide Tiled, Clean, Indexed, Sorted, IdsOk, Distinct, FileInv;
  }

  lemma CompactKeepsSys(spl: Spellings, s: Sys)
    requires SysInv(spl, s)
    ensures SysInv(spl, Sys(Defragged(s.mem), s.file))
  {
    DefragKeepsInv(spl, s.mem);
    DefragKeepsFile(s.mem, s.file);
    DefragCount(s.mem);
    hide Inv, FileInv, Defragged;
  }

  lemma DefragCount(d: Dict)
    requires Tiled(d.block) && LemmaBlockReady(d)
    ensures |Defragged(d).offsets| <= |d.offsets| && Defragged(d).startId == d.startId
  {
    hide Tiled, Packed, MovedAll, Select, CountUp, AnyRemoved, OnStarts;
  }

  /** Every operation of the run is enabled where it is reached. */
  ghost predicate RunEnabled(spl: Spellings, s: Sys, ops: seq<Op>)
    requires SysInv(spl, s)
    decreases |ops|
  {
    ops == [] ||
    (Enabled(s.mem, ops[0]) && (StepKeepsSys(spl, s, ops[0]); RunEnabled(spl, Step(spl, s, ops[0]), ops[1..])))
  }

  ghost function Run(spl: Spellings, s: Sys, ops: seq<Op>): (t: Sys)
    requires SysInv(spl, s) && RunEnabled(spl, s, ops)
    ensures SysInv(spl, t)
    decreases |ops|
  {
    if ops == [] then s
    else
      StepKeepsSys(spl, s, ops[0]);
      Run(spl, Step(spl, s, ops[0]), ops[1..])
  }

  /** Incremental write-back refines a full rewrite: after any run, writing only from the first stale
      byte leaves the file equal to the full image of memory, the image passes `validate`, and `load`
      of it is the same dictionary with its ids issued anew. */
  lemma RunThenWriteBack(spl: Spellings, s: Sys, ops: seq<Op>)
    requires SysInv(spl, s) && RunEnabled(spl, s, ops)
    ensures var t := Run(spl, s, ops);
            && |OnDisk(t.mem)| <= |t.file| && |OnDisk(t.mem)| <= |Serialize(t.mem)|
            && WrittenBack(t.mem, t.file) == Serialize(t.mem)
            && (FitsInFile(t.mem) ==>
                  && Validates(Serialize(t.mem)) && Loadable(Serialize(t.mem))
                  && InfoOf(Serialize(t.mem))[3] == |t.mem.offsets|
                  && Loaded(Serialize(t.mem), t.mem.startId) == Reloaded(t.mem))
  {
    var t := Run(spl, s, ops);
    WriteBackIsFullRewrite(t.mem, t.file);
    InvLengths(spl, t.mem);
    if FitsInFile(t.mem) {
      LoadOfImage(t.mem);
    }
  }

  /** Every run from the empty dictionary, as `reset` leaves it: what the incremental write-back leaves in the file is
      the whole image. */
  lemma RunFromEmpty(spl: Spellings, startId: u32, ops: seq<Op>)
    requires RunEnabled(spl, Sys(EmptyDict(startId), Serialize(EmptyDict(startId))), ops)
    ensures SysInv(spl, Sys(EmptyDict(startId), Serialize(EmptyDict(startId))))
    ensures var t := Run(spl, Sys(EmptyDict(startId), Serialize(EmptyDict(startId))), ops);
            && Inv(spl, t.mem) && |OnDisk(t.mem)| <= |t.file| && |OnDisk(t.mem)| <= |Serialize(t.mem)|
            && WrittenBack(t.mem, t.file) == Serialize(t.mem)
  {
    EmptySys(spl, startId);
    RunThenWriteBack(spl, Sys(EmptyDict(startId), Serialize(EmptyDict(startId))), ops);
    hide Serialize, Inv, FileInv;
  }
}
