/** The list of words and of the spellings of single characters. */
module DictLists {
  import opened Arith
  import opened Bytes
  import opened LemmaTrie
  import opened TrieWalk
  import opened WordLists

  const MAX_PREDICT_SIZE: nat := 7

  /** A character with one of its spellings. */
  datatype Sci = Sci(hz: u16, half: u16, full: u16)

  datatype PredictItem = PredictItem(preHzs: seq<u16>, psb: u16, hisLen: nat)

  // ---- The table of the buckets ----

  /** Where the words of this length begin: in the buffer, and by id; for lengths that no word has, the id is that of
      the last word, not the one behind it. */
  ghost predicate BucketAt(ws: seq<seq<u16>>, len: nat, pos: nat, id: nat) {
    pos == Offset(ws, Shorter(ws, len)) && id == if Shorter(ws, len) < |ws| then Shorter(ws, len) + 1 else |ws|
  }

  /** The table for the first n words, for lengths up to `last`. */
  ghost predicate Buckets(ws: seq<seq<u16>>, last: nat, pos: seq<nat>, id: seq<nat>) {
    last <= |pos| && last <= |id| && forall i: nat :: i < last ==> BucketAt(ws, i + 1, pos[i], id[i])
  }

  lemma BucketGrows(ws: seq<seq<u16>>, n: nat, len: nat, pos: nat, id: nat)
    requires ByLength(ws) && 0 < n < |ws| && len <= |ws[n - 1]| && BucketAt(ws[..n], len, pos, id)
    ensures BucketAt(ws[..n + 1], len, pos, id)
  {
    var a, b := ws[..n], ws[..n + 1];
    ShorterPrefix(ws, n, len);
    ShorterPrefix(ws, n + 1, len);
    ShorterFirst(ws, len, n - 1);
    var k := Shorter(ws, len);
    assert k < n;
    assert a[..k] == b[..k] == ws[..k];
  }

  /** Cutting the list cuts the count. */
  lemma ShorterPrefix(ws: seq<seq<u16>>, n: nat, len: nat)
    requires ByLength(ws) && n <= |ws|
    ensures Shorter(ws[..n], len) == if Shorter(ws, len) <= n then Shorter(ws, len) else n
  {
    var a := ws[..n];
    assert ByLength(a);
    var k := Shorter(a, len);
    if k < n {
      ShorterFirst(a, len, k);
      ShorterFirst(ws, len, k);
    }
    if 0 < k {
      ShorterFirst(a, len, k - 1);
      ShorterFirst(ws, len, k - 1);
    }
    if k == n && n < |ws| {
      ShorterFirst(ws, len, n);
    }
  }

  /** The first word of a new length starts its bucket. */
  lemma BucketStarts(ws: seq<seq<u16>>, n: nat)
    requires ByLength(ws) && n < |ws| && (n > 0 ==> |ws[n - 1]| < |ws[n]|)
    ensures Shorter(ws[..n + 1], |ws[n]|) == n && Offset(ws[..n + 1], n) == Offset(ws, n)
    ensures BucketAt(ws[..n + 1], |ws[n]|, Offset(ws, n), n + 1)
  {
    var b := ws[..n + 1];
    assert ByLength(b) && b[n] == ws[n];
    ShorterFirst(b, |ws[n]|, n);
    if n > 0 {
      ShorterFirst(b, |ws[n]|, n - 1);
      assert b[n - 1] == ws[n - 1];
    }
    assert b[..n] == ws[..n];
  }

  lemma LastBuckets(ws: seq<seq<u16>>, len: nat)
    requires ByLength(ws) && ws != [] && len > |ws[|ws| - 1]|
    ensures BucketAt(ws, len, Offset(ws, |ws|), |ws|)
  {
    ShorterFirst(ws, len, |ws| - 1);
  }

  class DictList {
    const words: seq<seq<u16>>
    const startPos: array<nat>
    const startId: array<nat>
    var buf: array<u16>
    const scis: seq<Sci>

    ghost predicate Sized()
      reads this
    {
      startPos.Length == startId.Length == MAX_WORD + 1 && startPos != startId && ByLength(words)
    }

    ghost predicate Shape()
      reads this
    {
      Sized() && NoGap(words) && InOrder(words)
    }

    /** The list of the words: ids from 1 on in their order. */
    ghost predicate Valid()
      reads this, startPos, startId, buf
    {
      Shape() && Buckets(words, MAX_WORD + 1, startPos[..], startId[..]) && buf[..] == Flat(words)
    }

    /** `calculate_size`: the size is that of all words; the table of the buckets is right exactly when no length is
        skipped. */
    method CalculateSize() returns (size: nat)
      requires Sized() && words != [] && |words[0]| == 1
      modifies startPos, startId
      ensures size == |Flat(words)|
      ensures Buckets(words, MAX_WORD + 1, startPos[..], startId[..]) <==> NoGap(words)
    {
      hide *;
      hide DictList.Sized;
      SizedGives();
      startPos[0] := 0;
      startId[0] := 1;
      var lastHzLen: nat, listSize: nat, idNum: nat := 1, 1, 1;
      FirstWord(words, startPos[..], startId[..]);
      ghost var gap: nat := 0;
      var i := 1;
      while i < |words|
        invariant 1 <= i <= |words| && idNum == i && lastHzLen == |words[i - 1]| && listSize == Offset(words, i)
          && 1 <= lastHzLen <= MAX_WORD
        invariant Tabled(words, i, lastHzLen, gap, startPos[..], startId[..])
      {
        var currentHzLen := |words[i]|;
        OffsetNext(words, i);
        LengthStep(words, i);
        idNum := idNum + 1;
        if currentHzLen != lastHzLen {
          ghost var p, d := startPos[..], startId[..];
          var len := lastHzLen;
          SkippedNone(p, d, len);
          while len < currentHzLen - 1
            invariant lastHzLen <= len < currentHzLen && Skipped(p, d, lastHzLen, len, startPos[..], startId[..])
          {
            SkippedNext(p, d, lastHzLen, len, startPos[..], startId[..]);
            ghost var q, c := startPos[..], startId[..];
            startPos[len] := startPos[len - 1];
            startId[len] := startId[len - 1];
            assert startPos[..] == q[len := q[len - 1]] && startId[..] == c[len := c[len - 1]];
            len := len + 1;
          }
          gap := TabledStarts(words, i, lastHzLen, gap, p, d, startPos[..], startId[..]);
          p, d := startPos[..], startId[..];
          startPos[currentHzLen - 1] := listSize;
          startId[currentHzLen - 1] := idNum;
          assert startPos[..] == p[currentHzLen - 1 := listSize] && startId[..] == d[currentHzLen - 1 := idNum];
          lastHzLen := currentHzLen;
        } else {
          TabledGrows(words, i, gap, startPos[..], startId[..]);
        }
        listSize := listSize + currentHzLen;
        i := i + 1;
      }
      TabledAll(words, lastHzLen, gap, startPos[..], startId[..]);
      var len := lastHzLen;
      while len <= MAX_WORD
        invariant lastHzLen <= len <= MAX_WORD + 1 && (len > lastHzLen ==> startPos[len - 1] == listSize)
        invariant if gap == 0 then Buckets(words, len, startPos[..], startId[..]) else SkipAt(words, gap, startPos[..])
        invariant gap < lastHzLen
      {
        LastBuckets(words, len + 1);
        ghost var p, d := startPos[..], startId[..];
        startPos[len] := listSize;
        startId[len] := idNum;
        assert startPos[..] == p[len := listSize] && startId[..] == d[len := idNum];
        if gap == 0 {
          BucketsMore(words, len, p, d, listSize, idNum);
        } else {
          SkipStays(words, gap, p, len, listSize);
        }
        len := len + 1;
      }
      size := startPos[MAX_WORD];
      OffsetEnds(words);
      SkipBreaks(words, gap, startPos[..], startId[..]);
    }

    lemma SizedGives()
      requires Sized()
      ensures startPos.Length == startId.Length == MAX_WORD + 1 == 9 && startPos != startId && ByLength(words)
    {
    }

    lemma ShapeGives()
      requires Shape()
      ensures startPos.Length == startId.Length == MAX_WORD + 1 == 9 && startPos != startId && ByLength(words)
        && NoGap(words) && InOrder(words)
      ensures words != [] && |words[0]| == 1
    {
    }

    /** `fill_list`. */
    method FillList()
      requires Shape() && buf.Length == |Flat(words)|
      modifies buf
      ensures buf[..] == Flat(words)
    {
      hide *;
      ShapeGives();
      OffsetEnds(words);
      var currentPos: nat := 0;
      var i := 0;
      while i < |words|
        invariant i <= |words| && currentPos == Offset(words, i) <= buf.Length && buf[..currentPos] == Flat(words[..i])
      {
        OffsetNext(words, i);
        WordAt(words, i);
        CopyWord(currentPos, words[i]);
        assert buf[..currentPos + |words[i]|] == buf[..currentPos] + words[i];
        currentPos := currentPos + |words[i]|;
        i := i + 1;
      }
      assert buf[..currentPos] == buf[..];
    }

    method CopyWord(at: nat, w: seq<u16>)
      requires at + |w| <= buf.Length
      modifies buf
      ensures buf[..at] == old(buf[..at]) && buf[at..at + |w|] == w
    {
      var k := 0;
      while k < |w|
        invariant k <= |w| && buf[..at] == old(buf[..at]) && buf[at..at + k] == w[..k]
      {
        buf[at + k] := w[k];
        k := k + 1;
        assert buf[at..at + k] == buf[at..at + k - 1] + [w[k - 1]] && w[..k] == w[..k - 1] + [w[k - 1]];
      }
      assert w[..k] == w;
    }

    /** `init_list`. */
    constructor (words: seq<seq<u16>>, scis: seq<Sci>)
      requires ByLength(words) && NoGap(words) && InOrder(words)
      ensures this.words == words && this.scis == scis && Valid()
    {
      this.words := words;
      this.scis := scis;
      startPos := new nat[MAX_WORD + 1](i => 0);
      startId := new nat[MAX_WORD + 1](i => 0);
      buf := new u16[0];
      new;
      var size := CalculateSize();
      buf := new u16[size](i => 0);
      FillList();
    }

    lemma ValidGives()
      requires Valid()
      ensures Shape() && Buckets(words, MAX_WORD + 1, startPos[..], startId[..]) && buf[..] == Flat(words)
    {
    }

    /** `get_lemma_str`: the word with this id, unless it is too long for the caller, or is the last word of all. */
    method GetLemmaStr(id: nat, strMax: nat) returns (str: seq<u16>)
      requires Valid()
      ensures str == if 1 <= id < |words| && |words[id - 1]| + 1 <= strMax then words[id - 1] else []
    {
      hide *;
      hide DictList.Valid, DictList.Shape;
      ValidGives();
      ShapeGives();
      BucketIds(words, startPos[..], startId[..], MAX_WORD);
      if id >= startId[MAX_WORD] || strMax <= 1 {
        ShortWord(words, id);
        return [];
      }
      var i := 0;
      while i < MAX_WORD
        invariant i <= MAX_WORD && id < |words| && (1 <= id ==> |words[id - 1]| > i)
      {
        BucketIds(words, startPos[..], startId[..], i);
        BucketIds(words, startPos[..], startId[..], i + 1);
        if i + 1 > strMax - 1 {
          return [];
        }
        if startId[i] <= id && startId[i + 1] > id {
          var idSpan := id - startId[i];
          InBucket(words, startPos[..], startId[..], i, id);
          var at := Spot(startPos[i], i + 1, idSpan);
          str := buf[at..at + (i + 1)];
          assert str == buf[..][at..at + (i + 1)];
          return;
        }
        NotInBucket(words, startPos[..], startId[..], i, id);
        i := i + 1;
      }
      LongEnough(words, id);
      return [];
    }

    /** `get_lemma_id`: the least id of the word, 0 for a word that is not in the list. `aborts` says that the assertion
        of line 356, that the word does not stand at the beginning of the buffer, fails: it does for the first word of
        the list, of all words the only one. */
    method GetLemmaId(str: seq<u16>) returns (id: nat, aborts: bool)
      requires Valid() && str != []
      ensures aborts <==> words != [] && str == words[0]
      ensures if id == 0 then
                str !in words || |str| > MAX_WORD
              else 1 <= id <= |words| && words[id - 1] == str && forall k :: 0 <= k < id - 1 ==> words[k] != str
    {
      hide *;
      hide DictList.Valid, DictList.Shape;
      ValidGives();
      ShapeGives();
      aborts := false;
      LengthsOk(words);
      if |str| > MAX_WORD {
        return 0, false;
      }
      var len := |str|;
      BucketRecords(words, startPos[..], startId[..], len, len);
      var base, next, first := startPos[len - 1], startPos[len], startId[len - 1];
      var cnt := (next - base) / len;
      var pos := FirstRecord(buf[..], base, len, cnt, str);
      SearchSays(words, startPos[..], startId[..], str, len, base, cnt, pos);
      if pos == cnt {
        return 0, false;
      }
      Recover(base, pos, len);
      BucketIds(words, startPos[..], startId[..], len - 1);
      FirstSpot(words, len, base, pos);
      aborts := Spot(base, len, pos) == 0;
      id := first + (Spot(base, len, pos) - base) / len;
    }

    /** `predict`: what goes on from the history, without what the earlier items already have. */
    method Predict(hist: seq<u16>, earlier: seq<PredictItem>, max: nat, uniPsb: nat -> u16)
      returns (items: seq<PredictItem>)
      requires Valid() && 1 <= |hist| <= MAX_PREDICT_SIZE
      ensures items == Fresh(Take(Extensions(words, hist, uniPsb, |words|), max), earlier)
      ensures earlier == [] && |Extensions(words, hist, uniPsb, |words|)| <= max ==>
                items == Extensions(words, hist, uniPsb, |words|)
    {
      hide *;
      hide DictList.Valid, DictList.Shape;
      ValidGives();
      ShapeGives();
      Limits();
      var found: seq<PredictItem> := [];
      NothingShorter(words, hist, uniPsb, max);
      var preLen := 1;
      while preLen <= MAX_PREDICT_SIZE + 1 - |hist|
        invariant 1 <= preLen <= MAX_PREDICT_SIZE + 2 - |hist|
        invariant found == Take(Extensions(words, hist, uniPsb, Shorter(words, |hist| + preLen)), max)
      {
        found := PredictLength(found, hist, |hist| + preLen, max, uniPsb);
        preLen := preLen + 1;
      }
      AllShorter(words, |hist| + preLen);
      items := [];
      var i := 0;
      FreshNone(found, earlier);
      while i < |found|
        invariant i <= |found| && items == Fresh(found[..i], earlier)
      {
        var e := 0;
        while e < |earlier| && earlier[e].preHzs != found[i].preHzs
          invariant e <= |earlier| && forall k :: 0 <= k < e ==> earlier[k].preHzs != found[i].preHzs
        {
          e := e + 1;
        }
        FreshMore(found, earlier, i);
        if e == |earlier| {
          NotHad(earlier, found[i]);
          items := items + [found[i]];
        } else {
          AlreadyHad(earlier, found[i], e);
        }
        i := i + 1;
      }
      assert found[..i] == found;
      FreshAll(found);
      TakeAll(Extensions(words, hist, uniPsb, |words|), max);
    }

    lemma Limits()
      ensures MAX_PREDICT_SIZE == 7 && MAX_WORD == 8
    {
    }

    /** The words of one length. */
    method PredictLength(was: seq<PredictItem>, hist: seq<u16>, wordLen: nat, max: nat, uniPsb: nat -> u16)
      returns (items: seq<PredictItem>)
      requires Valid() && 1 <= |hist| < wordLen <= MAX_WORD
        && was == Take(Extensions(words, hist, uniPsb, Shorter(words, wordLen)), max)
      ensures items == Take(Extensions(words, hist, uniPsb, Shorter(words, wordLen + 1)), max)
    {
      hide *;
      hide DictList.Valid, DictList.Shape;
      ValidGives();
      ShapeGives();
      BucketRecords(words, startPos[..], startId[..], wordLen, |hist|);
      var base, next, first := startPos[wordLen - 1], startPos[wordLen], startId[wordLen - 1];
      var cnt := (next - base) / wordLen;
      ghost var f, b := Shorter(words, wordLen), buf[..];
      items := was;
      var pos := FirstRecord(buf[..], base, wordLen, cnt, hist);
      BeforeRun(words, startPos[..], startId[..], wordLen, base, hist, uniPsb, pos);
      if pos == cnt {
        return;
      }
      ghost var start := pos;
      while pos < cnt && |items| < max
        invariant start <= pos <= cnt && items == Take(Extensions(words, hist, uniPsb, f + pos), max) && buf[..] == b
        invariant KeyIs(b, base, wordLen, |hist|, if pos == start then pos else pos - 1, hist)
      {
        FitsAt(b, base, wordLen, |hist|, cnt, pos);
        SpotIn(b, base, wordLen, |hist|, pos);
        var at := Spot(base, wordLen, pos);
        var c := CompareAt(buf[..], at, hist);
        CompareIs(b, base, wordLen, pos, hist);
        if c != 0 {
          BehindRun(words, startPos[..], startId[..], wordLen, base, hist, uniPsb, pos, cnt);
          return;
        }
        OneExtends(words, startPos[..], startId[..], wordLen, base, hist, uniPsb, pos, max, f + pos);
        var w := buf[at + |hist|..at + wordLen];
        assert w == b[at + |hist|..at + wordLen];
        items := items + [PredictItem(w, uniPsb((at - base) / wordLen + first), |hist|)];
        pos := pos + 1;
      }
      if |items| >= max {
        NoRoom(words, hist, uniPsb, f + pos, f + cnt, max);
      }
    }

    /** `get_splids_for_hanzi`: the spellings of the character that have the half id; if there are none, those that go
        with it. */
    method GetSplidsForHanzi(hanzi: u16, half: u16, max: nat, compatible: (u16, u16) -> bool) returns (splids: seq<u16>)
      requires HzSorted(scis) && |SpellingsOf(scis, hanzi, half, compatible)| < max
        && exists i :: 0 <= i < |scis| && scis[i].hz == hanzi
      ensures splids == SpellingsOf(scis, hanzi, half, compatible)
    {
      hide *;
      ghost var hzs := Hzs(scis);
      HzRecords(scis);
      var first := FirstRecord(Hzs(scis), 0, 1, |scis|, [hanzi]);
      HzFirst(scis, hanzi, first);
      var strict := false;
      var f := first;
      while f < |scis| && scis[f].hz == hanzi
        invariant first <= f <= |scis| && (strict <==> exists i :: first <= i < f && Matches(scis[i], hanzi, half))
          && forall i :: first <= i < f ==> scis[i].hz == hanzi
        decreases |scis| - f
      {
        MatchesIs(scis[f], hanzi, half);
        StrictMore(scis, hanzi, half, first, f);
        if half == 0 || scis[f].half == half {
          strict := true;
        }
        f := f + 1;
      }
      HzBehind(scis, hanzi, first, f);
      StrictIs(scis, hanzi, half, first, f);
      splids := [];
      NoSpellings(scis, hanzi, half, compatible, strict, first);
      var k := first;
      while k < |scis| && scis[k].hz == hanzi
        invariant first <= k <= f && splids == Chosen(scis[..k], hanzi, half, compatible, strict)
        decreases |scis| - k
      {
        ChosenMore(scis, hanzi, half, compatible, strict, k);
        if half == 0 || (strict && scis[k].half == half) || (!strict && compatible(half, scis[k].full)) {
          splids := splids + [scis[k].full];
        }
        k := k + 1;
      }
      ChosenRest(scis, hanzi, half, compatible, strict, k);
      SpellingsAre(scis, hanzi, half, compatible);
    }
  }

  // ---- Prediction ----

  predicate Extends(w: seq<u16>, hist: seq<u16>) {
    |w| > |hist| && w[..|hist|] == hist
  }

  /** Of the first k words those that strictly extend the history, by id: what they add, and their score. */
  function Extensions(ws: seq<seq<u16>>, hist: seq<u16>, uniPsb: nat -> u16, k: nat): (items: seq<PredictItem>)
    requires k <= |ws|
  {
    if k == 0 then []
    else
      Extensions(ws, hist, uniPsb, k - 1)
      + (if Extends(ws[k - 1], hist) then [PredictItem(ws[k - 1][|hist|..], uniPsb(k), |hist|)] else [])
  }

  /** Exactly the words that strictly extend the history, each with what it adds and the score of its id. */
  lemma {:induction false} ExtensionsAre(ws: seq<seq<u16>>, hist: seq<u16>, uniPsb: nat -> u16, k: nat, x: PredictItem)
    requires k <= |ws|
    ensures x in Extensions(ws, hist, uniPsb, k) <==>
            exists i :: 0 <= i < k && |hist| < |ws[i]| && ws[i] == hist + x.preHzs && x.psb == uniPsb(i + 1)
                        && x.hisLen == |hist|
  {
    if k > 0 {
      ExtensionsAre(ws, hist, uniPsb, k - 1, x);
      var w := ws[k - 1];
      if |hist| < |w| && w == hist + x.preHzs {
        assert w[..|hist|] == hist && w[|hist|..] == x.preHzs;
      }
      if Extends(w, hist) {
        assert w == hist + w[|hist|..];
      }
    }
  }

  /** What is left are the items whose words are not among the earlier ones, as often as before. */
  lemma {:induction false} FreshAre(items: seq<PredictItem>, earlier: seq<PredictItem>, x: PredictItem)
    ensures multiset(Fresh(items, earlier))[x] ==
            if exists k :: 0 <= k < |earlier| && earlier[k].preHzs == x.preHzs then 0 else multiset(items)[x]
  {
    if items != [] {
      var n := |items| - 1;
      FreshAre(items[..n], earlier, x);
      FreshLast(items, earlier);
      hide Fresh;
      assert items == items[..n] + [items[n]];
    }
  }

  lemma FreshLast(items: seq<PredictItem>, earlier: seq<PredictItem>)
    requires items != []
    ensures var n := |items| - 1;
            Fresh(items, earlier) ==
            if exists k :: 0 <= k < |earlier| && earlier[k].preHzs == items[n].preHzs then Fresh(items[..n], earlier)
            else Fresh(items[..n], earlier) + [items[n]]
  {
  }

  ghost predicate Had(earlier: seq<PredictItem>, x: PredictItem) {
    exists k :: 0 <= k < |earlier| && earlier[k].preHzs == x.preHzs
  }

  /** The items that are not among the earlier ones. */
  ghost function Fresh(items: seq<PredictItem>, earlier: seq<PredictItem>): (r: seq<PredictItem>) {
    if items == [] then []
    else Fresh(items[..|items| - 1], earlier) + if Had(earlier, items[|items| - 1]) then [] else [items[|items| - 1]]
  }

  lemma FreshNone(items: seq<PredictItem>, earlier: seq<PredictItem>)
    ensures Fresh(items[..0], earlier) == []
  {
  }

  lemma FreshMore(items: seq<PredictItem>, earlier: seq<PredictItem>, i: nat)
    requires i < |items|
    ensures Fresh(items[..i + 1], earlier) == Fresh(items[..i], earlier) +
              if Had(earlier, items[i]) then [] else [items[i]]
    ensures Fresh(items[..i], earlier) + [] == Fresh(items[..i], earlier)
  {
    assert items[..i + 1][..i] == items[..i];
  }

  lemma {:induction false} FreshAll(items: seq<PredictItem>)
    ensures Fresh(items, []) == items
  {
    if items != [] {
      FreshAll(items[..|items| - 1]);
      assert items[..|items| - 1] + [items[|items| - 1]] == items;
    }
  }

  lemma NotHad(earlier: seq<PredictItem>, x: PredictItem)
    requires forall k :: 0 <= k < |earlier| ==> earlier[k].preHzs != x.preHzs
    ensures !Had(earlier, x)
  {
  }

  lemma AlreadyHad(earlier: seq<PredictItem>, x: PredictItem, k: nat)
    requires k < |earlier| && earlier[k].preHzs == x.preHzs
    ensures Had(earlier, x)
  {
  }

  lemma TakeAll(s: seq<PredictItem>, n: nat)
    ensures |s| <= n ==> Take(s, n) == s
  {
  }

  lemma {:induction false} NoneExtends(ws: seq<seq<u16>>, hist: seq<u16>, uniPsb: nat -> u16, a: nat, b: nat)
    requires a <= b <= |ws| && forall k :: a <= k < b ==> !Extends(ws[k], hist)
    ensures Extensions(ws, hist, uniPsb, b) == Extensions(ws, hist, uniPsb, a)
    decreases b
  {
    if a < b {
      NoneExtends(ws, hist, uniPsb, a, b - 1);
    }
  }

  lemma {:induction false} MoreExtends(ws: seq<seq<u16>>, hist: seq<u16>, uniPsb: nat -> u16, a: nat, b: nat)
    requires a <= b <= |ws|
    ensures |Extensions(ws, hist, uniPsb, a)| <= |Extensions(ws, hist, uniPsb, b)|
    ensures Extensions(ws, hist, uniPsb, b)[..|Extensions(ws, hist, uniPsb, a)|] == Extensions(ws, hist, uniPsb, a)
    decreases b
  {
    if a < b {
      MoreExtends(ws, hist, uniPsb, a, b - 1);
    }
  }

  lemma NoRoom(ws: seq<seq<u16>>, hist: seq<u16>, uniPsb: nat -> u16, a: nat, b: nat, max: nat)
    requires a <= b <= |ws| && |Take(Extensions(ws, hist, uniPsb, a), max)| >= max
    ensures Take(Extensions(ws, hist, uniPsb, b), max) == Take(Extensions(ws, hist, uniPsb, a), max)
  {
    MoreExtends(ws, hist, uniPsb, a, b);
    var x, y := Extensions(ws, hist, uniPsb, a), Extensions(ws, hist, uniPsb, b);
    assert y[..max] == y[..|x|][..max];
  }

  /** No word that is not longer than the history extends it. */
  lemma NothingShorter(ws: seq<seq<u16>>, hist: seq<u16>, uniPsb: nat -> u16, max: nat)
    requires ByLength(ws)
    ensures [] == Take(Extensions(ws, hist, uniPsb, Shorter(ws, |hist| + 1)), max)
  {
    forall k | 0 <= k < Shorter(ws, |hist| + 1) ensures !Extends(ws[k], hist) {
      ShorterFirst(ws, |hist| + 1, k);
    }
    NoneExtends(ws, hist, uniPsb, 0, Shorter(ws, |hist| + 1));
  }

  lemma AllShorter(ws: seq<seq<u16>>, len: nat)
    requires ByLength(ws) && len > MAX_WORD
    ensures Shorter(ws, len) == |ws|
  {
    if ws != [] {
      ShorterFirst(ws, len, |ws| - 1);
    }
  }

  /** The words before the first record with the history do not extend it. */
  lemma BeforeRun(ws: seq<seq<u16>>, pos: seq<nat>, id: seq<nat>, len: nat, base: nat, hist: seq<u16>,
    uniPsb: nat -> u16, p: nat)
    requires ByLength(ws) && ws != [] && Buckets(ws, MAX_WORD + 1, pos, id) && 1 <= |hist| < len <= MAX_WORD
      && len <= |pos| && base == pos[len - 1]
    requires Shorter(ws, len) + p <= Shorter(ws, len + 1)
      && forall i: nat :: i < p ==> !KeyIs(Flat(ws), base, len, |hist|, i, hist)
    ensures Extensions(ws, hist, uniPsb, Shorter(ws, len) + p) == Extensions(ws, hist, uniPsb, Shorter(ws, len))
  {
    hide *;
    var f := Shorter(ws, len);
    forall k | f <= k < f + p ensures !Extends(ws[k], hist) {
      RecordIs(ws, pos, id, len, |hist|, k - f, hist);
      assert !KeyIs(Flat(ws), base, len, |hist|, k - f, hist);
      ExtendsIs(ws[k], hist);
    }
    NoneExtends(ws, hist, uniPsb, f, f + p);
  }

  lemma ExtendsIs(w: seq<u16>, hist: seq<u16>)
    ensures Extends(w, hist) <==> |w| > |hist| && w[..|hist|] == hist
  {
  }

  /** Nor do those behind the run of records with it. */
  lemma BehindRun(ws: seq<seq<u16>>, pos: seq<nat>, id: seq<nat>, len: nat, base: nat, hist: seq<u16>,
    uniPsb: nat -> u16, p: nat, cnt: nat)
    requires ByLength(ws) && ws != [] && Buckets(ws, MAX_WORD + 1, pos, id) && 1 <= |hist| < len <= MAX_WORD
      && len <= |pos| && base == pos[len - 1]
    requires cnt == Shorter(ws, len + 1) - Shorter(ws, len) && Records(Flat(ws), base, len, |hist|, cnt)
    requires 0 < p < cnt && KeyIs(Flat(ws), base, len, |hist|, p - 1, hist)
      && !KeyIs(Flat(ws), base, len, |hist|, p, hist)
    ensures Extensions(ws, hist, uniPsb, Shorter(ws, len) + cnt) == Extensions(ws, hist, uniPsb, Shorter(ws, len) + p)
  {
    hide *;
    var f := Shorter(ws, len);
    forall k | f + p <= k < f + cnt ensures !Extends(ws[k], hist) {
      RecordIs(ws, pos, id, len, |hist|, k - f, hist);
      NoneBehind(Flat(ws), base, len, cnt, hist, p, k - f);
      ExtendsIs(ws[k], hist);
    }
    NoneExtends(ws, hist, uniPsb, f + p, f + cnt);
  }

  lemma NoneBehind(b: seq<u16>, base: nat, len: nat, cnt: nat, key: seq<u16>, p: nat, i: nat)
    requires Records(b, base, len, |key|, cnt) && 0 < p <= i < cnt && KeyIs(b, base, len, |key|, p - 1, key)
      && !KeyIs(b, base, len, |key|, p, key)
    ensures !KeyIs(b, base, len, |key|, i, key)
  {
    hide PathLe, Spot;
    assert KeyLe(b, base, len, |key|, p - 1, p) && KeyLe(b, base, len, |key|, p, i);
    LeTotal(Key(b, base, len, |key|, p), key);
  }

  /** A record with the history is one more extension. */
  lemma OneExtends(ws: seq<seq<u16>>, pos: seq<nat>, id: seq<nat>, len: nat, base: nat, hist: seq<u16>,
    uniPsb: nat -> u16, p: nat, max: nat, k: nat)
    requires ByLength(ws) && ws != [] && Buckets(ws, MAX_WORD + 1, pos, id) && 1 <= |hist| < len <= MAX_WORD
      && len <= |pos| && len <= |id| && base == pos[len - 1]
    requires k == Shorter(ws, len) + p < Shorter(ws, len + 1) && KeyIs(Flat(ws), base, len, |hist|, p, hist)
      && |Take(Extensions(ws, hist, uniPsb, k), max)| < max
    ensures k < |ws| && |ws[k]| == len && Spot(base, len, p) + len <= |Flat(ws)| && Spot(base, len, p) >= base
    ensures Take(Extensions(ws, hist, uniPsb, k + 1), max) == Take(Extensions(ws, hist, uniPsb, k), max)
              + [PredictItem(ws[k][|hist|..], uniPsb(k + 1), |hist|)]
    ensures Flat(ws)[Spot(base, len, p) + |hist|..Spot(base, len, p) + len] == ws[k][|hist|..]
    ensures (Spot(base, len, p) - base) / len + id[len - 1] == k + 1
  {
    hide *;
    LengthsOk(ws);
    RecordIs(ws, pos, id, len, |hist|, p, hist);
    KeyOf(ws, pos, id, len, len, p);
    Recover(base, p, len);
    BucketIds(ws, pos, id, len - 1);
    ExtendsIs(ws[k], hist);
    WholeKey(Flat(ws), base, len, p, ws[k], |hist|);
    TakeExtension(ws, hist, uniPsb, k, max);
  }

  lemma WholeKey(b: seq<u16>, base: nat, len: nat, p: nat, w: seq<u16>, n: nat)
    requires InBuffer(b, base, len, len, p) && |w| == len && Key(b, base, len, len, p) == w[..len] && n <= len
    ensures Spot(base, len, p) + len <= |b| && b[Spot(base, len, p) + n..Spot(base, len, p) + len] == w[n..]
  {
    var a := Spot(base, len, p);
    assert w[..len] == w;
    RestOfSlice(b, a, len, n);
  }

  lemma RestOfSlice(b: seq<u16>, a: nat, len: nat, n: nat)
    requires a + len <= |b| && n <= len
    ensures b[a..a + len][n..] == b[a + n..a + len]
  {
  }

  lemma TakeExtension(ws: seq<seq<u16>>, hist: seq<u16>, uniPsb: nat -> u16, k: nat, max: nat)
    requires k < |ws| && Extends(ws[k], hist) && |Take(Extensions(ws, hist, uniPsb, k), max)| < max
    ensures Take(Extensions(ws, hist, uniPsb, k + 1), max) == Take(Extensions(ws, hist, uniPsb, k), max)
              + [PredictItem(ws[k][|hist|..], uniPsb(k + 1), |hist|)]
  {
  }

  // ---- The spellings of a character ----

  ghost predicate HzSorted(scis: seq<Sci>) {
    forall i, j :: 0 <= i < j < |scis| ==> scis[i].hz <= scis[j].hz
  }

  function Hzs(scis: seq<Sci>): (s: seq<u16>)
    ensures |s| == |scis| && forall i :: 0 <= i < |scis| ==> s[i] == scis[i].hz
  {
    seq(|scis|, i requires 0 <= i < |scis| => scis[i].hz)
  }

  predicate Matches(x: Sci, hanzi: u16, half: u16) {
    x.hz == hanzi && (half == 0 || x.half == half)
  }

  ghost predicate Strict(scis: seq<Sci>, hanzi: u16, half: u16) {
    exists i :: 0 <= i < |scis| && Matches(scis[i], hanzi, half)
  }

  function Chosen(scis: seq<Sci>, hanzi: u16, half: u16, compatible: (u16, u16) -> bool, strict: bool): (s: seq<u16>) {
    if scis == [] then []
    else
      var x := scis[|scis| - 1];
      Chosen(scis[..|scis| - 1], hanzi, half, compatible, strict)
      + if x.hz == hanzi && (half == 0 || (strict && x.half == half)
        || (!strict && compatible(half, x.full))) then [x.full] else []
  }

  /** The full ids of the character, strictly by the half id if some has it. */
  ghost function SpellingsOf(scis: seq<Sci>, hanzi: u16, half: u16, compatible: (u16, u16) -> bool): (s: seq<u16>) {
    Chosen(scis, hanzi, half, compatible, Strict(scis, hanzi, half))
  }

  /** The character has this spelling, with the half id, or with one that is compatible. */
  ghost predicate HasSpelling(x: Sci, hanzi: u16, half: u16, compatible: (u16, u16) -> bool, strict: bool, full: u16) {
    x.hz == hanzi && x.full == full && (half == 0 || if strict then x.half == half else compatible(half, full))
  }

  /** Exactly the spellings of the character with this half id, or, if there is none, with a compatible one. */
  lemma {:induction false} ChosenAre(scis: seq<Sci>, hanzi: u16, half: u16, compatible: (u16, u16) -> bool,
    strict: bool, full: u16)
    ensures full in Chosen(scis, hanzi, half, compatible, strict) <==>
            exists i :: 0 <= i < |scis| && HasSpelling(scis[i], hanzi, half, compatible, strict, full)
  {
    if scis != [] {
      var n := |scis| - 1;
      ChosenAre(scis[..n], hanzi, half, compatible, strict, full);
      ChosenLast(scis, hanzi, half, compatible, strict, full);
      hide Chosen, HasSpelling;
      forall i | 0 <= i < n
        ensures scis[..n][i] == scis[i]
      {
      }
    }
  }

  lemma ChosenLast(scis: seq<Sci>, hanzi: u16, half: u16, compatible: (u16, u16) -> bool, strict: bool, full: u16)
    requires scis != []
    ensures full in Chosen(scis, hanzi, half, compatible, strict) <==>
            full in Chosen(scis[..|scis| - 1], hanzi, half, compatible, strict)
            || HasSpelling(scis[|scis| - 1], hanzi, half, compatible, strict, full)
  {
  }

  lemma SpellingsAre(scis: seq<Sci>, hanzi: u16, half: u16, compatible: (u16, u16) -> bool)
    ensures SpellingsOf(scis, hanzi, half, compatible)
              == Chosen(scis, hanzi, half, compatible, Strict(scis, hanzi, half))
  {
  }

  lemma HzRecords(scis: seq<Sci>)
    requires HzSorted(scis)
    ensures Records(Hzs(scis), 0, 1, 1, |scis|)
    ensures forall i: nat, c: u16 :: i < |scis| ==> (KeyIs(Hzs(scis), 0, 1, 1, i, [c]) <==> scis[i].hz == c)
  {
    var b := Hzs(scis);
    forall i: nat | i < |scis| ensures InBuffer(b, 0, 1, 1, i) && Key(b, 0, 1, 1, i) == [scis[i].hz] {
      assert Spot(0, 1, i) == i;
    }
    hide Spot, Key;
    forall i: nat, j: nat | i <= j < |scis| ensures KeyLe(b, 0, 1, 1, i, j) {
      assert i < j ==> scis[i].hz <= scis[j].hz;
      OneLe(scis[i].hz, scis[j].hz);
    }
  }

  lemma OneLe(c: u16, d: u16)
    ensures c <= d ==> PathLe([c], [d])
  {
  }

  lemma HzFirst(scis: seq<Sci>, hanzi: u16, first: nat)
    requires HzSorted(scis) && first <= |scis| && (first < |scis| ==> KeyIs(Hzs(scis), 0, 1, 1, first, [hanzi]))
      && forall i: nat :: i < first ==> !KeyIs(Hzs(scis), 0, 1, 1, i, [hanzi])
    ensures (first < |scis| ==> scis[first].hz == hanzi) && forall i :: 0 <= i < first ==> scis[i].hz != hanzi
  {
    HzRecords(scis);
    forall i: nat | i < first ensures scis[i].hz != hanzi {
      assert !KeyIs(Hzs(scis), 0, 1, 1, i, [hanzi]);
    }
  }

  lemma MatchesIs(x: Sci, hanzi: u16, half: u16)
    ensures Matches(x, hanzi, half) <==> x.hz == hanzi && (half == 0 || x.half == half)
  {
  }

  lemma StrictMore(scis: seq<Sci>, hanzi: u16, half: u16, a: nat, f: nat)
    requires a <= f < |scis|
    ensures (exists i :: a <= i < f + 1 && Matches(scis[i], hanzi, half)) <==>
              (exists i :: a <= i < f && Matches(scis[i], hanzi, half)) || Matches(scis[f], hanzi, half)
  {
    hide Matches;
  }

  lemma HzBehind(scis: seq<Sci>, hanzi: u16, first: nat, f: nat)
    requires HzSorted(scis) && first <= f <= |scis| && (f < |scis| ==> scis[f].hz != hanzi)
      && (first < |scis| ==> scis[first].hz == hanzi)
      && exists i :: 0 <= i < |scis| && scis[i].hz == hanzi
    requires (forall i :: 0 <= i < first ==> scis[i].hz != hanzi) && forall i :: first <= i < f ==> scis[i].hz == hanzi
    ensures first < f && forall i :: f <= i < |scis| ==> scis[i].hz != hanzi
  {
    var x :| 0 <= x < |scis| && scis[x].hz == hanzi;
    assert first <= x;
    forall i | f <= i < |scis| ensures scis[i].hz != hanzi {
      HzBetween(scis, f - 1, f, i);
    }
  }

  lemma HzBetween(scis: seq<Sci>, a: nat, f: nat, i: nat)
    requires HzSorted(scis) && a < f <= i < |scis|
    ensures scis[a].hz <= scis[f].hz <= scis[i].hz
  {
  }

  lemma StrictIs(scis: seq<Sci>, hanzi: u16, half: u16, first: nat, f: nat)
    requires first <= f <= |scis| && (forall i :: 0 <= i < first ==> scis[i].hz != hanzi)
      && forall i :: f <= i < |scis| ==> scis[i].hz != hanzi
    ensures Strict(scis, hanzi, half) <==> exists i :: first <= i < f && Matches(scis[i], hanzi, half)
  {
    if Strict(scis, hanzi, half) {
      var i :| 0 <= i < |scis| && Matches(scis[i], hanzi, half);
      assert first <= i < f;
    }
  }

  lemma {:induction false} NoneChosen(scis: seq<Sci>, hanzi: u16, half: u16, compatible: (u16, u16) -> bool,
    strict: bool, a: nat, b: nat)
    requires a <= b <= |scis| && forall i :: a <= i < b ==> scis[i].hz != hanzi
    ensures Chosen(scis[..b], hanzi, half, compatible, strict) == Chosen(scis[..a], hanzi, half, compatible, strict)
    decreases b
  {
    if a < b {
      NoneChosen(scis, hanzi, half, compatible, strict, a, b - 1);
      assert scis[..b][..b - 1] == scis[..b - 1];
    }
  }

  lemma NoSpellings(scis: seq<Sci>, hanzi: u16, half: u16, compatible: (u16, u16) -> bool, strict: bool, first: nat)
    requires first <= |scis| && forall i :: 0 <= i < first ==> scis[i].hz != hanzi
    ensures Chosen(scis[..first], hanzi, half, compatible, strict) == []
  {
    NoneChosen(scis, hanzi, half, compatible, strict, 0, first);
  }

  lemma ChosenMore(scis: seq<Sci>, hanzi: u16, half: u16, compatible: (u16, u16) -> bool, strict: bool, k: nat)
    requires k < |scis| && scis[k].hz == hanzi
    ensures Chosen(scis[..k + 1], hanzi, half, compatible, strict) ==
            if half == 0 || (strict && scis[k].half == half) || (!strict && compatible(half, scis[k].full))
            then Chosen(scis[..k], hanzi, half, compatible, strict) + [scis[k].full]
            else Chosen(scis[..k], hanzi, half, compatible, strict)
  {
    assert scis[..k + 1][..k] == scis[..k];
  }

  lemma ChosenRest(scis: seq<Sci>, hanzi: u16, half: u16, compatible: (u16, u16) -> bool, strict: bool, k: nat)
    requires k <= |scis| && forall i :: k <= i < |scis| ==> scis[i].hz != hanzi
    ensures Chosen(scis, hanzi, half, compatible, strict) == Chosen(scis[..k], hanzi, half, compatible, strict)
  {
    NoneChosen(scis, hanzi, half, compatible, strict, k, |scis|);
    assert scis[..|scis|] == scis;
  }

  /** What the first record with the key of a whole word says about the list. */
  lemma SearchSays(ws: seq<seq<u16>>, pos: seq<nat>, id: seq<nat>, w: seq<u16>, len: nat, base: nat, cnt: nat, p: nat)
    requires ByLength(ws) && ws != [] && Buckets(ws, MAX_WORD + 1, pos, id) && 1 <= |w| == len <= MAX_WORD
      && len <= |pos| && base == pos[len - 1]
    requires cnt == Shorter(ws, len + 1) - Shorter(ws, len) && p <= cnt
      && (p < cnt ==> KeyIs(Flat(ws), base, len, len, p, w))
    requires forall i: nat :: i < p ==> !KeyIs(Flat(ws), base, len, len, i, w)
    ensures p == cnt ==> w !in ws
    ensures p < cnt ==>
              Shorter(ws, len) + p < |ws| && ws[Shorter(ws, len) + p] == w
              && forall k :: 0 <= k < Shorter(ws, len) + p ==> ws[k] != w
  {
    hide *;
    var f := Shorter(ws, len);
    forall k | 0 <= k < |ws| && (k < f + p || p == cnt) ensures ws[k] != w {
      RecordOf(ws, pos, id, len, k, w);
    }
    if p < cnt {
      RecordIs(ws, pos, id, len, len, p, w);
      WholeWord(ws, f + p, w);
    }
  }

  /** Only the first word stands at the beginning of the buffer. */
  lemma FirstSpot(ws: seq<seq<u16>>, len: nat, base: nat, pos: nat)
    requires ByLength(ws) && len > 0 && base == Offset(ws, Shorter(ws, len))
    ensures Spot(base, len, pos) == 0 <==> Shorter(ws, len) + pos == 0
  {
    LengthsOk(ws);
    var f := Shorter(ws, len);
    if f > 0 {
      OffsetNext(ws, f - 1);
    } else if ws != [] {
      OffsetNext(ws, 0);
    }
    hide Offset, Shorter, ByLength;
    if pos > 0 {
      AtLeast(len, pos);
    }
  }

  lemma Recover(base: nat, pos: nat, len: nat)
    requires len > 0
    ensures Spot(base, len, pos) >= base && (Spot(base, len, pos) - base) / len == pos
  {
    Divided(0, len, pos);
    assert pos * len == len * pos;
  }

  lemma WholeWord(ws: seq<seq<u16>>, k: nat, w: seq<u16>)
    requires k < |ws| && |ws[k]| == |w| && ws[k][..|w|] == w
    ensures ws[k] == w
  {
    assert ws[k][..|w|] == ws[k];
  }

  lemma BucketIds(ws: seq<seq<u16>>, pos: seq<nat>, id: seq<nat>, i: nat)
    requires ByLength(ws) && ws != [] && Buckets(ws, MAX_WORD + 1, pos, id) && i <= MAX_WORD
    ensures i < |pos| && i < |id| && id[i] == (if Shorter(ws, i + 1) < |ws| then Shorter(ws, i + 1) + 1 else |ws|)
      && pos[i] == Offset(ws, Shorter(ws, i + 1))
    ensures i == MAX_WORD ==> id[i] == |ws|
  {
    assert BucketAt(ws, i + 1, pos[i], id[i]);
    if i == MAX_WORD {
      ShorterFirst(ws, i + 1, |ws| - 1);
    }
  }

  lemma ShortWord(ws: seq<seq<u16>>, id: nat)
    requires ByLength(ws)
    ensures 1 <= id <= |ws| ==> 1 <= |ws[id - 1]|
  {
  }

  lemma LongEnough(ws: seq<seq<u16>>, id: nat)
    requires ByLength(ws)
    ensures 1 <= id <= |ws| ==> |ws[id - 1]| <= MAX_WORD
  {
  }

  /** A word whose id is in the range of a bucket has the length of the bucket and stands in it. */
  lemma InBucket(ws: seq<seq<u16>>, pos: seq<nat>, id: seq<nat>, i: nat, x: nat)
    requires ByLength(ws) && ws != [] && Buckets(ws, MAX_WORD + 1, pos, id) && i < MAX_WORD && i + 1 < |pos|
      && i + 1 < |id| && id[i] <= x < id[i + 1]
    ensures 1 <= x < |ws| && |ws[x - 1]| == i + 1
    ensures Spot(pos[i], i + 1, x - id[i]) + (i + 1) <= |Flat(ws)|
    ensures Flat(ws)[Spot(pos[i], i + 1, x - id[i])..Spot(pos[i], i + 1, x - id[i]) + (i + 1)] == ws[x - 1]
  {
    hide *;
    LengthsOk(ws);
    BucketIds(ws, pos, id, i);
    BucketIds(ws, pos, id, i + 1);
    ShorterGrows(ws, i + 1, i + 2);
    var f := Shorter(ws, i + 1);
    assert x - 1 < |ws| && x >= 1;
    ShorterFirst(ws, i + 1, x - 1);
    ShorterFirst(ws, i + 2, x - 1);
    EvenlySpaced(ws, i + 1, x - 1);
    WordAt(ws, x - 1);
    assert x - id[i] == x - 1 - f;
  }

  lemma LengthsOk(ws: seq<seq<u16>>)
    requires ByLength(ws)
    ensures (forall i :: 0 <= i < |ws| ==> 1 <= |ws[i]| <= 8) && MAX_WORD == 8
  {
  }

  lemma NotInBucket(ws: seq<seq<u16>>, pos: seq<nat>, id: seq<nat>, i: nat, x: nat)
    requires ByLength(ws) && ws != [] && Buckets(ws, MAX_WORD + 1, pos, id) && i < MAX_WORD && i + 1 < |pos|
      && i + 1 < |id| && !(id[i] <= x < id[i + 1]) && x < |ws|
    ensures 1 <= x && |ws[x - 1]| > i ==> |ws[x - 1]| > i + 1
  {
    BucketIds(ws, pos, id, i);
    BucketIds(ws, pos, id, i + 1);
    if x >= 1 {
      ShorterFirst(ws, i + 1, x - 1);
      ShorterFirst(ws, i + 2, x - 1);
    }
  }

  /** The words of a length are the records of its stretch of the buffer, and their beginnings are in order. */
  lemma BucketRecords(ws: seq<seq<u16>>, pos: seq<nat>, id: seq<nat>, len: nat, n: nat)
    requires ByLength(ws) && InOrder(ws) && ws != [] && Buckets(ws, MAX_WORD + 1, pos, id) && 1 <= n <= len <= MAX_WORD
    ensures len < |pos| && len < |id| && pos[len - 1] <= pos[len]
    ensures (pos[len] - pos[len - 1]) / len == Shorter(ws, len + 1) - Shorter(ws, len) >= 0
    ensures Records(Flat(ws), pos[len - 1], len, n, Shorter(ws, len + 1) - Shorter(ws, len))
    ensures Shorter(ws, len + 1) > Shorter(ws, len) ==> id[len - 1] == Shorter(ws, len) + 1
  {
    hide *;
    LengthsOk(ws);
    BucketIds(ws, pos, id, len - 1);
    BucketIds(ws, pos, id, len);
    ShorterGrows(ws, len, len + 1);
    var f, e := Shorter(ws, len), Shorter(ws, len + 1);
    EvenlySpaced(ws, len, e);
    Recover(pos[len - 1], e - f, len);
    var b, base := Flat(ws), pos[len - 1];
    forall i: nat | i < e - f ensures RecordWord(b, base, len, n, ws, f, i) {
      KeyOf(ws, pos, id, len, n, i);
      RecordWordIs(b, base, len, n, ws, f, i);
    }
    WordsInOrder(b, base, len, n, ws, f, e - f);
  }

  /** Record i is the beginning of the word f + i. */
  ghost predicate RecordWord(b: seq<u16>, base: nat, len: nat, n: nat, ws: seq<seq<u16>>, f: nat, i: nat) {
    f + i < |ws| && |ws[f + i]| == len && n <= len && InBuffer(b, base, len, n, i)
    && Key(b, base, len, n, i) == ws[f + i][..n]
  }

  lemma RecordWordIs(b: seq<u16>, base: nat, len: nat, n: nat, ws: seq<seq<u16>>, f: nat, i: nat)
    requires f + i < |ws| && |ws[f + i]| == len && n <= len && InBuffer(b, base, len, n, i)
      && Key(b, base, len, n, i) == ws[f + i][..n]
    ensures RecordWord(b, base, len, n, ws, f, i)
  {
  }

  lemma WordsInOrder(b: seq<u16>, base: nat, len: nat, n: nat, ws: seq<seq<u16>>, f: nat, cnt: nat)
    requires InOrder(ws) && n <= len && forall i: nat :: i < cnt ==> RecordWord(b, base, len, n, ws, f, i)
    ensures Records(b, base, len, n, cnt)
  {
    hide PathLe, Spot;
    forall i: nat | i < cnt ensures InBuffer(b, base, len, n, i) {
      assert RecordWord(b, base, len, n, ws, f, i);
    }
    forall i: nat, j: nat | i <= j < cnt ensures KeyLe(b, base, len, n, i, j) {
      assert RecordWord(b, base, len, n, ws, f, i) && RecordWord(b, base, len, n, ws, f, j);
      if i == j {
        LeTotal(ws[f + i][..n], ws[f + i][..n]);
      } else {
        PrefixLe(ws[f + i], ws[f + j], n);
      }
    }
  }

  lemma KeyOf(ws: seq<seq<u16>>, pos: seq<nat>, id: seq<nat>, len: nat, n: nat, i: nat)
    requires ByLength(ws) && ws != [] && Buckets(ws, MAX_WORD + 1, pos, id) && 1 <= n <= len <= MAX_WORD
      && Shorter(ws, len) + i < Shorter(ws, len + 1)
    ensures len <= |pos| && Shorter(ws, len) + i < |ws| && |ws[Shorter(ws, len) + i]| == len
    ensures InBuffer(Flat(ws), pos[len - 1], len, n, i)
      && Key(Flat(ws), pos[len - 1], len, n, i) == ws[Shorter(ws, len) + i][..n]
  {
    hide Spot, Flat, Shorter;
    BucketIds(ws, pos, id, len - 1);
    var k := Shorter(ws, len) + i;
    ShorterFirst(ws, len, k);
    ShorterFirst(ws, len + 1, k);
    EvenlySpaced(ws, len, k);
    WordAt(ws, k);
    var a := Offset(ws, k);
    assert Flat(ws)[a..a + n] == Flat(ws)[a..a + len][..n];
  }

  /** Which word a record is. */
  lemma RecordIs(ws: seq<seq<u16>>, pos: seq<nat>, id: seq<nat>, len: nat, n: nat, i: nat, key: seq<u16>)
    requires ByLength(ws) && ws != [] && Buckets(ws, MAX_WORD + 1, pos, id) && 1 <= n <= len <= MAX_WORD
      && Shorter(ws, len) + i < Shorter(ws, len + 1)
    ensures len <= |pos| && Shorter(ws, len) + i < |ws| && |ws[Shorter(ws, len) + i]| == len
    ensures KeyIs(Flat(ws), pos[len - 1], len, n, i, key) <==> ws[Shorter(ws, len) + i][..n] == key
  {
    KeyOf(ws, pos, id, len, n, i);
  }

  lemma RecordOf(ws: seq<seq<u16>>, pos: seq<nat>, id: seq<nat>, len: nat, k: nat, w: seq<u16>)
    requires ByLength(ws) && ws != [] && Buckets(ws, MAX_WORD + 1, pos, id) && 1 <= len == |w| <= MAX_WORD && k < |ws|
      && len <= |pos|
    ensures ws[k] == w ==>
              Shorter(ws, len) <= k < Shorter(ws, len + 1)
              && KeyIs(Flat(ws), pos[len - 1], len, len, k - Shorter(ws, len), w)
  {
    if ws[k] == w {
      ShorterFirst(ws, len, k);
      ShorterFirst(ws, len + 1, k);
      RecordIs(ws, pos, id, len, len, k - Shorter(ws, len), w);
      assert ws[k][..len] == w;
    }
  }

  lemma FirstWord(ws: seq<seq<u16>>, pos: seq<nat>, id: seq<nat>)
    requires ByLength(ws) && ws != [] && |ws[0]| == 1 && |pos| == |id| == 9 && pos[0] == 0 && id[0] == 1
    ensures Tabled(ws, 1, 1, 0, pos, id) && Offset(ws, 1) == 1
  {
    BucketStarts(ws, 0);
    OffsetNext(ws, 0);
  }

  lemma LengthStep(ws: seq<seq<u16>>, i: nat)
    requires ByLength(ws) && 0 < i < |ws|
    ensures |ws[i - 1]| <= |ws[i]| && 1 <= |ws[i]| <= MAX_WORD
  {
  }

  // ---- Skipped lengths ----

  /** Some word has the length `gap`, and the bucket of that length is empty. */
  ghost predicate SkipAt(ws: seq<seq<u16>>, gap: nat, pos: seq<nat>) {
    0 < gap < |pos| && pos[gap] == pos[gap - 1] && exists k :: 0 <= k < |ws| && |ws[k]| == gap
  }

  /** The table after the first n words: right if no length was skipped so far, and else with an empty bucket. */
  ghost predicate Tabled(ws: seq<seq<u16>>, n: nat, last: nat, gap: nat, pos: seq<nat>, id: seq<nat>) {
    && 0 < n <= |ws| && |pos| == |id| == MAX_WORD + 1 && gap < last <= MAX_WORD
    && (gap == 0 <==> NoGap(ws[..n]))
    && if gap == 0 then Buckets(ws[..n], last, pos, id) else SkipAt(ws, gap, pos)
  }

  /** The loop over skipped lengths has come to `len`. */
  ghost predicate Skipped(p: seq<nat>, d: seq<nat>, last: nat, len: nat, pos: seq<nat>, id: seq<nat>) {
    && |p| == |d| == |pos| == |id| && 0 < last <= len <= |p|
    && pos[..last] == p[..last] && id[..last] == d[..last]
    && (len == last ==> pos == p && id == d)
    && (len > last ==> pos[last] == pos[last - 1])
  }

  lemma SkippedNone(p: seq<nat>, d: seq<nat>, last: nat)
    requires |p| == |d| && 0 < last <= |p|
    ensures Skipped(p, d, last, last, p, d)
  {
  }

  lemma SkippedNext(p: seq<nat>, d: seq<nat>, last: nat, len: nat, pos: seq<nat>, id: seq<nat>)
    requires Skipped(p, d, last, len, pos, id) && len < |p|
    ensures 0 < len < |pos| == |id| && Skipped(p, d, last, len + 1, pos[len := pos[len - 1]], id[len := id[len - 1]])
  {
  }

  lemma NoGapNext(ws: seq<seq<u16>>, n: nat)
    requires 0 < n < |ws|
    ensures NoGap(ws[..n + 1]) <==> NoGap(ws[..n]) && |ws[n]| <= |ws[n - 1]| + 1
  {
    var a, b := ws[..n], ws[..n + 1];
    if NoGap(b) {
      forall i | 0 < i < |a|
        ensures |a[i]| <= |Before(a, i)| + 1
      {
        assert a[i] == b[i] && Before(a, i) == Before(b, i);
      }
      assert b[n] == ws[n] && Before(b, n) == ws[n - 1];
    }
    if NoGap(a) && |ws[n]| <= |ws[n - 1]| + 1 {
      forall i | 0 < i < |b|
        ensures |b[i]| <= |Before(b, i)| + 1
      {
        assert i < n ==> a[i] == b[i] && Before(a, i) == Before(b, i);
      }
    }
  }

  /** One more word of the same length. */
  lemma TabledGrows(ws: seq<seq<u16>>, n: nat, gap: nat, pos: seq<nat>, id: seq<nat>)
    requires ByLength(ws) && 0 < n < |ws| && |ws[n]| == |ws[n - 1]| && Tabled(ws, n, |ws[n - 1]|, gap, pos, id)
    ensures Tabled(ws, n + 1, |ws[n]|, gap, pos, id)
  {
    hide NoGap, Buckets;
    NoGapNext(ws, n);
    if gap == 0 {
      BucketsGrow(ws, n, |ws[n]|, pos, id);
    }
  }

  /** The first word of a new length. */
  lemma TabledStarts(ws: seq<seq<u16>>, n: nat, last: nat, gap: nat, p: seq<nat>, d: seq<nat>, pos: seq<nat>,
    id: seq<nat>)
    returns (gap': nat)
    requires ByLength(ws) && 0 < n < |ws| && last == |ws[n - 1]| < |ws[n]| && Tabled(ws, n, last, gap, p, d)
      && Skipped(p, d, last, |ws[n]| - 1, pos, id)
    ensures |pos| == |id| >= |ws[n]|
      && Tabled(ws, n + 1, |ws[n]|, gap', pos[|ws[n]| - 1 := Offset(ws, n)], id[|ws[n]| - 1 := n + 1])
  {
    hide NoGap, Buckets;
    var current := |ws[n]|;
    NoGapNext(ws, n);
    gap' := if gap != 0 then gap else if current - 1 > last then last else 0;
    if gap != 0 {
      assert pos[gap] == pos[..last][gap] == p[..last][gap]
             && pos[gap - 1] == pos[..last][gap - 1] == p[..last][gap - 1];
    } else if current - 1 > last {
      assert |ws[n - 1]| == last;
    } else {
      BucketStarts(ws, n);
      BucketsGrow(ws, n, last, p, d);
      BucketsMore(ws[..n + 1], last, p, d, Offset(ws, n), n + 1);
    }
  }

  lemma TabledAll(ws: seq<seq<u16>>, last: nat, gap: nat, pos: seq<nat>, id: seq<nat>)
    requires Tabled(ws, |ws|, last, gap, pos, id)
    ensures gap < last && (gap == 0 <==> NoGap(ws))
    ensures if gap == 0 then Buckets(ws, last, pos, id) else SkipAt(ws, gap, pos)
  {
    assert ws[..|ws|] == ws;
  }

  lemma SkipStays(ws: seq<seq<u16>>, gap: nat, pos: seq<nat>, len: nat, v: nat)
    requires SkipAt(ws, gap, pos) && gap < len < |pos|
    ensures SkipAt(ws, gap, pos[len := v])
  {
  }

  /** A table with an empty bucket where there is a word is wrong. */
  lemma SkipBreaks(ws: seq<seq<u16>>, gap: nat, pos: seq<nat>, id: seq<nat>)
    requires ByLength(ws)
    ensures SkipAt(ws, gap, pos) ==> !Buckets(ws, MAX_WORD + 1, pos, id)
  {
    if SkipAt(ws, gap, pos) && Buckets(ws, MAX_WORD + 1, pos, id) {
      var k :| 0 <= k < |ws| && |ws[k]| == gap;
      BucketsAt(ws, pos, id, gap);
      ShorterFirst(ws, gap, k);
      ShorterFirst(ws, gap + 1, k);
      OffsetLess(ws, Shorter(ws, gap), Shorter(ws, gap + 1));
    }
  }

  lemma BucketsAt(ws: seq<seq<u16>>, pos: seq<nat>, id: seq<nat>, len: nat)
    requires Buckets(ws, MAX_WORD + 1, pos, id) && 0 < len <= MAX_WORD
    ensures len < |pos| && pos[len - 1] == Offset(ws, Shorter(ws, len)) && pos[len] == Offset(ws, Shorter(ws, len + 1))
  {
    assert BucketAt(ws, len - 1 + 1, pos[len - 1], id[len - 1]) && BucketAt(ws, len + 1, pos[len], id[len]);
  }

  lemma {:induction false} OffsetLess(ws: seq<seq<u16>>, a: nat, b: nat)
    requires ByLength(ws) && a < b <= |ws|
    ensures Offset(ws, a) < Offset(ws, b)
  {
    OffsetNext(ws, b - 1);
    if a < b - 1 {
      OffsetLess(ws, a, b - 1);
    }
  }

  lemma BucketsGrow(ws: seq<seq<u16>>, n: nat, last: nat, pos: seq<nat>, id: seq<nat>)
    requires ByLength(ws) && 0 < n < |ws| && last == |ws[n - 1]| && Buckets(ws[..n], last, pos, id)
    ensures Buckets(ws[..n + 1], last, pos, id)
  {
    forall i: nat | i < last ensures BucketAt(ws[..n + 1], i + 1, pos[i], id[i]) {
      BucketGrows(ws, n, i + 1, pos[i], id[i]);
    }
  }

  lemma BucketsMore(ws: seq<seq<u16>>, last: nat, pos: seq<nat>, id: seq<nat>, p: nat, d: nat)
    requires Buckets(ws, last, pos, id) && last < |pos| && last < |id| && BucketAt(ws, last + 1, p, d)
    ensures Buckets(ws, last + 1, pos[last := p], id[last := d])
  {
    hide BucketAt;
  }
}
