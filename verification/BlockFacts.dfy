/** How records survive copying: into a longer block by `append_a_lemma`, and into a compacted one
    by `defragment`. */
module BlockFacts {
  import opened Bytes
  import opened LemmaBlock
  import opened Partition

  /** A stretch of records is the same stretch wherever it is copied. */
  lemma {:induction false} ChainCopy(b: seq<u8>, p: nat, q: nat, c: seq<u8>, d: nat)
    requires Chain(b, p, q) && d + (q - p) <= |c|
    requires forall i :: p <= i < q ==> c[i - p + d] == b[i]
    ensures Chain(c, d, d + (q - p))
    decreases q - p
  {
    if p < q {
      var n := Size(b, p);
      assert c[p - p + d] == b[p] && c[p + 1 - p + d] == b[p + 1];
      forall i | p + n <= i < q ensures c[i - (p + n) + (d + n)] == b[i] {
        assert c[i - p + d] == b[i];
      }
      ChainCopy(b, p + n, q, c, d + n);
    }
  }

  /** A copied record reads the same, whatever its flag byte is. */
  lemma RecordCopy(b: seq<u8>, p: nat, c: seq<u8>, d: nat)
    requires Fits(b, p) && d + Size(b, p) <= |c|
    requires forall i :: p < i < p + Size(b, p) ==> c[i - p + d] == b[i]
    ensures Fits(c, d) && Size(c, d) == Size(b, p)
    ensures SplidsAt(c, d) == SplidsAt(b, p) && WordAt(c, d) == WordAt(b, p)
  {
    var n := NChar(b, p);
    assert c[p + 1 - p + d] == b[p + 1];
    forall i | 0 <= i < n
      ensures Half(c, d + 2 + 2 * i) == Half(b, p + 2 + 2 * i)
      ensures Half(c, d + 2 + 2 * n + 2 * i) == Half(b, p + 2 + 2 * n + 2 * i)
    {
      var x, y := p + 2 + 2 * i, p + 2 + 2 * n + 2 * i;
      assert c[x - p + d] == b[x] && c[x + 1 - p + d] == b[x + 1];
      assert c[y - p + d] == b[y] && c[y + 1 - p + d] == b[y + 1];
    }
  }

  // ---- Appending a record ----

  lemma {:induction false} HalvesRead(hs: seq<u16>, i: nat)
    requires i < |hs|
    ensures Half(HalvesBytes(hs), 2 * i) == hs[i]
  {
    var n := |hs| - 1;
    var front := HalvesBytes(hs[..n]);
    if i < n {
      HalvesRead(hs[..n], i);
      assert HalvesBytes(hs)[2 * i] == front[2 * i] && HalvesBytes(hs)[2 * i + 1] == front[2 * i + 1];
    } else {
      assert HalvesBytes(hs)[2 * n] == HalfBytes(hs[n])[0] && HalvesBytes(hs)[2 * n + 1] == HalfBytes(hs[n])[1];
    }
  }

  /** Reading back what `append_a_lemma` wrote. */
  lemma RecordReads(splids: seq<u16>, word: seq<u16>)
    requires 1 <= |splids| == |word| <= MAX_LEMMA_SIZE
    ensures var r := Record(splids, word);
            Fits(r, 0) && Size(r, 0) == |r| && !Dead(r, 0) && SplidsAt(r, 0) == splids && WordAt(r, 0) == word
  {
    var r, n := Record(splids, word), |word|;
    forall i | 0 <= i < n
      ensures Half(r, 2 + 2 * i) == splids[i] && Half(r, 2 + 2 * n + 2 * i) == word[i]
    {
      RecordHalf(splids, word, i);
    }
    hide HalvesBytes, Half;
    assert SplidsAt(r, 0) == splids;
    assert WordAt(r, 0) == word;
  }

  lemma RecordHalf(splids: seq<u16>, word: seq<u16>, i: nat)
    requires 1 <= |splids| == |word| <= MAX_LEMMA_SIZE && i < |word|
    ensures var r, n := Record(splids, word), |word|;
            |r| == 2 + 4 * n && Half(r, 2 + 2 * i) == splids[i] && Half(r, 2 + 2 * n + 2 * i) == word[i]
  {
    HalvesRead(splids, i);
    HalvesRead(word, i);
    hide HalvesBytes;
    var r, n, s, w := Record(splids, word), |word|, HalvesBytes(splids), HalvesBytes(word);
    assert r[2 + 2 * i] == s[2 * i] && r[2 + 2 * i + 1] == s[2 * i + 1];
    assert r[2 + 2 * n + 2 * i] == w[2 * i] && r[2 + 2 * n + 2 * i + 1] == w[2 * i + 1];
  }

  lemma AppendTiled(b: seq<u8>, r: seq<u8>)
    requires Tiled(b) && Fits(r, 0) && Size(r, 0) == |r|
    ensures Chain(b + r, 0, |b|) && Chain(b + r, |b|, |b + r|) && Tiled(b + r)
  {
    hide *;
    var c := b + r;
    TiledIs(b);
    TiledIs(c);
    SizePositive(r, 0);
    ChainEmpty(r, |r|);
    ChainStep(r, 0, |r|);
    ChainCopy(b, 0, |b|, c, 0);
    ChainCopy(r, 0, |r|, c, |b|);
    ChainJoin(c, 0, |b|, |c|);
  }

  lemma SizePositive(b: seq<u8>, p: nat)
    requires Fits(b, p)
    ensures Size(b, p) > 0
  {
  }

  lemma TiledIs(b: seq<u8>)
    ensures Tiled(b) <==> Chain(b, 0, |b|)
  {
  }

  lemma AppendKeepsStart(b: seq<u8>, r: seq<u8>, p: nat)
    requires IsStart(b, p) && Fits(r, 0) && Size(r, 0) == |r|
    ensures IsStart(b + r, p)
  {
    ChainJoin(b, 0, p, |b|);
    AppendTiled(b, r);
    ChainCopy(b, 0, p, b + r, 0);
    ChainRest(b + r, 0, p, |b + r|);
  }

  lemma AppendNoOther(b: seq<u8>, r: seq<u8>, p: nat)
    requires Tiled(b) && Fits(r, 0) && Size(r, 0) == |r| && IsStart(b + r, p) && p != |b|
    ensures IsStart(b, p)
  {
    AppendTiled(b, r);
    if p < |b| {
      ChainCopy(b + r, 0, p, b, 0);
      ChainRest(b, 0, p, |b|);
    } else {
      ChainRest(b + r, 0, |b|, p);
      assert false;
    }
  }

  /** The starts of a block that grew by one record: the old ones, and the new one. */
  lemma AppendStarts(b: seq<u8>, r: seq<u8>)
    requires Tiled(b) && Fits(r, 0) && Size(r, 0) == |r|
    ensures Tiled(b + r)
    ensures forall p: nat :: IsStart(b + r, p) <==> IsStart(b, p) || p == |b|
  {
    hide *;
    AppendTiled(b, r);
    AppendNewStart(b, r);
    forall p: nat ensures IsStart(b + r, p) <==> IsStart(b, p) || p == |b| {
      if IsStart(b, p) {
        AppendKeepsStart(b, r, p);
      }
      if IsStart(b + r, p) && p != |b| {
        AppendNoOther(b, r, p);
      }
    }
  }

  lemma AppendNewStart(b: seq<u8>, r: seq<u8>)
    requires Tiled(b) && Fits(r, 0) && Size(r, 0) == |r|
    ensures IsStart(b + r, |b|)
  {
    AppendTiled(b, r);
  }

  lemma AppendReads(b: seq<u8>, r: seq<u8>, p: nat)
    requires IsStart(b, p)
    ensures Fits(b, p) && Fits(b + r, p) && (b + r)[p] == b[p] && Size(b + r, p) == Size(b, p)
    ensures SplidsAt(b + r, p) == SplidsAt(b, p) && WordAt(b + r, p) == WordAt(b, p)
  {
    RecordCopy(b, p, b + r, p);
  }

  lemma AppendReadsNew(b: seq<u8>, splids: seq<u16>, word: seq<u16>)
    requires 1 <= |splids| == |word| <= MAX_LEMMA_SIZE
    ensures var c := b + Record(splids, word);
            Fits(c, |b|) && c[|b|] == 0 && SplidsAt(c, |b|) == splids && WordAt(c, |b|) == word
  {
    RecordReads(splids, word);
    RecordCopy(Record(splids, word), 0, b + Record(splids, word), |b|);
  }

  // ---- Marking and compaction ----

  /** The offsets of an index lie on record starts. */
  ghost predicate OnStarts(b: seq<u8>, offs: seq<u32>) {
    forall i :: 0 <= i < |offs| ==> IsStart(b, Pos(offs[i]))
  }

  /** No record carries the in-memory remove flag. */
  ghost predicate Clean(b: seq<u8>) {
    forall p: nat :: IsStart(b, p) ==> b[p] == 0
  }

  lemma {:induction false} MarkedChain(b: seq<u8>, offs: seq<u32>, p: nat, q: nat)
    requires Tiled(b) && OnStarts(b, offs) && Chain(b, 0, p) && Chain(b, p, q)
    ensures Chain(Marked(b, offs), p, q)
    decreases q - p
  {
    hide *;
    ChainBounds(b, p, q);
    MarkedSame(b, offs);
    if p < q {
      KeptCons(b, p, q);
      MarkedFits(b, offs, p);
      ChainSnocPlain(b, p);
      MarkedChain(b, offs, p + Size(b, p), q);
      ChainStep(Marked(b, offs), p, q);
    } else {
      ChainEmpty(Marked(b, offs), p);
    }
  }

  lemma ChainBounds(b: seq<u8>, p: nat, q: nat)
    requires Chain(b, p, q)
    ensures p <= q <= |b|
  {
  }

  lemma MarkedSame(b: seq<u8>, offs: seq<u32>)
    ensures |Marked(b, offs)| == |b|
  {
  }

  lemma ChainStep(b: seq<u8>, p: nat, q: nat)
    requires p < q <= |b| && Fits(b, p) && p + Size(b, p) <= q && Chain(b, p + Size(b, p), q)
    ensures Chain(b, p, q)
  {
  }

  lemma ChainSnocPlain(b: seq<u8>, p: nat)
    requires Chain(b, 0, p) && Fits(b, p)
    ensures Chain(b, 0, p + Size(b, p))
  {
    assert Chain(b, p + Size(b, p), p + Size(b, p));
    assert Chain(b, p, p + Size(b, p));
    ChainJoin(b, 0, p, p + Size(b, p));
  }

  /** Marking touches flag bytes only. */
  lemma MarkedInside(b: seq<u8>, offs: seq<u32>, p: nat, i: nat)
    requires OnStarts(b, offs) && Chain(b, 0, p) && Chain(b, p, |b|) && p < |b|
    requires p < i < p + Size(b, p)
    ensures Marked(b, offs)[i] == b[i]
  {
    assert IsStart(b, p);
    if i in DeadSet(offs) {
      var o :| o in offs && Removed(o) && Pos(o) == i;
      var k :| 0 <= k < |offs| && offs[k] == o;
      StartsDisjoint(b, p, Pos(offs[k]));
      assert false;
    }
  }

  lemma MarkedFits(b: seq<u8>, offs: seq<u32>, p: nat)
    requires Tiled(b) && OnStarts(b, offs) && Chain(b, 0, p) && p < |b|
    ensures Chain(b, p, |b|) && Fits(b, p) && Fits(Marked(b, offs), p) && Size(Marked(b, offs), p) == Size(b, p)
    ensures SplidsAt(Marked(b, offs), p) == SplidsAt(b, p) && WordAt(Marked(b, offs), p) == WordAt(b, p)
  {
    ChainRest(b, 0, p, |b|);
    hide Chain, Kept, SplidsAt, WordAt, Marked;
    forall i | p < i < p + Size(b, p) ensures Marked(b, offs)[i - p + p] == b[i] {
      MarkedInside(b, offs, p, i);
    }
    RecordCopy(b, p, Marked(b, offs), p);
  }

  /** After marking, the dead records are exactly the flagged ones. */
  lemma MarkedDead(b: seq<u8>, offs: seq<u32>, p: nat)
    requires Clean(b) && IsStart(b, p)
    ensures Dead(Marked(b, offs), p) <==> p in DeadSet(offs)
  {
    assert b[p] == 0;
  }

  /** A block that starts with a copy of record p. */
  lemma ConsTiled(b: seq<u8>, p: nat, rest: seq<u8>)
    requires Fits(b, p) && Tiled(rest)
    ensures var c := b[p..p + Size(b, p)] + rest; Fits(c, 0) && Size(c, 0) == Size(b, p) && Tiled(c)
  {
    var c := b[p..p + Size(b, p)] + rest;
    assert c[1] == b[p + 1];
    ChainCopy(rest, 0, |rest|, c, Size(b, p));
  }

  lemma {:induction false} KeptTiled(b: seq<u8>, p: nat, q: nat)
    requires Chain(b, p, q)
    ensures Tiled(Kept(b, p, q))
    decreases q - p
  {
    hide Kept;
    if p < q {
      KeptCons(b, p, q);
      KeptTiled(b, p + Size(b, p), q);
      if !Dead(b, p) {
        ConsTiled(b, p, Kept(b, p + Size(b, p), q));
      }
    } else {
      KeptNone(b, p);
    }
  }

  lemma KeptNone(b: seq<u8>, p: nat)
    requires p <= |b|
    ensures Chain(b, p, p) && Kept(b, p, p) == []
  {
  }

  /** The compacted block, cut at the copy of start p. */
  lemma KeptCut(b: seq<u8>, p: nat)
    requires IsStart(b, p) && !Dead(b, p) && Tiled(b)
    ensures Chain(b, p + Size(b, p), |b|)
    ensures Kept(b, 0, |b|) == Kept(b, 0, p) + (b[p..p + Size(b, p)] + Kept(b, p + Size(b, p), |b|))
  {
    hide Kept;
    KeptJoin(b, 0, p, |b|);
    KeptCons(b, p, |b|);
  }

  /** A live record is found, unchanged, at its relocated position. */
  lemma KeptHasRecord(b: seq<u8>, p: nat)
    requires IsStart(b, p) && Tiled(b) && !Dead(b, p) && p < WORD_RANGE
    ensures var k, y := Kept(b, 0, |b|), Relocated(b, p);
            y == |Kept(b, 0, p)| && y + Size(b, p) <= |k| && k[y..y + Size(b, p)] == b[p..p + Size(b, p)]
  {
    KeptCut(b, p);
    RelocatedStart(b, p);
    hide *;
  }

  lemma RelocatedStart(b: seq<u8>, p: nat)
    requires IsStart(b, p) && Tiled(b) && !Dead(b, p) && p < WORD_RANGE
    ensures Relocated(b, p) == |Kept(b, 0, p)|
  {
    MovedSkip(b, 0, 0, p, p);
  }

  lemma KeptStart(b: seq<u8>, p: nat)
    requires IsStart(b, p) && Tiled(b) && !Dead(b, p)
    ensures IsStart(Kept(b, 0, |b|), |Kept(b, 0, p)|)
  {
    KeptTiled(b, 0, |b|);
    KeptTiled(b, 0, p);
    KeptCut(b, p);
    hide Kept, Relocated, Chain;
    FrontStart(Kept(b, 0, p), b[p..p + Size(b, p)] + Kept(b, p + Size(b, p), |b|));
  }

  lemma FrontStart(front: seq<u8>, back: seq<u8>)
    requires Tiled(front) && Tiled(front + back) && back != []
    ensures IsStart(front + back, |front|)
  {
    var k := front + back;
    ChainCopy(front, 0, |front|, k, 0);
    ChainRest(k, 0, |front|, |k|);
  }

  lemma KeptReads(b: seq<u8>, p: nat)
    requires IsStart(b, p) && Tiled(b) && !Dead(b, p) && p < WORD_RANGE
    ensures var k, y := Kept(b, 0, |b|), Relocated(b, p);
            && Fits(b, p) && Fits(k, y) && k[y] == b[p] && IsStart(k, y)
            && SplidsAt(k, y) == SplidsAt(b, p) && WordAt(k, y) == WordAt(b, p)
  {
    hide Kept, Chain, SplidsAt, WordAt, Relocated;
    KeptHasRecord(b, p);
    KeptStart(b, p);
    RecordSlice(b, p, Kept(b, 0, |b|), Relocated(b, p));
  }

  lemma RecordSlice(b: seq<u8>, p: nat, c: seq<u8>, d: nat)
    requires Fits(b, p) && d + Size(b, p) <= |c| && c[d..d + Size(b, p)] == b[p..p + Size(b, p)]
    ensures Fits(c, d) && Size(c, d) == Size(b, p) && c[d] == b[p]
    ensures SplidsAt(c, d) == SplidsAt(b, p) && WordAt(c, d) == WordAt(b, p)
  {
    hide SplidsAt, WordAt;
    var n := Size(b, p);
    forall i | p <= i < p + n ensures c[i - p + d] == b[i] {
      assert c[d..d + n][i - p] == b[p..p + n][i - p];
    }
    assert c[p - p + d] == b[p];
    RecordCopy(b, p, c, d);
  }

  /** Every record of the compacted block is the copy of a live one. */
  lemma {:induction false} KeptOnly(b: seq<u8>, p: nat, y: nat) returns (x: nat)
    requires Chain(b, p, |b|) && IsStart(Kept(b, p, |b|), y)
    ensures p <= x < |b| && Chain(b, p, x) && Chain(b, x, |b|) && !Dead(b, x) && |Kept(b, p, x)| == y
    decreases |b| - p
  {
    hide Kept;
    if p == |b| {
      KeptNone(b, p);
    }
    KeptCons(b, p, |b|);
    var n := p + Size(b, p);
    if !Dead(b, p) && y == 0 {
      x := p;
      KeptNone(b, p);
    } else {
      if !Dead(b, p) {
        StartTail(b, p, Kept(b, n, |b|), y);
      }
      x := KeptOnly(b, n, if Dead(b, p) then y else y - Size(b, p));
      KeptCons(b, p, x);
    }
  }

  lemma StartTail(b: seq<u8>, p: nat, rest: seq<u8>, y: nat)
    requires Fits(b, p) && IsStart(b[p..p + Size(b, p)] + rest, y) && y > 0
    ensures y >= Size(b, p) && IsStart(rest, y - Size(b, p))
  {
    var n := Size(b, p);
    var k := b[p..p + n] + rest;
    assert k[1] == b[p + 1];
    ChainCopy(k, n, y, rest, 0);
    ChainCopy(k, y, |k|, rest, y - n);
  }

  /** Relocation keeps the order of live starts, so no two of them meet. */
  lemma RelocatedInjective(b: seq<u8>, p: nat, q: nat)
    requires Tiled(b) && IsStart(b, p) && IsStart(b, q) && p < q < WORD_RANGE && !Dead(b, p) && !Dead(b, q)
    ensures Relocated(b, p) < Relocated(b, q)
  {
    ChainRest(b, 0, p, q);
    RelocatedStart(b, p);
    RelocatedStart(b, q);
    KeptJoin(b, 0, p, q);
    KeptCons(b, p, q);
  }
}
