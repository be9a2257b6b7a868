/** The array manipulations the dictionary uses: memmove-based insertion, record writing, copying. */
module ArrayOps {
  import opened Bytes
  import opened LemmaBlock
  import opened DictModel

  /** The entry at n moves to place i, and the entries from i on move up by one. */
  method InsertLast(a: array<u32>, i: nat, n: nat)
    requires i <= n < a.Length
    modifies a
    ensures a[..n + 1] == Inserted(old(a[..n]), i, old(a[n]))
  {
    ghost var was := a[..];
    var temp := a[n];
    var k := n;
    while k > i
      invariant i <= k <= n
      invariant forall j :: 0 <= j < k ==> a[j] == was[j]
      invariant forall j :: k < j <= n ==> a[j] == was[j - 1]
    {
      a[k] := a[k - 1];
      k := k - 1;
    }
    a[i] := temp;
    assert forall j :: 0 <= j <= n ==> a[j] == Inserted(was[..n], i, was[n])[j];
  }

  /** One 16-bit store. */
  method StoreHalf(b: array<u8>, p: nat, h: u16)
    requires p + 2 <= b.Length
    modifies b
    ensures b[p] == h % 0x100 && b[p + 1] == h / 0x100
    ensures forall k :: 0 <= k < b.Length && k != p && k != p + 1 ==> b[k] == old(b[k])
  {
    b[p], b[p + 1] := h % 0x100, h / 0x100;
  }

  /** The loop of `append_a_lemma`: one id and one character in each turn. */
  method StoreLemma(b: array<u8>, p: nat, splids: seq<u16>, word: seq<u16>)
    requires |splids| == |word| && p + 4 * |word| <= b.Length
    modifies b
    ensures b[..p] == old(b[..p])
    ensures b[p..p + 2 * |word|] == HalvesBytes(splids)
    ensures b[p + 2 * |word|..p + 4 * |word|] == HalvesBytes(word)
  {
    ghost var front := b[..p];
    var n := |word|;
    var i := 0;
    while i < n
      invariant i <= n && b[..p] == front && StoredTo(b[..], p, splids, i) && StoredTo(b[..], p + 2 * n, word, i)
    {
      StorePair(b, p, i, splids, word);
      i := i + 1;
    }
    StoredAll(b[..], p, splids);
    StoredAll(b[..], p + 2 * n, word);
  }

  method StorePair(b: array<u8>, p: nat, i: nat, splids: seq<u16>, word: seq<u16>)
    requires i < |splids| == |word| && p + 4 * |word| <= b.Length
    requires StoredTo(b[..], p, splids, i) && StoredTo(b[..], p + 2 * |word|, word, i)
    modifies b
    ensures b[..p] == old(b[..p]) && StoredTo(b[..], p, splids, i + 1) && StoredTo(b[..], p + 2 * |word|, word, i + 1)
  {
    hide *;
    var n := |word|;
    ghost var was := b[..];
    StoreHalf(b, p + 2 * i, splids[i]);
    ghost var mid := b[..];
    StoredMore(was, mid, p, splids, i, p + 2 * i);
    StoredMore(was, mid, p + 2 * n, word, i, p + 2 * i);
    StoreHalf(b, p + 2 * n + 2 * i, word[i]);
    StoredMore(mid, b[..], p, splids, i + 1, p + 2 * n + 2 * i);
    StoredMore(mid, b[..], p + 2 * n, word, i, p + 2 * n + 2 * i);
  }

  ghost predicate StoredTo(b: seq<u8>, p: nat, hs: seq<u16>, i: nat) {
    i <= |hs| && forall k :: 0 <= k < i ==> StoredAt(b, p + 2 * k, hs[k])
  }

  /** A half stored at q, elsewhere or right behind what is stored. */
  lemma StoredMore(was: seq<u8>, now: seq<u8>, p: nat, hs: seq<u16>, i: nat, q: nat)
    requires StoredTo(was, p, hs, i) && |now| == |was| && q + 2 <= |now|
      && forall k :: 0 <= k < |now| && k != q && k != q + 1 ==> now[k] == was[k]
    requires q >= p + 2 * i || q + 2 <= p
    ensures StoredTo(now, p, hs, i)
    ensures q == p + 2 * i && i < |hs| && now[q] == hs[i] % 0x100 && now[q + 1] == hs[i] / 0x100 ==>
              StoredTo(now, p, hs, i + 1)
  {
    forall k | 0 <= k < i ensures StoredAt(now, p + 2 * k, hs[k]) {
      assert StoredAt(was, p + 2 * k, hs[k]);
    }
  }

  ghost predicate StoredAt(b: seq<u8>, p: nat, h: u16) {
    p + 2 <= |b| && b[p] == h % 0x100 && b[p + 1] == h / 0x100
  }

  lemma {:induction false} StoredAll(b: seq<u8>, p: nat, hs: seq<u16>)
    requires p + 2 * |hs| <= |b| && forall k :: 0 <= k < |hs| ==> StoredAt(b, p + 2 * k, hs[k])
    ensures b[p..p + 2 * |hs|] == HalvesBytes(hs)
  {
    if hs != [] {
      var n := |hs| - 1;
      forall k | 0 <= k < n ensures StoredAt(b, p + 2 * k, hs[..n][k]) {
        assert StoredAt(b, p + 2 * k, hs[k]);
      }
      StoredAll(b, p, hs[..n]);
      assert StoredAt(b, p + 2 * n, hs[n]);
      assert b[p..p + 2 * |hs|] == b[p..p + 2 * n] + [b[p + 2 * n], b[p + 2 * n + 1]];
    }
  }

  /** The record written by `append_a_lemma` at the end of the block. */
  method StoreRecord(b: array<u8>, p: nat, splids: seq<u16>, word: seq<u16>)
    requires |splids| == |word| <= MAX_LEMMA_SIZE && p + 2 + 4 * |word| <= b.Length
    modifies b
    ensures b[..p + 2 + 4 * |word|] == old(b[..p]) + Record(splids, word)
  {
    hide Record, HalvesBytes;
    var n := |word|;
    StoreHead(b, p, n);
    ghost var head := b[..p + 2];
    StoreLemma(b, p + 2, splids, word);
    Joined(b[..], p + 2, 2 * n);
    RecordIs(old(b[..p]), head, splids, word);
  }

  method StoreHead(b: array<u8>, p: nat, n: u8)
    requires p + 2 <= b.Length
    modifies b
    ensures b[..p + 2] == old(b[..p]) + [0, n]
  {
    b[p] := 0;
    b[p + 1] := n;
  }

  lemma RecordIs(before: seq<u8>, head: seq<u8>, splids: seq<u16>, word: seq<u16>)
    requires |splids| == |word| <= MAX_LEMMA_SIZE && head == before + [0, |word|]
    ensures head + HalvesBytes(splids) + HalvesBytes(word) == before + Record(splids, word)
  {
    hide HalvesBytes;
  }

  lemma Joined(b: seq<u8>, p: nat, m: nat)
    requires p + 2 * m <= |b|
    ensures b[..p + 2 * m] == b[..p] + b[p..p + m] + b[p + m..p + 2 * m]
  {
  }

  /** A new array of the given capacity that begins with ws. */
  method NewWords(ws: seq<u32>, capacity: nat) returns (a: array<u32>)
    requires |ws| <= capacity
    ensures fresh(a) && a.Length == capacity && a[..|ws|] == ws
  {
    a := new u32[capacity](_ => 0);
    CopyWords(a, ws);
  }

  method CopyWords(a: array<u32>, ws: seq<u32>)
    requires |ws| <= a.Length
    modifies a
    ensures a[..|ws|] == ws && forall k :: |ws| <= k < a.Length ==> a[k] == old(a[k])
  {
    var i := 0;
    while i < |ws|
      invariant i <= |ws| && (forall k :: 0 <= k < i ==> a[k] == ws[k])
      invariant forall k :: |ws| <= k < a.Length ==> a[k] == old(a[k])
    {
      a[i] := ws[i];
      i := i + 1;
    }
  }

  method NewBlock(bs: seq<u8>, capacity: nat) returns (a: array<u8>)
    requires |bs| <= capacity
    ensures fresh(a) && a.Length == capacity && a[..|bs|] == bs
  {
    a := new u8[capacity](_ => 0);
    var i := 0;
    while i < |bs|
      invariant i <= |bs| && forall k :: 0 <= k < i ==> a[k] == bs[k]
    {
      a[i] := bs[i];
      i := i + 1;
    }
  }

  /** memmove(a + start, a + end, (n - end) << 2). */
  method DropRange(a: array<u32>, start: nat, end: nat, n: nat)
    requires start <= end <= n <= a.Length
    modifies a
    ensures a[..n - (end - start)] == old(a[..n])[..start] + old(a[..n])[end..]
  {
    ghost var was := a[..n];
    var k := end;
    while k < n
      invariant end <= k <= n
      invariant forall j :: 0 <= j < start ==> a[j] == was[j]
      invariant forall j :: start <= j < start + (k - end) ==> a[j] == was[j + (end - start)]
      invariant forall j :: k <= j < n ==> a[j] == was[j]
    {
      a[start + (k - end)] := a[k];
      k := k + 1;
    }
    assert a[..n - (end - start)] == was[..start] + was[end..];
  }

  /** The search loop of the sync and predict lists. */
  method FindIn(a: array<u32>, n: nat, p: nat) returns (i: nat)
    requires n <= a.Length
    ensures i == FindPos(a[..n], p, 0)
  {
    ghost var s := a[..n];
    i := 0;
    while i < n && Pos(a[i]) != p
      invariant i <= n && a[..n] == s && FindPos(s, p, 0) == FindPos(s, p, i)
    {
      i := i + 1;
    }
  }
}
