/** The words of the dictionary in one buffer: by length, and within a length in order. */
module WordLists {
  import opened Arith
  import opened Bytes
  import opened LemmaTrie
  import opened TrieWalk

  const MAX_WORD: nat := 8

  function Flat(ws: seq<seq<u16>>): (s: seq<u16>) {
    if ws == [] then [] else ws[0] + Flat(ws[1..])
  }

  /** The words as the builder sorts them: shorter ones first. */
  ghost predicate ByLength(ws: seq<seq<u16>>) {
    && (forall i :: 0 <= i < |ws| ==> 1 <= |ws[i]| <= MAX_WORD)
    && (forall i, j :: 0 <= i < j < |ws| ==> |ws[i]| <= |ws[j]|)
  }

  /** The lengths start at 1 and have no gap. */
  ghost predicate NoGap(ws: seq<seq<u16>>) {
    ws != [] && |ws[0]| == 1 && forall i :: 0 < i < |ws| ==> |ws[i]| <= |Before(ws, i)| + 1
  }

  function Before(ws: seq<seq<u16>>, i: nat): (w: seq<u16>)
    requires 0 < i <= |ws|
  {
    ws[i - 1]
  }

  ghost predicate InOrder(ws: seq<seq<u16>>) {
    forall i, j :: 0 <= i < j < |ws| && |ws[i]| == |ws[j]| ==> PathLe(ws[i], ws[j])
  }

  // ---- Buckets ----

  /** How many words are shorter. */
  function Shorter(ws: seq<seq<u16>>, len: nat): (n: nat)
    ensures n <= |ws|
  {
    if ws == [] || |ws[|ws| - 1]| < len then |ws| else Shorter(ws[..|ws| - 1], len)
  }

  /** In a list by length the shorter words are the first ones. */
  lemma {:induction false} ShorterFirst(ws: seq<seq<u16>>, len: nat, i: nat)
    requires ByLength(ws) && i < |ws|
    ensures |ws[i]| < len <==> i < Shorter(ws, len)
  {
    if |ws[|ws| - 1]| >= len && i < |ws| - 1 {
      ShorterFirst(ws[..|ws| - 1], len, i);
    } else if |ws[|ws| - 1]| < len {
      assert |ws[i]| <= |ws[|ws| - 1]| || i == |ws| - 1;
    }
  }

  lemma ShorterGrows(ws: seq<seq<u16>>, a: nat, b: nat)
    requires ByLength(ws) && a <= b
    ensures Shorter(ws, a) <= Shorter(ws, b)
  {
    if Shorter(ws, b) < |ws| {
      ShorterFirst(ws, b, Shorter(ws, b));
      ShorterFirst(ws, a, Shorter(ws, b));
    }
  }

  /** Where the word begins in the buffer. */
  function Offset(ws: seq<seq<u16>>, k: nat): (n: nat)
    requires k <= |ws|
  {
    |Flat(ws[..k])|
  }

  lemma {:induction false} FlatConcat(a: seq<seq<u16>>, b: seq<seq<u16>>)
    ensures Flat(a + b) == Flat(a) + Flat(b)
  {
    Cons(a, b);
    if a != [] {
      FlatConcat(a[1..], b);
      Assoc(a[0], Flat(a[1..]), Flat(b));
    }
  }

  lemma FlatOne(w: seq<u16>)
    ensures Flat([w]) == w
  {
    assert w + [] == w;
  }

  lemma OffsetEnds(ws: seq<seq<u16>>)
    ensures Flat(ws[..0]) == [] && Offset(ws, 0) == 0 && ws[..|ws|] == ws && Offset(ws, |ws|) == |Flat(ws)|
  {
    assert ws[..|ws|] == ws;
  }

  lemma OffsetNext(ws: seq<seq<u16>>, k: nat)
    requires k < |ws|
    ensures Offset(ws, 0) == 0 && Offset(ws, k + 1) == Offset(ws, k) + |ws[k]|
      && Flat(ws[..k + 1]) == Flat(ws[..k]) + ws[k]
  {
    assert ws[..k + 1] == ws[..k] + [ws[k]];
    FlatConcat(ws[..k], [ws[k]]);
    FlatOne(ws[k]);
  }

  /** The word stands at its offset. */
  lemma WordAt(ws: seq<seq<u16>>, k: nat)
    requires k < |ws|
    ensures Offset(ws, k) + |ws[k]| <= |Flat(ws)| && Flat(ws)[Offset(ws, k)..Offset(ws, k) + |ws[k]|] == ws[k]
  {
    OffsetNext(ws, k);
    assert ws == ws[..k + 1] + ws[k + 1..];
    FlatConcat(ws[..k + 1], ws[k + 1..]);
    var a, w, b := Flat(ws[..k]), ws[k], Flat(ws[k + 1..]);
    assert Flat(ws) == (a + w) + b;
    assert ((a + w) + b)[|a|..|a| + |w|] == w;
  }

  /** Where record i of this length is. */
  function Spot(base: nat, len: nat, i: nat): (at: nat) {
    base + i * len
  }

  /** Words of the same length are equally far apart. */
  lemma {:induction false} EvenlySpaced(ws: seq<seq<u16>>, len: nat, k: nat)
    requires ByLength(ws) && Shorter(ws, len) <= k <= Shorter(ws, len + 1)
    ensures Offset(ws, k) == Spot(Offset(ws, Shorter(ws, len)), len, k - Shorter(ws, len))
    decreases k
  {
    var f := Shorter(ws, len);
    SpotNext(Offset(ws, f), len, 0);
    hide Spot, Flat;
    if k > f {
      EvenlySpaced(ws, len, k - 1);
      OffsetNext(ws, k - 1);
      ShorterFirst(ws, len, k - 1);
      ShorterFirst(ws, len + 1, k - 1);
      SpotNext(Offset(ws, f), len, k - 1 - f);
    }
  }

  lemma SpotNext(base: nat, len: nat, i: nat)
    ensures Spot(base, len, 0) == base && Spot(base, len, i + 1) == Spot(base, len, i) + len
  {
  }

  // ---- Order ----

  lemma {:induction false} PrefixLe(a: seq<u16>, b: seq<u16>, n: nat)
    requires |a| == |b| && n <= |a| && PathLe(a, b)
    ensures PathLe(a[..n], b[..n])
  {
    if n > 0 && a[0] == b[0] {
      PrefixLe(a[1..], b[1..], n - 1);
      assert a[..n][1..] == a[1..][..n - 1] && b[..n][1..] == b[1..][..n - 1];
    }
  }

  lemma {:induction false} LeTotal(a: seq<u16>, b: seq<u16>)
    ensures PathLe(a, b) || PathLe(b, a)
    ensures PathLe(a, b) && PathLe(b, a) ==> a == b
  {
    if a != [] && b != [] && a[0] == b[0] {
      LeTotal(a[1..], b[1..]);
      assert a == [a[0]] + a[1..] && b == [b[0]] + b[1..];
    }
  }

  // ---- Searching a bucket ----

  /** The records of a stretch of the buffer, cut to their first n characters. */
  function Key(buf: seq<u16>, base: nat, len: nat, n: nat, i: nat): (k: seq<u16>)
    requires Spot(base, len, i) + n <= |buf|
  {
    buf[Spot(base, len, i)..Spot(base, len, i) + n]
  }

  /** Records 0 … cnt - 1 from base on are in the buffer and in order. */
  ghost predicate Records(buf: seq<u16>, base: nat, len: nat, n: nat, cnt: nat) {
    && n <= len
    && (forall i: nat :: i < cnt ==> InBuffer(buf, base, len, n, i))
    && forall i: nat, j: nat :: i <= j < cnt ==> KeyLe(buf, base, len, n, i, j)
  }

  ghost predicate InBuffer(buf: seq<u16>, base: nat, len: nat, n: nat, i: nat) {
    Spot(base, len, i) + n <= |buf|
  }

  ghost predicate KeyLe(buf: seq<u16>, base: nat, len: nat, n: nat, i: nat, j: nat) {
    InBuffer(buf, base, len, n, i) && InBuffer(buf, base, len, n, j)
    && PathLe(Key(buf, base, len, n, i), Key(buf, base, len, n, j))
  }

  ghost predicate KeyIs(buf: seq<u16>, base: nat, len: nat, n: nat, i: nat, key: seq<u16>) {
    InBuffer(buf, base, len, n, i) && Key(buf, base, len, n, i) == key
  }

  method CompareAt(buf: seq<u16>, at: nat, key: seq<u16>) returns (c: int)
    requires at + |key| <= |buf|
    ensures c == 0 <==> buf[at..at + |key|] == key
    ensures c < 0 ==> PathLe(buf[at..at + |key|], key) && buf[at..at + |key|] != key
    ensures c > 0 ==> PathLe(key, buf[at..at + |key|]) && buf[at..at + |key|] != key
  {
    ghost var w := buf[at..at + |key|];
    var i := 0;
    while i < |key|
      invariant i <= |key| && w[..i] == key[..i]
    {
      assert w[i] == buf[at + i];
      if buf[at + i] < key[i] {
        FirstDiffers(w, key, i);
        return -1;
      }
      if buf[at + i] > key[i] {
        FirstDiffers(key, w, i);
        return 1;
      }
      assert w[..i + 1] == w[..i] + [w[i]] && key[..i + 1] == key[..i] + [key[i]];
      i := i + 1;
    }
    assert w == w[..i] && key == key[..i];
    return 0;
  }

  lemma {:induction false} FirstDiffers(a: seq<u16>, b: seq<u16>, i: nat)
    requires i < |a| && i < |b| && a[..i] == b[..i] && a[i] < b[i]
    ensures PathLe(a, b) && a != b
  {
    if i > 0 {
      assert a[0] == a[..i][0] == b[..i][0] == b[0];
      assert a[1..][..i - 1] == a[..i][1..] && b[1..][..i - 1] == b[..i][1..];
      FirstDiffers(a[1..], b[1..], i - 1);
    }
  }

  lemma FitsAt(b: seq<u16>, base: nat, len: nat, n: nat, cnt: nat, i: nat)
    requires Records(b, base, len, n, cnt) && i < cnt
    ensures InBuffer(b, base, len, n, i)
  {
  }

  lemma SpotIn(b: seq<u16>, base: nat, len: nat, n: nat, i: nat)
    requires InBuffer(b, base, len, n, i)
    ensures Spot(base, len, i) + n <= |b|
  {
  }

  lemma CompareIs(b: seq<u16>, base: nat, len: nat, i: nat, key: seq<u16>)
    requires Spot(base, len, i) + |key| <= |b|
    ensures Key(b, base, len, |key|, i) == b[Spot(base, len, i)..Spot(base, len, i) + |key|]
    ensures KeyIs(b, base, len, |key|, i, key) <==> Key(b, base, len, |key|, i) == key
  {
  }

  /** `mybsearch`: some record with this key, or cnt when there is none. */
  method SearchRecord(buf: seq<u16>, base: nat, len: nat, cnt: nat, key: seq<u16>) returns (pos: nat)
    requires Records(buf, base, len, |key|, cnt)
    ensures pos <= cnt && (pos < cnt ==> KeyIs(buf, base, len, |key|, pos, key))
    ensures pos == cnt ==> forall i: nat :: i < cnt ==> !KeyIs(buf, base, len, |key|, i, key)
  {
    hide *;
    var lo, hi: nat := 0, cnt;
    while lo < hi
      invariant 0 <= lo <= hi <= cnt
      invariant forall i: nat :: i < lo || hi <= i < cnt ==> !KeyIs(buf, base, len, |key|, i, key)
    {
      var mid := (lo + hi) / 2;
      FitsAt(buf, base, len, |key|, cnt, mid);
      SpotIn(buf, base, len, |key|, mid);
      var c := CompareAt(buf, Spot(base, len, mid), key);
      CompareIs(buf, base, len, mid, key);
      if c == 0 {
        return mid;
      }
      forall i: nat | i < cnt && (if c < 0 then i <= mid else i >= mid) ensures !KeyIs(buf, base, len, |key|, i, key) {
        Beside(buf, base, len, cnt, key, i, mid);
      }
      if c < 0 {
        lo := mid + 1;
      } else {
        hi := mid;
      }
    }
    return cnt;
  }

  lemma Beside(buf: seq<u16>, base: nat, len: nat, cnt: nat, key: seq<u16>, i: nat, mid: nat)
    requires Records(buf, base, len, |key|, cnt) && i < cnt && mid < cnt && !KeyIs(buf, base, len, |key|, mid, key)
    requires InBuffer(buf, base, len, |key|, mid)
    requires (i <= mid && PathLe(Key(buf, base, len, |key|, mid), key))
      || (i >= mid && PathLe(key, Key(buf, base, len, |key|, mid)))
    ensures !KeyIs(buf, base, len, |key|, i, key)
  {
    if i <= mid {
      assert KeyLe(buf, base, len, |key|, i, mid);
    } else {
      assert KeyLe(buf, base, len, |key|, mid, i);
    }
    LeTotal(Key(buf, base, len, |key|, mid), key);
  }

  /** `find_pos_startedbyhzs`: from a match the loop walks back to the first one. */
  method FirstRecord(buf: seq<u16>, base: nat, len: nat, cnt: nat, key: seq<u16>) returns (pos: nat)
    requires Records(buf, base, len, |key|, cnt)
    ensures pos <= cnt && (pos < cnt ==> KeyIs(buf, base, len, |key|, pos, key))
      && forall i: nat :: i < pos ==> !KeyIs(buf, base, len, |key|, i, key)
  {
    hide *;
    pos := SearchRecord(buf, base, len, cnt, key);
    if pos == cnt {
      return;
    }
    while pos > 0
      invariant pos < cnt && KeyIs(buf, base, len, |key|, pos, key)
      decreases pos
    {
      FitsAt(buf, base, len, |key|, cnt, pos - 1);
      SpotIn(buf, base, len, |key|, pos - 1);
      var c := CompareAt(buf, Spot(base, len, pos - 1), key);
      CompareIs(buf, base, len, pos - 1, key);
      if c != 0 {
        forall i: nat | i < pos ensures !KeyIs(buf, base, len, |key|, i, key) {
          NoneBefore(buf, base, len, cnt, key, i, pos);
        }
        return;
      }
      pos := pos - 1;
    }
  }

  lemma NoneBefore(buf: seq<u16>, base: nat, len: nat, cnt: nat, key: seq<u16>, i: nat, pos: nat)
    requires Records(buf, base, len, |key|, cnt) && i < pos < cnt && KeyIs(buf, base, len, |key|, pos, key)
      && !KeyIs(buf, base, len, |key|, pos - 1, key)
    ensures !KeyIs(buf, base, len, |key|, i, key)
  {
    assert KeyLe(buf, base, len, |key|, i, pos - 1) && KeyLe(buf, base, len, |key|, pos - 1, pos);
    LeTotal(Key(buf, base, len, |key|, pos - 1), key);
  }
}
