/** The packed byte block of the user dictionary: variable-length lemma records laid end to end,
    addressed by 32-bit offsets whose highest bit says that the lemma is removed. */
module LemmaBlock {
  import opened Bytes

  const MAX_LEMMA_SIZE: nat := 8

  /** kUserDictOffsetFlagRemove. */
  const REMOVE_FLAG: nat := 0x8000_0000

  predicate Removed(o: u32) {
    o >= REMOVE_FLAG
  }

  /** The offset without its flag (`& kUserDictOffsetMask`). */
  function Pos(o: u32): (p: u32)
    ensures p < REMOVE_FLAG
  {
    if Removed(o) then o - REMOVE_FLAG else o
  }

  /** `| kUserDictOffsetFlagRemove`. */
  function SetRemoved(o: u32): (r: u32)
    ensures Removed(r) && Pos(r) == Pos(o)
  {
    if Removed(o) then o else o + REMOVE_FLAG
  }

  // ---- One record: flag byte, length byte, spelling ids, word ----

  predicate Fits(b: seq<u8>, p: nat) {
    && p + 2 <= |b|
    && 1 <= b[p + 1] <= MAX_LEMMA_SIZE
    && p + 2 + 4 * b[p + 1] <= |b|
  }

  function NChar(b: seq<u8>, p: nat): (n: nat)
    requires Fits(b, p)
    ensures 1 <= n <= MAX_LEMMA_SIZE
  {
    b[p + 1]
  }

  function Size(b: seq<u8>, p: nat): (n: nat)
    requires Fits(b, p)
    ensures p + n <= |b|
  {
    2 + 4 * NChar(b, p)
  }

  /** The in-memory flag that `defragment` sets on removed records. */
  predicate Dead(b: seq<u8>, p: nat)
    requires p < |b|
  {
    b[p] % 2 == 1
  }

  function Half(b: seq<u8>, p: nat): (h: u16)
    requires p + 2 <= |b|
  {
    b[p] as nat + 0x100 * (b[p + 1] as nat)
  }

  function SplidsAt(b: seq<u8>, p: nat): (s: seq<u16>)
    requires Fits(b, p)
    ensures |s| == NChar(b, p)
  {
    seq(NChar(b, p), i requires 0 <= i < NChar(b, p) => Half(b, p + 2 + 2 * i))
  }

  function WordAt(b: seq<u8>, p: nat): (s: seq<u16>)
    requires Fits(b, p)
    ensures |s| == NChar(b, p)
  {
    seq(NChar(b, p), i requires 0 <= i < NChar(b, p) => Half(b, p + 2 + 2 * NChar(b, p) + 2 * i))
  }

  function HalfBytes(h: u16): (b: seq<u8>)
    ensures |b| == 2
  {
    [h % 0x100, h / 0x100]
  }

  function HalvesBytes(hs: seq<u16>): (b: seq<u8>)
    ensures |b| == 2 * |hs|
  {
    if hs == [] then [] else HalvesBytes(hs[..|hs| - 1]) + HalfBytes(hs[|hs| - 1])
  }

  /** The record `append_a_lemma` writes. */
  function Record(splids: seq<u16>, word: seq<u16>): (b: seq<u8>)
    requires |splids| == |word| <= MAX_LEMMA_SIZE
    ensures |b| == 2 + 4 * |word|
  {
    [0, |word|] + HalvesBytes(splids) + HalvesBytes(word)
  }

  // ---- Records tile a range of the block ----

  ghost predicate Chain(b: seq<u8>, p: nat, q: nat)
    decreases q - p
  {
    p <= q <= |b| && (p < q ==> Fits(b, p) && p + Size(b, p) <= q && Chain(b, p + Size(b, p), q))
  }

  ghost predicate Tiled(b: seq<u8>) {
    Chain(b, 0, |b|)
  }

  /** p is the position of a record. */
  ghost predicate IsStart(b: seq<u8>, p: nat) {
    p < |b| && Chain(b, 0, p) && Chain(b, p, |b|)
  }

  lemma {:induction false} ChainJoin(b: seq<u8>, p: nat, q: nat, r: nat)
    requires Chain(b, p, q) && Chain(b, q, r)
    ensures Chain(b, p, r)
    decreases q - p
  {
    if p < q {
      ChainJoin(b, p + Size(b, p), q, r);
    }
  }

  lemma {:induction false} ChainRest(b: seq<u8>, p: nat, q: nat, r: nat)
    requires Chain(b, p, q) && Chain(b, p, r) && q <= r
    ensures Chain(b, q, r)
    decreases q - p
  {
    if p < q {
      ChainRest(b, p + Size(b, p), q, r);
    }
  }

  /** Two starts never overlap. */
  lemma {:induction false} StartsDisjoint(b: seq<u8>, p: nat, q: nat)
    requires IsStart(b, p) && IsStart(b, q) && p < q
    ensures p + Size(b, p) <= q
  {
    ChainRest(b, 0, p, q);
  }

  // ---- What compaction keeps, and where it puts each byte ----

  /** The bytes of the live records of [p, q), in order. */
  ghost function Kept(b: seq<u8>, p: nat, q: nat): (k: seq<u8>)
    requires Chain(b, p, q)
    ensures |k| <= q - p
    decreases q - p
  {
    if p == q then []
    else
      var n := p + Size(b, p);
      (if Dead(b, p) then [] else b[p..n]) + Kept(b, n, q)
  }

  /** The new position of old position x, when record p of the block goes to position d:
      a position inside a live record moves with it, every other one stays. */
  ghost function Moved(b: seq<u8>, p: nat, d: nat, x: nat): (y: nat)
    requires Chain(b, p, |b|) && d <= p
    ensures y <= x
    decreases |b| - p
  {
    if p == |b| || x < p then x
    else
      var n := p + Size(b, p);
      if x < n then (if Dead(b, p) then x else d + (x - p))
      else Moved(b, n, if Dead(b, p) then d else d + Size(b, p), x)
  }

  ghost function Relocated(b: seq<u8>, x: u32): (y: u32)
    requires Tiled(b)
    ensures y <= x
  {
    Moved(b, 0, 0, x)
  }

  lemma {:induction false} KeptJoin(b: seq<u8>, p: nat, q: nat, r: nat)
    requires Chain(b, p, q) && Chain(b, q, r) && Chain(b, p, r)
    ensures Kept(b, p, r) == Kept(b, p, q) + Kept(b, q, r)
    decreases q - p
  {
    if p < q {
      ChainJoin(b, p + Size(b, p), q, r);
      KeptJoin(b, p + Size(b, p), q, r);
    }
  }

  lemma {:induction false} MovedSkip(b: seq<u8>, p: nat, d: nat, q: nat, x: nat)
    requires Chain(b, p, |b|) && Chain(b, p, q) && Chain(b, q, |b|) && d <= p && q <= x
    ensures d + |Kept(b, p, q)| <= q
    ensures Moved(b, p, d, x) == Moved(b, q, d + |Kept(b, p, q)|, x)
    decreases q - p
  {
    if p < q {
      MovedSkip(b, p + Size(b, p), if Dead(b, p) then d else d + Size(b, p), q, x);
    }
  }

  lemma KeptCons(b: seq<u8>, p: nat, q: nat)
    requires Chain(b, p, q) && p < q
    ensures q <= |b| && Fits(b, p) && 0 < Size(b, p) && p + Size(b, p) <= q && Chain(b, p + Size(b, p), q)
    ensures Dead(b, p) ==> Kept(b, p, q) == Kept(b, p + Size(b, p), q)
    ensures !Dead(b, p) ==> Kept(b, p, q) == b[p..p + Size(b, p)] + Kept(b, p + Size(b, p), q)
    ensures |Kept(b, p + Size(b, p), q)| <= q - (p + Size(b, p))
  {
  }

  lemma MovedStep(b: seq<u8>, p: nat, d: nat, x: nat)
    requires Chain(b, p, |b|) && d <= p <= x && p < |b|
    ensures Fits(b, p) && Chain(b, p + Size(b, p), |b|)
    ensures Moved(b, p, d, x) == if x < p + Size(b, p) then (if Dead(b, p) then x else d + (x - p))
                                 else Moved(b, p + Size(b, p), if Dead(b, p) then d else d + Size(b, p), x)
  {
  }

  lemma {:induction false} MovedInDead(b: seq<u8>, p: nat, d: nat, q: nat, x: nat)
    requires Chain(b, p, |b|) && Chain(b, p, q) && d <= p <= x < q
    requires Kept(b, p, q) == []
    ensures Moved(b, p, d, x) == x
    decreases q - p
  {
    hide *;
    KeptCons(b, p, q);
    MovedStep(b, p, d, x);
    if p + Size(b, p) <= x {
      MovedInDead(b, p + Size(b, p), d, q, x);
    }
  }

  lemma {:induction false} MovedInLive(b: seq<u8>, p: nat, d: nat, q: nat, x: nat)
    requires Chain(b, p, |b|) && Chain(b, p, q) && d <= p <= x < q
    requires |Kept(b, p, q)| == q - p
    ensures Moved(b, p, d, x) == d + (x - p)
    decreases q - p
  {
    hide *;
    KeptCons(b, p, q);
    MovedStep(b, p, d, x);
    if p + Size(b, p) <= x {
      MovedInLive(b, p + Size(b, p), d + Size(b, p), q, x);
    }
  }

  /** One step of the sweep: [e, s) is dead, [s, t) is live, and everything before e is done. */
  lemma RelocatedStep(b: seq<u8>, e: nat, s: nat, t: nat, x: u32)
    requires Tiled(b) && Chain(b, 0, e) && Chain(b, e, s) && Chain(b, s, t)
    requires Kept(b, e, s) == [] && Kept(b, s, t) == b[s..t]
    ensures e <= x < s ==> Relocated(b, x) == x
    ensures s <= x < t ==> Relocated(b, x) == |Kept(b, 0, e)| + (x - s)
  {
    hide *;
    RelocatedIs(b, x);
    StepBounds(b, e, s, t);
    ChainRest(b, 0, e, |b|);
    ChainRest(b, e, s, |b|);
    assert Kept(b, 0, e) + [] == Kept(b, 0, e);
    if e <= x < s {
      MovedSkip(b, 0, 0, e, x);
      MovedInDead(b, e, |Kept(b, 0, e)|, s, x);
    } else if s <= x < t {
      ChainJoin(b, 0, e, s);
      MovedSkip(b, 0, 0, s, x);
      KeptJoin(b, 0, e, s);
      MovedInLive(b, s, |Kept(b, 0, e)|, t, x);
    }
  }

  lemma RelocatedIs(b: seq<u8>, x: u32)
    requires Tiled(b)
    ensures Chain(b, 0, |b|) && Relocated(b, x) == Moved(b, 0, 0, x)
  {
  }

  lemma StepBounds(b: seq<u8>, e: nat, s: nat, t: nat)
    requires Chain(b, 0, e) && Chain(b, e, s) && Chain(b, s, t)
    ensures e <= s <= t <= |b| && |Kept(b, 0, e)| <= e
    ensures Kept(b, s, t) == b[s..t] ==> |Kept(b, s, t)| == t - s
  {
  }

  /** One more record at the end of a range. */
  lemma ChainSnoc(b: seq<u8>, p: nat, q: nat)
    requires Chain(b, p, q) && Chain(b, q, |b|) && q < |b|
    ensures Fits(b, q)
    ensures Chain(b, q, q + Size(b, q)) && Chain(b, p, q + Size(b, q))
    ensures Chain(b, q + Size(b, q), |b|)
    ensures Dead(b, q) ==> Kept(b, p, q + Size(b, q)) == Kept(b, p, q)
    ensures !Dead(b, q) ==> Kept(b, p, q + Size(b, q)) == Kept(b, p, q) + b[q..q + Size(b, q)]
  {
    hide *;
    ChainOne(b, q);
    var n := q + Size(b, q);
    ChainJoin(b, p, q, n);
    KeptJoin(b, p, q, n);
    assert Kept(b, p, q) + [] == Kept(b, p, q);
  }

  /** The record at the beginning of a range. */
  lemma ChainOne(b: seq<u8>, q: nat)
    requires Chain(b, q, |b|) && q < |b|
    ensures Fits(b, q) && 0 < Size(b, q) && Chain(b, q, q + Size(b, q)) && Chain(b, q + Size(b, q), |b|)
    ensures Kept(b, q, q + Size(b, q)) == if Dead(b, q) then [] else b[q..q + Size(b, q)]
  {
    var n := q + Size(b, q);
    assert Chain(b, n, n) && Kept(b, n, n) == [];
  }

  /** How the scans read a record. */
  lemma RecordAt(b: seq<u8>, q: nat)
    requires q < |b| && Fits(b, q)
    ensures q + 1 < |b| && (Dead(b, q) <==> b[q] % 2 != 0) && Size(b, q) == 2 + 4 * b[q + 1] && q + Size(b, q) <= |b|
  {
  }

  lemma ChainEmpty(b: seq<u8>, p: nat)
    requires p <= |b|
    ensures Chain(b, p, p) && Kept(b, p, p) == []
  {
  }

  // ---- The sweep of `defragment` ----

  /** The effect of memmove of [begin, end) down to dst. */
  ghost predicate Slid(was: seq<u8>, now: seq<u8>, dst: nat, begin: nat, end: nat) {
    && dst <= begin <= end <= |was| == |now|
    && now[..dst] == was[..dst]
    && now[dst..dst + (end - begin)] == was[begin..end]
    && now[end..] == was[end..]
  }

  method MoveDown(a: array<u8>, n: nat, dst: nat, begin: nat, end: nat)
    requires dst <= begin <= end <= n <= a.Length
    modifies a
    ensures Slid(old(a[..n]), a[..n], dst, begin, end)
  {
    ghost var was := a[..n];
    var k := 0;
    while k < end - begin
      invariant k <= end - begin
      invariant forall i :: 0 <= i < dst ==> a[i] == was[i]
      invariant forall i :: dst <= i < dst + k ==> a[i] == was[i + (begin - dst)]
      invariant forall i :: begin + k <= i < n ==> a[i] == was[i]
    {
      a[dst + k] := a[begin + k];
      k := k + 1;
    }
    SlidIs(was, a[..n], dst, begin, end);
  }

  lemma SlidIs(was: seq<u8>, now: seq<u8>, dst: nat, begin: nat, end: nat)
    requires dst <= begin <= end <= |was| == |now| && forall i :: 0 <= i < dst ==> now[i] == was[i]
    requires forall i :: dst <= i < dst + (end - begin) ==> now[i] == was[i + (begin - dst)]
    requires forall i :: end <= i < |was| ==> now[i] == was[i]
    ensures Slid(was, now, dst, begin, end)
  {
    var m, w := now[dst..dst + (end - begin)], was[begin..end];
    forall k | 0 <= k < |m| ensures m[k] == w[k] {
      assert now[dst + k] == was[dst + k + (begin - dst)];
    }
  }

  /** The value of one entry after the move of [begin, end) down to dst. */
  function Shifted(x: u32, dst: nat, begin: nat, end: nat): (y: u32)
    requires dst <= begin
  {
    if begin <= x < end then x - (begin - dst) else x
  }

  ghost predicate AllShifted(was: seq<u32>, now: seq<u32>, dst: nat, begin: nat, end: nat)
    requires dst <= begin
  {
    |now| == |was| && forall j :: 0 <= j < |was| ==> now[j] == Shifted(was[j], dst, begin, end)
  }

  method ShiftAll(a: array<u32>, n: nat, dst: nat, begin: nat, end: nat)
    requires n <= a.Length && dst <= begin
    modifies a
    ensures AllShifted(old(a[..n]), a[..n], dst, begin, end)
    ensures a[n..] == old(a[n..])
  {
    var j := 0;
    while j < n
      invariant j <= n
      invariant forall i :: 0 <= i < j ==> a[i] == Shifted(old(a[i]), dst, begin, end)
      invariant forall i :: j <= i < a.Length ==> a[i] == old(a[i])
    {
      if a[j] >= begin && a[j] < end {
        a[j] := a[j] - (begin - dst);
      }
      j := j + 1;
    }
  }


  /** Scans over live records from p; stops at the first dead one or at the end. */
  method ScanLive(a: array<u8>, p: nat, realSize: nat, ghost b: seq<u8>) returns (q: nat)
    requires p <= realSize == |b| <= a.Length && (forall i :: p <= i < realSize ==> a[i] == b[i]) && Chain(b, p, |b|)
    ensures p <= q <= realSize && Chain(b, p, q) && Chain(b, q, |b|) && Kept(b, p, q) == b[p..q]
    ensures q < |b| ==> Dead(b, q)
  {
    hide *;
    ChainEmpty(b, p);
    q := p;
    while q < realSize
      invariant p <= q <= realSize && Chain(b, p, q) && Chain(b, q, |b|) && Kept(b, p, q) == b[p..q]
      decreases realSize - q
    {
      ChainSnoc(b, p, q);
      RecordAt(b, q);
      var flag, nchr: nat := a[q], a[q + 1];
      if flag % 2 != 0 { break; }
      assert b[p..q] + b[q..q + Size(b, q)] == b[p..q + Size(b, q)];
      q := q + nchr * 4 + 2;
    }
  }

  /** Scans over dead records from p; stops at the first live one or at the end. */
  method ScanDead(a: array<u8>, p: nat, realSize: nat, ghost b: seq<u8>) returns (q: nat)
    requires p <= realSize == |b| <= a.Length && (forall i :: p <= i < realSize ==> a[i] == b[i]) && Chain(b, p, |b|)
    ensures p <= q <= realSize && Chain(b, p, q) && Chain(b, q, |b|) && Kept(b, p, q) == []
    ensures q < |b| ==> !Dead(b, q)
  {
    hide *;
    ChainEmpty(b, p);
    q := p;
    while q < realSize
      invariant p <= q <= realSize && Chain(b, p, q) && Chain(b, q, |b|) && Kept(b, p, q) == []
      decreases realSize - q
    {
      ChainSnoc(b, p, q);
      RecordAt(b, q);
      var flag, nchr: nat := a[q], a[q + 1];
      if flag % 2 == 0 { break; }
      q := q + nchr * 4 + 2;
    }
  }

  /** An entry when the sweep has reached e. */
  ghost function Swept(b: seq<u8>, e: nat, x: u32): (y: u32)
    requires Tiled(b)
  {
    if x < e then Relocated(b, x) else x
  }

  lemma SweptStep(b: seq<u8>, e: nat, s: nat, t: nat, x: u32)
    requires Tiled(b) && Chain(b, 0, e) && Chain(b, e, s) && Chain(b, s, t)
    requires Kept(b, e, s) == [] && Kept(b, s, t) == b[s..t]
    ensures Shifted(Swept(b, e, x), |Kept(b, 0, e)|, s, t) == Swept(b, t, x)
  {
    RelocatedStep(b, e, s, t, x);
  }

  ghost predicate SweptTo(b: seq<u8>, e: nat, was: seq<u32>, now: seq<u32>)
    requires Tiled(b)
  {
    |now| == |was| && forall j :: 0 <= j < |was| ==> now[j] == Swept(b, e, was[j])
  }

  lemma SweptToStep(b: seq<u8>, e: nat, s: nat, t: nat, was: seq<u32>, mid: seq<u32>, now: seq<u32>)
    requires Tiled(b) && Chain(b, 0, e) && Chain(b, e, s) && Chain(b, s, t)
    requires Kept(b, e, s) == [] && Kept(b, s, t) == b[s..t]
    requires SweptTo(b, e, was, mid) && AllShifted(mid, now, |Kept(b, 0, e)|, s, t)
    ensures SweptTo(b, t, was, now)
  {
    forall j | 0 <= j < |was| ensures now[j] == Swept(b, t, was[j]) {
      SweptStep(b, e, s, t, was[j]);
    }
  }

  lemma SweptStart(b: seq<u8>, e: nat, was: seq<u32>)
    requires Tiled(b) && Chain(b, 0, e) && Kept(b, 0, e) == b[..e]
    ensures SweptTo(b, e, was, was)
  {
    forall j | 0 <= j < |was| && was[j] < e ensures Relocated(b, was[j]) == was[j] {
      MovedInLive(b, 0, 0, e, was[j]);
    }
  }

  lemma SweptEnd(b: seq<u8>, e: nat, was: seq<u32>, now: seq<u32>)
    requires Tiled(b) && Chain(b, 0, e) && Chain(b, e, |b|) && Kept(b, e, |b|) == []
    requires SweptTo(b, e, was, now)
    ensures now == RelocatedAll(b, was)
  {
    forall j | 0 <= j < |was| && was[j] >= e ensures Relocated(b, was[j]) == was[j] {
      if was[j] < |b| {
        RelocatedStep(b, e, |b|, |b|, was[j]);
      } else {
        MovedSkip(b, 0, 0, |b|, was[j]);
      }
    }
  }

  ghost function RelocatedAll(b: seq<u8>, s: seq<u32>): (r: seq<u32>)
    requires Tiled(b)
    ensures |r| == |s|
    ensures forall j :: 0 <= j < |s| ==> r[j] == Relocated(b, s[j])
  {
    seq(|s|, j requires 0 <= j < |s| => Relocated(b, s[j]))
  }

  /** Slides [begin, end) down to dst, together with every entry that points into it. */
  method SlideRun(lemmas: array<u8>, n: nat, dst: nat, begin: nat, end: nat, offsets: array<u32>,
                  predicts: array<u32>, count: nat, syncs: array<u32>, syncCount: nat)
    requires dst <= begin <= end <= n <= lemmas.Length
    requires count <= offsets.Length && count <= predicts.Length && syncCount <= syncs.Length
    requires offsets != predicts && offsets != syncs && predicts != syncs
    modifies lemmas, offsets, predicts, syncs
    ensures Slid(old(lemmas[..n]), lemmas[..n], dst, begin, end)
    ensures AllShifted(old(offsets[..count]), offsets[..count], dst, begin, end)
    ensures AllShifted(old(predicts[..count]), predicts[..count], dst, begin, end)
    ensures AllShifted(old(syncs[..syncCount]), syncs[..syncCount], dst, begin, end)
  {
    MoveDown(lemmas, n, dst, begin, end);
    ShiftAll(offsets, count, dst, begin, end);
    ShiftAll(predicts, count, dst, begin, end);
    ShiftAll(syncs, syncCount, dst, begin, end);
  }

  lemma SlideSeq(b: seq<u8>, dst: nat, e: nat, s: nat, t: nat, was: seq<u8>, now: seq<u8>)
    requires dst <= e <= s <= t <= |b| == |was| && Slid(was, now, dst, s, t)
    requires was[e..] == b[e..]
    ensures now[..dst + (t - s)] == was[..dst] + b[s..t] && now[t..] == b[t..]
  {
    assert was[s..t] == b[s..t] by {
      assert forall i :: s <= i < t ==> was[i] == was[e..][i - e];
    }
    assert was[t..] == b[t..] by {
      assert forall i :: t <= i < |b| ==> was[i] == was[e..][i - e];
    }
    assert now[..dst + (t - s)] == now[..dst] + now[dst..dst + (t - s)];
  }

  /** The block while the sweep stands at the dead record e: compacted below dst, untouched from e on. */
  ghost predicate SweptBlock(b: seq<u8>, dst: nat, e: nat, now: seq<u8>) {
    && Chain(b, 0, e) && Chain(b, e, |b|) && dst <= e && |now| == |b|
    && now[..dst] == Kept(b, 0, e) && now[e..] == b[e..]
  }

  lemma SweptBlockStep(b: seq<u8>, dst: nat, e: nat, s: nat, t: nat, was: seq<u8>, now: seq<u8>)
    requires SweptBlock(b, dst, e, was) && Chain(b, e, s) && Chain(b, s, t) && Chain(b, t, |b|)
    requires Kept(b, e, s) == [] && Kept(b, s, t) == b[s..t]
    requires Slid(was, now, dst, s, t)
    ensures SweptBlock(b, dst + (t - s), t, now)
  {
    SweepJoin(b, e, s, t);
    SlideSeq(b, dst, e, s, t, was, now);
  }

  /** The whole state of the sweep at record e; offs, pres and sync are the entries before it. */
  ghost predicate Sweeping(b: seq<u8>, dst: nat, e: nat, block: seq<u8>, offs: seq<u32>, o: seq<u32>,
                           pres: seq<u32>, p: seq<u32>, sync: seq<u32>, s: seq<u32>)
  {
    && Tiled(b) && SweptBlock(b, dst, e, block)
    && SweptTo(b, e, offs, o) && SweptTo(b, e, pres, p) && SweptTo(b, e, sync, s)
  }

  lemma SweepingStep(b: seq<u8>, dst: nat, e: nat, begin: nat, end: nat, block: seq<u8>, block': seq<u8>,
                     offs: seq<u32>, o: seq<u32>, o': seq<u32>, pres: seq<u32>, p: seq<u32>, p': seq<u32>,
                     sync: seq<u32>, s: seq<u32>, s': seq<u32>)
    requires Sweeping(b, dst, e, block, offs, o, pres, p, sync, s)
    requires Chain(b, e, begin) && Chain(b, begin, end) && Chain(b, end, |b|)
    requires Kept(b, e, begin) == [] && Kept(b, begin, end) == b[begin..end]
    requires Slid(block, block', dst, begin, end) && AllShifted(o, o', dst, begin, end)
    requires AllShifted(p, p', dst, begin, end) && AllShifted(s, s', dst, begin, end)
    ensures Sweeping(b, dst + (end - begin), end, block', offs, o', pres, p', sync, s')
  {
    SweptBlockStep(b, dst, e, begin, end, block, block');
    SweptToStep(b, e, begin, end, offs, o, o');
    SweptToStep(b, e, begin, end, pres, p, p');
    SweptToStep(b, e, begin, end, sync, s, s');
  }

  lemma SweepingEnd(b: seq<u8>, dst: nat, e: nat, block: seq<u8>, offs: seq<u32>, o: seq<u32>,
                    pres: seq<u32>, p: seq<u32>, sync: seq<u32>, s: seq<u32>)
    requires Sweeping(b, dst, e, block, offs, o, pres, p, sync, s) && Kept(b, e, |b|) == []
    ensures block[..dst] == Kept(b, 0, |b|)
    ensures o == RelocatedAll(b, offs) && p == RelocatedAll(b, pres) && s == RelocatedAll(b, sync)
  {
    KeptJoin(b, 0, e, |b|);
    SweptEnd(b, e, offs, o);
    SweptEnd(b, e, pres, p);
    SweptEnd(b, e, sync, s);
  }

  /** The second half of `defragment`: slides every run of live records down over the dead ones
      and rewrites the entries that point into it. */
  method Sweep(lemmas: array<u8>, realSize: nat, start: nat, offsets: array<u32>, predicts: array<u32>,
               count: nat, syncs: array<u32>, syncCount: nat) returns (dst: nat)
    requires realSize <= lemmas.Length && Tiled(lemmas[..realSize])
    requires count <= offsets.Length && count <= predicts.Length && syncCount <= syncs.Length
    requires Chain(lemmas[..realSize], 0, start) && start < realSize && Dead(lemmas[..realSize], start)
    requires Kept(lemmas[..realSize], 0, start) == lemmas[..realSize][..start]
    requires offsets != predicts && offsets != syncs && predicts != syncs
    modifies lemmas, offsets, predicts, syncs
    ensures dst <= realSize && lemmas[..realSize][..dst] == Kept(old(lemmas[..realSize]), 0, realSize)
    ensures offsets[..count] == RelocatedAll(old(lemmas[..realSize]), old(offsets[..count]))
    ensures predicts[..count] == RelocatedAll(old(lemmas[..realSize]), old(predicts[..count]))
    ensures syncs[..syncCount] == RelocatedAll(old(lemmas[..realSize]), old(syncs[..syncCount]))
  {
    hide *;
    ghost var b, offs, pres, sync := lemmas[..realSize], offsets[..count], predicts[..count], syncs[..syncCount];
    dst := start;
    var end := start;
    SweepingStart(b, end, offs, pres, sync);
    while end < realSize
      invariant end <= realSize && (end < realSize ==> Dead(b, end))
      invariant Sweeping(b, dst, end, lemmas[..realSize], offs, offsets[..count],
                         pres, predicts[..count], sync, syncs[..syncCount])
      invariant dst <= end
      decreases realSize - end
    {
      ghost var e, block, o, p, s := end, lemmas[..realSize], offsets[..count], predicts[..count], syncs[..syncCount];
      SweepingView(b, dst, e, block, offs, o, pres, p, sync, s);
      var begin := ScanDead(lemmas, end, realSize, b);
      if begin >= realSize {
        break;
      }
      end := ScanLive(lemmas, begin, realSize, b);
      SlideRun(lemmas, realSize, dst, begin, end, offsets, predicts, count, syncs, syncCount);
      SweepingStep(b, dst, e, begin, end, block, lemmas[..realSize], offs, o, offsets[..count],
                   pres, p, predicts[..count], sync, s, syncs[..syncCount]);
      dst := dst + (end - begin);
    }
    SweepingEnd(b, dst, end, lemmas[..realSize], offs, offsets[..count], pres, predicts[..count], sync,
      syncs[..syncCount]);
  }

  lemma SweepingStart(b: seq<u8>, e: nat, offs: seq<u32>, pres: seq<u32>, sync: seq<u32>)
    requires Tiled(b) && Chain(b, 0, e) && Kept(b, 0, e) == b[..e]
    ensures Sweeping(b, e, e, b, offs, offs, pres, pres, sync, sync)
  {
    ChainRest(b, 0, e, |b|);
    SweptStart(b, e, offs);
    SweptStart(b, e, pres);
    SweptStart(b, e, sync);
  }

  lemma SweepingView(b: seq<u8>, dst: nat, e: nat, block: seq<u8>, offs: seq<u32>, o: seq<u32>,
                     pres: seq<u32>, p: seq<u32>, sync: seq<u32>, s: seq<u32>)
    requires Sweeping(b, dst, e, block, offs, o, pres, p, sync, s)
    ensures dst <= e <= |b| == |block| && Chain(b, e, |b|) && forall i :: e <= i < |b| ==> block[i] == b[i]
  {
    SuffixStays(b, block, e, e);
  }

  lemma SuffixStays(b: seq<u8>, now: seq<u8>, e: nat, s: nat)
    requires e <= s <= |b| == |now| && now[e..] == b[e..]
    ensures forall i :: s <= i < |b| ==> now[i] == b[i]
  {
    forall i | s <= i < |b| ensures now[i] == b[i] {
      assert now[e..][i - e] == b[e..][i - e];
    }
  }

  lemma SweepJoin(b: seq<u8>, e: nat, s: nat, t: nat)
    requires Chain(b, 0, e) && Chain(b, e, s) && Chain(b, s, t) && Kept(b, e, s) == []
    ensures Chain(b, 0, t) && Kept(b, 0, t) == Kept(b, 0, e) + Kept(b, s, t)
  {
    hide Chain, Kept;
    ChainJoin(b, 0, e, s);
    KeptJoin(b, 0, e, s);
    ChainJoin(b, 0, s, t);
    KeptJoin(b, 0, s, t);
  }
}
