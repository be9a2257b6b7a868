/** The first half of `defragment`: live entries are swapped to the front of the parallel index
    arrays, in their old order, and the remove flag of every other entry is saved in its record. */
module Partition {
  import opened Bytes
  import opened LemmaBlock

  function LiveCount(offs: seq<u32>): (n: nat)
    ensures n <= |offs|
  {
    if offs == [] then 0 else LiveCount(offs[..|offs| - 1]) + (if Removed(offs[|offs| - 1]) then 0 else 1)
  }

  /** The index of the k-th entry that is not flagged. */
  function LiveAt(offs: seq<u32>, k: nat): (i: nat)
    requires k < LiveCount(offs)
    ensures i < |offs| && !Removed(offs[i])
  {
    var n := |offs| - 1;
    if k < LiveCount(offs[..n]) then LiveAt(offs[..n], k) else n
  }

  lemma {:induction false} LiveAtMonotone(offs: seq<u32>, j: nat, k: nat)
    requires j < k < LiveCount(offs)
    ensures LiveAt(offs, j) < LiveAt(offs, k)
  {
    var n := |offs| - 1;
    if k < LiveCount(offs[..n]) {
      LiveAtMonotone(offs[..n], j, k);
    }
  }

  /** Every live index is counted. */
  lemma {:induction false} LiveAtOnto(offs: seq<u32>, i: nat) returns (k: nat)
    requires i < |offs| && !Removed(offs[i])
    ensures k < LiveCount(offs) && LiveAt(offs, k) == i
  {
    var n := |offs| - 1;
    if i < n {
      k := LiveAtOnto(offs[..n], i);
    } else {
      k := LiveCount(offs[..n]);
    }
  }

  /** The entries of xs whose offset is not flagged, in order. */
  function Select<T>(xs: seq<T>, offs: seq<u32>): (r: seq<T>)
    requires |xs| == |offs|
    ensures |r| == LiveCount(offs)
  {
    if offs == [] then []
    else
      var n := |offs| - 1;
      Select(xs[..n], offs[..n]) + (if Removed(offs[n]) then [] else [xs[n]])
  }

  lemma {:induction false} SelectAt<T>(xs: seq<T>, offs: seq<u32>, k: nat)
    requires |xs| == |offs| && k < LiveCount(offs)
    ensures Select(xs, offs)[k] == xs[LiveAt(offs, k)]
  {
    var n := |offs| - 1;
    if k < LiveCount(offs[..n]) {
      SelectAt(xs[..n], offs[..n], k);
    }
  }

  function SelectLive(offs: seq<u32>): (r: seq<u32>) {
    Select(offs, offs)
  }

  ghost function DeadSet(offs: seq<u32>): (d: set<nat>) {
    set o | o in offs && Removed(o) :: Pos(o) as nat
  }

  /** `|= kUserDictLemmaFlagRemove`. */
  function OrFlag(x: u8): (y: u8)
    ensures y % 2 == 1
  {
    if x % 2 == 0 then x + 1 else x
  }

  /** The block with the remove flag saved in the record of every flagged offset. */
  ghost function Marked(b: seq<u8>, offs: seq<u32>): (m: seq<u8>)
    ensures |m| == |b|
  {
    seq(|b|, i requires 0 <= i < |b| => if i in DeadSet(offs) then OrFlag(b[i]) else b[i])
  }

  lemma SelectSnoc<T>(xs: seq<T>, offs: seq<u32>, n: nat)
    requires |xs| == |offs| && n < |offs|
    ensures Select(xs[..n + 1], offs[..n + 1]) ==
            Select(xs[..n], offs[..n]) + (if Removed(offs[n]) then [] else [xs[n]])
  {
    assert xs[..n + 1][..n] == xs[..n] && offs[..n + 1][..n] == offs[..n];
  }

  /** Where an array stands when the first g entries were examined and f of them are live. */
  ghost predicate Parted(xs0: seq<u32>, offs0: seq<u32>, xs: seq<u32>, f: nat, g: nat)
  {
    && f <= g <= |xs0| == |offs0| == |xs|
    && xs[..f] == Select(xs0[..g], offs0[..g])
    && xs[g..] == xs0[g..]
  }

  /** The entries between f and g are flagged, and were seen before. */
  ghost predicate GapFlagged(offs0: seq<u32>, offs: seq<u32>, f: nat, g: nat) {
    f <= g <= |offs0| == |offs| && forall k :: f <= k < g ==> Removed(offs[k]) && offs[k] in offs0[..g]
  }

  lemma PartedNext(xs0: seq<u32>, offs0: seq<u32>, xs: seq<u32>, offs: seq<u32>, f: nat, g: nat)
    requires Parted(xs0, offs0, xs, f, g) && Parted(offs0, offs0, offs, f, g) && g < |xs0|
    ensures Removed(offs[g]) ==> Parted(xs0, offs0, xs, f, g + 1)
    ensures !Removed(offs[g]) && f == g ==> Parted(xs0, offs0, xs, f + 1, g + 1)
    ensures !Removed(offs[g]) && f < g ==> Parted(xs0, offs0, xs[f := xs[g]][g := xs[f]], f + 1, g + 1)
  {
    SelectSnoc(xs0, offs0, g);
    assert xs[g] == xs[g..][0] && offs[g] == offs[g..][0];
    assert xs0[g + 1..] == xs0[g..][1..] && xs[g + 1..] == xs[g..][1..];
    if !Removed(offs[g]) && f < g {
      var ys := xs[f := xs[g]][g := xs[f]];
      assert ys[..f + 1] == xs[..f] + [xs[g]];
      assert ys[g + 1..] == xs[g + 1..];
    } else if !Removed(offs[g]) {
      assert xs[..f + 1] == xs[..f] + [xs[g]];
    }
  }

  lemma GapNext(offs0: seq<u32>, offs: seq<u32>, f: nat, g: nat)
    requires GapFlagged(offs0, offs, f, g) && g < |offs| && offs[g] == offs0[g]
    ensures Removed(offs[g]) ==> GapFlagged(offs0, offs, f, g + 1)
    ensures !Removed(offs[g]) && f == g ==> GapFlagged(offs0, offs, f + 1, g + 1)
    ensures !Removed(offs[g]) && f < g ==> GapFlagged(offs0, offs[f := offs[g]][g := offs[f]], f + 1, g + 1)
  {
    assert offs0[..g + 1] == offs0[..g] + [offs0[g]];
  }

  lemma MarkNext(b: seq<u8>, offs: seq<u32>, g: nat)
    requires g < |offs| && Pos(offs[g]) < |b|
    ensures !Removed(offs[g]) ==> Marked(b, offs[..g + 1]) == Marked(b, offs[..g])
    ensures Removed(offs[g]) ==> var m, p := Marked(b, offs[..g]), Pos(offs[g]);
              Marked(b, offs[..g + 1]) == m[p := OrFlag(m[p])]
  {
    assert offs[..g + 1] == offs[..g] + [offs[g]];
    if Removed(offs[g]) {
      assert DeadSet(offs[..g + 1]) == DeadSet(offs[..g]) + {Pos(offs[g]) as nat};
    } else {
      assert DeadSet(offs[..g + 1]) == DeadSet(offs[..g]);
    }
  }

  lemma MarkFrom(b: seq<u8>, offs: seq<u32>, f: nat, u: nat)
    requires f <= u < |offs| && Removed(offs[u]) && Pos(offs[u]) < |b|
    ensures offs[f..f] == [] && Marked(b, []) == b
    ensures var m, p := Marked(b, offs[f..u]), Pos(offs[u]); Marked(b, offs[f..u + 1]) == m[p := OrFlag(m[p])]
  {
    MarkNext(b, offs[f..], u - f);
    assert offs[f..][..u - f] == offs[f..u] && offs[f..][..u - f + 1] == offs[f..u + 1];
  }

  method MarkRecord(lemmas: array<u8>, n: nat, o: u32)
    requires n <= lemmas.Length && Pos(o) < n
    modifies lemmas
    ensures lemmas[..n] == old(lemmas[..n])[Pos(o) := OrFlag(old(lemmas[..n])[Pos(o)])]
  {
    lemmas[Pos(o)] := OrFlag(lemmas[Pos(o)]);
  }

  lemma PartedStart(xs0: seq<u32>, offs0: seq<u32>)
    requires |xs0| == |offs0|
    ensures Parted(xs0, offs0, xs0, 0, 0)
  {
    assert xs0[..0] == [] && offs0[..0] == [];
  }

  lemma PartedEnd(xs0: seq<u32>, offs0: seq<u32>, xs: seq<u32>, f: nat)
    requires Parted(xs0, offs0, xs, f, |xs0|)
    ensures xs[..f] == Select(xs0, offs0)
  {
    assert xs0[..|xs0|] == xs0 && offs0[..|xs0|] == offs0;
  }

  /** Passing the live run [f, f2). */
  lemma {:induction false} PassLive(xs0: seq<u32>, offs0: seq<u32>, xs: seq<u32>, offs: seq<u32>,
    f: nat, g: nat, f2: nat)
    requires Parted(xs0, offs0, xs, f, g) && Parted(offs0, offs0, offs, f, g) && GapFlagged(offs0, offs, f, g)
    requires f <= f2 <= |offs| && forall k :: f <= k < f2 ==> !Removed(offs[k])
    ensures f < f2 ==> f == g
    ensures f < f2 ==> Parted(xs0, offs0, xs, f2, f2) && GapFlagged(offs0, offs, f2, f2)
    decreases f2 - f
  {
    if f < f2 {
      assert !Removed(offs[f]);
      assert offs[g] == offs[g..][0] && offs0[g] == offs0[g..][0];
      PartedNext(xs0, offs0, xs, offs, f, g);
      PartedNext(offs0, offs0, offs, offs, f, g);
      GapNext(offs0, offs, f, g);
      PassLive(xs0, offs0, xs, offs, f + 1, g + 1, f2);
    }
  }

  /** Passing the flagged run [f, u). */
  lemma {:induction false} PassFlagged(xs0: seq<u32>, offs0: seq<u32>, xs: seq<u32>, offs: seq<u32>,
    f: nat, g: nat, u: nat)
    requires Parted(xs0, offs0, xs, f, g) && Parted(offs0, offs0, offs, f, g) && GapFlagged(offs0, offs, f, g)
    requires g <= u <= |offs| && forall k :: f <= k < u ==> Removed(offs[k])
    ensures Parted(xs0, offs0, xs, f, u) && GapFlagged(offs0, offs, f, u)
    decreases u - g
  {
    if g < u {
      assert offs[g] == offs[g..][0] && offs0[g] == offs0[g..][0];
      PartedNext(xs0, offs0, xs, offs, f, g);
      PartedNext(offs0, offs0, offs, offs, f, g);
      GapNext(offs0, offs, f, g);
      PassFlagged(xs0, offs0, xs, offs, f, g + 1, u);
    }
  }

  /** `Find first freed offset`. */
  method FindFreed(offs: array<u32>, from: nat, count: nat) returns (f: nat)
    requires from <= count <= offs.Length
    ensures from <= f <= count && (forall k :: from <= k < f ==> !Removed(offs[..count][k]))
    ensures f < count ==> Removed(offs[..count][f])
  {
    f := from;
    while f < count && !Removed(offs[f])
      invariant from <= f <= count && forall k :: from <= k < f ==> !Removed(offs[k])
    {
      f := f + 1;
    }
  }

  /** `Find first inuse offset after first_freed`. */
  method FindInuse(offs: array<u32>, freed: nat, count: nat) returns (u: nat)
    requires freed < count <= offs.Length && Removed(offs[..count][freed])
    ensures freed < u <= count && (forall k :: freed <= k < u ==> Removed(offs[..count][k]))
    ensures u < count ==> !Removed(offs[..count][u])
  {
    u := freed + 1;
    while u < count && Removed(offs[u])
      invariant freed < u <= count && forall k :: freed <= k < u ==> Removed(offs[k])
    {
      u := u + 1;
    }
  }

  function Swapped(s: seq<u32>, i: nat, j: nat): (r: seq<u32>)
    requires i < |s| && j < |s|
  {
    s[i := s[j]][j := s[i]]
  }

  ghost predicate AllBelow(offs: seq<u32>, n: nat) {
    forall k :: 0 <= k < |offs| ==> Pos(offs[k]) < n
  }

  lemma MarkedNone(b: seq<u8>, offs: seq<u32>)
    ensures Marked(b, offs[..0]) == b
  {
    assert offs[..0] == [];
  }

  method SwapAt(a: array<u32>, i: nat, j: nat, n: nat)
    requires i < j < n <= a.Length
    modifies a
    ensures a[..n] == Swapped(old(a[..n]), i, j)
  {
    var tmp := a[j];
    a[j] := a[i];
    a[i] := tmp;
  }

  /** The loop state over three parallel arrays. */
  ghost predicate PartInv(o0: seq<u32>, s0: seq<u32>, i0: seq<u32>, o: seq<u32>, s: seq<u32>,
    i: seq<u32>, f: nat, g: nat)
  {
    && Parted(o0, o0, o, f, g) && Parted(s0, o0, s, f, g) && Parted(i0, o0, i, f, g)
    && GapFlagged(o0, o, f, g)
  }

  function Reached(f: nat, g: nat, f2: nat): nat {
    if f < f2 then f2 else g
  }

  lemma ToFreed(o0: seq<u32>, s0: seq<u32>, i0: seq<u32>, o: seq<u32>, s: seq<u32>, i: seq<u32>,
    f: nat, g: nat, f2: nat)
    requires PartInv(o0, s0, i0, o, s, i, f, g)
    requires f <= f2 <= |o| && forall k :: f <= k < f2 ==> !Removed(o[k])
    ensures PartInv(o0, s0, i0, o, s, i, f2, Reached(f, g, f2))
    ensures f2 == |o| ==> Reached(f, g, f2) == |o|
  {
    PassLive(o0, o0, o, o, f, g, f2);
    PassLive(s0, o0, s, o, f, g, f2);
    PassLive(i0, o0, i, o, f, g, f2);
  }

  lemma ToInuse(o0: seq<u32>, s0: seq<u32>, i0: seq<u32>, o: seq<u32>, s: seq<u32>, i: seq<u32>, f: nat, g: nat, u: nat)
    requires PartInv(o0, s0, i0, o, s, i, f, g)
    requires f < u <= |o| && (forall k :: f <= k < u ==> Removed(o[k])) && (u < |o| ==> !Removed(o[u]))
    ensures PartInv(o0, s0, i0, o, s, i, f, u)
  {
    assert g <= u;
    PassFlagged(o0, o0, o, o, f, g, u);
    PassFlagged(s0, o0, s, o, f, g, u);
    PassFlagged(i0, o0, i, o, f, g, u);
  }

  lemma ToSwapped(o0: seq<u32>, s0: seq<u32>, i0: seq<u32>, o: seq<u32>, s: seq<u32>, i: seq<u32>, f: nat, u: nat)
    requires PartInv(o0, s0, i0, o, s, i, f, u)
    requires f < u < |o| && !Removed(o[u])
    ensures |s| == |o| == |i| == |o0| && o[u..] == o0[u..]
    ensures PartInv(o0, s0, i0, Swapped(o, f, u), Swapped(s, f, u), Swapped(i, f, u), f + 1, u + 1)
  {
    assert o[u] == o[u..][0] && o0[u] == o0[u..][0];
    PartedNext(o0, o0, o, o, f, u);
    PartedNext(s0, o0, s, o, f, u);
    PartedNext(i0, o0, i, o, f, u);
    GapNext(o0, o, f, u);
  }

  lemma InvStart(o0: seq<u32>, s0: seq<u32>, i0: seq<u32>)
    requires |o0| == |s0| == |i0|
    ensures PartInv(o0, s0, i0, o0, s0, i0, 0, 0)
  {
    PartedStart(o0, o0);
    PartedStart(s0, o0);
    PartedStart(i0, o0);
  }

  lemma InvEnd(o0: seq<u32>, s0: seq<u32>, i0: seq<u32>, o: seq<u32>, s: seq<u32>, i: seq<u32>, f: nat)
    requires PartInv(o0, s0, i0, o, s, i, f, |o0|)
    ensures f <= |o| && o[..f] == SelectLive(o0) && s[..f] == Select(s0, o0) && i[..f] == Select(i0, o0)
  {
    PartedEnd(o0, o0, o, f);
    PartedEnd(s0, o0, s, f);
    PartedEnd(i0, o0, i, f);
  }

  /** The loop over `predicts_`. */
  method PartitionOne(offs: array<u32>, count: nat) returns (firstFreed: nat)
    requires count <= offs.Length
    modifies offs
    ensures firstFreed <= count && offs[..count][..firstFreed] == SelectLive(old(offs[..count]))
  {
    hide *;
    ghost var o0 := offs[..count];
    ghost var g := 0;
    firstFreed := 0;
    InvStart(o0, o0, o0);
    while firstFreed < count
      invariant PartInv(o0, o0, o0, offs[..count], offs[..count], offs[..count], firstFreed, g)
      invariant firstFreed <= count && (firstFreed == count ==> g == count)
    {
      ghost var f, now := firstFreed, offs[..count];
      firstFreed := FindFreed(offs, firstFreed, count);
      assert offs[..count] == now;
      ToFreed(o0, o0, o0, now, now, now, f, g, firstFreed);
      g := Reached(f, g, firstFreed);
      if firstFreed >= count {
        break;
      }
      var firstInuse := FindInuse(offs, firstFreed, count);
      assert offs[..count] == now;
      ToInuse(o0, o0, o0, now, now, now, firstFreed, g, firstInuse);
      g := firstInuse;
      if firstInuse >= count {
        break;
      }
      ToSwapped(o0, o0, o0, now, now, now, firstFreed, g);
      SwapAt(offs, firstFreed, firstInuse, count);
      assert offs[..count] == Swapped(now, firstFreed, firstInuse);
      firstFreed, g := firstFreed + 1, g + 1;
    }
    InvEnd(o0, o0, o0, offs[..count], offs[..count], offs[..count], firstFreed);
  }
  lemma MarkedTwice(b: seq<u8>, x: seq<u32>, y: seq<u32>, z: seq<u32>)
    requires DeadSet(z) == DeadSet(x) + DeadSet(y)
    ensures Marked(Marked(b, x), y) == Marked(b, z)
  {
  }

  lemma DeadSetLive(o0: seq<u32>, o: seq<u32>, f: nat, g: nat, f2: nat)
    requires |o0| == |o| && f <= g <= |o0| && f <= f2 <= |o| && o[g..] == o0[g..]
    requires (f < f2 ==> f == g) && forall k :: f <= k < f2 ==> !Removed(o[k])
    ensures DeadSet(o0[..Reached(f, g, f2)]) == DeadSet(o0[..g])
  {
    if f < f2 {
      forall k | g <= k < f2 ensures !Removed(o0[k]) {
        assert o[k] == o[g..][k - g] == o0[g..][k - g];
      }
    }
  }

  lemma DeadSetFlagged(o0: seq<u32>, o: seq<u32>, f: nat, g: nat, u: nat)
    requires GapFlagged(o0, o, f, g) && g <= u <= |o| && f <= u && o[g..] == o0[g..]
    ensures DeadSet(o0[..u]) == DeadSet(o0[..g]) + DeadSet(o[f..u])
  {
    forall x | x in o0[..u] ensures x in o0[..g] || x in o[f..u] {
      var k :| 0 <= k < u && o0[k] == x;
      if g <= k {
        assert o[f..u][k - f] == o[k] == o[g..][k - g] == o0[g..][k - g];
      }
    }
    forall x | x in o[f..u] ensures x in o0[..u] {
      var k :| f <= k < u && o[k] == x;
      if g <= k {
        assert o[k] == o[g..][k - g] == o0[g..][k - g] == o0[k];
        assert o0[..u][k] == x;
      } else {
        assert x in o0[..g];
      }
    }
  }

  /** `Find first inuse offset after first_freed`, saving the flag of every flagged offset passed. */
  method FindInuseMarking(offs: array<u32>, freed: nat, count: nat, lemmas: array<u8>, n: nat) returns (u: nat)
    requires freed < count <= offs.Length && Removed(offs[..count][freed]) && n <= lemmas.Length
    requires AllBelow(offs[..count], n)
    modifies lemmas
    ensures freed < u <= count && (forall k :: freed <= k < u ==> Removed(offs[..count][k]))
    ensures u < count ==> !Removed(offs[..count][u])
    ensures lemmas[..n] == Marked(old(lemmas[..n]), offs[..count][freed..u])
  {
    hide Marked;
    ghost var o, b := offs[..count], lemmas[..n];
    MarkFrom(b, o, freed, freed);
    MarkRecord(lemmas, n, offs[freed]);
    u := freed + 1;
    while u < count && Removed(offs[u])
      invariant freed < u <= count && offs[..count] == o
      invariant forall k :: freed <= k < u ==> Removed(o[k])
      invariant lemmas[..n] == Marked(b, o[freed..u])
    {
      MarkFrom(b, o, freed, u);
      MarkRecord(lemmas, n, offs[u]);
      u := u + 1;
    }
  }

  /** The block when the first g entries were examined. */
  ghost predicate MarkInv(o0: seq<u32>, o: seq<u32>, b0: seq<u8>, b: seq<u8>, g: nat) {
    g <= |o0| && b == Marked(b0, o0[..g]) && AllBelow(o, |b|)
  }

  lemma MarkToFreed(o0: seq<u32>, s0: seq<u32>, i0: seq<u32>, o: seq<u32>, s: seq<u32>, i: seq<u32>, f: nat, g: nat,
                    f2: nat, b0: seq<u8>, b: seq<u8>)
    requires PartInv(o0, s0, i0, o, s, i, f, g) && MarkInv(o0, o, b0, b, g)
    requires f <= f2 <= |o| && forall k :: f <= k < f2 ==> !Removed(o[k])
    ensures MarkInv(o0, o, b0, b, Reached(f, g, f2))
  {
    PassLive(o0, o0, o, o, f, g, f2);
    DeadSetLive(o0, o, f, g, f2);
  }

  lemma MarkToInuse(o0: seq<u32>, s0: seq<u32>, i0: seq<u32>, o: seq<u32>, s: seq<u32>, i: seq<u32>, f: nat, g: nat,
                    u: nat, b0: seq<u8>, b: seq<u8>, b': seq<u8>)
    requires PartInv(o0, s0, i0, o, s, i, f, g) && MarkInv(o0, o, b0, b, g)
    requires f < u <= |o| && (forall k :: f <= k < u ==> Removed(o[k])) && (u < |o| ==> !Removed(o[u]))
    requires b' == Marked(b, o[f..u])
    ensures MarkInv(o0, o, b0, b', u)
  {
    assert g <= u;
    DeadSetFlagged(o0, o, f, g, u);
    MarkedTwice(b0, o0[..g], o[f..u], o0[..u]);
  }

  lemma MarkToSwapped(o0: seq<u32>, o: seq<u32>, f: nat, u: nat, b0: seq<u8>, b: seq<u8>)
    requires f < u < |o| == |o0| && !Removed(o[u]) && o[u..] == o0[u..] && MarkInv(o0, o, b0, b, u)
    ensures MarkInv(o0, Swapped(o, f, u), b0, b, u + 1)
  {
    assert o[u] == o[u..][0] == o0[u..][0];
    assert o0[..u + 1] == o0[..u] + [o0[u]];
    assert DeadSet(o0[..u + 1]) == DeadSet(o0[..u]);
  }

  method SwapThree(offs: array<u32>, scores: array<u32>, ids: array<u32>, f: nat, u: nat, n: nat)
    requires f < u < n && n <= offs.Length && n <= scores.Length && n <= ids.Length
    requires offs != scores && offs != ids && scores != ids
    modifies offs, scores, ids
    ensures offs[..n] == Swapped(old(offs[..n]), f, u)
    ensures scores[..n] == Swapped(old(scores[..n]), f, u)
    ensures ids[..n] == Swapped(old(ids[..n]), f, u)
  {
    SwapAt(offs, f, u, n);
    SwapAt(scores, f, u, n);
    SwapAt(ids, f, u, n);
  }

  /** The loop over `offsets_`, `scores_` and `ids_`. */
  method PartitionAll(offs: array<u32>, scores: array<u32>, ids: array<u32>, count: nat, lemmas: array<u8>, n: nat)
    returns (firstFreed: nat)
    requires count <= offs.Length && count <= scores.Length && count <= ids.Length && n <= lemmas.Length
    requires offs != scores && offs != ids && scores != ids
    requires AllBelow(offs[..count], n)
    modifies offs, scores, ids, lemmas
    ensures firstFreed <= count && offs[..count][..firstFreed] == SelectLive(old(offs[..count]))
    ensures scores[..count][..firstFreed] == Select(old(scores[..count]), old(offs[..count]))
    ensures ids[..count][..firstFreed] == Select(old(ids[..count]), old(offs[..count]))
    ensures lemmas[..n] == Marked(old(lemmas[..n]), old(offs[..count]))
  {
    hide *;
    ghost var o0, s0, i0, b0 := offs[..count], scores[..count], ids[..count], lemmas[..n];
    ghost var g := 0;
    firstFreed := 0;
    InvStart(o0, s0, i0);
    MarkStart(o0, b0);
    while firstFreed < count
      invariant PartInv(o0, s0, i0, offs[..count], scores[..count], ids[..count], firstFreed, g)
      invariant MarkInv(o0, offs[..count], b0, lemmas[..n], g)
      invariant firstFreed <= count && (firstFreed == count ==> g == count)
    {
      ghost var f, o, s, i, b := firstFreed, offs[..count], scores[..count], ids[..count], lemmas[..n];
      firstFreed := FindFreed(offs, firstFreed, count);
      assert offs[..count] == o && scores[..count] == s && ids[..count] == i && lemmas[..n] == b;
      ToFreed(o0, s0, i0, o, s, i, f, g, firstFreed);
      MarkToFreed(o0, s0, i0, o, s, i, f, g, firstFreed, b0, b);
      g := Reached(f, g, firstFreed);
      if firstFreed >= count {
        break;
      }
      var firstInuse := FindInuseMarking(offs, firstFreed, count, lemmas, n);
      assert offs[..count] == o && scores[..count] == s && ids[..count] == i;
      ToInuse(o0, s0, i0, o, s, i, firstFreed, g, firstInuse);
      MarkToInuse(o0, s0, i0, o, s, i, firstFreed, g, firstInuse, b0, b, lemmas[..n]);
      g := firstInuse;
      if firstInuse >= count {
        break;
      }
      ToSwapped(o0, s0, i0, o, s, i, firstFreed, g);
      MarkToSwapped(o0, o, firstFreed, g, b0, lemmas[..n]);
      SwapThree(offs, scores, ids, firstFreed, firstInuse, count);
      firstFreed, g := firstFreed + 1, g + 1;
    }
    InvEnd(o0, s0, i0, offs[..count], scores[..count], ids[..count], firstFreed);
    MarkEnd(o0, offs[..count], b0, lemmas[..n]);
  }

  lemma MarkStart(o0: seq<u32>, b0: seq<u8>)
    requires AllBelow(o0, |b0|)
    ensures MarkInv(o0, o0, b0, b0, 0)
  {
    MarkedNone(b0, o0);
  }

  lemma MarkEnd(o0: seq<u32>, o: seq<u32>, b0: seq<u8>, b: seq<u8>)
    requires MarkInv(o0, o, b0, b, |o0|)
    ensures b == Marked(b0, o0)
  {
    assert o0[..|o0|] == o0;
  }
}
