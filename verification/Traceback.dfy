/** From the best node of the last row back to the start: the segmentation into spellings and lemmas, recovered
    backwards and reversed in place. */
module Traceback {
  import opened Bytes
  import opened LatticeRow
  import opened Lattice

  // ---- Exclusive or ----

  function Xor(a: nat, b: nat): (c: nat)
    decreases a + b
  {
    if a == 0 && b == 0 then 0 else (if a % 2 == b % 2 then 0 else 1) + 2 * Xor(a / 2, b / 2)
  }

  lemma {:induction false} XorCommutes(a: nat, b: nat)
    ensures Xor(a, b) == Xor(b, a)
    decreases a + b
  {
    if a != 0 || b != 0 {
      XorCommutes(a / 2, b / 2);
    }
  }

  lemma {:induction false} XorUndone(a: nat, b: nat)
    ensures Xor(Xor(a, b), b) == a
    decreases a + b
  {
    if a != 0 || b != 0 {
      XorUndone(a / 2, b / 2);
      var c, d := Xor(a, b), Xor(a / 2, b / 2);
      assert c % 2 == (if a % 2 == b % 2 then 0 else 1) && c / 2 == d;
    }
  }

  /** Three exclusive ors exchange two values. */
  lemma XorSwap(a: nat, b: nat)
    ensures var x := Xor(a, b); var y := Xor(b, x); y == a && Xor(x, y) == b
  {
    XorCommutes(a, b);
    XorUndone(b, a);
    XorUndone(a, b);
    XorCommutes(b, Xor(a, b));
  }

  // ---- Reversing in place ----

  function Reversed(s: seq<nat>): (r: seq<nat>)
    ensures |r| == |s|
  {
    seq(|s|, i requires 0 <= i < |s| => s[|s| - 1 - i])
  }

  lemma ReversedConcat(s: seq<nat>, t: seq<nat>)
    ensures Reversed(s + t) == Reversed(t) + Reversed(s)
  {
  }

  lemma ReversedTwice(s: seq<nat>)
    ensures Reversed(Reversed(s)) == s
  {
  }

  /** `a[i] ^= a[j]; a[j] ^= a[i]; a[i] ^= a[j]`. */
  method SwapXor(a: array<nat>, i: nat, j: nat)
    requires i < a.Length && j < a.Length && i != j
    modifies a
    ensures a[..] == old(a[..])[i := old(a[j])][j := old(a[i])]
  {
    XorSwap(a[i], a[j]);
    hide Xor;
    a[i] := Xor(a[i], a[j]);
    a[j] := Xor(a[j], a[i]);
    a[i] := Xor(a[i], a[j]);
  }

  /** The first k and the last k entries of a[lo..hi] have changed places. */
  ghost predicate HalfReversed(was: seq<nat>, now: seq<nat>, lo: nat, hi: nat, k: nat) {
    && |was| == |now| && lo <= hi <= |was| && k <= (hi - lo + 1) / 2
    && (forall i :: 0 <= i < |was| && !(lo <= i < hi) ==> now[i] == was[i])
    && (forall i :: lo <= i < hi && (i < lo + k || hi - k <= i) ==> now[i] == Mirror(was, lo, hi, i))
    && (forall i :: lo + k <= i < hi - k ==> now[i] == was[i])
  }

  function Mirror(s: seq<nat>, lo: nat, hi: nat, i: nat): (x: nat)
    requires lo <= i < hi <= |s|
  {
    s[lo + hi - 1 - i]
  }

  lemma ReverseStep(was: seq<nat>, now: seq<nat>, lo: nat, hi: nat, k: nat)
    requires HalfReversed(was, now, lo, hi, k) && k < (hi - lo + 1) / 2
    ensures lo + k <= hi - 1 - k < |now|
    ensures lo + k == hi - 1 - k ==> HalfReversed(was, now, lo, hi, k + 1)
    ensures lo + k != hi - 1 - k ==>
              HalfReversed(was, now[lo + k := now[hi - 1 - k]][hi - 1 - k := now[lo + k]], lo, hi, k + 1)
  {
  }

  lemma ReverseEnd(was: seq<nat>, now: seq<nat>, lo: nat, hi: nat)
    requires lo <= hi && HalfReversed(was, now, lo, hi, (hi - lo + 1) / 2)
    ensures lo <= hi <= |was| == |now|
    ensures now[..lo] == was[..lo] && now[hi..] == was[hi..] && now[lo..hi] == Reversed(was[lo..hi])
  {
    forall i | lo <= i < hi ensures now[i] == Mirror(was, lo, hi, i) {
    }
    assert forall i ::
             0 <= i < hi - lo ==>
               now[lo..hi][i] == now[lo + i] && Mirror(was, lo, hi, lo + i) == was[lo..hi][hi - lo - 1 - i];
  }

  /** The reversing loops: ends and ids are reversed together, the ends one place further on. */
  method ReverseBoth(ends: array<nat>, ids: array<nat>, fixed: nat, num: nat)
    requires fixed <= num && num + 1 <= ends.Length && num <= ids.Length && ends != ids
    modifies ends, ids
    ensures ends[..fixed + 1] == old(ends[..fixed + 1]) && ids[..fixed] == old(ids[..fixed])
    ensures ends[fixed + 1..num + 1] == Reversed(old(ends[fixed + 1..num + 1]))
      && ids[fixed..num] == Reversed(old(ids[fixed..num]))
  {
    hide *;
    ghost var es, xs := ends[..], ids[..];
    ReverseStart(es, fixed + 1, num + 1);
    ReverseStart(xs, fixed, num);
    var pos := fixed;
    while pos < fixed + (num - fixed + 1) / 2
      invariant fixed <= pos <= fixed + (num - fixed + 1) / 2
      invariant HalfReversed(es, ends[..], fixed + 1, num + 1, pos - fixed)
        && HalfReversed(xs, ids[..], fixed, num, pos - fixed)
    {
      if num + fixed - pos != pos + 1 {
        SwapStep(ends, fixed + 1, num + 1, pos - fixed, es);
        SwapStep(ids, fixed, num, pos - fixed, xs);
      } else {
        ReverseStep(es, ends[..], fixed + 1, num + 1, pos - fixed);
        ReverseStep(xs, ids[..], fixed, num, pos - fixed);
      }
      pos := pos + 1;
    }
    ReverseEnd(es, ends[..], fixed + 1, num + 1);
    ReverseEnd(xs, ids[..], fixed, num);
    Slices(ends[..], fixed + 1, num + 1);
    Slices(ids[..], fixed, num);
  }

  /** Entry k from the front and entry k from the back are exchanged. */
  method SwapStep(a: array<nat>, lo: nat, hi: nat, k: nat, ghost was: seq<nat>)
    requires lo <= hi <= a.Length && k < (hi - lo + 1) / 2 && lo + k != hi - 1 - k
      && HalfReversed(was, a[..], lo, hi, k)
    modifies a
    ensures HalfReversed(was, a[..], lo, hi, k + 1)
  {
    hide *;
    ReverseStep(was, a[..], lo, hi, k);
    SwapXor(a, lo + k, hi - 1 - k);
  }

  lemma Slices(s: seq<nat>, lo: nat, hi: nat)
    requires lo <= hi <= |s|
    ensures s[..lo] == s[..hi][..lo] && s[lo..hi] == s[..hi][lo..]
  {
  }

  lemma ReverseStart(s: seq<nat>, lo: nat, hi: nat)
    requires lo <= hi <= |s|
    ensures HalfReversed(s, s, lo, hi, 0)
  {
  }

  // ---- From suffix counts to start positions ----

  function Sum(s: seq<nat>): (n: nat) {
    if s == [] then 0 else s[0] + Sum(s[1..])
  }

  lemma {:induction false} SumConcat(s: seq<nat>, t: seq<nat>)
    ensures Sum(s + t) == Sum(s) + Sum(t)
  {
    if s == [] {
      assert s + t == t;
    } else {
      SumConcat(s[1..], t);
      assert (s + t)[1..] == s[1..] + t;
    }
  }

  /** Where each lemma ends, counted in spellings from the front. */
  function Starts(base: nat, lens: seq<nat>): (r: seq<nat>)
    ensures |r| == |lens| && forall i :: 0 <= i < |lens| ==> r[i] == base + Sum(lens[..i + 1])
  {
    seq(|lens|, i requires 0 <= i < |lens| => base + Sum(lens[..i + 1]))
  }

  /** What the walk leaves there: spellings counted from the back. */
  function Suffixes(base: nat, lens: seq<nat>): (r: seq<nat>)
    ensures |r| == |lens| && forall i :: 0 <= i < |lens| ==> r[i] == base + Sum(lens[i..])
  {
    seq(|lens|, i requires 0 <= i < |lens| => base + Sum(lens[i..]))
  }

  lemma SuffixStep(lens: seq<nat>, i: nat)
    requires i < |lens|
    ensures Sum(lens[i..]) == lens[i] + Sum(lens[i + 1..]) && Sum(lens[..i + 1]) == Sum(lens[..i]) + lens[i]
  {
    assert lens[i..][1..] == lens[i + 1..];
    SumConcat(lens[..i], [lens[i]]);
    assert lens[..i + 1] == lens[..i] + [lens[i]];
  }

  /** Before position pos the counts are turned, from pos on they are as they were. */
  ghost predicate Turned(was: seq<nat>, now: seq<nat>, fixed: nat, lens: seq<nat>, base: nat, pos: nat) {
    && |was| == |now| && fixed < pos <= fixed + |lens| + 1 <= |was|
    && was[fixed] == base && was[fixed + 1..fixed + |lens| + 1] == Suffixes(base, lens)
    && now[..fixed + 1] == was[..fixed + 1] && now[pos..] == was[pos..]
    && now[fixed + 1..pos] == Starts(base, lens)[..pos - fixed - 1]
  }

  lemma TurnedStep(was: seq<nat>, now: seq<nat>, fixed: nat, lens: seq<nat>, base: nat, pos: nat)
    requires Turned(was, now, fixed, lens, base, pos) && pos <= fixed + |lens|
    ensures pos < |now| && now[fixed] == base && now[pos - 1] >= base
    ensures pos < fixed + |lens| ==>
              && pos + 1 < |now| && now[pos] >= now[pos + 1]
              && Turned(was, now[pos := now[pos - 1] + (now[pos] - now[pos + 1])], fixed, lens, base, pos + 1)
    ensures pos == fixed + |lens| ==>
              now[pos] >= base && Turned(was, now[pos := now[pos - 1] + now[pos] - base], fixed, lens, base, pos + 1)
  {
    hide *;
    var i := pos - fixed - 1;
    TurnedGives(was, now, fixed, lens, base, pos);
    TurnedAt(was, now, fixed, lens, base, pos);
    SuffixStep(lens, i);
    if pos < fixed + |lens| {
      var x: nat := now[pos - 1] + (now[pos] - now[pos + 1]);
      TurnedOne(was, now, fixed, lens, base, pos, x);
    } else {
      SumEmpty(lens[i + 1..]);
      var x: nat := now[pos - 1] + now[pos] - base;
      TurnedOne(was, now, fixed, lens, base, pos, x);
    }
  }

  lemma SumEmpty(s: seq<nat>)
    ensures s == [] ==> Sum(s) == 0
  {
  }

  /** The entries that the turn at position pos reads. */
  lemma TurnedAt(was: seq<nat>, now: seq<nat>, fixed: nat, lens: seq<nat>, base: nat, pos: nat)
    requires Turned(was, now, fixed, lens, base, pos) && pos <= fixed + |lens|
    ensures |now| > pos && now[fixed] == base && now[pos - 1] == base + Sum(lens[..pos - fixed - 1])
      && now[pos] == base + Sum(lens[pos - fixed - 1..])
    ensures pos < fixed + |lens| ==> |now| > pos + 1 && now[pos + 1] == base + Sum(lens[pos - fixed..])
  {
    hide *;
    TurnedGives(was, now, fixed, lens, base, pos);
    var i, end := pos - fixed - 1, fixed + |lens| + 1;
    SliceAt(now, 0, fixed + 1, fixed);
    SliceAt(was, 0, fixed + 1, fixed);
    SliceAt(now, pos, |now|, 0);
    SliceAt(was, pos, |was|, 0);
    SliceAt(was, fixed + 1, end, i);
    CountsAt(base, lens, i);
    if i == 0 {
      SumEmpty(lens[..0]);
    } else {
      SliceAt(now, fixed + 1, pos, i - 1);
      SliceAt(Starts(base, lens), 0, i, i - 1);
      CountsAt(base, lens, i - 1);
    }
    if pos < fixed + |lens| {
      SliceAt(now, pos, |now|, 1);
      SliceAt(was, pos, |was|, 1);
      SliceAt(was, fixed + 1, end, i + 1);
      CountsAt(base, lens, i + 1);
    }
  }

  lemma SliceAt(s: seq<nat>, a: nat, b: nat, i: nat)
    requires a <= b <= |s| && i < b - a
    ensures s[a..b][i] == s[a + i]
    ensures b == |s| ==> s[a..][i] == s[a + i]
    ensures a == 0 ==> s[..b][i] == s[i]
  {
  }

  lemma TurnedGives(was: seq<nat>, now: seq<nat>, fixed: nat, lens: seq<nat>, base: nat, pos: nat)
    requires Turned(was, now, fixed, lens, base, pos)
    ensures |was| == |now| && fixed < pos <= fixed + |lens| + 1 <= |was| && was[fixed] == base
    ensures now[..fixed + 1] == was[..fixed + 1] && now[pos..] == was[pos..]
    ensures was[fixed + 1..fixed + |lens| + 1] == Suffixes(base, lens)
      && now[fixed + 1..pos] == Starts(base, lens)[..pos - fixed - 1]
  {
    hide Starts, Suffixes;
  }

  lemma CountsAt(base: nat, lens: seq<nat>, i: nat)
    requires i < |lens|
    ensures Suffixes(base, lens)[i] == base + Sum(lens[i..]) && Starts(base, lens)[i] == base + Sum(lens[..i + 1])
  {
  }

  lemma TurnedOne(was: seq<nat>, now: seq<nat>, fixed: nat, lens: seq<nat>, base: nat, pos: nat, x: nat)
    requires Turned(was, now, fixed, lens, base, pos) && pos <= fixed + |lens| && x == base + Sum(lens[..pos - fixed])
    ensures Turned(was, now[pos := x], fixed, lens, base, pos + 1)
  {
    var next := now[pos := x];
    assert next[..fixed + 1] == now[..fixed + 1] && next[pos + 1..] == now[pos..][1..]
           && was[pos + 1..] == was[pos..][1..];
    assert next[fixed + 1..pos + 1] == now[fixed + 1..pos] + [x];
    hide Sum, Suffixes;
    assert Starts(base, lens)[..pos - fixed] == Starts(base, lens)[..pos - fixed - 1] + [x];
  }

  lemma TurnedStart(was: seq<nat>, fixed: nat, lens: seq<nat>, base: nat)
    requires fixed + |lens| + 1 <= |was| && was[fixed] == base
      && was[fixed + 1..fixed + |lens| + 1] == Suffixes(base, lens)
    ensures Turned(was, was, fixed, lens, base, fixed + 1)
  {
  }

  lemma TurnedEnd(was: seq<nat>, now: seq<nat>, fixed: nat, lens: seq<nat>, base: nat)
    requires Turned(was, now, fixed, lens, base, fixed + |lens| + 1)
    ensures |was| == |now| >= fixed + |lens| + 1 && now[..fixed + 1] == was[..fixed + 1]
    ensures now[fixed + 1..fixed + |lens| + 1] == Starts(base, lens)
  {
  }

  /** The loop that turns suffix counts into start positions, in place. */
  method CountForward(lmaStart: array<nat>, fixed: nat, num: nat, ghost lens: seq<nat>, ghost base: nat)
    requires fixed + |lens| == num < lmaStart.Length && lmaStart[fixed] == base
    requires lmaStart[fixed + 1..num + 1] == Suffixes(base, lens)
    modifies lmaStart
    ensures lmaStart[..fixed + 1] == old(lmaStart[..fixed + 1]) && lmaStart[fixed + 1..num + 1] == Starts(base, lens)
  {
    hide *;
    ghost var was := lmaStart[..];
    assert was[fixed + 1..num + 1] == lmaStart[fixed + 1..num + 1];
    TurnedStart(was, fixed, lens, base);
    var pos := fixed + 1;
    while pos <= num
      invariant fixed + 1 <= pos <= num + 1 && Turned(was, lmaStart[..], fixed, lens, base, pos)
    {
      TurnedStep(was, lmaStart[..], fixed, lens, base, pos);
      if pos < num {
        lmaStart[pos] := lmaStart[pos - 1] + (lmaStart[pos] - lmaStart[pos + 1]);
      } else {
        lmaStart[pos] := lmaStart[pos - 1] + lmaStart[pos] - lmaStart[fixed];
      }
      pos := pos + 1;
    }
    TurnedEnd(was, lmaStart[..], fixed, lens, base);
    assert lmaStart[..][fixed + 1..num + 1] == lmaStart[fixed + 1..num + 1]
           && lmaStart[..][..fixed + 1] == lmaStart[..fixed + 1];
  }

  // ---- The segmentation that a node stands for ----

  /** Where the spellings of match d end, when the word starts at `start`. */
  function EndsOf(dmis: seq<Dmi>, d: nat, start: nat): (r: seq<nat>)
    requires d < |dmis|
    ensures |r| == |PathIds(dmis, d)|
    decreases d
  {
    (if 0 <= dmis[d].fr < d then EndsOf(dmis, dmis[d].fr, start) else []) + [start + dmis[d].splLen]
  }

  /** Node n comes after position `stop`, and its links are in range. */
  predicate Linked(l: Lat, n: nat, stop: nat) {
    && n < |l.nodes| && l.nodes[n].step > stop && 0 <= l.nodes[n].from < n && 0 <= l.nodes[n].dmi < |l.dmis|
    && l.dmis[l.nodes[n].dmi].splLen <= l.nodes[n].step
  }

  /** The spelling ids from position `stop` to node n, front to back. */
  function SplIdsTo(l: Lat, n: nat, stop: nat): (r: seq<nat>) {
    if !Linked(l, n, stop) then [] else SplIdsTo(l, l.nodes[n].from, stop) + PathIds(l.dmis, l.nodes[n].dmi)
  }

  /** Where each of them ends. */
  function SplEndsTo(l: Lat, n: nat, stop: nat): (r: seq<nat>)
    ensures |r| == |SplIdsTo(l, n, stop)|
  {
    if !Linked(l, n, stop) then []
    else SplEndsTo(l, l.nodes[n].from, stop) + EndsOf(l.dmis, l.nodes[n].dmi,
      l.nodes[n].step - l.dmis[l.nodes[n].dmi].splLen)
  }

  /** The lemmas, and how many spellings each has. */
  function LmaIdsTo(l: Lat, n: nat, stop: nat): (r: seq<nat>) {
    if !Linked(l, n, stop) then [] else LmaIdsTo(l, l.nodes[n].from, stop) + [l.nodes[n].id]
  }

  function LmaLensTo(l: Lat, n: nat, stop: nat): (r: seq<nat>)
    ensures |r| == |LmaIdsTo(l, n, stop)|
  {
    if !Linked(l, n, stop) then [] else LmaLensTo(l, l.nodes[n].from, stop) + [|PathIds(l.dmis, l.nodes[n].dmi)|]
  }

  lemma {:induction false} LensSum(l: Lat, n: nat, stop: nat)
    ensures Sum(LmaLensTo(l, n, stop)) == |SplIdsTo(l, n, stop)|
    decreases n
  {
    if Linked(l, n, stop) {
      LensSum(l, l.nodes[n].from, stop);
      SumConcat(LmaLensTo(l, l.nodes[n].from, stop), [|PathIds(l.dmis, l.nodes[n].dmi)|]);
    }
  }

  lemma {:induction false} LensPositive(l: Lat, n: nat, stop: nat)
    ensures forall i :: 0 <= i < |LmaLensTo(l, n, stop)| ==> LmaLensTo(l, n, stop)[i] > 0
    decreases n
  {
    if Linked(l, n, stop) {
      LensPositive(l, l.nodes[n].from, stop);
    }
  }

  lemma {:induction false} CountBelowSum(s: seq<nat>)
    requires forall i :: 0 <= i < |s| ==> s[i] > 0
    ensures |s| <= Sum(s)
  {
    if s != [] {
      CountBelowSum(s[1..]);
    }
  }

  lemma NodeLinked(lex: Lexicon, l: Lat, r: nat, n: nat)
    requires LatOk(lex, l) && r <= |l.pys| && NodeIn(l, r, n)
    ensures n < |l.nodes| && l.nodes[n].step == r
    ensures r > 0 ==>
              0 <= l.nodes[n].from < n && 0 <= l.nodes[n].dmi < |l.dmis| && 1 <= l.dmis[l.nodes[n].dmi].splLen <= r
                      && DmiIn(l, r, l.nodes[n].dmi) && NodeIn(l, r - l.dmis[l.nodes[n].dmi].splLen, l.nodes[n].from)
    ensures r == 0 ==> n == 0
  {
    assert RowOk(lex, l, r);
    if r > 0 {
      assert NodeOk(lex, l, r, n) && DmiOk(lex, l, r, l.nodes[n].dmi);
      RowsOrdered(l, r - l.dmis[l.nodes[n].dmi].splLen, r);
    }
  }

  // ---- What the segmentation says ----

  /** The spellings end one after the other, the last one at `stop`, and each one parses the characters from the end
      of the one before it. */
  ghost predicate Segments(lex: Lexicon, pys: seq<u8>, start: nat, ids: seq<nat>, ends: seq<nat>, stop: nat) {
    && |ids| == |ends| && start <= stop <= |pys| && (ends == [] ==> start == stop)
       && (ends != [] ==> ends[|ends| - 1] == stop)
    && forall i {:trigger ids[i]} :: 0 <= i < |ends| ==> Spelled(lex, pys, From(start, ends, i), ids[i], ends[i])
  }

  /** The characters from p to q are parsed to this id. */
  ghost predicate Spelled(lex: Lexicon, pys: seq<u8>, p: nat, id: nat, q: nat) {
    p < q <= |pys| && lex.parse(pys[p..q]).0 == id
  }

  function From(start: nat, ends: seq<nat>, i: nat): (n: nat)
    requires i < |ends|
  {
    if i == 0 then start else ends[i - 1]
  }

  lemma SegmentsJoin(lex: Lexicon, pys: seq<u8>, a: nat, ids: seq<nat>, ends: seq<nat>, b: nat, ids': seq<nat>,
    ends': seq<nat>, c: nat)
    requires Segments(lex, pys, a, ids, ends, b) && Segments(lex, pys, b, ids', ends', c)
    ensures Segments(lex, pys, a, ids + ids', ends + ends', c)
  {
    var xs, es := ids + ids', ends + ends';
    hide Spelled;
    forall i | 0 <= i < |es| ensures Spelled(lex, pys, From(a, es, i), xs[i], es[i]) {
      if i < |ends| {
        assert Spelled(lex, pys, From(a, ends, i), ids[i], ends[i]);
      } else {
        var k := i - |ends|;
        assert Spelled(lex, pys, From(b, ends', k), ids'[k], ends'[k]);
      }
    }
  }

  /** A match segments the characters it covers. */
  lemma {:induction false} MatchSegments(lex: Lexicon, l: Lat, r: nat, d: nat)
    requires LatOk(lex, l) && r <= |l.pys| && DmiIn(l, r, d)
    ensures d < |l.dmis| && l.dmis[d].splLen <= r
    ensures Segments(lex, l.pys, r - l.dmis[d].splLen, PathIds(l.dmis, d), EndsOf(l.dmis, d, r - l.dmis[d].splLen), r)
    decreases d
  {
    hide *;
    MatchUnfolds(lex, l, r, d);
    var x, n := l.dmis[d], LastLen(l, d);
    var q, start := r - n, r - x.splLen;
    LastSegment(lex, l.pys, q, x.splId, r);
    if x.fr != -1 {
      MatchSegments(lex, l, q, x.fr);
      ghost var ids, ends := PathIds(l.dmis, x.fr), EndsOf(l.dmis, x.fr, start);
      assert Segments(lex, l.pys, start, ids, ends, q);
      SegmentsJoin(lex, l.pys, start, ids, ends, q, [x.splId], [r], r);
    }
  }

  lemma MatchUnfolds(lex: Lexicon, l: Lat, r: nat, d: nat)
    requires LatOk(lex, l) && r <= |l.pys| && DmiIn(l, r, d)
    ensures d < |l.dmis| && 1 <= LastLen(l, d) <= l.dmis[d].splLen <= r
      && Spelled(lex, l.pys, r - LastLen(l, d), l.dmis[d].splId, r)
    ensures var x, q, start := l.dmis[d], r - LastLen(l, d), r - l.dmis[d].splLen;
            if x.fr == -1 then PathIds(l.dmis, d) == [x.splId] && EndsOf(l.dmis, d, start) == [r] && q == start
            else && 0 <= x.fr < d && DmiIn(l, q, x.fr) && q - l.dmis[x.fr].splLen == start
                 && PathIds(l.dmis, d) == PathIds(l.dmis, x.fr) + [x.splId]
                 && EndsOf(l.dmis, d, start) == EndsOf(l.dmis, x.fr, start) + [r]
  {
    hide Stacked, RowShape, DmiCovered, NodeOk;
    assert RowOk(lex, l, r) && DmiOk(lex, l, r, d);
    hide LatOk, RowOk;
  }

  lemma LastSegment(lex: Lexicon, pys: seq<u8>, q: nat, id: u16, r: nat)
    requires Spelled(lex, pys, q, id, r)
    ensures Segments(lex, pys, q, [id], [r], r)
  {
  }

  /** The spellings from the start to a node segment the whole input up to its row. */
  lemma {:induction false} WalkSegments(lex: Lexicon, l: Lat, r: nat, n: nat)
    requires LatOk(lex, l) && r <= |l.pys| && NodeIn(l, r, n)
    ensures Segments(lex, l.pys, 0, SplIdsTo(l, n, 0), SplEndsTo(l, n, 0), r)
    decreases n
  {
    NodeLinked(lex, l, r, n);
    if r > 0 {
      var x := l.nodes[n];
      var q := r - l.dmis[x.dmi].splLen;
      WalkSegments(lex, l, q, x.from);
      MatchSegments(lex, l, r, x.dmi);
      SegmentsJoin(lex, l.pys, 0, SplIdsTo(l, x.from, 0), SplEndsTo(l, x.from, 0), q, PathIds(l.dmis, x.dmi),
        EndsOf(l.dmis, x.dmi, q), r);
    }
  }

  /** There are no more spellings than characters. */
  lemma {:induction false} SegmentsBound(lex: Lexicon, pys: seq<u8>, start: nat, ids: seq<nat>,
    ends: seq<nat>, stop: nat)
    requires Segments(lex, pys, start, ids, ends, stop)
    ensures start + |ends| <= stop
    decreases |ends|
  {
    if ends != [] {
      var n := |ends| - 1;
      var p := From(start, ends, n);
      forall i | 0 <= i < n ensures From(start, ends[..n], i) == From(start, ends, i) {
      }
      FirstPositive(lex, pys, start, ids, ends, stop, n);
      SegmentsBound(lex, pys, start, ids[..n], ends[..n], p);
    }
  }

  lemma {:induction false} FirstPositive(lex: Lexicon, pys: seq<u8>, start: nat, ids: seq<nat>,
    ends: seq<nat>, stop: nat, n: nat)
    requires Segments(lex, pys, start, ids, ends, stop) && n < |ends|
    ensures start <= From(start, ends, n) < ends[n]
  {
    hide *;
    SegmentAt(lex, pys, start, ids, ends, stop, n);
    if n > 0 {
      FirstPositive(lex, pys, start, ids, ends, stop, n - 1);
    }
  }

  lemma SegmentAt(lex: Lexicon, pys: seq<u8>, start: nat, ids: seq<nat>, ends: seq<nat>, stop: nat, n: nat)
    requires Segments(lex, pys, start, ids, ends, stop) && n < |ends|
    ensures From(start, ends, n) == (if n == 0 then start else ends[n - 1]) < ends[n]
    ensures n > 0 ==> From(start, ends, n - 1) < ends[n - 1]
  {
    assert Spelled(lex, pys, From(start, ends, n), ids[n], ends[n]);
    if n > 0 {
      assert Spelled(lex, pys, From(start, ends, n - 1), ids[n - 1], ends[n - 1]);
    }
  }

  // ---- get_spl_start_id ----

  lemma ReversedOne(s: seq<nat>, x: nat)
    ensures Reversed(s + [x]) == [x] + Reversed(s)
  {
  }

  lemma WordUnfolds(dmis: seq<Dmi>, d: nat, start: nat)
    requires d < |dmis|
    ensures var f := dmis[d].fr;
            && PathIds(dmis, d) == (if 0 <= f < d then PathIds(dmis, f) else []) + [dmis[d].splId]
            && EndsOf(dmis, d, start) == (if 0 <= f < d then EndsOf(dmis, f, start) else []) + [start + dmis[d].splLen]
  {
  }

  /** The links from match d on lead to earlier matches, down to the root. */
  ghost predicate LinkedBack(dmis: seq<Dmi>, d: int)
    decreases d
  {
    d != -1 ==> 0 <= d < |dmis| && -1 <= dmis[d].fr < d && LinkedBack(dmis, dmis[d].fr)
  }

  lemma BackLink(dmis: seq<Dmi>, d: nat)
    requires LinkedBack(dmis, d)
    ensures d < |dmis| && -1 <= dmis[d].fr < d && LinkedBack(dmis, dmis[d].fr)
  {
  }

  /** The spellings from match d back to the root are still to come. */
  ghost predicate HalfWalked(dmis: seq<Dmi>, start: nat, d0: nat, d: int, ids: seq<nat>, ends: seq<nat>) {
    && d0 < |dmis| && -1 <= d <= d0 && |ids| == |ends|
    && PathIds(dmis, d0) == (if d == -1 then [] else PathIds(dmis, d)) + Reversed(ids)
    && EndsOf(dmis, d0, start) == (if d == -1 then [] else EndsOf(dmis, d, start)) + Reversed(ends)
  }

  lemma WalkedStart(dmis: seq<Dmi>, start: nat, d0: nat)
    requires d0 < |dmis|
    ensures HalfWalked(dmis, start, d0, d0, [], [])
  {
    assert PathIds(dmis, d0) + Reversed([]) == PathIds(dmis, d0)
           && EndsOf(dmis, d0, start) + Reversed([]) == EndsOf(dmis, d0, start);
  }

  lemma WalkedStep(dmis: seq<Dmi>, start: nat, d0: nat, d: int, ids: seq<nat>, ends: seq<nat>)
    requires HalfWalked(dmis, start, d0, d, ids, ends) && LinkedBack(dmis, d) && d != -1
    ensures |ids| < |PathIds(dmis, d0)| && -1 <= dmis[d].fr < d && LinkedBack(dmis, dmis[d].fr)
    ensures HalfWalked(dmis, start, d0, dmis[d].fr, ids + [dmis[d].splId], ends + [start + dmis[d].splLen])
  {
    hide *;
    HalfWalkedIs(dmis, start, d0, d, ids, ends);
    BackLink(dmis, d);
    WordUnfolds(dmis, d, start);
    var f := dmis[d].fr;
    JoinOne(if f == -1 then [] else PathIds(dmis, f), dmis[d].splId, ids);
    JoinOne(if f == -1 then [] else EndsOf(dmis, f, start), start + dmis[d].splLen, ends);
    IsHalfWalked(dmis, start, d0, f, ids + [dmis[d].splId], ends + [start + dmis[d].splLen]);
    Longer(if f == -1 then [] else PathIds(dmis, f), dmis[d].splId, Reversed(ids));
  }

  lemma JoinOne(front: seq<nat>, x: nat, done: seq<nat>)
    ensures front + [x] + Reversed(done) == front + Reversed(done + [x])
  {
    ReversedOne(done, x);
  }

  lemma Longer(front: seq<nat>, x: nat, back: seq<nat>)
    ensures |front + [x] + back| > |back|
  {
  }

  lemma HalfWalkedIs(dmis: seq<Dmi>, start: nat, d0: nat, d: int, ids: seq<nat>, ends: seq<nat>)
    requires HalfWalked(dmis, start, d0, d, ids, ends)
    ensures d0 < |dmis| && -1 <= d <= d0 && |ids| == |ends| && |Reversed(ids)| == |ids|
    ensures PathIds(dmis, d0) == (if d == -1 then [] else PathIds(dmis, d)) + Reversed(ids)
    ensures EndsOf(dmis, d0, start) == (if d == -1 then [] else EndsOf(dmis, d, start)) + Reversed(ends)
  {
  }

  lemma IsHalfWalked(dmis: seq<Dmi>, start: nat, d0: nat, d: int, ids: seq<nat>, ends: seq<nat>)
    requires d0 < |dmis| && -1 <= d <= d0 && |ids| == |ends|
    requires PathIds(dmis, d0) == (if d == -1 then [] else PathIds(dmis, d)) + Reversed(ids)
    requires EndsOf(dmis, d0, start) == (if d == -1 then [] else EndsOf(dmis, d, start)) + Reversed(ends)
    ensures HalfWalked(dmis, start, d0, d, ids, ends)
  {
  }

  lemma WalkedEnd(dmis: seq<Dmi>, start: nat, d0: nat, ids: seq<nat>, ends: seq<nat>)
    requires HalfWalked(dmis, start, d0, -1, ids, ends)
    ensures |ids| == |ends| == |PathIds(dmis, d0)| && ids == Reversed(PathIds(dmis, d0))
      && ends == Reversed(EndsOf(dmis, d0, start))
  {
    assert PathIds(dmis, d0) == Reversed(ids) && EndsOf(dmis, d0, start) == Reversed(ends);
    ReversedTwice(ids);
    ReversedTwice(ends);
  }

  /** The inner loop: the spellings of one word, last first. */
  method WalkWord(dmis: seq<Dmi>, d0: nat, step: nat, splStart: array<nat>, splId: array<nat>, num: nat)
    returns (num': nat)
    requires d0 < |dmis| && LinkedBack(dmis, d0) && dmis[d0].splLen <= step && splStart != splId
    requires num + |PathIds(dmis, d0)| < splStart.Length && num + |PathIds(dmis, d0)| < splId.Length
    modifies splStart, splId
    ensures num' == num + |PathIds(dmis, d0)| && splId[..num'] == old(splId[..num]) + Reversed(PathIds(dmis, d0))
    ensures splStart[..num' + 1] == old(splStart[..num + 1]) + Reversed(EndsOf(dmis, d0, step - dmis[d0].splLen))
  {
    hide *;
    var wordLen := dmis[d0].splLen;
    var start: nat := step - wordLen;
    ghost var ids: seq<nat>, ends: seq<nat> := [], [];
    ghost var was, wasEnds := splId[..num], splStart[..num + 1];
    var d: int := d0;
    num' := num;
    WalkedStart(dmis, start, d0);
    while d != -1
      invariant -1 <= d <= d0 && num' == num + |ids| && |ids| == |ends| && HalfWalked(dmis, start, d0, d, ids, ends)
      invariant LinkedBack(dmis, d) && |ids| <= |PathIds(dmis, d0)|
      invariant splId[..num'] == was + ids && splStart[..num' + 1] == wasEnds + ends
      decreases d
    {
      WalkedStep(dmis, start, d0, d, ids, ends);
      ghost var a, b := splId[..num'], splStart[..num' + 1];
      var end: nat := start + dmis[d].splLen;
      splStart[num' + 1] := step - (wordLen - dmis[d].splLen);
      splId[num'] := dmis[d].splId;
      num' := num' + 1;
      assert splId[..num'] == a + [dmis[d].splId] && splStart[..num' + 1] == b + [end];
      ids, ends := ids + [dmis[d].splId], ends + [end];
      d := dmis[d].fr;
    }
    WalkedEnd(dmis, start, d0, ids, ends);
  }

  // ---- The whole walk ----

  lemma NodeUnfolds(l: Lat, n: nat, stop: nat)
    requires Linked(l, n, stop)
    ensures var x := l.nodes[n];
            && 0 <= x.from < n && 0 <= x.dmi < |l.dmis| && l.dmis[x.dmi].splLen <= x.step && x.step > stop
               && n < |l.nodes|
            && SplIdsTo(l, n, stop) == SplIdsTo(l, x.from, stop) + PathIds(l.dmis, x.dmi)
            && SplEndsTo(l, n, stop) == SplEndsTo(l, x.from, stop)
                 + EndsOf(l.dmis, x.dmi, x.step - l.dmis[x.dmi].splLen)
            && LmaIdsTo(l, n, stop) == LmaIdsTo(l, x.from, stop) + [x.id]
            && LmaLensTo(l, n, stop) == LmaLensTo(l, x.from, stop) + [|PathIds(l.dmis, x.dmi)|]
  {
  }

  /** What lies behind node n has been written, last first. */
  ghost predicate Behind(l: Lat, n0: nat, n: nat, stop: nat, ids: seq<nat>, ends: seq<nat>,
    lmas: seq<nat>, lens: seq<nat>) {
    && SplIdsTo(l, n0, stop) == SplIdsTo(l, n, stop) + Reversed(ids)
    && SplEndsTo(l, n0, stop) == SplEndsTo(l, n, stop) + Reversed(ends)
    && LmaIdsTo(l, n0, stop) == LmaIdsTo(l, n, stop) + Reversed(lmas)
    && LmaLensTo(l, n0, stop) == LmaLensTo(l, n, stop) + lens
    && |lens| == |lmas| && |ids| == |ends| == Sum(lens)
  }

  lemma BehindStart(l: Lat, n: nat, stop: nat)
    ensures Behind(l, n, n, stop, [], [], [], [])
  {
    hide SplIdsTo, SplEndsTo, LmaIdsTo, LmaLensTo;
    assert SplIdsTo(l, n, stop) + Reversed([]) == SplIdsTo(l, n, stop)
           && SplEndsTo(l, n, stop) + Reversed([]) == SplEndsTo(l, n, stop);
    assert LmaIdsTo(l, n, stop) + Reversed([]) == LmaIdsTo(l, n, stop);
  }

  lemma BehindStep(l: Lat, n0: nat, n: nat, stop: nat, ids: seq<nat>, ends: seq<nat>, lmas: seq<nat>, lens: seq<nat>)
    requires Behind(l, n0, n, stop, ids, ends, lmas, lens) && Linked(l, n, stop)
    ensures var x := l.nodes[n];
            var word, at := PathIds(l.dmis, x.dmi), EndsOf(l.dmis, x.dmi, x.step - l.dmis[x.dmi].splLen);
            && |ids| + |word| <= |SplIdsTo(l, n0, stop)| && |lmas| < |LmaIdsTo(l, n0, stop)|
            && Behind(l, n0, x.from, stop, ids + Reversed(word), ends + Reversed(at), lmas + [x.id], [|word|] + lens)
  {
    hide *;
    NodeUnfolds(l, n, stop);
    BehindIs(l, n0, n, stop, ids, ends, lmas, lens);
    var x := l.nodes[n];
    var word, at := PathIds(l.dmis, x.dmi), EndsOf(l.dmis, x.dmi, x.step - l.dmis[x.dmi].splLen);
    EndsLength(l.dmis, x.dmi, x.step - l.dmis[x.dmi].splLen);
    JoinReversed(SplIdsTo(l, x.from, stop), word, ids);
    JoinReversed(SplEndsTo(l, x.from, stop), at, ends);
    JoinOne(LmaIdsTo(l, x.from, stop), x.id, lmas);
    JoinLens(LmaLensTo(l, x.from, stop), |word|, lens);
    IsBehind(l, n0, x.from, stop, ids + Reversed(word), ends + Reversed(at), lmas + [x.id], [|word|] + lens);
    Longest(SplIdsTo(l, x.from, stop), word, ids);
    Longer(LmaIdsTo(l, x.from, stop), x.id, Reversed(lmas));
    ReversedLength(word);
    ReversedLength(at);
    ReversedLength(lmas);
  }

  lemma EndsLength(dmis: seq<Dmi>, d: nat, start: nat)
    requires d < |dmis|
    ensures |EndsOf(dmis, d, start)| == |PathIds(dmis, d)|
  {
  }

  lemma ReversedLength(s: seq<nat>)
    ensures |Reversed(s)| == |s|
  {
  }

  lemma Longest(front: seq<nat>, word: seq<nat>, done: seq<nat>)
    ensures |front + word + Reversed(done)| >= |word| + |done|
  {
  }

  lemma JoinLens(front: seq<nat>, n: nat, lens: seq<nat>)
    ensures front + [n] + lens == front + ([n] + lens) && Sum([n] + lens) == n + Sum(lens)
  {
    assert ([n] + lens)[1..] == lens;
  }

  lemma BehindIs(l: Lat, n0: nat, n: nat, stop: nat, ids: seq<nat>, ends: seq<nat>, lmas: seq<nat>, lens: seq<nat>)
    requires Behind(l, n0, n, stop, ids, ends, lmas, lens)
    ensures SplIdsTo(l, n0, stop) == SplIdsTo(l, n, stop) + Reversed(ids)
      && SplEndsTo(l, n0, stop) == SplEndsTo(l, n, stop) + Reversed(ends)
    ensures LmaIdsTo(l, n0, stop) == LmaIdsTo(l, n, stop) + Reversed(lmas)
      && LmaLensTo(l, n0, stop) == LmaLensTo(l, n, stop) + lens
    ensures |lens| == |lmas| && |ids| == |ends| == Sum(lens)
  {
  }

  lemma IsBehind(l: Lat, n0: nat, n: nat, stop: nat, ids: seq<nat>, ends: seq<nat>, lmas: seq<nat>, lens: seq<nat>)
    requires SplIdsTo(l, n0, stop) == SplIdsTo(l, n, stop) + Reversed(ids)
      && SplEndsTo(l, n0, stop) == SplEndsTo(l, n, stop) + Reversed(ends)
    requires LmaIdsTo(l, n0, stop) == LmaIdsTo(l, n, stop) + Reversed(lmas)
      && LmaLensTo(l, n0, stop) == LmaLensTo(l, n, stop) + lens
    requires |lens| == |lmas| && |ids| == |ends| == Sum(lens)
    ensures Behind(l, n0, n, stop, ids, ends, lmas, lens)
  {
  }

  lemma JoinReversed(front: seq<nat>, word: seq<nat>, done: seq<nat>)
    ensures front + word + Reversed(done) == front + Reversed(done + Reversed(word))
  {
    ReversedConcat(done, Reversed(word));
    ReversedTwice(word);
  }

  lemma BehindEnd(l: Lat, n0: nat, n: nat, stop: nat, ids: seq<nat>, ends: seq<nat>, lmas: seq<nat>, lens: seq<nat>)
    requires Behind(l, n0, n, stop, ids, ends, lmas, lens) && !Linked(l, n, stop)
    ensures Reversed(ids) == SplIdsTo(l, n0, stop) && Reversed(ends) == SplEndsTo(l, n0, stop)
    ensures Reversed(lmas) == LmaIdsTo(l, n0, stop) && lens == LmaLensTo(l, n0, stop)
    ensures |ids| == |ends| == |SplIdsTo(l, n0, stop)| == Sum(lens) && |lmas| == |lens| == |LmaIdsTo(l, n0, stop)|
  {
    assert SplIdsTo(l, n, stop) + Reversed(ids) == Reversed(ids)
           && SplEndsTo(l, n, stop) + Reversed(ends) == Reversed(ends);
    assert LmaIdsTo(l, n, stop) + Reversed(lmas) == Reversed(lmas) && LmaLensTo(l, n, stop) + lens == lens;
  }

  lemma SuffixesCons(base: nat, x: nat, lens: seq<nat>)
    ensures Suffixes(base, [x] + lens) == [base + x + Sum(lens)] + Suffixes(base, lens)
  {
    var s := [x] + lens;
    forall i | 0 <= i < |s| ensures Suffixes(base, s)[i] == ([base + x + Sum(lens)] + Suffixes(base, lens))[i] {
      if i > 0 {
        assert s[i..] == lens[i - 1..];
      } else {
        assert s[0..] == s && s[1..] == lens;
      }
    }
  }

  /** Every node that comes after `stop` on the way back from n is linked to an earlier one. */
  ghost predicate Walkable(l: Lat, n: nat, stop: nat)
    decreases n
  {
    && n < |l.nodes|
    && (l.nodes[n].step > stop ==>
          Linked(l, n, stop) && LinkedBack(l.dmis, l.nodes[n].dmi) && Walkable(l, l.nodes[n].from, stop))
  }

  lemma WalkableStep(l: Lat, n: nat, stop: nat)
    requires Walkable(l, n, stop)
    ensures n < |l.nodes| && (l.nodes[n].step > stop <==> Linked(l, n, stop))
    ensures l.nodes[n].step > stop ==>
              0 <= l.nodes[n].from < n && LinkedBack(l.dmis, l.nodes[n].dmi) && Walkable(l, l.nodes[n].from, stop)
  {
  }

  lemma {:induction false} MatchLinkedBack(lex: Lexicon, l: Lat, r: nat, d: nat)
    requires LatOk(lex, l) && r <= |l.pys| && DmiIn(l, r, d)
    ensures LinkedBack(l.dmis, d)
    decreases d
  {
    MatchUnfolds(lex, l, r, d);
    if l.dmis[d].fr != -1 {
      MatchLinkedBack(lex, l, r - LastLen(l, d), l.dmis[d].fr);
    }
  }

  lemma {:induction false} AllWalkable(lex: Lexicon, l: Lat, r: nat, n: nat)
    requires LatOk(lex, l) && r <= |l.pys| && NodeIn(l, r, n)
    ensures Walkable(l, n, 0)
    decreases n
  {
    NodeLinked(lex, l, r, n);
    if r > 0 {
      MatchLinkedBack(lex, l, r, l.nodes[n].dmi);
      AllWalkable(lex, l, r - l.dmis[l.nodes[n].dmi].splLen, l.nodes[n].from);
    }
  }

  /** The walk from node n0 back to position `stop`: what it meets goes into the buffers behind the fixed part, last
      first. */
  method Walk(nodes: array<Node>, l: Lat, n0: nat, stop: nat, splStart: array<nat>, splId: array<nat>,
    lmaStart: array<nat>, lmaId: array<nat>,
              fixedHzs: nat, fixedLmas: nat) returns (splNum: nat, lmaNum: nat)
    requires Walkable(l, n0, stop) && nodes.Length >= |l.nodes| && nodes[..|l.nodes|] == l.nodes
    requires fixedHzs + |SplIdsTo(l, n0, stop)| < splStart.Length && fixedHzs + |SplIdsTo(l, n0, stop)| < splId.Length
    requires fixedLmas + |LmaIdsTo(l, n0, stop)| < lmaStart.Length && fixedLmas + |LmaIdsTo(l, n0, stop)| < lmaId.Length
    requires splStart != splId && splStart != lmaStart && splStart != lmaId && splId != lmaStart && splId != lmaId
      && lmaStart != lmaId
    modifies splStart, splId, lmaStart, lmaId
    ensures splNum == fixedHzs + |SplIdsTo(l, n0, stop)| && lmaNum == fixedLmas + |LmaIdsTo(l, n0, stop)|
    ensures splId[..splNum] == old(splId[..fixedHzs]) + Reversed(SplIdsTo(l, n0, stop))
    ensures splStart[..splNum + 1] == old(splStart[..fixedHzs + 1]) + Reversed(SplEndsTo(l, n0, stop))
    ensures lmaId[..lmaNum] == old(lmaId[..fixedLmas]) + Reversed(LmaIdsTo(l, n0, stop))
    ensures lmaStart[..lmaNum + 1] == old(lmaStart[..fixedLmas + 1])
              + Reversed(Suffixes(fixedHzs, LmaLensTo(l, n0, stop)))
  {
    hide *;
    splNum, lmaNum := fixedHzs, fixedLmas;
    ghost var ids: seq<nat>, ends: seq<nat>, lmas: seq<nat>, lens: seq<nat> := [], [], [], [];
    ghost var a, b, c, d := splId[..fixedHzs], splStart[..fixedHzs + 1], lmaId[..fixedLmas], lmaStart[..fixedLmas + 1];
    BehindStart(l, n0, stop);
    EmptySuffixes(fixedHzs);
    EmptyTails(a, b, c, d);
    var n: nat := n0;
    WalkableStep(l, n, stop);
    while nodes[n].step > stop
      invariant nodes[..|l.nodes|] == l.nodes && n < |l.nodes| && Walkable(l, n, stop)
        && Behind(l, n0, n, stop, ids, ends, lmas, lens)
      invariant l.nodes[n].step > stop <==> Linked(l, n, stop)
      invariant |ids| <= |SplIdsTo(l, n0, stop)| && |lmas| <= |LmaIdsTo(l, n0, stop)|
      invariant splNum == fixedHzs + |ids| && |ids| == |ends| && lmaNum == fixedLmas + |lmas| && |ids| == Sum(lens)
      invariant splId[..splNum] == a + ids && splStart[..splNum + 1] == b + ends && lmaId[..lmaNum] == c + lmas
      invariant lmaStart[..lmaNum + 1] == d + Reversed(Suffixes(fixedHzs, lens))
        && |Reversed(Suffixes(fixedHzs, lens))| == |lmas|
      decreases n
    {
      WalkableStep(l, n, stop);
      NodeUnfolds(l, n, stop);
      BehindStep(l, n0, n, stop, ids, ends, lmas, lens);
      ghost var x := l.nodes[n];
      assert nodes[n] == x;
      ghost var word := PathIds(l.dmis, x.dmi);
      ghost var at := EndsOf(l.dmis, x.dmi, x.step - l.dmis[x.dmi].splLen);
      splNum := WalkWord(l.dmis, nodes[n].dmi, nodes[n].step, splStart, splId, splNum);
      ghost var c', d' := lmaId[..lmaNum], lmaStart[..lmaNum + 1];
      lmaStart[lmaNum + 1] := splNum;
      lmaId[lmaNum] := nodes[n].id;
      assert lmaId[..lmaNum + 1] == c' + [x.id] && lmaStart[..lmaNum + 2] == d' + [splNum];
      WalkJoins(a, b, c, d, ids, ends, lmas, lens, word, at, x.id, fixedHzs);
      ids, ends, lmas, lens := ids + Reversed(word), ends + Reversed(at), lmas + [x.id], [|word|] + lens;
      lmaNum := lmaNum + 1;
      n := nodes[n].from;
      WalkableStep(l, n, stop);
    }
    BehindEnd(l, n0, n, stop, ids, ends, lmas, lens);
    ReversedTwice(ids);
    ReversedTwice(ends);
    ReversedTwice(lmas);
  }

  lemma EmptySuffixes(base: nat)
    ensures Reversed(Suffixes(base, [])) == [] && Sum([]) == 0
  {
  }

  lemma EmptyTails(a: seq<nat>, b: seq<nat>, c: seq<nat>, d: seq<nat>)
    ensures a + [] == a && b + [] == b && c + [] == c && d + [] == d
  {
  }

  lemma Assoc(a: seq<nat>, b: seq<nat>, c: seq<nat>)
    ensures a + b + c == a + (b + c)
  {
  }

  lemma SuffixesGrow(base: nat, n: nat, lens: seq<nat>)
    ensures Reversed(Suffixes(base, [n] + lens)) == Reversed(Suffixes(base, lens)) + [base + n + Sum(lens)]
    ensures |Reversed(Suffixes(base, [n] + lens))| == |lens| + 1
  {
    SuffixesCons(base, n, lens);
    var x, s := base + n + Sum(lens), Suffixes(base, lens);
    hide Sum, Suffixes;
    ReversedConcat([x], s);
    assert Reversed([x]) == [x];
  }

  lemma WalkJoins(a: seq<nat>, b: seq<nat>, c: seq<nat>, d: seq<nat>, ids: seq<nat>, ends: seq<nat>,
    lmas: seq<nat>, lens: seq<nat>,
                  word: seq<nat>, at: seq<nat>, id: nat, base: nat)
    ensures a + ids + Reversed(word) == a + (ids + Reversed(word))
      && b + ends + Reversed(at) == b + (ends + Reversed(at))
    ensures c + lmas + [id] == c + (lmas + [id])
    ensures Sum([|word|] + lens) == |word| + Sum(lens)
    ensures d + Reversed(Suffixes(base, lens)) + [base + (|word| + Sum(lens))]
              == d + Reversed(Suffixes(base, [|word|] + lens))
    ensures |Reversed(Suffixes(base, [|word|] + lens))| == |lens| + 1
    ensures |Reversed(word)| == |word| && |Reversed(at)| == |at|
  {
    hide *;
    JoinLens([], |word|, lens);
    SuffixesGrow(base, |word|, lens);
    Assoc(a, ids, Reversed(word));
    Assoc(b, ends, Reversed(at));
    Assoc(c, lmas, [id]);
    Assoc(d, Reversed(Suffixes(base, lens)), [base + |word| + Sum(lens)]);
    ReversedLength(word);
    ReversedLength(at);
  }

  /** `get_spl_start_id`, up to the search for the last fixed position: the walk, the two reversals and the turn of the
      counts. What was fixed stays, and behind it come the spellings and lemmas front to back. */
  method Segment(nodes: array<Node>, l: Lat, n0: nat, stop: nat, splStart: array<nat>, splId: array<nat>,
    lmaStart: array<nat>, lmaId: array<nat>,
                 fixedHzs: nat, fixedLmas: nat) returns (splNum: nat, lmaNum: nat)
    requires Walkable(l, n0, stop) && nodes.Length >= |l.nodes| && nodes[..|l.nodes|] == l.nodes
    requires fixedHzs + |SplIdsTo(l, n0, stop)| < splStart.Length && fixedHzs + |SplIdsTo(l, n0, stop)| < splId.Length
    requires fixedLmas + |LmaIdsTo(l, n0, stop)| < lmaStart.Length && fixedLmas + |LmaIdsTo(l, n0, stop)| < lmaId.Length
    requires splStart != splId && splStart != lmaStart && splStart != lmaId && splId != lmaStart && splId != lmaId
      && lmaStart != lmaId
    requires lmaStart[fixedLmas] == fixedHzs
    modifies splStart, splId, lmaStart, lmaId
    ensures splNum == fixedHzs + |SplIdsTo(l, n0, stop)| && lmaNum == fixedLmas + |LmaIdsTo(l, n0, stop)|
    ensures splId[..splNum] == old(splId[..fixedHzs]) + SplIdsTo(l, n0, stop)
    ensures splStart[..splNum + 1] == old(splStart[..fixedHzs + 1]) + SplEndsTo(l, n0, stop)
    ensures lmaId[..lmaNum] == old(lmaId[..fixedLmas]) + LmaIdsTo(l, n0, stop)
    ensures lmaStart[..lmaNum + 1] == old(lmaStart[..fixedLmas + 1]) + Starts(fixedHzs, LmaLensTo(l, n0, stop))
    ensures Rising(lmaStart[fixedLmas..lmaNum + 1]) && lmaStart[lmaNum] == splNum
  {
    hide *;
    ghost var ids, ends, lmas, lens := SplIdsTo(l, n0, stop), SplEndsTo(l, n0, stop), LmaIdsTo(l, n0, stop),
      LmaLensTo(l, n0, stop);
    ghost var a, b, c, d := splId[..fixedHzs], splStart[..fixedHzs + 1], lmaId[..fixedLmas], lmaStart[..fixedLmas + 1];
    SegmentSizes(l, n0, stop, fixedHzs);
    splNum, lmaNum := Walk(nodes, l, n0, stop, splStart, splId, lmaStart, lmaId, fixedHzs, fixedLmas);
    Parts(splStart[..splNum + 1], b, Reversed(ends));
    Parts(splId[..splNum], a, Reversed(ids));
    Cuts(splStart[..], fixedHzs + 1, splNum + 1);
    Cuts(splId[..], fixedHzs, splNum);
    Parts(lmaStart[..lmaNum + 1], d, Reversed(Suffixes(fixedHzs, lens)));
    Parts(lmaId[..lmaNum], c, Reversed(lmas));
    Cuts(lmaStart[..], fixedLmas + 1, lmaNum + 1);
    Cuts(lmaId[..], fixedLmas, lmaNum);
    assert splStart[fixedHzs + 1..splNum + 1] == Reversed(ends) && splStart[..fixedHzs + 1] == b;
    assert splId[fixedHzs..splNum] == Reversed(ids) && splId[..fixedHzs] == a;
    assert lmaStart[fixedLmas + 1..lmaNum + 1] == Reversed(Suffixes(fixedHzs, lens)) && lmaStart[..fixedLmas + 1] == d;
    assert lmaId[fixedLmas..lmaNum] == Reversed(lmas) && lmaId[..fixedLmas] == c;
    ReverseBoth(splStart, splId, fixedHzs, splNum);
    ReverseBoth(lmaStart, lmaId, fixedLmas, lmaNum);
    ReversedTwice(ends);
    ReversedTwice(ids);
    ReversedTwice(lmas);
    ReversedTwice(Suffixes(fixedHzs, lens));
    assert lmaStart[fixedLmas] == lmaStart[..fixedLmas + 1][fixedLmas] == d[fixedLmas];
    CountForward(lmaStart, fixedLmas, lmaNum, lens, fixedHzs);
    WordsRise(l, n0, stop, fixedHzs, lmaStart[..], fixedLmas);
    Whole(splStart[..], fixedHzs + 1, splNum + 1);
    Whole(splId[..], fixedHzs, splNum);
    Whole(lmaStart[..], fixedLmas + 1, lmaNum + 1);
    Whole(lmaId[..], fixedLmas, lmaNum);
  }

  // ---- Start positions ----

  ghost predicate Rising(s: seq<nat>) {
    forall i, j :: 0 <= i < j < |s| ==> s[i] < s[j]
  }

  lemma {:induction false} SumRises(lens: seq<nat>, i: nat, j: nat)
    requires i < j <= |lens| && forall k :: 0 <= k < |lens| ==> lens[k] > 0
    ensures Sum(lens[..i]) < Sum(lens[..j])
    decreases j
  {
    SuffixStep(lens, j - 1);
    if i < j - 1 {
      SumRises(lens, i, j - 1);
    }
  }

  /** The lemmas on a path start at strictly increasing spelling positions, and the last one ends with the last
      spelling. */
  lemma WordsRise(l: Lat, n: nat, stop: nat, base: nat, s: seq<nat>, fixed: nat)
    requires fixed + |LmaLensTo(l, n, stop)| < |s| && s[fixed] == base
    requires s[fixed + 1..fixed + |LmaLensTo(l, n, stop)| + 1] == Starts(base, LmaLensTo(l, n, stop))
    ensures var end := fixed + |LmaLensTo(l, n, stop)|;
            Rising(s[fixed..end + 1]) && s[end] == base + |SplIdsTo(l, n, stop)|
  {
    LensPositive(l, n, stop);
    LensSum(l, n, stop);
    var lens := LmaLensTo(l, n, stop);
    hide *;
    StartsAre(base, lens, s, fixed);
    RisingFrom(base, lens, s[fixed..fixed + |lens| + 1]);
    assert lens[..|lens|] == lens;
  }

  lemma StartsAre(base: nat, lens: seq<nat>, s: seq<nat>, fixed: nat)
    requires fixed + |lens| < |s| && s[fixed] == base && s[fixed + 1..fixed + |lens| + 1] == Starts(base, lens)
    ensures forall k :: 0 <= k <= |lens| ==> s[fixed..fixed + |lens| + 1][k] == base + Sum(lens[..k])
    ensures s[fixed + |lens|] == base + Sum(lens[..|lens|])
  {
    var t := s[fixed..fixed + |lens| + 1];
    forall k | 0 <= k <= |lens| ensures t[k] == base + Sum(lens[..k]) {
      if k > 0 {
        assert t[k] == s[fixed + 1..fixed + |lens| + 1][k - 1];
      } else {
        SumEmpty(lens[..0]);
      }
    }
    assert t[|lens|] == s[fixed + |lens|];
  }

  lemma RisingFrom(base: nat, lens: seq<nat>, t: seq<nat>)
    requires |t| == |lens| + 1 && (forall k :: 0 <= k < |lens| ==> lens[k] > 0)
      && forall k :: 0 <= k <= |lens| ==> t[k] == base + Sum(lens[..k])
    ensures Rising(t)
  {
    forall i, j | 0 <= i < j < |t| ensures t[i] < t[j] {
      SumRises(lens, i, j);
    }
  }

  /** The spellings start at strictly increasing positions. */
  lemma SpellingsRise(lex: Lexicon, pys: seq<u8>, start: nat, ids: seq<nat>, ends: seq<nat>, stop: nat)
    requires Segments(lex, pys, start, ids, ends, stop)
    ensures Rising([start] + ends) && ([start] + ends)[|ends|] == stop
  {
    var s := [start] + ends;
    forall k | 0 <= k < |ends| ensures s[k] < s[k + 1] {
      SegmentAt(lex, pys, start, ids, ends, stop, k);
    }
    hide *;
    StepsRise(s);
  }

  lemma StepsRise(s: seq<nat>)
    requires forall k :: 0 <= k < |s| - 1 ==> s[k] < s[k + 1]
    ensures forall i, j :: 0 <= i < j < |s| ==> s[i] < s[j]
  {
    forall i, j | 0 <= i < j < |s| ensures s[i] < s[j] {
      StepRises(s, i, j);
    }
  }

  lemma {:induction false} StepRises(s: seq<nat>, i: nat, j: nat)
    requires i < j < |s| && forall k :: 0 <= k < |s| - 1 ==> s[k] < s[k + 1]
    ensures s[i] < s[j]
    decreases j
  {
    assert s[j - 1] < s[j - 1 + 1];
    if i < j - 1 {
      StepRises(s, i, j - 1);
    }
  }

  /** What `get_spl_start_id` leaves for the walk from node n to the start: the spellings and lemmas of the path, front
      to back; the spellings segment the whole input; both lists of starts rise strictly, up to the length of the input
      and up to the number of spellings. */
  ghost predicate Decoded(lex: Lexicon, l: Lat, n: nat, splStart: seq<nat>, splId: seq<nat>,
    lmaStart: seq<nat>, lmaId: seq<nat>) {
    && splId == SplIdsTo(l, n, 0) && splStart == [0] + SplEndsTo(l, n, 0)
    && lmaId == LmaIdsTo(l, n, 0) && lmaStart == [0] + Starts(0, LmaLensTo(l, n, 0))
    && Segments(lex, l.pys, 0, splId, splStart[1..], |l.pys|)
    && Rising(splStart) && splStart[|splStart| - 1] == |l.pys| && Rising(lmaStart)
       && lmaStart[|lmaStart| - 1] == |splId|
  }

  lemma DecodedIs(lex: Lexicon, l: Lat, n: nat, splStart: seq<nat>, splId: seq<nat>,
    lmaStart: seq<nat>, lmaId: seq<nat>)
    requires splId == SplIdsTo(l, n, 0) && splStart == [0] + SplEndsTo(l, n, 0)
    requires lmaId == LmaIdsTo(l, n, 0) && lmaStart == [0] + Starts(0, LmaLensTo(l, n, 0))
    requires Segments(lex, l.pys, 0, SplIdsTo(l, n, 0), SplEndsTo(l, n, 0), |l.pys|)
    requires Rising(lmaStart) && lmaStart[|lmaStart| - 1] == |splId|
    ensures Decoded(lex, l, n, splStart, splId, lmaStart, lmaId)
  {
    SpellingsRise(lex, l.pys, 0, SplIdsTo(l, n, 0), SplEndsTo(l, n, 0), |l.pys|);
    assert splStart[1..] == SplEndsTo(l, n, 0);
    hide Segments, SplIdsTo, SplEndsTo, LmaIdsTo, LmaLensTo, Starts;
  }

  lemma SegmentSizes(l: Lat, n0: nat, stop: nat, base: nat)
    ensures |SplEndsTo(l, n0, stop)| == |SplIdsTo(l, n0, stop)| && |LmaLensTo(l, n0, stop)| == |LmaIdsTo(l, n0, stop)|
    ensures |Suffixes(base, LmaLensTo(l, n0, stop))| == |LmaIdsTo(l, n0, stop)|
    ensures |Reversed(SplEndsTo(l, n0, stop))| == |Reversed(SplIdsTo(l, n0, stop))| == |SplIdsTo(l, n0, stop)|
    ensures |Reversed(LmaIdsTo(l, n0, stop))| == |Reversed(Suffixes(base, LmaLensTo(l, n0, stop)))|
              == |LmaIdsTo(l, n0, stop)|
  {
  }

  lemma Parts(s: seq<nat>, front: seq<nat>, back: seq<nat>)
    requires s == front + back
    ensures s[..|front|] == front && s[|front|..] == back
  {
  }

  lemma Cuts(s: seq<nat>, lo: nat, hi: nat)
    requires lo <= hi <= |s|
    ensures s[..hi][..lo] == s[..lo] && s[..hi][lo..] == s[lo..hi]
  {
  }

  lemma Whole(s: seq<nat>, lo: nat, hi: nat)
    requires lo <= hi <= |s|
    ensures s[..hi] == s[..lo] + s[lo..hi]
  {
  }

  // ---- Positions on the path ----

  /** A position between spellings: a row with nodes, which no user choice has fixed. */
  ghost predicate Open(l: Lat, e: nat) {
    0 < e < |l.rows| && l.rows[e].ndNum > 0 && !l.rows[e].fixed
  }

  lemma OpenRow(lex: Lexicon, l: Lat, r: nat)
    requires LatOk(lex, l) && 0 < r <= |l.pys| && r < |l.rows| && l.rows[r].ndNum > 0
    ensures Open(l, r)
  {
    assert RowOk(lex, l, r);
  }

  lemma {:induction false} MatchOpen(lex: Lexicon, l: Lat, r: nat, d: nat)
    requires LatOk(lex, l) && r <= |l.pys| && DmiIn(l, r, d) && Open(l, r)
    ensures d < |l.dmis| && l.dmis[d].splLen <= r
      && forall e :: e in EndsOf(l.dmis, d, r - l.dmis[d].splLen) ==> Open(l, e)
    decreases d
  {
    hide *;
    MatchUnfolds(lex, l, r, d);
    MatchStart(lex, l, r, d);
    var x, q := l.dmis[d], r - LastLen(l, d);
    if x.fr != -1 {
      MatchStart(lex, l, q, x.fr);
      OpenRow(lex, l, q);
      MatchOpen(lex, l, q, x.fr);
    }
  }

  lemma MatchStart(lex: Lexicon, l: Lat, r: nat, d: nat)
    requires LatOk(lex, l) && r <= |l.pys| && DmiIn(l, r, d)
    ensures d < |l.dmis| && 0 < r && r - LastLen(l, d) >= 0 && r - LastLen(l, d) < |l.rows|
      && l.rows[r - LastLen(l, d)].ndNum > 0
  {
    assert RowOk(lex, l, r) && DmiOk(lex, l, r, d);
  }

  lemma {:induction false} WalkOpen(lex: Lexicon, l: Lat, r: nat, n: nat)
    requires LatOk(lex, l) && r <= |l.pys| && NodeIn(l, r, n)
    ensures forall e :: e in SplEndsTo(l, n, 0) ==> Open(l, e)
    decreases n
  {
    NodeLinked(lex, l, r, n);
    if r > 0 {
      var x := l.nodes[n];
      OpenRow(lex, l, r);
      MatchOpen(lex, l, r, x.dmi);
      WalkOpen(lex, l, r - l.dmis[x.dmi].splLen, x.from);
      hide Open;
    }
  }
}
