/** Walking down the stored trie level by level, and the places where the nodes of a level are kept. */
module TrieWalk {
  import opened Bytes
  import opened LemmaTrie
  import opened TrieNodes

  function Min(a: nat, b: nat): (m: nat) {
    if a < b then a else b
  }

  /** What a buffer with room for n keeps. */
  function Take<T>(s: seq<T>, n: nat): (r: seq<T>)
    ensures |r| == Min(|s|, n) && (|s| <= n ==> r == s)
  {
    if |s| <= n then s else s[..n]
  }

  lemma TakeMore<T>(a: seq<T>, b: seq<T>, n: nat)
    ensures Take(Take(a, n) + b, n) == Take(a + b, n)
  {
    if |a| > n {
      assert (a[..n] + b)[..n] == a[..n] == (a + b)[..n];
    }
  }

  // ---- The sons in a range are neighbours ----

  lemma {:induction false} SelectedSnoc(ts: seq<Trie>, k: nat, r: Range)
    requires k < |ts|
    ensures Selected(ts[..k + 1], r) == Selected(ts[..k], r) + if InRange(ts[k].spl, r) then [ts[k]] else []
  {
    if k == 0 {
      assert ts[..1][1..] == [] && ts[..0] == [];
    } else {
      SelectedSnoc(ts[1..], k - 1, r);
      assert ts[..k + 1][1..] == ts[1..][..k] && ts[..k][1..] == ts[1..][..k - 1];
    }
  }

  lemma {:induction false} SelectedConcat(a: seq<Trie>, b: seq<Trie>, r: Range)
    ensures Selected(a + b, r) == Selected(a, r) + Selected(b, r)
  {
    Cons(a, b);
    if a != [] {
      SelectedConcat(a[1..], b, r);
      Assoc(if InRange(a[0].spl, r) then [a[0]] else [], Selected(a[1..], r), Selected(b, r));
    }
  }

  lemma {:induction false} NoneSelected(ts: seq<Trie>, r: Range)
    requires forall i :: 0 <= i < |ts| ==> !InRange(ts[i].spl, r)
    ensures Selected(ts, r) == []
  {
    if ts != [] {
      NoneSelected(ts[1..], r);
    }
  }

  ghost predicate Increasing(ts: seq<Trie>) {
    forall i, j :: 0 <= i < j < |ts| ==> ts[i].spl < ts[j].spl
  }

  /** The scan may stop at a son with the last id of the range. */
  lemma RestUnselected(ts: seq<Trie>, k: nat, r: Range)
    requires Increasing(ts) && k < |ts| && ts[k].spl as int >= r.start + r.num - 1
    ensures Selected(ts, r) == Selected(ts[..k + 1], r)
  {
    hide *;
    CutAt(ts, k + 1);
    SelectedConcat(ts[..k + 1], ts[k + 1..], r);
    RestBehind(ts, k, r, ts[k + 1..]);
    NoneSelected(ts[k + 1..], r);
  }

  lemma CutAt<T>(s: seq<T>, k: nat)
    requires k <= |s|
    ensures s[..k] + s[k..] == s
  {
  }

  lemma RestBehind(ts: seq<Trie>, k: nat, r: Range, rest: seq<Trie>)
    requires Increasing(ts) && k < |ts| && ts[k].spl as int >= r.start + r.num - 1
      && rest == ts[k + 1..]
    ensures forall i :: 0 <= i < |rest| ==> !InRange(rest[i].spl, r)
  {
    hide Selected;
    forall i | 0 <= i < |rest|
      ensures !InRange(rest[i].spl, r)
    {
      assert rest[i] == ts[k + 1 + i] && ts[k].spl < ts[k + 1 + i].spl;
    }
  }

  /** The selected ones among the first k are the `num` sons from `start` on, and the scan has not left the range if it
      found any. */
  ghost predicate Block(ts: seq<Trie>, k: nat, r: Range, start: nat, num: nat) {
    && k <= |ts| && start + num <= k && (num > 0 ==> start + num == k)
    && Selected(ts[..k], r) == ts[start..start + num]
  }

  lemma BlockStart(ts: seq<Trie>, r: Range)
    ensures Block(ts, 0, r, 0, 0)
  {
    assert ts[..0] == [];
  }

  lemma BlockIn(ts: seq<Trie>, k: nat, r: Range, start: nat, num: nat)
    requires Block(ts, k, r, start, num) && k < |ts| && InRange(ts[k].spl, r)
    ensures Block(ts, k + 1, r, if num == 0 then k else start, num + 1)
  {
    SelectedSnoc(ts, k, r);
    hide Selected;
    var from := if num == 0 then k else start;
    SliceSnoc(ts, from, k);
    assert ts[start..start + num] == ts[from..k];
  }

  lemma SliceSnoc(ts: seq<Trie>, a: nat, k: nat)
    requires a <= k < |ts|
    ensures ts[a..k] + [ts[k]] == ts[a..k + 1]
  {
  }

  lemma BlockBefore(ts: seq<Trie>, k: nat, r: Range)
    requires Block(ts, k, r, 0, 0) && k < |ts| && !InRange(ts[k].spl, r)
    ensures Block(ts, k + 1, r, 0, 0)
  {
    SelectedSnoc(ts, k, r);
  }

  /** The first son behind the range ends the scan. */
  lemma BlockEnds(ts: seq<Trie>, k: nat, r: Range, start: nat, num: nat)
    requires Block(ts, k, r, start, num) && k < |ts| && num > 0 && !InRange(ts[k].spl, r) && Increasing(ts)
    ensures ts[k].spl as int >= r.start + r.num - 1 && Selected(ts[..k + 1], r) == ts[start..start + num]
  {
    SelectedSnoc(ts, k, r);
    assert ts[k - 1] in Selected(ts[..k], r) by {
      assert ts[start..start + num][num - 1] == ts[k - 1];
    }
    SelectedInRange(ts[..k], r, ts[k - 1]);
  }

  lemma {:induction false} SelectedInRange(ts: seq<Trie>, r: Range, t: Trie)
    requires t in Selected(ts, r)
    ensures InRange(t.spl, r)
  {
    if !(InRange(ts[0].spl, r) && t == ts[0]) {
      SelectedInRange(ts[1..], r, t);
    }
  }

  // ---- Reaching one level more ----

  lemma {:induction false} SonsOfConcat(a: seq<Trie>, b: seq<Trie>)
    ensures SonsOf(a + b) == SonsOf(a) + SonsOf(b)
  {
    Cons(a, b);
    if a != [] {
      SonsOfConcat(a[1..], b);
      Assoc(a[0].sons, SonsOf(a[1..]), SonsOf(b));
    }
  }

  lemma {:induction false} HomosOfConcat(a: seq<Trie>, b: seq<Trie>)
    ensures HomosOf(a + b) == HomosOf(a) + HomosOf(b)
  {
    Cons(a, b);
    if a != [] {
      HomosOfConcat(a[1..], b);
      Assoc(a[0].homos, HomosOf(a[1..]), HomosOf(b));
    }
  }

  lemma {:induction false} StepNodes(r: Range, fr: seq<Trie>, i: nat)
    requires i < |fr|
    ensures SonsOf(fr[..i + 1]) == SonsOf(fr[..i]) + fr[i].sons
    ensures Selected(SonsOf(fr[..i + 1]), r) == Selected(SonsOf(fr[..i]), r) + Selected(fr[i].sons, r)
    ensures HomosOf(fr[..i + 1]) == HomosOf(fr[..i]) + fr[i].homos
  {
    hide *;
    assert fr[..i + 1] == fr[..i] + [fr[i]];
    SonsOfConcat(fr[..i], [fr[i]]);
    HomosOfConcat(fr[..i], [fr[i]]);
    OneSons(fr[i]);
    SelectedConcat(SonsOf(fr[..i]), fr[i].sons, r);
  }

  lemma OneSons(t: Trie)
    ensures SonsOf([t]) == t.sons && HomosOf([t]) == t.homos
  {
    assert t.sons + [] == t.sons && t.homos + [] == t.homos;
  }

  /** The nodes that are reached when a level keeps at most n of them. */
  function ReachAtMost(ts: seq<Trie>, q: seq<Range>, n: nat): (s: seq<Trie>)
    requires q != []
    decreases |q|
  {
    var s := Take(Selected(ts, q[0]), n);
    if |q| == 1 then s else ReachAtMost(SonsOf(s), q[1..], n)
  }

  lemma {:induction false} ReachSnoc(ts: seq<Trie>, q: seq<Range>, r: Range, n: nat)
    requires q != []
    ensures ReachAtMost(ts, q + [r], n) == Take(Selected(SonsOf(ReachAtMost(ts, q, n)), r), n)
    ensures Reach(ts, q + [r]) == Selected(SonsOf(Reach(ts, q)), r)
    decreases |q|
  {
    assert (q + [r])[0] == q[0] && (q + [r])[1..] == q[1..] + [r];
    if |q| == 1 {
      assert q[1..] + [r] == [r];
    } else {
      ReachSnoc(SonsOf(Selected(ts, q[0])), q[1..], r, n);
      ReachSnoc(SonsOf(Take(Selected(ts, q[0]), n)), q[1..], r, n);
    }
  }

  /** No level has more than n nodes in the asked ranges. */
  ghost predicate LevelsFit(ts: seq<Trie>, q: seq<Range>, n: nat)
    decreases |q|
  {
    q == [] || (|Selected(ts, q[0])| <= n && LevelsFit(SonsOf(Selected(ts, q[0])), q[1..], n))
  }

  /** Then the buffers lose nothing. */
  lemma {:induction false} ReachAll(ts: seq<Trie>, q: seq<Range>, n: nat)
    requires q != [] && LevelsFit(ts, q, n)
    ensures ReachAtMost(ts, q, n) == Reach(ts, q)
    decreases |q|
  {
    if |q| > 1 {
      ReachAll(SonsOf(Selected(ts, q[0])), q[1..], n);
    }
  }

  lemma {:induction false} NothingReached(ts: seq<Trie>, q: seq<Range>, k: nat, n: nat)
    requires 0 < k <= |q| && ReachAtMost(ts, q[..k], n) == []
    ensures ReachAtMost(ts, q, n) == []
    decreases |q| - k
  {
    if k < |q| {
      ReachSnoc(ts, q[..k], q[k], n);
      assert q[..k] + [q[k]] == q[..k + 1];
      NothingReached(ts, q, k + 1, n);
    } else {
      assert q[..k] == q;
    }
  }

  // ---- Where the nodes of a level are ----

  ghost predicate TopsAt(x: seq<Le0>, g: seq<Ge1>, h: seq<nat>, ps: seq<nat>, ts: seq<Trie>) {
    |ps| == |ts| && forall i :: 0 <= i < |ts| ==> TopHolds(x, g, h, |g|, |h|, ps[i], ts[i]) && Ordered(ts[i].sons)
  }

  ghost predicate NodesAt(g: seq<Ge1>, h: seq<nat>, ps: seq<nat>, ts: seq<Trie>) {
    |ps| == |ts| && forall i :: 0 <= i < |ts| ==> NodeHolds(g, h, 0, |g|, |h|, ps[i], ts[i]) && Ordered(ts[i].sons)
  }

  /** The sons of a node, one behind the other. */
  ghost predicate SonsAt(g: seq<Ge1>, h: seq<nat>, off: nat, sons: seq<Trie>) {
    off + |sons| <= |g| && Ordered(sons)
    && forall j :: 0 <= j < |sons| ==> NodeHolds(g, h, 0, |g|, |h|, off + j, sons[j])
  }

  function Positions(off: nat, n: nat): (ps: seq<nat>)
    ensures |ps| == n && forall i :: 0 <= i < n ==> ps[i] == off + i
  {
    seq<nat>(n, i requires 0 <= i < n => off + i)
  }

  lemma BlockAt(g: seq<Ge1>, h: seq<nat>, off: nat, sons: seq<Trie>, start: nat, num: nat)
    requires SonsAt(g, h, off, sons) && start + num <= |sons|
    ensures NodesAt(g, h, Positions(off + start, num), sons[start..start + num])
  {
    hide NodeHolds;
  }

  lemma MoreNodes(g: seq<Ge1>, h: seq<nat>, ps: seq<nat>, ts: seq<Trie>, ps': seq<nat>, ts': seq<Trie>, n: nat)
    requires NodesAt(g, h, ps, ts) && NodesAt(g, h, ps', ts')
    ensures NodesAt(g, h, Take(ps + ps', n), Take(ts + ts', n))
  {
    hide NodeHolds;
  }

  /** What a reader sees of a node of the first layer. */
  lemma TopGives(x: seq<Le0>, g: seq<Ge1>, h: seq<nat>, p: nat, t: Trie)
    requires TopHolds(x, g, h, |g|, |h|, p, t) && Ordered(t.sons)
    ensures p < |x| && x[p].spl == t.spl && x[p].homos as nat == |t.homos| && x[p].sons as nat == |t.sons|
    ensures x[p].homoOff as nat + |t.homos| <= |h| && h[x[p].homoOff as nat..x[p].homoOff as nat + |t.homos|] == t.homos
    ensures t.sons != [] ==> SonsAt(g, h, x[p].sonOff, t.sons)
  {
    hide NodeHolds;
  }

  lemma NodeGives(g: seq<Ge1>, h: seq<nat>, p: nat, t: Trie)
    requires NodeHolds(g, h, 0, |g|, |h|, p, t) && Ordered(t.sons)
    ensures p < |g| && g[p].spl == t.spl && g[p].homos as nat == |t.homos| && g[p].sons as nat == |t.sons|
    ensures HomoOffset(g[p]) + |t.homos| <= |h| && h[HomoOffset(g[p])..HomoOffset(g[p]) + |t.homos|] == t.homos
    ensures t.sons != [] ==> SonsAt(g, h, SonOffset(g[p]), t.sons)
  {
  }

  lemma SonGives(g: seq<Ge1>, h: seq<nat>, off: nat, sons: seq<Trie>, j: nat)
    requires SonsAt(g, h, off, sons) && j < |sons|
    ensures NodeHolds(g, h, 0, |g|, |h|, off + j, sons[j]) && Ordered(sons[j].sons) && Increasing(sons)
    ensures off + j < |g| && g[off + j].spl == sons[j].spl && g[off + j].homos as nat == |sons[j].homos|
    ensures HomoOffset(g[off + j]) + |sons[j].homos| <= |h|
    ensures h[HomoOffset(g[off + j])..HomoOffset(g[off + j]) + |sons[j].homos|] == sons[j].homos
  {
    NodeGives(g, h, off + j, sons[j]);
  }

  // ---- Items ----

  /** An item that matches: its id, its length in spellings and its score. */
  datatype LpiItem = LpiItem(id: nat, len: nat, psb: u16)

  /** The items of these ids. */
  function Lpis(ids: seq<nat>, len: nat, uniPsb: nat -> u16): (s: seq<LpiItem>)
    ensures |s| == |ids| && forall i :: 0 <= i < |ids| ==> s[i] == LpiItem(ids[i], len, uniPsb(ids[i]))
  {
    seq(|ids|, i requires 0 <= i < |ids| => LpiItem(ids[i], len, uniPsb(ids[i])))
  }

  lemma LpisConcat(a: seq<nat>, b: seq<nat>, len: nat, uniPsb: nat -> u16)
    ensures Lpis(a + b, len, uniPsb) == Lpis(a, len, uniPsb) + Lpis(b, len, uniPsb)
  {
  }
}
