/** Reading the system dictionary: exact lookup, lookup by full or half spelling ids, and its incremental form. */
module SystemDictionary {
  import opened Bytes
  import opened LemmaTrie
  import opened TrieNodes
  import opened TrieWalk
  import opened Milestones

  const FULL_SPL_ID_START: nat := 30
  const MAX_EXTENDBUF_LEN: nat := 200
  const MAX_PARSING_MARK: nat := 600
  const MAX_MILE_STONE: nat := 100

  // ---- The quick index of the first layer ----

  /** Nodes 1, 2, … of the first layer stand in the order of their spelling ids. */
  ghost predicate RootOrdered(root: seq<Le0>, splNum: nat) {
    && 1 <= |root| <= splNum + 1 && FULL_SPL_ID_START + splNum + 1 < 0x1_0000
    && (forall i :: 1 <= i < |root| ==> FULL_SPL_ID_START <= root[i].spl < FULL_SPL_ID_START + splNum)
    && (forall i, j :: 1 <= i < j < |root| ==> root[i].spl < root[j].spl)
  }

  /** The last node before this spelling id, or the root. */
  function LastBelow(root: seq<Le0>, id: nat, k: nat): (p: nat)
    requires k < |root|
    ensures k <= p < |root| && (p + 1 < |root| ==> root[p + 1].spl as nat >= id) && (p > k ==> root[p].spl as nat < id)
    decreases |root| - k
  {
    if k + 1 == |root| || root[k + 1].spl as nat >= id then k else LastBelow(root, id, k + 1)
  }

  lemma InOrder(root: seq<Le0>, splNum: nat, i: nat, j: nat)
    requires RootOrdered(root, splNum) && 1 <= i < |root| && 1 <= j < |root|
    ensures i < j <==> root[i].spl < root[j].spl
  {
  }

  lemma LastBelowIs(root: seq<Le0>, splNum: nat, id: nat, p: nat)
    requires RootOrdered(root, splNum) && p < |root| && (p > 0 ==> root[p].spl as nat < id)
      && (p + 1 < |root| ==> root[p + 1].spl as nat >= id)
    ensures LastBelow(root, id, 0) == p
  {
    var b := LastBelow(root, id, 0);
    if b + 1 < |root| && p > 0 {
      InOrder(root, splNum, b + 1, p);
    }
    if p + 1 < |root| && b > 0 {
      InOrder(root, splNum, p + 1, b);
    }
  }

  /** What the index holds for a spelling id: its node; for an id behind all nodes their number; for a missing id in
      between the node before it. */
  function IndexOf(root: seq<Le0>, id: nat): (p: nat)
    requires root != []
    ensures p <= |root|
  {
    var b := LastBelow(root, id, 0);
    if b + 1 == |root| || root[b + 1].spl as nat == id then b + 1 else b
  }

  ghost predicate HasNode(root: seq<Le0>, id: nat) {
    exists i :: 1 <= i < |root| && root[i].spl as nat == id
  }

  /** The index is the first node at or behind each id exactly when no id before the last node's is missing. */
  lemma IndexIsExact(root: seq<Le0>, splNum: nat)
    requires RootOrdered(root, splNum) && |root| > 1
    ensures (forall id: nat ::
               FULL_SPL_ID_START <= id <= FULL_SPL_ID_START + splNum ==>
                 IndexOf(root, id) == LastBelow(root, id, 0) + 1) <==>
            (forall id: nat :: FULL_SPL_ID_START <= id < root[|root| - 1].spl as nat ==> HasNode(root, id))
  {
    hide *;
    LastSpl(root, splNum);
    forall id: nat | FULL_SPL_ID_START <= id
      ensures IndexOf(root, id) == LastBelow(root, id, 0) + 1 <==>
                HasNode(root, id) || root[|root| - 1].spl as nat <= id
    {
      IndexHits(root, splNum, id);
    }
  }

  lemma LastSpl(root: seq<Le0>, splNum: nat)
    requires RootOrdered(root, splNum) && |root| > 1
    ensures FULL_SPL_ID_START <= root[|root| - 1].spl as nat < FULL_SPL_ID_START + splNum
  {
  }

  lemma IndexHits(root: seq<Le0>, splNum: nat, id: nat)
    requires RootOrdered(root, splNum) && |root| > 1
    ensures IndexOf(root, id) == LastBelow(root, id, 0) + 1 <==> HasNode(root, id) || root[|root| - 1].spl as nat <= id
  {
    var b, last := LastBelow(root, id, 0), |root| - 1;
    if b < last {
      InOrder(root, splNum, b + 1, last);
    }
    hide LastBelow;
    if HasNode(root, id) {
      var i :| 1 <= i < |root| && root[i].spl as nat == id;
      if b < last {
        InOrder(root, splNum, b + 1, i);
      }
    }
    if b < last && root[b + 1].spl as nat == id {
      assert HasNode(root, id);
    }
  }

  /** With ids 30 and 32 in the first layer and 31 missing, the index sends 31 to the node of 30. */
  lemma IndexMissesId(x: Le0, y: Le0)
    requires x.spl == 30 && y.spl == 32
    ensures RootOrdered([NO_LE0, x, y], 3) && !HasNode([NO_LE0, x, y], 31)
    ensures IndexOf([NO_LE0, x, y], 31) == 1 && LastBelow([NO_LE0, x, y], 31, 0) + 1 == 2
  {
    var root := [NO_LE0, x, y];
    assert root[1].spl == 30 && root[2].spl == 32;
    LastBelowIs(root, 3, 31, 1);
  }

  ghost predicate IndexUpTo(root: seq<Le0>, index: seq<u16>, end: nat) {
    root != []
    && forall k ::
         0 <= k < |index| && FULL_SPL_ID_START + k < end ==> index[k] as nat == IndexOf(root, FULL_SPL_ID_START + k)
  }

  /** The loops of `load_dict` over the first layer. */
  method FillIndex(root: seq<Le0>, splNum: nat) returns (index: array<u16>)
    requires RootOrdered(root, splNum)
    ensures fresh(index) && index.Length == splNum + 1
    ensures |root| > 1 ==> forall k :: 0 <= k <= splNum ==> index[k] as nat == IndexOf(root, FULL_SPL_ID_START + k)
  {
    index := new u16[splNum + 1](k => 0);
    var lastSplid, lastPos: nat := FULL_SPL_ID_START, 0;
    var i := 1;
    while i < |root|
      invariant 1 <= i <= |root| && lastPos == i - 1
        && lastSplid == (if i == 1 then FULL_SPL_ID_START else root[i - 1].spl)
      invariant i > 1 ==> IndexUpTo(root, index[..], lastSplid + 1)
    {
      var splid := lastSplid;
      while splid < root[i].spl
        invariant lastSplid <= splid <= root[i].spl && IndexUpTo(root, index[..], splid)
      {
        LastBelowIs(root, splNum, if splid == lastSplid && i > 1 then splid + 1 else splid, i - 1);
        SetIndex(root, splNum, index, splid, lastPos, i);
        splid := splid + 1;
      }
      SetIndex(root, splNum, index, root[i].spl, i, i);
      lastSplid := root[i].spl;
      lastPos := i;
      i := i + 1;
    }
    FillRest(root, splNum, index, lastSplid, lastPos);
  }

  lemma IndexIs(root: seq<Le0>, splNum: nat, id: nat, i: nat)
    requires RootOrdered(root, splNum) && 1 <= i <= |root| && (i < |root| ==> id <= root[i].spl as nat)
      && (i > 1 ==> root[i - 1].spl as nat <= id)
    ensures IndexOf(root, id) ==
              if i < |root| && id < root[i].spl as nat then
                i - 1
              else if i == |root| && i > 1 && root[i - 1].spl as nat == id then i - 1 else i
  {
    if i > 1 && root[i - 1].spl as nat == id {
      LastBelowIs(root, splNum, id, i - 2);
    } else {
      LastBelowIs(root, splNum, id, i - 1);
    }
  }

  method SetIndex(root: seq<Le0>, splNum: nat, index: array<u16>, id: nat, pos: nat, i: nat)
    requires RootOrdered(root, splNum) && index.Length == splNum + 1
      && FULL_SPL_ID_START <= id <= FULL_SPL_ID_START + splNum
    requires IndexUpTo(root, index[..], id) && 1 <= i < |root| && id <= root[i].spl as nat
      && (i > 1 ==> root[i - 1].spl as nat <= id)
    requires pos == if id < root[i].spl as nat then i - 1 else i
    modifies index
    ensures IndexUpTo(root, index[..], id + 1)
  {
    IndexIs(root, splNum, id, i);
    index[id - FULL_SPL_ID_START] := pos;
  }

  method FillRest(root: seq<Le0>, splNum: nat, index: array<u16>, lastSplid: nat, lastPos: nat)
    requires RootOrdered(root, splNum) && index.Length == splNum + 1 && lastPos == |root| - 1
    requires lastSplid == if |root| == 1 then FULL_SPL_ID_START else root[|root| - 1].spl
    requires |root| > 1 ==> IndexUpTo(root, index[..], lastSplid + 1)
    modifies index
    ensures |root| > 1 ==> IndexUpTo(root, index[..], FULL_SPL_ID_START + splNum + 1)
  {
    var splid := lastSplid + 1;
    while splid < FULL_SPL_ID_START + splNum + 1
      invariant lastSplid < splid && (splid <= FULL_SPL_ID_START + splNum + 1 || splid == lastSplid + 1)
      invariant |root| > 1 ==> IndexUpTo(root, index[..], splid)
    {
      IndexIs(root, splNum, splid, |root|);
      index[splid - FULL_SPL_ID_START] := lastPos + 1;
      splid := splid + 1;
    }
  }

  // ---- A dense first layer ----

  /** Every full spelling id has its node in the first layer. */
  ghost predicate Dense(ts: seq<Trie>) {
    0 < |ts| && FULL_SPL_ID_START + |ts| + 1 < 0x1_0000
    && forall j :: 0 <= j < |ts| ==> ts[j].spl as nat == FULL_SPL_ID_START + j
  }

  /** What `load_dict` has read. */
  ghost predicate Read(root: seq<Le0>, nodes: seq<Ge1>, idBuf: seq<u8>, ts: seq<Trie>) {
    Stored(root, nodes, IdsOf(idBuf), ts) && Ordered(ts) && Dense(ts) && |nodes| <= OFFSET_RANGE
  }

  /** A range of full ids, as `half_to_full` gives it. */
  ghost predicate FullRange(ts: seq<Trie>, r: Range) {
    r.num > 0 && FULL_SPL_ID_START <= r.start as nat && r.start as nat + r.num <= FULL_SPL_ID_START + |ts|
  }

  lemma TopIs(root: seq<Le0>, nodes: seq<Ge1>, idBuf: seq<u8>, ts: seq<Trie>, j: nat)
    requires Read(root, nodes, idBuf, ts) && j < |ts|
    ensures TopHolds(root, nodes, IdsOf(idBuf), |nodes|, |IdsOf(idBuf)|, 1 + j, ts[j]) && Ordered(ts[j].sons)
      && Increasing(ts)
    ensures |root| == 1 + |ts| && root[1 + j].spl == ts[j].spl && ts[j].spl as nat == FULL_SPL_ID_START + j
  {
    hide TopHolds;
    TopGives(root, nodes, IdsOf(idBuf), 1 + j, ts[j]);
  }

  lemma RootSpl(root: seq<Le0>, nodes: seq<Ge1>, idBuf: seq<u8>, ts: seq<Trie>, i: nat)
    requires Read(root, nodes, idBuf, ts) && 1 <= i <= |ts|
    ensures |root| == 1 + |ts| && root[i].spl as nat == FULL_SPL_ID_START + i - 1
  {
    hide *;
    TopIs(root, nodes, idBuf, ts, i - 1);
  }

  lemma RootIsOrdered(root: seq<Le0>, nodes: seq<Ge1>, idBuf: seq<u8>, ts: seq<Trie>)
    requires Read(root, nodes, idBuf, ts)
    ensures RootOrdered(root, |ts|) && |root| == 1 + |ts| > 1
  {
    assert |ts| > 0 && FULL_SPL_ID_START + |ts| + 1 < 0x1_0000 by {
      hide Stored;
    }
    RootSpl(root, nodes, idBuf, ts, 1);
    hide Read;
    forall i | 1 <= i < |root| ensures root[i].spl as nat == FULL_SPL_ID_START + i - 1 {
      RootSpl(root, nodes, idBuf, ts, i);
    }
  }

  lemma DenseIndex(root: seq<Le0>, nodes: seq<Ge1>, idBuf: seq<u8>, ts: seq<Trie>, id: nat)
    requires Read(root, nodes, idBuf, ts) && FULL_SPL_ID_START <= id <= FULL_SPL_ID_START + |ts|
    ensures root != [] && IndexOf(root, id) == id - FULL_SPL_ID_START + 1
  {
    hide *;
    RootIsOrdered(root, nodes, idBuf, ts);
    var k := id - FULL_SPL_ID_START;
    if k > 0 {
      RootSpl(root, nodes, idBuf, ts, k);
    }
    if k < |ts| {
      RootSpl(root, nodes, idBuf, ts, k + 1);
    }
    LastBelowIs(root, |ts|, id, k);
    IndexOfIs(root, id);
  }

  lemma IndexOfIs(root: seq<Le0>, id: nat)
    requires root != []
    ensures var b := LastBelow(root, id, 0);
            IndexOf(root, id) == if b + 1 == |root| || root[b + 1].spl as nat == id then b + 1 else b
  {
  }

  lemma DenseFirst(ts: seq<Trie>, x: u16)
    requires Dense(ts) && FULL_SPL_ID_START <= x as nat < FULL_SPL_ID_START + |ts|
    ensures FirstWith(ts, x) == x as nat - FULL_SPL_ID_START
  {
    var k := FirstWith(ts, x);
    assert ts[x as nat - FULL_SPL_ID_START].spl == x;
  }

  // ---- Scanning the sons of a node ----

  /** The first son with this spelling id. */
  method FindSon(nodes: seq<Ge1>, off: nat, num: nat, spl: u16, ghost h: seq<nat>, ghost sons: seq<Trie>)
    returns (k: nat)
    requires num == |sons| && (num > 0 ==> SonsAt(nodes, h, off, sons))
    ensures k == FirstWith(sons, spl)
  {
    hide NodeHolds;
    k := 0;
    while k < num
      invariant k <= num && forall i :: 0 <= i < k ==> sons[i].spl != spl
    {
      SonGives(nodes, h, off, sons, k);
      if nodes[off + k].spl == spl {
        break;
      }
      k := k + 1;
    }
  }

  /** `get_lemma_id`. */
  method GetLemmaId(idBuf: seq<u8>, k: nat) returns (id: nat)
    requires k < |IdsOf(idBuf)|
    ensures id == IdsOf(idBuf)[k]
  {
    id := 0;
    var pos := 2;
    while pos > 0
      invariant 0 <= pos <= 2
      invariant id ==
                  if pos == 2 then
                    0
                  else if pos == 1 then idBuf[3 * k + 2] else idBuf[3 * k + 2] as nat * 0x100 + idBuf[3 * k + 1] as nat
    {
      id := id * 0x100 + idBuf[3 * k + pos] as nat;
      pos := pos - 1;
    }
    id := id * 0x100 + idBuf[3 * k] as nat;
  }

  /** The last loop of `try_extend`. */
  method HasId(idBuf: seq<u8>, off: nat, num: nat, id: nat) returns (found: bool)
    requires off + num <= |IdsOf(idBuf)|
    ensures found <==> id in IdsOf(idBuf)[off..off + num]
  {
    ghost var h := IdsOf(idBuf);
    var pos := 0;
    while pos < num
      invariant pos <= num && forall i :: off <= i < off + pos ==> h[i] != id
    {
      var x := GetLemmaId(idBuf, off + pos);
      if x == id {
        assert h[off..off + num][pos] == id;
        return true;
      }
      pos := pos + 1;
    }
    return false;
  }

  /** `fill_lpi_buffer` behind what the buffer already has, when there is room: the items of a node. */
  method FillLpiBuffer(items: seq<LpiItem>, max: nat, idBuf: seq<u8>, off: nat, num: nat, len: nat, uniPsb: nat -> u16)
    returns (r: seq<LpiItem>)
    requires |items| < max && off + num <= |IdsOf(idBuf)|
    ensures |r| <= max && r == Take(items + Lpis(IdsOf(idBuf)[off..off + num], len, uniPsb), max)
  {
    ghost var h := IdsOf(idBuf)[off..off + num];
    r := items;
    var homo := 0;
    while homo < num
      invariant homo <= num && |r| == |items| + homo && |r| < max && r == items + Lpis(h[..homo], len, uniPsb)
    {
      var id := GetLemmaId(idBuf, off + homo);
      assert h[..homo + 1] == h[..homo] + [id];
      r := r + [LpiItem(id, len, uniPsb(id))];
      homo := homo + 1;
      if |r| >= max {
        assert r == (items + Lpis(h, len, uniPsb))[..max];
        break;
      }
    }
    if homo == num {
      assert h[..num] == h;
    }
  }

  // ---- try_extend ----

  /** What is left to find below the node of the first pos ids. */
  ghost predicate Rest(t: Trie, ids: seq<u16>, pos: nat, id: nat)
    requires 1 <= pos <= |ids|
  {
    if pos == |ids| then id in t.homos else HasLemma(t.sons, ids[pos..], id)
  }

  lemma RestStart(ts: seq<Trie>, ids: seq<u16>, id: nat)
    requires ids != [] && FirstWith(ts, ids[0]) < |ts|
    ensures HasLemma(ts, ids, id) <==> Rest(ts[FirstWith(ts, ids[0])], ids, 1, id)
  {
  }

  lemma RestStep(t: Trie, ids: seq<u16>, pos: nat, id: nat)
    requires 1 <= pos < |ids|
    ensures Rest(t, ids, pos, id) <==> var k := FirstWith(t.sons, ids[pos]);
    k < |t.sons| && Rest(t.sons[k], ids, pos + 1, id)
  {
    var q := ids[pos..];
    assert q[0] == ids[pos] && q[1..] == ids[pos + 1..];
  }

  // ---- Selecting nodes ----

  lemma {:induction false} DenseSelected(ts: seq<Trie>, r: Range, a: nat)
    requires Dense(ts) && FullRange(ts, r) && a == r.start as nat - FULL_SPL_ID_START
    ensures a + r.num <= |ts| && Selected(ts, r) == ts[a..a + r.num]
  {
    hide Selected;
    forall i | 0 <= i < |ts| ensures InRange(ts[i].spl, r) <==> a <= i < a + r.num {
    }
    hide Dense, FullRange, InRange;
    var u, v, w := ts[..a], ts[a..a + r.num], ts[a + r.num..];
    NoneSelected(u, r);
    NoneSelected(w, r);
    AllSelected(v, r);
    SelectedConcat(u, v + w, r);
    SelectedConcat(v, w, r);
    assert ts == u + (v + w);
  }

  lemma {:induction false} AllSelected(ts: seq<Trie>, r: Range)
    requires forall i :: 0 <= i < |ts| ==> InRange(ts[i].spl, r)
    ensures Selected(ts, r) == ts
  {
    if ts != [] {
      AllSelected(ts[1..], r);
    }
  }

  lemma TopsFrom(root: seq<Le0>, nodes: seq<Ge1>, idBuf: seq<u8>, ts: seq<Trie>, r: Range, n: nat)
    requires Read(root, nodes, idBuf, ts) && FullRange(ts, r)
    ensures TopsAt(root, nodes, IdsOf(idBuf), Positions(r.start as nat - FULL_SPL_ID_START + 1, Min(r.num, n)),
              Take(Selected(ts, r), n))
  {
    var a := r.start as nat - FULL_SPL_ID_START;
    DenseSelected(ts, r, a);
    var sel := ts[a..a + r.num];
    hide Selected, TopHolds, Ordered, Stored, FullRange;
    forall i | 0 <= i < |sel|
      ensures TopHolds(root, nodes, IdsOf(idBuf), |nodes|, |IdsOf(idBuf)|, Positions(a + 1, r.num)[i], sel[i])
              && Ordered(sel[i].sons)
    {
      TopIs(root, nodes, idBuf, ts, a + i);
    }
  }

  lemma OneNode(g: seq<Ge1>, h: seq<nat>, p: nat, t: Trie)
    requires NodeHolds(g, h, 0, |g|, |h|, p, t) && Ordered(t.sons)
    ensures NodesAt(g, h, [p], [t])
  {
    hide NodeHolds;
  }

  /** The sons of a node that are in the range, behind those that the buffer already has. */
  method SelectSons(nodes: seq<Ge1>, off: nat, num: nat, r: Range, from: seq<nat>, ghost h: seq<nat>,
    ghost sons: seq<Trie>, ghost ts: seq<Trie>)
    returns (ps: seq<nat>)
    requires num == |sons| && (num > 0 ==> SonsAt(nodes, h, off, sons))
      && NodesAt(nodes, h, from, Take(ts, MAX_EXTENDBUF_LEN))
    ensures NodesAt(nodes, h, ps, Take(ts + Selected(sons, r), MAX_EXTENDBUF_LEN))
  {
    hide NodeHolds, NodesAt, SonsAt, Selected, Ordered;
    ps := from;
    var k := 0;
    SelectedNone(ts, sons, r);
    while k < num
      invariant k <= num && NodesAt(nodes, h, ps, Take(ts + Selected(sons[..k], r), MAX_EXTENDBUF_LEN))
    {
      SonGives(nodes, h, off, sons, k);
      SelectedSnoc(sons, k, r);
      Assoc(ts, Selected(sons[..k], r), [sons[k]]);
      NodesLength(nodes, h, ps, Take(ts + Selected(sons[..k], r), MAX_EXTENDBUF_LEN));
      if r.start <= nodes[off + k].spl && nodes[off + k].spl as nat < r.start as nat + r.num {
        OneNode(nodes, h, off + k, sons[k]);
        MoreNodes(nodes, h, ps, Take(ts + Selected(sons[..k], r), MAX_EXTENDBUF_LEN), [off + k], [sons[k]],
          MAX_EXTENDBUF_LEN);
        TakeMore(ts + Selected(sons[..k], r), [sons[k]], MAX_EXTENDBUF_LEN);
        TakeOne(ps, off + k, MAX_EXTENDBUF_LEN);
        if |ps| < MAX_EXTENDBUF_LEN {
          ps := ps + [off + k];
        }
      } else {
        NothingAdded(ts, Selected(sons[..k], r));
      }
      if nodes[off + k].spl as int >= r.start as int + r.num - 1 {
        RestUnselected(sons, k, r);
        return;
      }
      k := k + 1;
    }
    assert sons[..k] == sons;
  }

  lemma NothingAdded(ts: seq<Trie>, s: seq<Trie>)
    ensures ts + (s + []) == ts + s
  {
  }

  lemma SelectedNone(ts: seq<Trie>, sons: seq<Trie>, r: Range)
    ensures ts + Selected(sons[..0], r) == ts
  {
  }

  lemma NodesLength(g: seq<Ge1>, h: seq<nat>, ps: seq<nat>, ts: seq<Trie>)
    requires NodesAt(g, h, ps, ts)
    ensures |ps| == |ts|
  {
  }

  lemma TakeOne(ps: seq<nat>, p: nat, n: nat)
    requires |ps| <= n
    ensures Take(ps + [p], n) == if |ps| < n then ps + [p] else ps
  {
  }

  lemma NoSons(r: Range, fr: seq<Trie>)
    ensures fr[..0] == [] && SonsOf(fr[..0]) == [] && Selected(SonsOf(fr[..0]), r) == [] && HomosOf(fr[..0]) == []
  {
  }

  lemma TopsGive(x: seq<Le0>, g: seq<Ge1>, h: seq<nat>, ps: seq<nat>, ts: seq<Trie>, i: nat)
    requires TopsAt(x, g, h, ps, ts) && i < |ts|
    ensures |ps| == |ts| && ps[i] < |x| && x[ps[i]].sons as nat == |ts[i].sons|
      && x[ps[i]].homos as nat == |ts[i].homos|
    ensures x[ps[i]].homoOff as nat + |ts[i].homos| <= |h|
      && h[x[ps[i]].homoOff as nat..x[ps[i]].homoOff as nat + |ts[i].homos|] == ts[i].homos
    ensures ts[i].sons != [] ==> SonsAt(g, h, x[ps[i]].sonOff, ts[i].sons)
  {
    hide TopHolds;
    TopGives(x, g, h, ps[i], ts[i]);
  }

  lemma NodesGive(g: seq<Ge1>, h: seq<nat>, ps: seq<nat>, ts: seq<Trie>, i: nat)
    requires NodesAt(g, h, ps, ts) && i < |ts|
    ensures |ps| == |ts| && ps[i] < |g| && g[ps[i]].sons as nat == |ts[i].sons|
      && g[ps[i]].homos as nat == |ts[i].homos|
    ensures HomoOffset(g[ps[i]]) + |ts[i].homos| <= |h|
      && h[HomoOffset(g[ps[i]])..HomoOffset(g[ps[i]]) + |ts[i].homos|] == ts[i].homos
    ensures ts[i].sons != [] ==> SonsAt(g, h, SonOffset(g[ps[i]]), ts[i].sons)
  {
    hide NodeHolds;
    NodeGives(g, h, ps[i], ts[i]);
  }

  /** From the nodes of the first layer to those below it. */
  method ExtendTops(root: seq<Le0>, nodes: seq<Ge1>, fr: seq<nat>, r: Range, ghost h: seq<nat>, ghost ts: seq<Trie>)
    returns (ps: seq<nat>)
    requires TopsAt(root, nodes, h, fr, ts)
    ensures NodesAt(nodes, h, ps, Take(Selected(SonsOf(ts), r), MAX_EXTENDBUF_LEN))
  {
    hide *;
    ps := [];
    NoSons(r, ts);
    NoNodes(nodes, h);
    TopsLength(root, nodes, h, fr, ts);
    var i := 0;
    while i < |fr|
      invariant i <= |fr| == |ts| && NodesAt(nodes, h, ps, Take(Selected(SonsOf(ts[..i]), r), MAX_EXTENDBUF_LEN))
    {
      TopsGive(root, nodes, h, fr, ts, i);
      StepNodes(r, ts, i);
      ps := SelectSons(nodes, root[fr[i]].sonOff, root[fr[i]].sons, r, ps, h, ts[i].sons, Selected(SonsOf(ts[..i]), r));
      i := i + 1;
    }
    assert ts[..i] == ts;
  }

  /** From the nodes of a deeper layer to those of the next. */
  method ExtendNodes(nodes: seq<Ge1>, fr: seq<nat>, r: Range, ghost h: seq<nat>, ghost ts: seq<Trie>)
    returns (ps: seq<nat>)
    requires NodesAt(nodes, h, fr, ts)
    ensures NodesAt(nodes, h, ps, Take(Selected(SonsOf(ts), r), MAX_EXTENDBUF_LEN))
  {
    hide *;
    ps := [];
    NoSons(r, ts);
    NoNodes(nodes, h);
    NodesLength(nodes, h, fr, ts);
    var i := 0;
    while i < |fr|
      invariant i <= |fr| == |ts| && NodesAt(nodes, h, ps, Take(Selected(SonsOf(ts[..i]), r), MAX_EXTENDBUF_LEN))
    {
      NodesGive(nodes, h, fr, ts, i);
      StepNodes(r, ts, i);
      ps := SelectSons(nodes, SonOffset(nodes[fr[i]]), nodes[fr[i]].sons, r, ps, h, ts[i].sons,
        Selected(SonsOf(ts[..i]), r));
      i := i + 1;
    }
    assert ts[..i] == ts;
  }

  lemma NoNodes(g: seq<Ge1>, h: seq<nat>)
    ensures NodesAt(g, h, [], Take([], MAX_EXTENDBUF_LEN))
  {
  }

  lemma TopsLength(x: seq<Le0>, g: seq<Ge1>, h: seq<nat>, ps: seq<nat>, ts: seq<Trie>)
    requires TopsAt(x, g, h, ps, ts)
    ensures |ps| == |ts|
  {
  }

  /** What the spelling trie says about a spelling id: its full ids, and whether it is a one-letter Yunmu. */
  datatype HalfIds = HalfIds(expand: u16 -> Range, yunmu: u16 -> bool)
  {
    function Ranges(q: seq<u16>): (rs: seq<Range>)
      ensures |rs| == |q| && forall i :: 0 <= i < |q| ==> rs[i] == expand(q[i])
    {
      seq(|q|, i requires 0 <= i < |q| => expand(q[i]))
    }
  }

  /** The nodes whose items are taken: of a single one-letter Yunmu only the first, that of its full id. */
  function Answering(spl: HalfIds, q: seq<u16>, reached: seq<Trie>): (s: seq<Trie>) {
    if |q| == 1 && spl.yunmu(q[0]) then Take(reached, 1) else reached
  }

  /** The used parts of the milestone stacks, and what the milestones stand for. */
  datatype MileStack = MileStack(queries: seq<seq<Range>>, marks: seq<ParsingMark>, stones: seq<MileStone>)

  /** All milestones of a are in b as they were. */
  ghost predicate StacksOn(a: MileStack, b: MileStack) {
    a.queries <= b.queries && a.marks <= b.marks && a.stones <= b.stones
  }

  class DictTrie {
    const root: seq<Le0>
    const nodes: seq<Ge1>
    const idBuf: seq<u8>
    const index: array<u16>
    const spl: HalfIds
    const uniPsb: nat -> u16
    ghost const trie: seq<Trie>
    const marks: array<ParsingMark>
    const stones: array<MileStone>
    var marksPos: nat
    var stonesPos: nat
    /** What each milestone stands for. */
    ghost var queries: seq<seq<Range>>

    /** The state of incremental lookup: milestone k stands for what queries[k - 1] reaches. */
    ghost predicate Standing()
      reads this, marks, stones
    {
      && marks.Length == MAX_PARSING_MARK && stones.Length == MAX_MILE_STONE
      && Stacked(root, nodes, IdsOf(idBuf), marks[..], marksPos, stones[..], stonesPos, queries, trie)
    }

    ghost function Used(): (s: MileStack)
      reads this, marks, stones
    {
      MileStack(queries, if marksPos <= marks.Length then marks[..marksPos] else [],
        if stonesPos <= stones.Length then stones[..stonesPos] else [])
    }

    lemma UsedGrows(mp: nat, sp: nat, a: MileStack)
      requires mp <= marksPos <= marks.Length && sp <= stonesPos <= stones.Length && a.queries <= queries
      requires marks[..][..mp] == a.marks && stones[..][..sp] == a.stones
      ensures StacksOn(a, Used())
    {
      assert marks[..marksPos][..mp] == marks[..][..mp] && stones[..stonesPos][..sp] == stones[..][..sp];
    }

    lemma UsedIs()
      requires Standing()
      ensures marksPos <= marks.Length && stonesPos <= stones.Length
      ensures Used() == MileStack(queries, marks[..][..marksPos], stones[..][..stonesPos])
    {
    }

    /** A dictionary as it is loaded; the loop over the first layer fills the quick index. */
    constructor (root: seq<Le0>, nodes: seq<Ge1>, idBuf: seq<u8>, spl: HalfIds, uniPsb: nat -> u16,
      ghost trie: seq<Trie>)
      requires Read(root, nodes, idBuf, trie)
      ensures this.root == root && this.nodes == nodes && this.idBuf == idBuf && this.trie == trie && this.spl == spl
        && this.uniPsb == uniPsb
      ensures Loaded() && Standing() && queries == [] && fresh(index) && fresh(marks) && fresh(stones)
    {
      RootIsOrdered(root, nodes, idBuf, trie);
      this.root := root;
      this.nodes := nodes;
      this.idBuf := idBuf;
      this.spl := spl;
      this.uniPsb := uniPsb;
      this.trie := trie;
      var filled := FillIndex(root, |root| - 1);
      index := filled;
      marks := new ParsingMark[MAX_PARSING_MARK](i => ParsingMark(0, 0));
      stones := new MileStone[MAX_MILE_STONE](i => MileStone(0, 0));
      marksPos := 0;
      stonesPos := 1;
      queries := [];
      new;
      StackEmpty(root, nodes, IdsOf(idBuf), marks[..], stones[..], trie);
    }

    /** `reset_milestones`: the milestones before the handle stay as they are. */
    method ResetMilestones(fromStep: nat, fromHandle: nat)
      requires Standing()
      modifies this`marksPos, this`stonesPos, this`queries
      ensures Standing() && marks[..] == old(marks[..]) && stones[..] == old(stones[..])
        && StacksOn(Used(), old(Used()))
      ensures queries ==
                if fromStep == 0 then
                  []
                else if 0 < fromHandle <= |old(queries)| then old(queries)[..fromHandle - 1] else old(queries)
    {
      hide *;
      hide DictTrie.Standing;
      StandingHas();
      UsedIs();
      StacksOnSelf(Used());
      if fromStep == 0 {
        marksPos := 0;
        stonesPos := 1;
        queries := [];
        Limits();
        StackEmpty(root, nodes, IdsOf(idBuf), marks[..], stones[..], trie);
      } else if fromHandle > 0 && fromHandle < stonesPos {
        CutBack(root, nodes, IdsOf(idBuf), marks[..], marksPos, stones[..], stonesPos, queries, trie, fromHandle);
        StoneFits(fromHandle);
        queries := queries[..fromHandle - 1];
        stonesPos := fromHandle;
        marksPos := stones[fromHandle].markStart;
      }
      StandingIs();
      UsedIs();
      ShorterStacks(old(queries), old(marks[..]), old(stones[..]), old(marksPos), old(stonesPos), |queries|,
        marksPos, stonesPos);
    }

    lemma StoneFits(k: nat)
      requires Standing() && 1 <= k < stonesPos
      ensures stonesPos <= stones.Length && stones[k].markStart as nat <= marksPos
    {
      StandingGives(k);
      StoneEnd(stones[k]);
    }

    static lemma ShorterStacks(q: seq<seq<Range>>, m: seq<ParsingMark>, s: seq<MileStone>, mp: nat, sp: nat, n: nat,
      mp': nat, sp': nat)
      requires n <= |q| && mp' <= mp <= |m| && sp' <= sp <= |s|
      ensures StacksOn(MileStack(q[..n], m[..mp'], s[..sp']), MileStack(q, m[..mp], s[..sp]))
    {
    }

    static lemma StacksOnSelf(a: MileStack)
      ensures StacksOn(a, a)
    {
    }

    ghost predicate Loaded()
      reads index
    {
      Read(root, nodes, idBuf, trie) && index.Length == |trie| + 1
      && forall k :: 0 <= k <= |trie| ==> index[k] as nat == IndexOf(root, FULL_SPL_ID_START + k)
    }

    lemma Indexed(id: nat)
      requires Loaded() && FULL_SPL_ID_START <= id <= FULL_SPL_ID_START + |trie|
      ensures index.Length == |trie| + 1 && index[id - FULL_SPL_ID_START] as nat == id - FULL_SPL_ID_START + 1
      ensures Read(root, nodes, idBuf, trie) && Dense(trie) && Ordered(trie)
    {
      DenseIndex(root, nodes, idBuf, trie, id);
    }

    /** `try_extend`: some lemma has exactly these spelling ids and this id. */
    method TryExtend(ids: seq<u16>, id: nat) returns (ok: bool)
      requires Loaded() && (ids != [] ==> FULL_SPL_ID_START <= ids[0] as nat < FULL_SPL_ID_START + |trie|)
      ensures ok <==> Item(ids, id) in Listed(trie)
    {
      hide *;
      hide DictTrie.Loaded;
      if ids == [] {
        NoEmptyLemma(trie, id);
        return false;
      }
      ghost var h := IdsOf(idBuf);
      var first: nat := ids[0] as nat - FULL_SPL_ID_START;
      Indexed(ids[0]);
      DenseFirst(trie, ids[0]);
      DescentIsMembership(trie, ids, id);
      RestStart(trie, ids, id);
      TopIs(root, nodes, idBuf, trie, first);
      var node: nat := index[first];
      ghost var t := trie[first];
      var pos := 1;
      while pos < |ids|
        invariant 1 <= pos <= |ids| && Ordered(t.sons)
        invariant if pos == 1 then
                    TopHolds(root, nodes, h, |nodes|, |h|, node, t)
                  else NodeHolds(nodes, h, 0, |nodes|, |h|, node, t)
        invariant Item(ids, id) in Listed(trie) <==> Rest(t, ids, pos, id)
      {
        RestStep(t, ids, pos, id);
        var off, num: nat;
        if pos == 1 {
          TopGives(root, nodes, h, node, t);
          off, num := root[node].sonOff, root[node].sons;
        } else {
          NodeGives(nodes, h, node, t);
          off, num := SonOffset(nodes[node]), nodes[node].sons;
        }
        var son := FindSon(nodes, off, num, ids[pos], h, t.sons);
        if son >= num {
          return false;
        }
        SonGives(nodes, h, off, t.sons, son);
        node := off + son;
        t := t.sons[son];
        pos := pos + 1;
      }
      RestEnds(t, ids, id);
      if |ids| == 1 {
        TopGives(root, nodes, h, node, t);
        ok := HasId(idBuf, root[node].homoOff, root[node].homos, id);
      } else {
        NodeGives(nodes, h, node, t);
        ok := HasId(idBuf, HomoOffset(nodes[node]), nodes[node].homos, id);
      }
    }

    /** The nodes of the first layer in the range, as far as the buffer has room. */
    method SelectTops(r: Range) returns (ps: seq<nat>)
      requires Loaded() && FullRange(trie, r)
      ensures TopsAt(root, nodes, IdsOf(idBuf), ps, Take(Selected(trie, r), MAX_EXTENDBUF_LEN))
    {
      hide *;
      hide DictTrie.Loaded;
      RangeIn(trie, r);
      Indexed(r.start);
      Indexed(r.start as nat + r.num);
      TopsFrom(root, nodes, idBuf, trie, r, MAX_EXTENDBUF_LEN);
      var sonStart: nat := index[r.start as nat - FULL_SPL_ID_START];
      var sonEnd: nat := index[r.start as nat + r.num - FULL_SPL_ID_START];
      ps := [];
      NoPositions(sonStart, MAX_EXTENDBUF_LEN);
      var pos := sonStart;
      while pos < sonEnd
        invariant sonStart <= pos <= sonEnd && ps == Positions(sonStart, Min(pos - sonStart, MAX_EXTENDBUF_LEN))
      {
        RootSpl(root, nodes, idBuf, trie, pos);
        ghost var k: nat := pos - sonStart;
        OneMorePosition(sonStart, k, MAX_EXTENDBUF_LEN);
        assert sonStart + k == pos && pos + 1 - sonStart == k + 1;
        if |ps| < MAX_EXTENDBUF_LEN {
          ps := ps + [pos];
        }
        pos := pos + 1;
        if root[pos - 1].spl as int >= r.start as int + r.num - 1 {
          break;
        }
      }
      assert pos == sonEnd && pos - sonStart == r.num;
    }

    /** `get_lpis`: all lemmas with the asked full or half spelling ids, in the order of the lemma array, as far as the
        buffers have room. */
    method GetLpis(q: seq<u16>, max: nat) returns (items: seq<LpiItem>)
      requires Loaded() && max > 0 && (q != [] ==> FullRange(trie, spl.expand(q[0])))
      ensures |q| > MAX_LEMMA_SIZE || q == [] ==> items == []
      ensures 0 < |q| <= MAX_LEMMA_SIZE ==>
                items == Take(Lpis(HomosOf(Answering(spl, q, ReachAtMost(trie, spl.Ranges(q), MAX_EXTENDBUF_LEN))), |q|,
                  uniPsb), max)
      ensures 0 < |q| <= MAX_LEMMA_SIZE && LevelsFit(trie, spl.Ranges(q), MAX_EXTENDBUF_LEN) &&
              !(|q| == 1 && spl.yunmu(q[0])) ==>
                items == Take(Lpis(Filter(Listed(trie), spl.Ranges(q)), |q|, uniPsb), max)
    {
      hide *;
      hide DictTrie.Loaded;
      if |q| > MAX_LEMMA_SIZE || q == [] {
        return [];
      }
      Indexed(FULL_SPL_ID_START);
      ghost var h, rs := IdsOf(idBuf), spl.Ranges(q);
      var tops, found: seq<nat> := [], [];
      var splPos := 0;
      while splPos < |q|
        invariant splPos < |q|
        invariant splPos == 1 ==> TopsAt(root, nodes, h, tops, ReachAtMost(trie, rs[..1], MAX_EXTENDBUF_LEN))
        invariant splPos > 1 ==> NodesAt(nodes, h, found, ReachAtMost(trie, rs[..splPos], MAX_EXTENDBUF_LEN))
      {
        var r := spl.expand(q[splPos]);
        LevelStep(trie, rs, splPos, MAX_EXTENDBUF_LEN);
        if splPos == 0 {
          tops := SelectTops(r);
        } else if splPos == 1 {
          found := ExtendTops(root, nodes, tops, r, h, ReachAtMost(trie, rs[..1], MAX_EXTENDBUF_LEN));
        } else {
          found := ExtendNodes(nodes, found, r, h, ReachAtMost(trie, rs[..splPos], MAX_EXTENDBUF_LEN));
        }
        splPos := splPos + 1;
        if splPos >= |q| || (if splPos == 1 then |tops| else |found|) == 0 {
          break;
        }
      }
      ghost var reached := ReachAtMost(trie, rs[..splPos], MAX_EXTENDBUF_LEN);
      assert splPos == 1 ==> TopsAt(root, nodes, h, tops, reached);
      var nodeNum: nat := if splPos == 1 then |tops| else |found|;
      ReachedLength(root, nodes, h, if splPos == 1 then tops else found, reached, splPos);
      assert splPos == |q| || reached == [];
      Answers(trie, spl, q, splPos, uniPsb, max);
      if nodeNum == 0 {
        return [];
      }
      if |q| == 1 && spl.yunmu(q[0]) {
        nodeNum := 1;
      }
      items := FillAll(if splPos == 1 then tops else found, nodeNum, splPos, |q|, max, reached);
    }

    /** The items of the first n nodes. */
    method FillAll(ps: seq<nat>, n: nat, splPos: nat, len: nat, max: nat, ghost ts: seq<Trie>)
      returns (items: seq<LpiItem>)
      requires n <= |ps| == |ts| && max > 0 && splPos > 0
      requires if splPos == 1 then TopsAt(root, nodes, IdsOf(idBuf), ps, ts) else NodesAt(nodes, IdsOf(idBuf), ps, ts)
      ensures items == Take(Lpis(HomosOf(ts[..n]), len, uniPsb), max)
    {
      hide *;
      items := [];
      NoItems(ts, len, uniPsb, max);
      var i := 0;
      while i < n
        invariant i <= n && |items| < max && items == Take(Lpis(HomosOf(ts[..i]), len, uniPsb), max)
      {
        var off, num: nat;
        if splPos == 1 {
          TopsGive(root, nodes, IdsOf(idBuf), ps, ts, i);
          off, num := root[ps[i]].homoOff, root[ps[i]].homos;
        } else {
          NodesGive(nodes, IdsOf(idBuf), ps, ts, i);
          off, num := HomoOffset(nodes[ps[i]]), nodes[ps[i]].homos;
        }
        MoreItems(ts, i, len, uniPsb, max);
        items := FillLpiBuffer(items, max, idBuf, off, num, len, uniPsb);
        i := i + 1;
        if |items| >= max {
          NoMoreItems(ts, i, n, len, uniPsb, max);
          return;
        }
      }
    }

    // ---- extend_dict ----

    /** The scan of the sons of one node: the items of those in the range are added, and they are neighbours. */
    method ScanSons(off: nat, num: nat, r: Range, len: nat, was: seq<LpiItem>, max: nat, ghost sons: seq<Trie>)
      returns (items: seq<LpiItem>, foundStart: nat, foundNum: nat)
      requires num == |sons| && (num > 0 ==> SonsAt(nodes, IdsOf(idBuf), off, sons)) && |was| <= max
      ensures foundStart + foundNum <= |sons| && Selected(sons, r) == sons[foundStart..foundStart + foundNum]
      ensures items == Take(was + Lpis(HomosOf(Selected(sons, r)), len, uniPsb), max)
    {
      hide *;
      items, foundStart, foundNum := was, 0, 0;
      NoneScanned(sons, r, len, uniPsb, was, max);
      var sonPos := 0;
      while sonPos < num
        invariant sonPos <= num && Scanned(sons, sonPos, r, len, uniPsb, was, max, foundStart, foundNum, items)
      {
        SonGives(nodes, IdsOf(idBuf), off, sons, sonPos);
        ghost var start, found, had := foundStart, foundNum, items;
        var spl: nat := nodes[off + sonPos].spl;
        if spl >= r.start as nat && spl < r.start as nat + r.num {
          if |items| < max {
            items := FillLpiBuffer(items, max, idBuf, HomoOffset(nodes[off + sonPos]),
              nodes[off + sonPos].homos, len, uniPsb);
          }
          if foundNum == 0 {
            foundStart := sonPos;
          }
          foundNum := foundNum + 1;
        }
        ScanStep(sons, sonPos, r, len, uniPsb, was, max, start, found, had, items);
        if spl as int >= r.start as int + r.num - 1 || sonPos == num - 1 {
          return;
        }
        sonPos := sonPos + 1;
      }
      AllScanned(sons, sonPos, r, len, uniPsb, was, max, foundStart, foundNum, items);
    }

    /** While a milestone is extended: behind the marks that were there stand those of the first k nodes, and the
        milestone that is being made starts with them. */
    ghost predicate Going(mp: nat, m0: seq<ParsingMark>, s0: seq<MileStone>, retVal: nat, items: seq<LpiItem>,
      ts: seq<Trie>, k: nat, r: Range, len: nat, max: nat)
      reads this, marks, stones
    {
      && |m0| == marks.Length == MAX_PARSING_MARK && |s0| == stones.Length == MAX_MILE_STONE
      && 1 <= stonesPos <= stones.Length && mp <= marksPos <= marks.Length && retVal == marksPos - mp && k <= |ts|
      && marks[..][..mp] == m0[..mp] && (forall j :: 0 <= j < stonesPos ==> stones[j] == s0[j])
      && Extended(nodes, IdsOf(idBuf), marks[mp..marksPos], items, ts[..k], r, len, uniPsb, max)
      && (retVal > 0 ==> stonesPos < stones.Length && stones[stonesPos].markStart as nat == mp)
    }

    /** One marked node: its sons in the range are marked and their items added. */
    method ExtendMarked(level: nat, node: nat, r: Range, len: nat, was: seq<LpiItem>, max: nat, retVal: nat,
                        ghost mp: nat, ghost m0: seq<ParsingMark>, ghost s0: seq<MileStone>, ghost ps: seq<nat>,
                          ghost ts: seq<Trie>, ghost k: nat)
      returns (items: seq<LpiItem>, newVal: nat)
      requires Going(mp, m0, s0, retVal, was, ts, k, r, len, max) && |was| <= max && k < |ts| && |ps| == |ts|
        && ps[k] == node
      requires if level == 1 then TopsAt(root, nodes, IdsOf(idBuf), ps, ts) else NodesAt(nodes, IdsOf(idBuf), ps, ts)
      requires (MarkCount(ts, r) > 0 ==> stonesPos < MAX_MILE_STONE && mp + MarkCount(ts, r) <= MAX_PARSING_MARK)
        && |nodes| <= OFFSET_RANGE && r.num < 0x100
      modifies marks, stones, this`marksPos
      ensures Going(mp, m0, s0, newVal, items, ts, k + 1, r, len, max) && |items| <= max
    {
      hide *;
      hide DictTrie.Going;
      var off, num: nat;
      if level == 1 {
        TopsGive(root, nodes, IdsOf(idBuf), ps, ts, k);
        off, num := root[node].sonOff, root[node].sons;
      } else {
        NodesGive(nodes, IdsOf(idBuf), ps, ts, k);
        off, num := SonOffset(nodes[node]), nodes[node].sons;
      }
      var foundStart, foundNum;
      items, foundStart, foundNum := ScanSons(off, num, r, len, was, max, ts[k].sons);
      TakeShort(was + Lpis(HomosOf(Selected(ts[k].sons, r)), len, uniPsb), max);
      newVal := MarkFound(off, foundStart, foundNum, r, len, was, items, max, retVal, mp, m0, s0, ts, k);
    }

    /** If the scan has found sons, they are marked. */
    method MarkFound(off: nat, foundStart: nat, foundNum: nat, r: Range, len: nat, ghost was: seq<LpiItem>,
      ghost items: seq<LpiItem>, max: nat, retVal: nat,
                     ghost mp: nat, ghost m0: seq<ParsingMark>, ghost s0: seq<MileStone>,
                       ghost ts: seq<Trie>, ghost k: nat)
      returns (newVal: nat)
      requires Going(mp, m0, s0, retVal, was, ts, k, r, len, max) && k < |ts|
      requires foundStart + foundNum <= |ts[k].sons|
        && Selected(ts[k].sons, r) == ts[k].sons[foundStart..foundStart + foundNum]
      requires ts[k].sons != [] ==> SonsAt(nodes, IdsOf(idBuf), off, ts[k].sons)
      requires items == Take(was + Lpis(HomosOf(Selected(ts[k].sons, r)), len, uniPsb), max)
      requires (MarkCount(ts, r) > 0 ==> stonesPos < MAX_MILE_STONE && mp + MarkCount(ts, r) <= MAX_PARSING_MARK)
        && |nodes| <= OFFSET_RANGE && r.num < 0x100
      modifies marks, stones, this`marksPos
      ensures Going(mp, m0, s0, newVal, items, ts, k + 1, r, len, max)
    {
      hide *;
      hide DictTrie.Going;
      GoingGives(mp, m0, s0, retVal, was, ts, k, r, len, max);
      MarkCountStep(ts, k, r);
      ghost var ms := marks[mp..marksPos];
      if foundNum == 0 {
        assert Selected(ts[k].sons, r) == [];
        ExtendedStep(nodes, IdsOf(idBuf), ms, was, ts, k, r, len, uniPsb, max, off, foundStart, foundNum, ms, items);
        GoingIs(mp, m0, s0, retVal, items, ts, k + 1, r, len, max);
        return retVal;
      }
      BlockShort(nodes, IdsOf(idBuf), off, ts[k].sons, r, foundStart, foundNum);
      var at: u24 := off + foundStart;
      var n: u8 := foundNum;
      ExtendedStep(nodes, IdsOf(idBuf), ms, was, ts, k, r, len, uniPsb, max, off, foundStart, foundNum,
        ms + [ParsingMark(at, n)], items);
      if stonesPos < MAX_MILE_STONE && marksPos < MAX_PARSING_MARK {
        AddMark(at, n, retVal == 0, mp);
      }
      newVal := retVal + 1;
      GoingIs(mp, m0, s0, newVal, items, ts, k + 1, r, len, max);
    }

    /** Push a mark; the first one starts the new milestone. */
    method AddMark(off: u24, num: u8, first: bool, ghost mp: nat)
      requires mp <= marksPos < marks.Length < 0x1_0000 && stonesPos < stones.Length
      modifies marks, stones, this`marksPos
      ensures marksPos == old(marksPos) + 1
      ensures marks[mp..marksPos] == old(marks[mp..marksPos]) + [ParsingMark(off, num)]
        && marks[..][..mp] == old(marks[..])[..mp]
      ensures forall j :: 0 <= j < stones.Length && j != stonesPos ==> stones[j] == old(stones[j])
      ensures stones[stonesPos].markStart as nat ==
                if first then old(marksPos) else old(stones[stonesPos].markStart) as nat
    {
      marks[marksPos] := ParsingMark(off, num);
      if first {
        stones[stonesPos] := stones[stonesPos].(markStart := marksPos);
      }
      marksPos := marksPos + 1;
    }

    lemma GoingGives(mp: nat, m0: seq<ParsingMark>, s0: seq<MileStone>, retVal: nat, items: seq<LpiItem>, ts: seq<Trie>,
      k: nat, r: Range, len: nat, max: nat)
      requires Going(mp, m0, s0, retVal, items, ts, k, r, len, max)
      ensures |m0| == marks.Length == MAX_PARSING_MARK == 600 && |s0| == stones.Length == MAX_MILE_STONE == 100
      ensures 1 <= stonesPos <= stones.Length && mp <= marksPos <= marks.Length
        && retVal == marksPos - mp == MarkCount(ts[..k], r) && k <= |ts|
      ensures marks[..][..mp] == m0[..mp] && (forall j :: 0 <= j < stonesPos ==> stones[j] == s0[j])
      ensures Extended(nodes, IdsOf(idBuf), marks[mp..marksPos], items, ts[..k], r, len, uniPsb, max)
      ensures retVal > 0 ==> stonesPos < stones.Length && stones[stonesPos].markStart as nat == mp
    {
    }

    lemma GoingIs(mp: nat, m0: seq<ParsingMark>, s0: seq<MileStone>, retVal: nat, items: seq<LpiItem>, ts: seq<Trie>,
      k: nat, r: Range, len: nat, max: nat)
      requires |m0| == marks.Length == 600 && |s0| == stones.Length == 100
      requires 1 <= stonesPos <= stones.Length && mp <= marksPos <= marks.Length && retVal == marksPos - mp && k <= |ts|
      requires marks[..][..mp] == m0[..mp] && (forall j :: 0 <= j < stonesPos ==> stones[j] == s0[j])
      requires Extended(nodes, IdsOf(idBuf), marks[mp..marksPos], items, ts[..k], r, len, uniPsb, max)
      requires retVal > 0 ==> stonesPos < stones.Length && stones[stonesPos].markStart as nat == mp
      ensures Going(mp, m0, s0, retVal, items, ts, k, r, len, max)
    {
    }

    /** All nodes of a milestone, in the order of its marks. */
    method ExtendAll(stone: MileStone, level: nat, r: Range, len: nat, max: nat,
                     ghost m0: seq<ParsingMark>, ghost s0: seq<MileStone>, ghost ts: seq<Trie>)
      returns (items: seq<LpiItem>, retVal: nat)
      requires |m0| == marks.Length == 600 && |s0| == stones.Length == 100 && 1 <= stonesPos <= 100 && marksPos <= 600
      requires marks[..] == m0 && stones[..] == s0 && stone.End() <= marksPos
      requires |Marked(m0[stone.markStart as nat..stone.End()])| == |ts|
      requires if level == 1 then TopsAt(root, nodes, IdsOf(idBuf), Marked(m0[stone.markStart as nat..stone.End()]), ts)
               else NodesAt(nodes, IdsOf(idBuf), Marked(m0[stone.markStart as nat..stone.End()]), ts)
      requires (MarkCount(ts, r) > 0 ==> stonesPos < MAX_MILE_STONE && marksPos + MarkCount(ts, r) <= MAX_PARSING_MARK)
        && |nodes| <= OFFSET_RANGE && r.num < 0x100
      modifies marks, stones, this`marksPos
      ensures Going(old(marksPos), m0, s0, retVal, items, ts, |ts|, r, len, max)
    {
      hide *;
      hide DictTrie.Going, MileStone.End;
      Limits();
      StoneEnd(stone);
      ghost var mp := marksPos;
      ghost var ms := m0[stone.markStart as nat..stone.End()];
      ghost var ps := Marked(ms);
      items, retVal := [], 0;
      NothingExtended(nodes, IdsOf(idBuf), ts, r, len, uniPsb, max);
      assert marks[mp..marksPos] == [];
      GoingIs(mp, m0, s0, 0, items, ts, 0, r, len, max);
      NothingMarked(ms);
      var hPos := 0;
      while hPos < stone.markNum
        invariant hPos <= stone.markNum && |Marked(ms[..hPos])| <= |ts| && |items| <= max
        invariant Going(mp, m0, s0, retVal, items, ts, |Marked(ms[..hPos])|, r, len, max)
      {
        GoingGives(mp, m0, s0, retVal, items, ts, |Marked(ms[..hPos])|, r, len, max);
        SameMark(m0, marks[..], mp, stone, hPos);
        var pMark := marks[stone.markStart as nat + hPos as nat];
        MarkedAt(ms, hPos, 0);
        ghost var k0 := |Marked(ms[..hPos])|;
        var extPos := 0;
        while extPos < pMark.nodeNum
          invariant extPos <= pMark.nodeNum && k0 + extPos <= |ts| && |items| <= max
          invariant Going(mp, m0, s0, retVal, items, ts, k0 + extPos, r, len, max)
        {
          MarkedAt(ms, hPos, extPos);
          items, retVal := ExtendMarked(level, pMark.nodeOffset + extPos, r, len, items, max, retVal, mp, m0, s0,
            ps, ts, k0 + extPos);
          extPos := extPos + 1;
        }
        hPos := hPos + 1;
      }
      assert ms[..hPos] == ms;
    }

    lemma Limits()
      ensures MAX_PARSING_MARK == 600 && MAX_MILE_STONE == 100
    {
    }

    /** `extend_dict1` and `extend_dict2`, which differ in where the marked nodes are: the items are those of a lookup
        of all spellings so far and this one, and the new milestone stands for them. */
    method ExtendDict12(fromHandle: nat, splidsExtended: nat, r: Range, max: nat)
      returns (handle: nat, items: seq<LpiItem>)
      requires Loaded() && Standing() && 1 <= fromHandle < stonesPos && 0 < splidsExtended == |queries[fromHandle - 1]|
      requires 0 < r.num < 0x100
      requires var n := MarkCount(Reach(trie, queries[fromHandle - 1]), r);
               n > 0 ==> stonesPos < MAX_MILE_STONE && marksPos + n <= MAX_PARSING_MARK
      modifies this`marksPos, this`stonesPos, this`queries, marks, stones
      ensures Loaded() && Standing()
      ensures var q := old(queries)[fromHandle - 1] + [r];
              && items == Take(Lpis(Filter(Listed(trie), q), splidsExtended + 1, uniPsb), max)
              && (Reach(trie, q) == [] ==> handle == 0 && queries == old(queries))
              && (Reach(trie, q) != [] ==> handle == |old(queries)| + 1 && queries == old(queries) + [q])
      ensures marksPos == old(marksPos) + MarkCount(Reach(trie, old(queries)[fromHandle - 1]), r)
      ensures marks[..][..old(marksPos)] == old(marks[..][..marksPos])
        && stones[..][..old(stonesPos)] == old(stones[..][..stonesPos])
    {
      hide *;
      hide DictTrie.Loaded, DictTrie.Standing, DictTrie.Going;
      Limits();
      StandingGives(fromHandle);
      ghost var q0 := queries[fromHandle - 1];
      ghost var m0, s0, mp, sp, h := marks[..], stones[..], marksPos, stonesPos, IdsOf(idBuf);
      Indexed(FULL_SPL_ID_START);
      NodesFit(root, nodes, idBuf, trie);
      var stone := stones[fromHandle];
      var retVal;
      items, retVal := ExtendAll(stone, splidsExtended, r, splidsExtended + 1, max, m0, s0, Reach(trie, q0));
      ghost var ts := Reach(trie, q0);
      GoingGives(mp, m0, s0, retVal, items, ts, |ts|, r, splidsExtended + 1, max);
      assert ts[..|ts|] == ts;
      MarkCountZero(ts, r);
      AllExtended(nodes, h, marks[mp..marksPos], items, trie, q0, r, splidsExtended + 1, uniPsb, max);
      if retVal > 0 {
        stones[stonesPos] := stones[stonesPos].(markNum := retVal);
        handle := stonesPos;
        stonesPos := stonesPos + 1;
        queries := queries + [q0 + [r]];
        NewStone(root, nodes, h, marks[..], stones[handle], trie, q0, r, mp, marksPos);
        Pushed(root, nodes, h, m0, mp, s0, sp, old(queries), trie, marks[..], marksPos, stones[..], q0 + [r]);
      } else {
        handle := 0;
        Untouched(root, nodes, h, m0, mp, s0, sp, queries, trie, marks[..], stones[..]);
      }
      StandingIs();
    }

    lemma StandingGives(handle: nat)
      requires Standing() && 1 <= handle < stonesPos
      ensures marks.Length == MAX_PARSING_MARK && stones.Length == MAX_MILE_STONE && handle - 1 < |queries|
        && stonesPos == |queries| + 1 <= stones.Length
      ensures Stacked(root, nodes, IdsOf(idBuf), marks[..], marksPos, stones[..], stonesPos, queries, trie)
      ensures marksPos <= marks.Length && stones[handle].End() <= marksPos && queries[handle - 1] != []
      ensures var ps, q := Marked(marks[..][stones[handle].markStart as nat..stones[handle].End()]),
        queries[handle - 1];
              |ps| == |Reach(trie, q)|
              && if |q| == 1 then
                   TopsAt(root, nodes, IdsOf(idBuf), ps, Reach(trie, q))
                 else NodesAt(nodes, IdsOf(idBuf), ps, Reach(trie, q))
    {
      hide Marked, Reach, TopsAt, NodesAt, Stacked;
      StackGives(root, nodes, IdsOf(idBuf), marks[..], marksPos, stones[..], stonesPos, queries, trie, handle);
    }

    lemma StandingIs()
      requires marks.Length == MAX_PARSING_MARK && stones.Length == MAX_MILE_STONE
      requires Stacked(root, nodes, IdsOf(idBuf), marks[..], marksPos, stones[..], stonesPos, queries, trie)
      ensures Standing()
    {
    }

    /** A new milestone for the num nodes of the first layer from sonPos on, if both stacks have room. */
    method MarkTops(sonPos: nat, r: Range) returns (handle: nat)
      requires Loaded() && Standing() && FullRange(trie, r) && r.num < 0x100
        && sonPos == r.start as nat - FULL_SPL_ID_START + 1
      modifies this`marksPos, this`stonesPos, this`queries, marks, stones
      ensures Standing()
      ensures if old(stonesPos) < MAX_MILE_STONE && old(marksPos) < MAX_PARSING_MARK
              then handle == |old(queries)| + 1 && queries == old(queries) + [[r]] && marksPos == old(marksPos) + 1
              else handle == 0 && queries == old(queries) && marksPos == old(marksPos)
      ensures marks[..][..old(marksPos)] == old(marks[..][..marksPos])
        && stones[..][..old(stonesPos)] == old(stones[..][..stonesPos])
    {
      hide *;
      hide DictTrie.Loaded, DictTrie.Standing;
      Limits();
      StandingHas();
      handle := 0;
      if stonesPos < MAX_MILE_STONE && marksPos < MAX_PARSING_MARK {
        ghost var m0, s0, mp, sp := marks[..], stones[..], marksPos, stonesPos;
        RangeIn(trie, r);
        Indexed(r.start);
        TopsStand(root, nodes, idBuf, trie, r, sonPos);
        var off: u24, num: u8 := sonPos, r.num;
        marks[marksPos] := ParsingMark(off, num);
        stones[stonesPos] := MileStone(marksPos, 1);
        handle := stonesPos;
        marksPos := marksPos + 1;
        stonesPos := stonesPos + 1;
        queries := queries + [[r]];
        assert marks[..][mp..mp + 1] == [ParsingMark(off, num)];
        StoneEnd(MileStone(mp, 1));
        OneMark(root, nodes, IdsOf(idBuf), marks[..], MileStone(mp, 1), trie, r, ParsingMark(off, num));
        Pushed(root, nodes, IdsOf(idBuf), m0, mp, s0, sp, old(queries), trie, marks[..], marksPos, stones[..], [r]);
        StandingIs();
      }
    }

    lemma StandingHas()
      requires Standing()
      ensures marks.Length == MAX_PARSING_MARK && stones.Length == MAX_MILE_STONE && stonesPos == |queries| + 1
        && marksPos <= marks.Length && stonesPos <= stones.Length
      ensures Stacked(root, nodes, IdsOf(idBuf), marks[..], marksPos, stones[..], stonesPos, queries, trie)
    {
    }

    method FillTop(was: seq<LpiItem>, max: nat, sonPos: nat, needLpi: bool) returns (items: seq<LpiItem>)
      requires sonPos < |root| && root[sonPos].homoOff as nat + root[sonPos].homos as nat <= |IdsOf(idBuf)|
        && |was| <= max
      ensures |items| <= max
      ensures items == if |was| < max && needLpi
                       then Take(was + Lpis(IdsOf(idBuf)[root[sonPos].homoOff as nat..root[sonPos].homoOff as nat
                         + root[sonPos].homos as nat], 1, uniPsb), max)
                       else was
    {
      items := was;
      if |was| < max && needLpi {
        items := FillLpiBuffer(was, max, idBuf, root[sonPos].homoOff, root[sonPos].homos, 1, uniPsb);
      }
    }

    /** While the first layer is scanned: the milestone of the range is made with its first node, if both stacks have
        room. */
    ghost predicate Marking(started: bool, handle: nat, r: Range, q0: seq<seq<Range>>, mp: nat, sp: nat,
      mm: seq<ParsingMark>, ss: seq<MileStone>)
      reads this, marks, stones
    {
      && Standing() && mp <= marks.Length && sp <= stones.Length && marks[..][..mp] == mm && stones[..][..sp] == ss
      && if started && sp < MAX_MILE_STONE
         && mp < MAX_PARSING_MARK then handle == |q0| + 1 && queries == q0 + [[r]] && marksPos == mp + 1
         else handle == 0 && queries == q0 && marksPos == mp && stonesPos == sp
    }

    /** The step of the scan that may make the milestone. */
    method MarkFirst(sonPos: nat, r: Range, was: nat, ghost q0: seq<seq<Range>>, ghost mp: nat, ghost sp: nat,
      ghost mm: seq<ParsingMark>, ghost ss: seq<MileStone>)
      returns (handle: nat)
      requires Loaded() && FullRange(trie, r) && r.num < 0x100 && 0 < sonPos < |root|
        && root[sonPos].spl as nat == FULL_SPL_ID_START + sonPos - 1
      requires Marking(sonPos > r.start as nat - FULL_SPL_ID_START + 1, was, r, q0, mp, sp, mm, ss)
        && sonPos >= r.start as nat - FULL_SPL_ID_START + 1
      modifies this`marksPos, this`stonesPos, this`queries, marks, stones
      ensures Marking(true, handle, r, q0, mp, sp, mm, ss)
    {
      hide *;
      hide DictTrie.Loaded, DictTrie.Standing;
      handle := was;
      MarkingGives(sonPos > r.start as nat - FULL_SPL_ID_START + 1, was, r, q0, mp, sp, mm, ss);
      if root[sonPos].spl == r.start {
        StandingHas();
        handle := MarkTops(sonPos, r);
        StandingHas();
        MarkingIs(handle, r, q0, mp, sp, mm, ss);
      }
    }

    lemma MarkingGives(started: bool, handle: nat, r: Range, q0: seq<seq<Range>>, mp: nat, sp: nat,
      mm: seq<ParsingMark>, ss: seq<MileStone>)
      requires Marking(started, handle, r, q0, mp, sp, mm, ss)
      ensures Standing() && mp <= marks.Length && sp <= stones.Length && marks[..][..mp] == mm && stones[..][..sp] == ss
      ensures if started && sp < MAX_MILE_STONE && mp < MAX_PARSING_MARK then
                handle == |q0| + 1 && queries == q0 + [[r]] && marksPos == mp + 1
              else handle == 0 && queries == q0 && marksPos == mp && stonesPos == sp
    {
    }

    lemma MarkingIs(handle: nat, r: Range, q0: seq<seq<Range>>, mp: nat, sp: nat, mm: seq<ParsingMark>,
      ss: seq<MileStone>)
      requires Standing() && mp <= marks.Length && sp <= stones.Length && marks[..][..mp] == mm
        && stones[..][..sp] == ss
      requires if sp < MAX_MILE_STONE && mp < MAX_PARSING_MARK then
                 handle == |q0| + 1 && queries == q0 + [[r]] && marksPos == mp + 1
               else handle == 0 && queries == q0 && marksPos == mp && stonesPos == sp
      ensures Marking(true, handle, r, q0, mp, sp, mm, ss)
    {
    }

    lemma MarkingStarts(r: Range)
      requires Standing()
      ensures marksPos <= marks.Length && stonesPos <= stones.Length
      ensures Marking(false, 0, r, queries, marksPos, stonesPos, marks[..][..marksPos], stones[..][..stonesPos])
    {
    }

    /** One turn of the loop of `extend_dict0`: the items of one node of the first layer, and its mark. */
    method TopTurn(sonPos: nat, sonStart: nat, r: Range, first: bool, cached: bool, max: nat, was: nat,
      before: seq<LpiItem>, ghost sel: seq<Trie>, ghost q0: seq<seq<Range>>, ghost mp: nat, ghost sp: nat,
      ghost mm: seq<ParsingMark>, ghost ss: seq<MileStone>)
      returns (handle: nat, items: seq<LpiItem>)
      requires Loaded() && FullRange(trie, r) && r.num < 0x100 && sel == Reach(trie, [r])
      requires sonStart == r.start as nat - FULL_SPL_ID_START + 1 && sonStart <= sonPos < sonStart + |sel|
      requires Marking(sonPos > sonStart, was, r, q0, mp, sp, mm, ss) && |before| <= max
      requires before ==
               if cached then [] else Take(Lpis(HomosOf(Asked(sel, sonPos - sonStart, first)), 1, uniPsb), max)
      modifies this`marksPos, this`stonesPos, this`queries, marks, stones
      ensures Loaded() && Marking(true, handle, r, q0, mp, sp, mm, ss) && |items| <= max
      ensures sonPos < |root| && root[sonPos].spl as nat == FULL_SPL_ID_START + sonPos - 1
      ensures items ==
              if cached then [] else Take(Lpis(HomosOf(Asked(sel, sonPos + 1 - sonStart, first)), 1, uniPsb), max)
    {
      hide *;
      hide DictTrie.Loaded, DictTrie.Marking;
      RangeIn(trie, r);
      Indexed(r.start);
      TopsOne(root, nodes, idBuf, trie, r, sonStart - 1);
      RootSpl(root, nodes, idBuf, trie, sonPos);
      TopsGive(root, nodes, IdsOf(idBuf), Positions(sonStart, r.num), sel, sonPos - sonStart);
      TopItems(sel, sonPos - sonStart, first, uniPsb, max, before, sonStart);
      items := before;
      if !cached {
        items := FillTop(items, max, sonPos, !(first && sonPos != sonStart));
      }
      handle := MarkFirst(sonPos, r, was, q0, mp, sp, mm, ss);
    }

    /** `extend_dict0`: from the root. */
    method ExtendDict0(splid: u16, r: Range, cached: bool, max: nat) returns (handle: nat, items: seq<LpiItem>)
      requires Loaded() && Standing() && FullRange(trie, r) && r.num < 0x100
      modifies this`marksPos, this`stonesPos, this`queries, marks, stones
      ensures Loaded() && Standing()
      ensures items ==
                if cached then [] else Take(Lpis(HomosOf(Answering(spl, [splid], Reach(trie, [r]))), 1, uniPsb), max)
      ensures !cached && !spl.yunmu(splid) ==> items == Take(Lpis(Filter(Listed(trie), [r]), 1, uniPsb), max)
      ensures if old(stonesPos) < MAX_MILE_STONE && old(marksPos) < MAX_PARSING_MARK
              then handle == |old(queries)| + 1 && queries == old(queries) + [[r]] && marksPos == old(marksPos) + 1
              else handle == 0 && queries == old(queries) && marksPos == old(marksPos)
      ensures marks[..][..old(marksPos)] == old(marks[..][..marksPos])
        && stones[..][..old(stonesPos)] == old(stones[..][..stonesPos])
    {
      hide *;
      hide DictTrie.Loaded, DictTrie.Standing, DictTrie.Marking;
      RangeIn(trie, r);
      Indexed(r.start);
      Indexed(r.start as nat + r.num);
      var sonStart: nat := index[r.start as nat - FULL_SPL_ID_START];
      var sonEnd: nat := index[r.start as nat + r.num - FULL_SPL_ID_START];
      ghost var sel := Reach(trie, [r]);
      StandingHas();
      MarkingStarts(r);
      ghost var q0, mp, sp, mm, ss := queries, marksPos, stonesPos, marks[..][..marksPos], stones[..][..stonesPos];
      handle, items := 0, [];
      TopsOne(root, nodes, idBuf, trie, r, sonStart - 1);
      var first := spl.yunmu(splid);
      NoTopItems(sel, first, uniPsb, max);
      assert sonEnd - sonStart == |sel|;
      var sonPos := sonStart;
      while sonPos < sonEnd
        invariant sonStart <= sonPos <= sonEnd && Loaded() && |items| <= max
          && Marking(sonPos > sonStart, handle, r, q0, mp, sp, mm, ss)
        invariant items ==
                    if cached then [] else Take(Lpis(HomosOf(Asked(sel, sonPos - sonStart, first)), 1, uniPsb), max)
      {
        handle, items := TopTurn(sonPos, sonStart, r, first, cached, max, handle, items, sel, q0, mp, sp, mm, ss);
        sonPos := sonPos + 1;
        if root[sonPos - 1].spl as int >= r.start as int + r.num - 1 {
          assert sonPos == sonEnd;
          break;
        }
      }
      MarkingGives(true, handle, r, q0, mp, sp, mm, ss);
      AllAsked(sel, spl, splid);
      ReachFilters(trie, [r]);
    }

    /** `extend_dict`: going on from a milestone finds what a lookup of all the spellings from the start finds, and the
        new milestone stands for all of them; what the older milestones stand for, and where, stays as it is. */
    method ExtendDict(fromHandle: nat, splidsExtended: nat, splid: u16, r: Range, cached: bool, max: nat)
      returns (handle: nat, items: seq<LpiItem>)
      requires Loaded() && Standing() && 0 < r.num < 0x100 && fromHandle <= |queries|
      requires fromHandle == 0 ==> FullRange(trie, r)
      requires fromHandle > 0 ==> 0 < splidsExtended == |queries[fromHandle - 1]|
      requires fromHandle > 0 ==> var n := MarkCount(Reach(trie, queries[fromHandle - 1]), r);
                                  n > 0 ==> stonesPos < MAX_MILE_STONE && marksPos + n <= MAX_PARSING_MARK
      modifies this`marksPos, this`stonesPos, this`queries, marks, stones
      ensures Loaded() && Standing()
      ensures var q := (if fromHandle == 0 then [] else old(queries)[fromHandle - 1]) + [r];
              && items == (if fromHandle == 0 && cached then [] else
                             Take(Lpis(HomosOf(if fromHandle == 0 then Answering(spl, [splid], Reach(trie, q))
                                               else Reach(trie, q)), |q|, uniPsb), max))
              && (fromHandle > 0 || (!cached && !spl.yunmu(splid)) ==>
                    items == Take(Lpis(Filter(Listed(trie), q), |q|, uniPsb), max))
              && if Reach(trie, q) != []
                 && (fromHandle == 0 ==> old(stonesPos) < MAX_MILE_STONE && old(marksPos) < MAX_PARSING_MARK)
                 then handle == |old(queries)| + 1 && queries == old(queries) + [q]
                      && marksPos == old(marksPos)
                           + (if fromHandle == 0 then 1 else MarkCount(Reach(trie, old(queries)[fromHandle - 1]), r))
                 else handle == 0 && queries == old(queries) && marksPos == old(marksPos)
      ensures StacksOn(old(Used()), Used())
    {
      hide *;
      hide DictTrie.Loaded, DictTrie.Standing;
      StandingHas();
      UsedIs();
      ghost var mp, sp, was := marksPos, stonesPos, Used();
      if fromHandle == 0 {
        RangeReaches(r);
        assert [] + [r] == [r] && |[r]| == 1;
        handle, items := ExtendDict0(splid, r, cached, max);
      } else {
        ghost var q := queries[fromHandle - 1];
        ReachFilters(trie, q + [r]);
        ReachSnoc(trie, q, r, 0);
        MarkCountZero(Reach(trie, q), r);
        handle, items := ExtendDict12(fromHandle, splidsExtended, r, max);
      }
      StandingHas();
      UsedGrows(mp, sp, was);
    }

    lemma RangeReaches(r: Range)
      requires Loaded() && FullRange(trie, r)
      ensures Reach(trie, [r]) != []
    {
      TopsOne(root, nodes, idBuf, trie, r, r.start as nat - FULL_SPL_ID_START);
    }
  }

  /** The first k nodes, or of them only the first. */
  function Asked(ts: seq<Trie>, k: nat, first: bool): (s: seq<Trie>)
    requires k <= |ts|
  {
    if first then ts[..Min(k, 1)] else ts[..k]
  }

  lemma NoTopItems(ts: seq<Trie>, first: bool, uniPsb: nat -> u16, max: nat)
    ensures Take(Lpis(HomosOf(Asked(ts, 0, first)), 1, uniPsb), max) == []
  {
  }

  lemma TopItems(ts: seq<Trie>, k: nat, first: bool, uniPsb: nat -> u16, max: nat, items: seq<LpiItem>, a: nat)
    requires k < |ts|
    ensures |Positions(a, |ts|)| == |ts| && Positions(a, |ts|)[k] == a + k
    ensures first && k > 0 ==> Asked(ts, k + 1, first) == Asked(ts, k, first)
    ensures !(first && k > 0) ==>
              Take(Take(Lpis(HomosOf(Asked(ts, k, first)), 1, uniPsb), max) + Lpis(ts[k].homos, 1, uniPsb), max)
                == Take(Lpis(HomosOf(Asked(ts, k + 1, first)), 1, uniPsb), max)
    ensures items == Take(Lpis(HomosOf(Asked(ts, k, first)), 1, uniPsb), max) && |items| >= max ==>
              items == Take(Lpis(HomosOf(Asked(ts, k + 1, first)), 1, uniPsb), max)
  {
    hide HomosOf, Lpis;
    if !(first && k > 0) {
      assert Asked(ts, k, first) == ts[..k] && Asked(ts, k + 1, first) == ts[..k + 1];
      MoreItems(ts, k, 1, uniPsb, max);
      if |Take(Lpis(HomosOf(ts[..k]), 1, uniPsb), max)| >= max {
        NoMoreItems(ts, k, k + 1, 1, uniPsb, max);
      }
    }
  }

  lemma AllAsked(ts: seq<Trie>, spl: HalfIds, splid: u16)
    ensures Asked(ts, |ts|, spl.yunmu(splid)) == Answering(spl, [splid], ts)
    ensures !spl.yunmu(splid) ==> Answering(spl, [splid], ts) == ts
  {
    assert ts[..|ts|] == ts;
  }

  lemma TopsOne(root: seq<Le0>, nodes: seq<Ge1>, idBuf: seq<u8>, ts: seq<Trie>, r: Range, a: nat)
    requires Read(root, nodes, idBuf, ts) && FullRange(ts, r) && a == r.start as nat - FULL_SPL_ID_START
    ensures |Reach(ts, [r])| == r.num && TopsAt(root, nodes, IdsOf(idBuf), Positions(a + 1, r.num), Reach(ts, [r]))
  {
    TopsFrom(root, nodes, idBuf, ts, r, r.num);
    DenseSelected(ts, r, a);
    hide TopsAt, Selected, Read;
  }

  lemma TopsStand(root: seq<Le0>, nodes: seq<Ge1>, idBuf: seq<u8>, ts: seq<Trie>, r: Range, sonPos: nat)
    requires Read(root, nodes, idBuf, ts) && FullRange(ts, r) && sonPos == r.start as nat - FULL_SPL_ID_START + 1
    ensures sonPos < OFFSET_RANGE && TopsAt(root, nodes, IdsOf(idBuf), Positions(sonPos, r.num), Reach(ts, [r]))
  {
    TopsOne(root, nodes, idBuf, ts, r, sonPos - 1);
  }

  lemma OneMark(x: seq<Le0>, g: seq<Ge1>, h: seq<nat>, marks: seq<ParsingMark>, s: MileStone, ts: seq<Trie>,
    r: Range, m: ParsingMark)
    requires s.markNum == 1 && s.End() <= |marks| && marks[s.markStart as nat..s.markStart as nat + 1] == [m]
    requires TopsAt(x, g, h, Positions(m.nodeOffset, m.nodeNum), Reach(ts, [r]))
    ensures Stands(x, g, h, marks, s, [r], ts)
  {
    assert Marked([m]) == Positions(m.nodeOffset, m.nodeNum) + [] == Positions(m.nodeOffset, m.nodeNum);
    hide TopsAt, Reach, Marked;
    assert s.End() == s.markStart as nat + 1 && |[r]| == 1;
  }

  lemma NodesFit(root: seq<Le0>, nodes: seq<Ge1>, idBuf: seq<u8>, ts: seq<Trie>)
    requires Read(root, nodes, idBuf, ts)
    ensures |nodes| <= OFFSET_RANGE
  {
  }

  lemma StoneEnd(s: MileStone)
    ensures s.End() == s.markStart as nat + s.markNum as nat
  {
  }

  lemma NothingMarked(ms: seq<ParsingMark>)
    ensures Marked(ms[..0]) == []
  {
  }

  lemma SameMark(m0: seq<ParsingMark>, m: seq<ParsingMark>, mp: nat, s: MileStone, k: nat)
    requires s.End() <= mp <= |m0| && mp <= |m| && m[..mp] == m0[..mp] && k < s.markNum
    ensures s.markStart as nat + k < mp && m[s.markStart as nat + k] == m0[s.markStart as nat..s.End()][k]
  {
    var i := s.markStart as nat + k;
    assert m[..mp][i] == m0[..mp][i];
  }

  /** What all nodes together give is what a lookup from the root gives. */
  lemma AllExtended(g: seq<Ge1>, h: seq<nat>, ms: seq<ParsingMark>, items: seq<LpiItem>, trie: seq<Trie>, q: seq<Range>,
    r: Range, len: nat, uniPsb: nat -> u16, max: nat)
    requires q != [] && Extended(g, h, ms, items, Reach(trie, q), r, len, uniPsb, max)
    ensures Reach(trie, q + [r]) == Selected(SonsOf(Reach(trie, q)), r)
      && NodesAt(g, h, Marked(ms), Reach(trie, q + [r]))
    ensures items == Take(Lpis(Filter(Listed(trie), q + [r]), len, uniPsb), max)
  {
    hide Reach, Selected, NodesAt, Lpis, Marked;
    ReachSnoc(trie, q, r, 0);
    ReachFilters(trie, q + [r]);
  }

  lemma NewStone(x: seq<Le0>, g: seq<Ge1>, h: seq<nat>, marks: seq<ParsingMark>, s: MileStone, trie: seq<Trie>,
    q: seq<Range>, r: Range, mp: nat, mp': nat)
    requires q != [] && mp <= mp' <= |marks| && s.markStart as nat == mp && s.markNum as nat == mp' - mp
    requires NodesAt(g, h, Marked(marks[mp..mp']), Reach(trie, q + [r]))
    ensures Stands(x, g, h, marks, s, q + [r], trie) && s == MileStone(mp, mp' - mp)
  {
    hide NodesAt, Marked, Reach;
  }

  lemma TakeShort<T>(s: seq<T>, n: nat)
    ensures |Take(s, n)| <= n
  {
  }

  /** In a range there are no more brothers than ids. */
  lemma BlockShort(g: seq<Ge1>, h: seq<nat>, off: nat, sons: seq<Trie>, r: Range, start: nat, num: nat)
    requires SonsAt(g, h, off, sons) && start + num <= |sons| && Selected(sons, r) == sons[start..start + num]
      && |g| <= OFFSET_RANGE && num > 0
    ensures num <= r.num && off + start < OFFSET_RANGE
  {
    hide NodeHolds, Selected, Ordered;
    SonGives(g, h, off, sons, start);
    forall i | start <= i < start + num ensures InRange(sons[i].spl, r) {
      assert sons[start..start + num][i - start] == sons[i];
      SelectedInRange(sons, r, sons[i]);
    }
    SpreadOut(sons, start, start + num - 1);
  }

  lemma {:induction false} SpreadOut(ts: seq<Trie>, i: nat, j: nat)
    requires Increasing(ts) && i <= j < |ts|
    ensures ts[j].spl as int - ts[i].spl as int >= j - i
    decreases j - i
  {
    if i < j {
      SpreadOut(ts, i, j - 1);
      assert ts[j - 1].spl < ts[j].spl;
    }
  }

  /** One son more in the scan. */
  lemma BlockStep(ts: seq<Trie>, k: nat, r: Range, start: nat, num: nat)
    requires Block(ts, k, r, start, num) && k < |ts| && Increasing(ts) && (num == 0 ==> start == 0)
    ensures var hit := r.start <= ts[k].spl && (ts[k].spl as nat) < r.start as nat + r.num;
            var start', num' := if hit && num == 0 then k else start, if hit then num + 1 else num;
            && Selected(ts[..k + 1], r) == ts[start'..start' + num'] && start' + num' <= |ts|
            && (hit || num == 0 ==> Block(ts, k + 1, r, start', num'))
            && (!hit && num > 0 ==> ts[k].spl as int >= r.start as int + r.num - 1)
            && Selected(ts[..k + 1], r) == if hit then Selected(ts[..k], r) + [ts[k]] else Selected(ts[..k], r)
  {
    SelectedSnoc(ts, k, r);
    if InRange(ts[k].spl, r) {
      BlockIn(ts, k, r, start, num);
      hide Selected;
    } else {
      SameSelected(ts, k, r);
      hide Selected;
      if num > 0 {
        BlockEnds(ts, k, r, start, num);
      } else {
        BlockBefore(ts, k, r);
      }
    }
  }

  lemma ScanEnds(ts: seq<Trie>, k: nat, r: Range)
    requires Increasing(ts) && k < |ts| && (ts[k].spl as int >= r.start as int + r.num - 1 || k == |ts| - 1)
    ensures Selected(ts, r) == Selected(ts[..k + 1], r)
  {
    if k == |ts| - 1 {
      assert ts[..k + 1] == ts;
    } else {
      RestUnselected(ts, k, r);
    }
  }

  /** The scan after k sons. */
  ghost predicate Scanned(sons: seq<Trie>, k: nat, r: Range, len: nat, uniPsb: nat -> u16, was: seq<LpiItem>, max: nat,
    start: nat, num: nat, items: seq<LpiItem>) {
    && Block(sons, k, r, start, num) && (num == 0 ==> start == 0) && |items| <= max
    && items == Take(was + Lpis(HomosOf(Selected(sons[..k], r)), len, uniPsb), max)
  }

  lemma NoneScanned(sons: seq<Trie>, r: Range, len: nat, uniPsb: nat -> u16, was: seq<LpiItem>, max: nat)
    requires |was| <= max
    ensures Scanned(sons, 0, r, len, uniPsb, was, max, 0, 0, was)
  {
    BlockStart(sons, r);
    assert was + [] == was;
  }

  lemma ScanStep(sons: seq<Trie>, k: nat, r: Range, len: nat, uniPsb: nat -> u16, was: seq<LpiItem>, max: nat,
    start: nat, num: nat, items: seq<LpiItem>, items': seq<LpiItem>)
    requires Scanned(sons, k, r, len, uniPsb, was, max, start, num, items) && k < |sons| && Increasing(sons)
    requires items' == if r.start <= sons[k].spl && (sons[k].spl as nat) < r.start as nat + r.num && |items| < max
                       then Take(items + Lpis(sons[k].homos, len, uniPsb), max) else items
    ensures var hit := r.start <= sons[k].spl && (sons[k].spl as nat) < r.start as nat + r.num;
            var start', num' := if hit && num == 0 then k else start, if hit then num + 1 else num;
            if sons[k].spl as int >= r.start as int + r.num - 1 || k == |sons| - 1 then
              && Selected(sons, r) == sons[start'..start' + num'] && start' + num' <= |sons|
              && items' == Take(was + Lpis(HomosOf(Selected(sons, r)), len, uniPsb), max)
            else Scanned(sons, k + 1, r, len, uniPsb, was, max, start', num', items')
  {
    hide HomosOf, Lpis, Selected, Increasing;
    BlockStep(sons, k, r, start, num);
    ScannedMore(Selected(sons[..k], r), sons[k], len, uniPsb, was, max, items);
    TakeShort(items + Lpis(sons[k].homos, len, uniPsb), max);
    hide Block, Take;
    if sons[k].spl as int >= r.start as int + r.num - 1 || k == |sons| - 1 {
      ScanEnds(sons, k, r);
    }
  }

  lemma AllScanned(sons: seq<Trie>, k: nat, r: Range, len: nat, uniPsb: nat -> u16, was: seq<LpiItem>, max: nat,
    start: nat, num: nat, items: seq<LpiItem>)
    requires Scanned(sons, k, r, len, uniPsb, was, max, start, num, items) && k == |sons|
    ensures Selected(sons, r) == sons[start..start + num] && start + num <= |sons|
    ensures items == Take(was + Lpis(HomosOf(Selected(sons, r)), len, uniPsb), max)
  {
    assert sons[..k] == sons;
  }

  lemma SameSelected(ts: seq<Trie>, k: nat, r: Range)
    requires k < |ts| && !InRange(ts[k].spl, r)
    ensures Selected(ts[..k + 1], r) == Selected(ts[..k], r)
  {
    SelectedSnoc(ts, k, r);
    assert Selected(ts[..k], r) + [] == Selected(ts[..k], r);
  }

  lemma ScannedMore(s: seq<Trie>, t: Trie, len: nat, uniPsb: nat -> u16, was: seq<LpiItem>, max: nat,
    items: seq<LpiItem>)
    requires items == Take(was + Lpis(HomosOf(s), len, uniPsb), max)
    ensures |items| <= max
    ensures Take(items + Lpis(t.homos, len, uniPsb), max) == Take(was + Lpis(HomosOf(s + [t]), len, uniPsb), max)
    ensures |items| == max ==> items == Take(was + Lpis(HomosOf(s + [t]), len, uniPsb), max)
  {
    hide HomosOf, Lpis;
    HomosOfConcat(s, [t]);
    OneSons(t);
    LpisConcat(HomosOf(s), t.homos, len, uniPsb);
    Assoc(was, Lpis(HomosOf(s), len, uniPsb), Lpis(t.homos, len, uniPsb));
    TakeMore(was + Lpis(HomosOf(s), len, uniPsb), Lpis(t.homos, len, uniPsb), max);
    if |items| == max {
      assert (items + Lpis(t.homos, len, uniPsb))[..max] == items;
    }
  }

  lemma RangeIn(ts: seq<Trie>, r: Range)
    requires FullRange(ts, r)
    ensures r.num > 0 && FULL_SPL_ID_START <= r.start as nat && r.start as nat + r.num <= FULL_SPL_ID_START + |ts|
  {
  }

  lemma NoPositions(a: nat, n: nat)
    ensures Positions(a, Min(0, n)) == []
  {
  }

  lemma OneMorePosition(a: nat, k: nat, n: nat)
    ensures |Positions(a, Min(k, n))| == Min(k, n) && (Min(k, n) < n ==> Min(k, n) == k)
    ensures Positions(a, Min(k + 1, n)) ==
              if Min(k, n) < n then Positions(a, Min(k, n)) + [a + k] else Positions(a, Min(k, n))
  {
  }

  /** One spelling more. */
  lemma LevelStep(ts: seq<Trie>, rs: seq<Range>, k: nat, n: nat)
    requires k < |rs|
    ensures k == 0 ==> ReachAtMost(ts, rs[..1], n) == Take(Selected(ts, rs[0]), n)
    ensures k > 0 ==> ReachAtMost(ts, rs[..k + 1], n) == Take(Selected(SonsOf(ReachAtMost(ts, rs[..k], n)), rs[k]), n)
  {
    if k > 0 {
      ReachSnoc(ts, rs[..k], rs[k], n);
      assert rs[..k] + [rs[k]] == rs[..k + 1];
    }
  }

  lemma ReachedLength(x: seq<Le0>, g: seq<Ge1>, h: seq<nat>, ps: seq<nat>, ts: seq<Trie>, splPos: nat)
    requires if splPos == 1 then TopsAt(x, g, h, ps, ts) else NodesAt(g, h, ps, ts)
    ensures |ps| == |ts|
  {
  }

  /** What the nodes at which the loop has stopped say about the answer. */
  lemma Answers(ts: seq<Trie>, spl: HalfIds, q: seq<u16>, k: nat, uniPsb: nat -> u16, max: nat)
    requires 0 < k <= |q| && (k == |q| || ReachAtMost(ts, spl.Ranges(q)[..k], MAX_EXTENDBUF_LEN) == [])
    ensures var reached := ReachAtMost(ts, spl.Ranges(q)[..k], MAX_EXTENDBUF_LEN);
            && ReachAtMost(ts, spl.Ranges(q), MAX_EXTENDBUF_LEN) == reached
            && Answering(spl, q, reached) == reached[..if |q| == 1 && spl.yunmu(q[0])
                 && |reached| > 0 then 1 else |reached|]
            && (reached == [] ==> Take(Lpis(HomosOf(reached), |q|, uniPsb), max) == [])
    ensures LevelsFit(ts, spl.Ranges(q), MAX_EXTENDBUF_LEN) && !(|q| == 1 && spl.yunmu(q[0])) ==>
              HomosOf(Answering(spl, q, ReachAtMost(ts, spl.Ranges(q), MAX_EXTENDBUF_LEN)))
                == Filter(Listed(ts), spl.Ranges(q))
  {
    hide Reach, ReachAtMost, Selected, Filter, LevelsFit;
    var rs := spl.Ranges(q);
    if k < |q| {
      NothingReached(ts, rs, k, MAX_EXTENDBUF_LEN);
    } else {
      assert rs[..k] == rs;
    }
    if LevelsFit(ts, rs, MAX_EXTENDBUF_LEN) {
      ReachAll(ts, rs, MAX_EXTENDBUF_LEN);
      ReachFilters(ts, rs);
    }
  }

  lemma NoItems(ts: seq<Trie>, len: nat, uniPsb: nat -> u16, max: nat)
    ensures Take(Lpis(HomosOf(ts[..0]), len, uniPsb), max) == []
  {
  }

  lemma MoreItems(ts: seq<Trie>, i: nat, len: nat, uniPsb: nat -> u16, max: nat)
    requires i < |ts|
    ensures Take(Take(Lpis(HomosOf(ts[..i]), len, uniPsb), max) + Lpis(ts[i].homos, len, uniPsb), max)
              == Take(Lpis(HomosOf(ts[..i + 1]), len, uniPsb), max)
  {
    hide HomosOf, Lpis;
    StepNodes(Range(0, 0), ts, i);
    LpisConcat(HomosOf(ts[..i]), ts[i].homos, len, uniPsb);
    TakeMore(Lpis(HomosOf(ts[..i]), len, uniPsb), Lpis(ts[i].homos, len, uniPsb), max);
  }

  lemma NoMoreItems(ts: seq<Trie>, i: nat, n: nat, len: nat, uniPsb: nat -> u16, max: nat)
    requires i <= n <= |ts| && |Take(Lpis(HomosOf(ts[..i]), len, uniPsb), max)| >= max
    ensures Take(Lpis(HomosOf(ts[..i]), len, uniPsb), max) == Take(Lpis(HomosOf(ts[..n]), len, uniPsb), max)
  {
    hide HomosOf;
    assert ts[..n] == ts[..i] + ts[i..n];
    HomosOfConcat(ts[..i], ts[i..n]);
    LpisConcat(HomosOf(ts[..i]), HomosOf(ts[i..n]), len, uniPsb);
  }

  lemma RestEnds(t: Trie, ids: seq<u16>, id: nat)
    requires ids != []
    ensures Rest(t, ids, |ids|, id) <==> id in t.homos
  {
  }

  lemma NoEmptyLemma(ts: seq<Trie>, id: nat)
    ensures Item([], id) !in Listed(ts)
  {
    ListedNonEmpty(ts);
  }
}
