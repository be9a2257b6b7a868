/** The trie in its two node arrays: counts and split offsets in small fields, ids in three bytes each. */
module TrieNodes {
  import opened Bytes
  import opened LemmaTrie

  const MAX_LEMMA_SIZE: nat := 8
  const OFFSET_RANGE: nat := 0x100_0000

  /** LmaNodeLE0: the root and the nodes of the first layer. */
  datatype Le0 = Le0(sonOff: u32, homoOff: u32, spl: u16, sons: u16, homos: u16)

  /** LmaNodeGE1: the nodes of the deeper layers; offsets are split into 16 low and 8 high bits. */
  datatype Ge1 = Ge1(sonOffL: u16, homoOffL: u16, spl: u16, sons: u8, homos: u8, sonOffH: u8, homoOffH: u8)

  const NO_LE0: Le0 := Le0(0, 0, 0, 0, 0)
  const NO_GE1: Ge1 := Ge1(0, 0, 0, 0, 0, 0, 0)

  /** `set_son_offset`. */
  function WithSonOffset(n: Ge1, off: nat): (m: Ge1) {
    n.(sonOffL := off % 0x1_0000, sonOffH := off / 0x1_0000 % 0x100)
  }

  /** `set_homo_id_buf_offset`. */
  function WithHomoOffset(n: Ge1, off: nat): (m: Ge1) {
    n.(homoOffL := off % 0x1_0000, homoOffH := off / 0x1_0000 % 0x100)
  }

  /** `get_son_offset`. */
  function SonOffset(n: Ge1): (off: nat) {
    n.sonOffL as nat + 0x1_0000 * n.sonOffH as nat
  }

  /** `get_homo_idx_buf_offset`. */
  function HomoOffset(n: Ge1): (off: nat) {
    n.homoOffL as nat + 0x1_0000 * n.homoOffH as nat
  }

  /** An offset survives being split exactly when it fits into 24 bits. */
  lemma OffsetRoundTrip(n: Ge1, off: nat)
    ensures SonOffset(WithSonOffset(n, off)) == off <==> off < OFFSET_RANGE
    ensures HomoOffset(WithHomoOffset(n, off)) == off <==> off < OFFSET_RANGE
  {
  }

  /** `id_to_charbuf`. */
  function IdBytes(id: nat): (b: seq<u8>)
    ensures |b| == 3
  {
    [id % 0x100, id / 0x100 % 0x100, id / 0x1_0000 % 0x100]
  }

  /** `get_lemma_id`: from the highest byte down. */
  function IdAt(buf: seq<u8>, k: nat): (id: nat)
    requires 3 * k + 3 <= |buf|
  {
    (buf[3 * k + 2] as nat * 0x100 + buf[3 * k + 1] as nat) * 0x100 + buf[3 * k] as nat
  }

  lemma IdRoundTrip(id: nat)
    ensures IdAt(IdBytes(id), 0) == id <==> id < OFFSET_RANGE
  {
    assert id / 0x1_0000 == id / 0x100 / 0x100;
  }

  /** All ids of the buffer. */
  function IdsOf(buf: seq<u8>): (ids: seq<nat>)
    ensures |ids| == |buf| / 3 && forall k :: 0 <= k < |ids| ==> ids[k] == IdAt(buf, k)
  {
    seq<nat>(|buf| / 3, k requires 0 <= k < |buf| / 3 => IdAt(buf, k))
  }

  /** `id >> (pos * 8)`, of which one byte is kept. */
  function IdByte(id: nat, pos: nat): (b: u8) {
    if pos == 0 then id % 0x100 else IdByte(id / 0x100, pos - 1)
  }

  lemma IdByteIs(id: nat)
    ensures IdBytes(id) == [IdByte(id, 0), IdByte(id, 1), IdByte(id, 2)]
  {
    assert id / 0x1_0000 == id / 0x100 / 0x100;
    assert IdByte(id, 2) == IdByte(id / 0x100, 1) == IdByte(id / 0x100 / 0x100, 0);
  }

  // ---- What the arrays hold ----

  /** Node p of the deeper layers is node t of the trie; everything below it lies in [lo, hi) of the node array and
      in [0, top) of the id list. */
  ghost predicate NodeHolds(g: seq<Ge1>, h: seq<nat>, lo: nat, hi: nat, top: nat, p: nat, t: Trie)
    decreases t
  {
    && p < |g| && hi <= |g| && top <= |h| && g[p].spl == t.spl
    && g[p].homos as nat == |t.homos| && HomoOffset(g[p]) + |t.homos| <= top
       && h[HomoOffset(g[p])..HomoOffset(g[p]) + |t.homos|] == t.homos
    && g[p].sons as nat == |t.sons|
    && (t.sons != [] ==>
          && lo <= SonOffset(g[p]) && SonOffset(g[p]) + |t.sons| <= hi
          && forall j :: 0 <= j < |t.sons| ==> NodeHolds(g, h, lo, hi, top, SonOffset(g[p]) + j, t.sons[j]))
  }

  lemma NodeFields(g: seq<Ge1>, h: seq<nat>, lo: nat, hi: nat, top: nat, p: nat, t: Trie)
    requires NodeHolds(g, h, lo, hi, top, p, t)
    ensures p < |g| && hi <= |g| && top <= |h| && g[p].spl == t.spl && g[p].sons as nat == |t.sons|
    ensures g[p].homos as nat == |t.homos| && HomoOffset(g[p]) + |t.homos| <= top
    ensures h[HomoOffset(g[p])..HomoOffset(g[p]) + |t.homos|] == t.homos
    ensures t.sons != [] ==> lo <= SonOffset(g[p]) && SonOffset(g[p]) + |t.sons| <= hi
    ensures forall j :: 0 <= j < |t.sons| ==> NodeHolds(g, h, lo, hi, top, SonOffset(g[p]) + j, t.sons[j])
  {
  }

  lemma NodeHoldsIs(g: seq<Ge1>, h: seq<nat>, lo: nat, hi: nat, top: nat, p: nat, t: Trie)
    requires p < |g| && hi <= |g| && top <= |h| && g[p].spl == t.spl && g[p].sons as nat == |t.sons|
    requires g[p].homos as nat == |t.homos| && HomoOffset(g[p]) + |t.homos| <= top
    requires h[HomoOffset(g[p])..HomoOffset(g[p]) + |t.homos|] == t.homos
    requires t.sons != [] ==> lo <= SonOffset(g[p]) && SonOffset(g[p]) + |t.sons| <= hi
    requires forall j :: 0 <= j < |t.sons| ==> NodeHolds(g, h, lo, hi, top, SonOffset(g[p]) + j, t.sons[j])
    ensures NodeHolds(g, h, lo, hi, top, p, t)
  {
  }

  ghost predicate Holds(g: seq<Ge1>, h: seq<nat>, lo: nat, hi: nat, top: nat, off: nat, ts: seq<Trie>) {
    forall j :: 0 <= j < |ts| ==> NodeHolds(g, h, lo, hi, top, off + j, ts[j])
  }

  /** What is written elsewhere does not matter, and the bounds may grow. */
  lemma {:induction false} NodeKept(g: seq<Ge1>, h: seq<nat>, lo: nat, hi: nat, top: nat, p: nat, t: Trie, g': seq<Ge1>,
    h': seq<nat>, lo': nat, hi': nat, top': nat)
    requires NodeHolds(g, h, lo, hi, top, p, t) && p < |g'| && g'[p] == g[p]
    requires lo' <= lo <= hi <= hi' <= |g'| && top <= top' <= |h'| && hi <= |g| && top <= |h| && g'[lo..hi] == g[lo..hi]
      && h'[..top] == h[..top]
    ensures NodeHolds(g', h', lo', hi', top', p, t)
    decreases t
  {
    NodeFields(g, h, lo, hi, top, p, t);
    SameSlice(h', h, top, HomoOffset(g[p]), HomoOffset(g[p]) + |t.homos|);
    forall j | 0 <= j < |t.sons| ensures NodeHolds(g', h', lo', hi', top', SonOffset(g[p]) + j, t.sons[j]) {
      hide NodeHolds;
      var q := SonOffset(g[p]) + j;
      assert g'[lo..hi][q - lo] == g[lo..hi][q - lo];
      NodeKept(g, h, lo, hi, top, q, t.sons[j], g', h', lo', hi', top');
    }
    NodeHoldsIs(g', h', lo', hi', top', p, t);
  }

  /** Node p of the first layer is node t of the trie. */
  ghost predicate TopHolds(x: seq<Le0>, g: seq<Ge1>, h: seq<nat>, hi: nat, top: nat, p: nat, t: Trie) {
    && p < |x| && hi <= |g| && top <= |h| && x[p].spl == t.spl
    && x[p].homos as nat == |t.homos| && x[p].homoOff as nat + |t.homos| <= top
       && h[x[p].homoOff as nat..x[p].homoOff as nat + |t.homos|] == t.homos
    && x[p].sons as nat == |t.sons|
    && (t.sons != [] ==> x[p].sonOff as nat + |t.sons| <= hi && Holds(g, h, 0, hi, top, x[p].sonOff, t.sons))
  }

  lemma JoinParts(h: seq<nat>, a: nat, b: nat, c: nat, u: seq<nat>, v: seq<nat>)
    requires a <= b <= c <= |h| && h[a..b] == u && h[b..c] == v
    ensures h[a..c] == u + v
  {
  }

  lemma TopKept(x: seq<Le0>, g: seq<Ge1>, h: seq<nat>, hi: nat, top: nat, p: nat, t: Trie, x': seq<Le0>, g': seq<Ge1>,
    h': seq<nat>, hi': nat, top': nat)
    requires TopHolds(x, g, h, hi, top, p, t) && p < |x'| && x'[p] == x[p]
    requires hi <= hi' <= |g'| && top <= top' <= |h'| && g'[..hi] == g[..hi] && h'[..top] == h[..top]
    ensures TopHolds(x', g', h', hi', top', p, t)
  {
    hide NodeHolds;
    SameSlice(h', h, top, x[p].homoOff, x[p].homoOff as nat + |t.homos|);
    if t.sons != [] {
      forall j | 0 <= j < |t.sons| ensures NodeHolds(g', h', 0, hi', top', x'[p].sonOff as nat + j, t.sons[j]) {
        var q := x[p].sonOff as nat + j;
        assert g'[..hi][q] == g[..hi][q];
        assert g'[0..hi] == g'[..hi] && g[0..hi] == g[..hi];
        NodeKept(g, h, 0, hi, top, q, t.sons[j], g', h', 0, hi', top');
      }
    }
  }

  /** The arrays hold the trie: the root, right behind it its sons, and everything deeper in the second array. */
  ghost predicate Stored(x: seq<Le0>, g: seq<Ge1>, h: seq<nat>, ts: seq<Trie>) {
    && |x| == 1 + |ts| && x[0].sonOff == 1 && x[0].sons as nat == |ts|
    && forall j :: 0 <= j < |ts| ==> TopHolds(x, g, h, |g|, |h|, 1 + j, ts[j])
  }

  /** What stands behind the ids of the trie does not matter. */
  lemma StoredMore(x: seq<Le0>, g: seq<Ge1>, h: seq<nat>, ts: seq<Trie>, more: seq<nat>)
    requires Stored(x, g, h, ts)
    ensures Stored(x, g, h + more, ts)
  {
    hide TopHolds;
    assert (h + more)[..|h|] == h[..|h|];
    forall j | 0 <= j < |ts| ensures TopHolds(x, g, h + more, |g|, |h + more|, 1 + j, ts[j]) {
      TopKept(x, g, h, |g|, |h|, 1 + j, ts[j], x, g, h + more, |g|, |h + more|);
    }
  }

  // ---- Room ----

  function NodeCount(ts: seq<Trie>): (n: nat)
    ensures n >= |ts|
  {
    if ts == [] then 0 else 1 + NodeCount(ts[0].sons) + NodeCount(ts[1..])
  }

  function HomoCount(ts: seq<Trie>): (n: nat) {
    if ts == [] then 0 else |ts[0].homos| + HomoCount(ts[0].sons) + HomoCount(ts[1..])
  }

  /** The ids in the order of a walk. */
  function AllHomos(ts: seq<Trie>): (h: seq<nat>)
    ensures |h| == HomoCount(ts)
  {
    if ts == [] then [] else ts[0].homos + (AllHomos(ts[0].sons) + AllHomos(ts[1..]))
  }

  lemma Regroup(a: seq<nat>, b: seq<nat>, c: seq<nat>, d: seq<nat>)
    ensures a + (b + (c + d)) == (a + (b + c)) + d
  {
    assert b + (c + d) == (b + c) + d;
  }

  lemma AllHomosCons(t: Trie, ts: seq<Trie>)
    ensures AllHomos([t] + ts) == t.homos + (AllHomos(t.sons) + AllHomos(ts))
  {
    assert ([t] + ts)[1..] == ts;
  }

  lemma AllHomosOne(t: Trie)
    ensures AllHomos([]) == [] && AllHomos([] + [t]) == [] + (t.homos + AllHomos(t.sons))
  {
    assert [] + [t] == [t] + [];
    AllHomosCons(t, []);
    assert AllHomos(t.sons) + [] == AllHomos(t.sons);
  }

  lemma {:induction false} AllHomosSnoc(ts: seq<Trie>, t: Trie)
    ensures AllHomos(ts + [t]) == AllHomos(ts) + (t.homos + AllHomos(t.sons))
  {
    hide *;
    if ts == [] {
      AllHomosOne(t);
    } else {
      AllHomosSnoc(ts[1..], t);
      assert ts + [t] == [ts[0]] + (ts[1..] + [t]) && ts == [ts[0]] + ts[1..];
      AllHomosCons(ts[0], ts[1..] + [t]);
      AllHomosCons(ts[0], ts[1..]);
      Regroup(ts[0].homos, AllHomos(ts[0].sons), AllHomos(ts[1..]), t.homos + AllHomos(t.sons));
    }
  }

  lemma IdsConcat(a: seq<Item>, b: seq<Item>)
    ensures Ids(a + b) == Ids(a) + Ids(b)
  {
  }

  lemma NodeIds(x: u16, homos: seq<nat>, below: seq<Item>)
    ensures Ids(Ending(x, homos) + Prefixed(x, below)) == homos + Ids(below)
  {
  }

  /** That is the order of the lemma array. */
  lemma {:induction false} HomosInOrder(ts: seq<Trie>)
    ensures AllHomos(ts) == Ids(Listed(ts))
  {
    if ts != [] {
      HomosInOrder(ts[0].sons);
      HomosInOrder(ts[1..]);
      IdsConcat(ListedNode(ts[0]), Listed(ts[1..]));
      NodeIds(ts[0].spl, ts[0].homos, Listed(ts[0].sons));
      var a, b, c := ts[0].homos, Ids(Listed(ts[0].sons)), Ids(Listed(ts[1..]));
      assert a + (b + c) == a + b + c;
    }
  }

  /** The counts of the deeper layers fit into their bytes. */
  ghost predicate CountsFit(ts: seq<Trie>) {
    forall j :: 0 <= j < |ts| ==> |ts[j].homos| < 0x100 && |ts[j].sons| < 0x100 && CountsFit(ts[j].sons)
  }

  lemma {:induction false} CountConcat(a: seq<Trie>, b: seq<Trie>)
    ensures NodeCount(a + b) == NodeCount(a) + NodeCount(b) && HomoCount(a + b) == HomoCount(a) + HomoCount(b)
  {
    if a == [] {
      assert a + b == b;
    } else {
      CountConcat(a[1..], b);
      assert (a + b)[1..] == a[1..] + b;
    }
  }
}
