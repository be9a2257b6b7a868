/** The search lattice as a value: rows of nodes over pools with back links, and what its best paths are. */
module Lattice {
  import opened Bytes
  import opened LatticeRow

  /** What the lattice is about: the spelling id of a string (0 for none) and whether it begins one, the lemmas for a
      list of spelling ids, best first, and which ids and letters there are. */
  datatype Lexicon = Lexicon(
    parse: seq<u8> -> (u16, bool), items: seq<u16> -> seq<LmaItem>, half: u16 -> bool, letter: u8 -> bool)
  {
    /** The lists come sorted. */
    ghost predicate Valid() {
      forall ids: seq<u16> :: SortedItems(items(ids))
    }
  }

  /** DictMatchInfo: fr is the match it extends, -1 for none; `handle` and `more` are its two dictionary handles, the
      milestone of the system dictionary, or 0, and whether the user dictionary goes on from here. */
  datatype Dmi = Dmi(fr: int, splId: u16, level: nat, splLen: nat, endSplit: bool, allFull: bool,
    handle: nat, more: bool)

  /** MatrixRow; `fixed` says that the user has chosen a node of this row. */
  datatype Row = Row(ndPos: nat, ndNum: nat, dmiPos: nat, dmiNum: nat, hasFull: bool, fixed: bool)

  /** rows[r] is the row after r characters. */
  datatype Lat = Lat(nodes: seq<Node>, dmis: seq<Dmi>, rows: seq<Row>, pys: seq<u8>)

  const START: Node := Node(0, 0, -1, -1, 0)
  const START_ROW: Row := Row(0, 1, 0, 0, true, true)

  // ---- Reading the pools ----

  predicate NodeIn(l: Lat, r: nat, n: int) {
    r < |l.rows| && l.rows[r].ndPos <= n < l.rows[r].ndPos + l.rows[r].ndNum
  }

  predicate DmiIn(l: Lat, r: nat, d: int) {
    r < |l.rows| && l.rows[r].dmiPos <= d < l.rows[r].dmiPos + l.rows[r].dmiNum
  }

  /** The rows own stretches of both pools that do not overlap and lie in the order of the rows; the node pool has no
      gaps, the match pool has them where a row was given up. */
  ghost predicate Stacked(l: Lat) {
    && |l.rows| == |l.pys| + 1 && l.rows[0] == START_ROW && |l.nodes| > 0 && l.nodes[0] == START
    && (forall r :: 1 <= r < |l.rows| ==> After(l.rows[r - 1], l.rows[r]))
    && NodeEnd(l, |l.pys|) == |l.nodes| && DmiEnd(l, |l.pys|) <= |l.dmis|
  }

  ghost predicate After(x: Row, y: Row) {
    x.ndPos + x.ndNum == y.ndPos && x.dmiPos + x.dmiNum <= y.dmiPos
  }

  function NodeEnd(l: Lat, r: nat): (n: nat)
    requires r < |l.rows|
  {
    l.rows[r].ndPos + l.rows[r].ndNum
  }

  function DmiEnd(l: Lat, r: nat): (n: nat)
    requires r < |l.rows|
  {
    l.rows[r].dmiPos + l.rows[r].dmiNum
  }

  function RowNodes(l: Lat, r: nat): (s: seq<Node>)
    requires r < |l.rows| && l.rows[r].ndPos + l.rows[r].ndNum <= |l.nodes|
  {
    l.nodes[l.rows[r].ndPos..l.rows[r].ndPos + l.rows[r].ndNum]
  }

  /** The spelling ids of a match, in order: the walk along `dmi_fr`, reversed. */
  function PathIds(dmis: seq<Dmi>, d: nat): (ids: seq<u16>)
    requires d < |dmis|
    ensures ids != []
    decreases d
  {
    (if 0 <= dmis[d].fr < d then PathIds(dmis, dmis[d].fr) else []) + [dmis[d].splId]
  }

  function ItemsOf(lex: Lexicon, l: Lat, d: nat): (s: seq<LmaItem>)
    requires d < |l.dmis|
  {
    lex.items(PathIds(l.dmis, d))
  }

  /** The characters of its last spelling. */
  function LastLen(l: Lat, d: nat): (n: int)
    requires d < |l.dmis|
  {
    l.dmis[d].splLen - if 0 <= l.dmis[d].fr < |l.dmis| then l.dmis[l.dmis[d].fr].splLen else 0
  }

  /** Match d of row r spells the characters before r: its last spelling parses the last of them and starts at a row
      that has nodes, and the match it extends, in that row, parses the rest. */
  ghost predicate DmiOk(lex: Lexicon, l: Lat, r: nat, d: nat)
    requires d < |l.dmis| && r <= |l.pys|
  {
    var x := l.dmis[d];
    && x.splId > 0 && 1 <= LastLen(l, d) <= x.splLen <= r
    && lex.parse(l.pys[r - LastLen(l, d)..r]).0 == x.splId
    && r - LastLen(l, d) < |l.rows| && l.rows[r - LastLen(l, d)].ndNum > 0
    && if x.fr == -1 then x.level == 1 && x.splLen == LastLen(l, d)
       else DmiIn(l, r - LastLen(l, d), x.fr) && x.fr < d && x.level == l.dmis[x.fr].level + 1
  }

  /** Node n of row r is what an earlier node offered with a match of row r. */
  ghost predicate NodeOk(lex: Lexicon, l: Lat, r: nat, n: nat)
    requires n < |l.nodes|
  {
    var x := l.nodes[n];
    && x.step == r && DmiIn(l, r, x.dmi) && x.dmi < |l.dmis| && l.dmis[x.dmi].splLen <= r
    && NodeIn(l, r - l.dmis[x.dmi].splLen, x.from) && x.from < |l.nodes|
    && OfferedBy(l.nodes, x.from, ItemsOf(lex, l, x.dmi), x.dmi, r, x)
  }

  /** Everything that was offered to row r by way of match d is covered. */
  ghost predicate DmiCovered(lex: Lexicon, l: Lat, r: nat, d: nat)
    requires d < |l.dmis| && l.dmis[d].splLen <= r < |l.rows| && l.rows[r].ndPos + l.rows[r].ndNum <= |l.nodes|
  {
    forall m, k :: NodeIn(l, r - l.dmis[d].splLen, m) && m < |l.nodes| && 0 <= k < |ItemsOf(lex, l, d)| ==>
      Covers(RowNodes(l, r), Offer(l.nodes, m, ItemsOf(lex, l, d)[k], d, r))
  }

  lemma NodeOkGives(lex: Lexicon, l: Lat, r: nat, n: nat)
    requires n < |l.nodes| && NodeOk(lex, l, r, n)
    ensures var x := l.nodes[n];
            && x.step == r && DmiIn(l, r, x.dmi) && 0 <= x.dmi < |l.dmis| && l.dmis[x.dmi].splLen <= r
            && NodeIn(l, r - l.dmis[x.dmi].splLen, x.from) && 0 <= x.from < |l.nodes|
            && OfferedBy(l.nodes, x.from, ItemsOf(lex, l, x.dmi), x.dmi, r, x)
  {
    hide OfferedBy, ItemsOf;
  }

  lemma NodeOkIs(lex: Lexicon, l: Lat, r: nat, n: nat)
    requires n < |l.nodes|
    requires var x := l.nodes[n];
            && x.step == r && DmiIn(l, r, x.dmi) && 0 <= x.dmi < |l.dmis| && l.dmis[x.dmi].splLen <= r
            && NodeIn(l, r - l.dmis[x.dmi].splLen, x.from) && 0 <= x.from < |l.nodes|
            && OfferedBy(l.nodes, x.from, ItemsOf(lex, l, x.dmi), x.dmi, r, x)
    ensures NodeOk(lex, l, r, n)
  {
    hide OfferedBy, ItemsOf;
  }

  ghost predicate RowOk(lex: Lexicon, l: Lat, r: nat)
    requires r <= |l.pys|
  {
    && r < |l.rows| && l.rows[r].ndPos + l.rows[r].ndNum <= |l.nodes| && l.rows[r].dmiPos + l.rows[r].dmiNum <= |l.dmis|
    && RowShape(RowNodes(l, r)) && (r > 0 && l.rows[r].ndNum > 0 ==> !l.rows[r].fixed)
    && (forall d :: DmiIn(l, r, d) ==> DmiOk(lex, l, r, d) && DmiCovered(lex, l, r, d))
    && (r > 0 ==> forall n :: NodeIn(l, r, n) ==> NodeOk(lex, l, r, n))
  }

  ghost predicate LatOk(lex: Lexicon, l: Lat) {
    Stacked(l) && forall r :: 0 <= r <= |l.pys| ==> RowOk(lex, l, r)
  }

  // ---- What a row says depends only on the part of the pools up to its end ----

  lemma {:induction false} RowsOrdered(l: Lat, q: nat, r: nat)
    requires Stacked(l) && q < r < |l.rows|
    ensures NodeEnd(l, q) <= l.rows[r].ndPos && DmiEnd(l, q) <= l.rows[r].dmiPos
    decreases r
  {
    assert After(l.rows[r - 1], l.rows[r]);
    if q < r - 1 {
      RowsOrdered(l, q, r - 1);
    }
  }

  lemma {:induction false} PathIdsPrefix(x: seq<Dmi>, y: seq<Dmi>, d: nat)
    requires d < |x| && d < |y| && x[..d + 1] == y[..d + 1]
    ensures PathIds(x, d) == PathIds(y, d)
    decreases d
  {
    assert x[..d + 1][d] == y[..d + 1][d];
    var f := x[d].fr;
    if 0 <= f < d {
      assert x[..f + 1] == x[..d + 1][..f + 1] && y[..f + 1] == y[..d + 1][..f + 1];
      PathIdsPrefix(x, y, f);
    }
  }

  /** The two lattices are the same up to the end of row r. */
  ghost predicate SameTo(l: Lat, k: Lat, r: nat) {
    && r < |l.rows| && r < |k.rows| && l.rows[..r + 1] == k.rows[..r + 1]
    && r <= |l.pys| && r <= |k.pys| && l.pys[..r] == k.pys[..r]
    && NodeEnd(l, r) <= |l.nodes| && NodeEnd(l, r) <= |k.nodes| && l.nodes[..NodeEnd(l, r)] == k.nodes[..NodeEnd(l, r)]
    && DmiEnd(l, r) <= |l.dmis| && DmiEnd(l, r) <= |k.dmis| && l.dmis[..DmiEnd(l, r)] == k.dmis[..DmiEnd(l, r)]
  }

  lemma SameRow(l: Lat, k: Lat, r: nat, q: nat)
    requires SameTo(l, k, r) && q <= r
    ensures l.rows[q] == k.rows[q]
    ensures forall n :: NodeIn(l, q, n) <==> NodeIn(k, q, n)
    ensures forall d :: DmiIn(l, q, d) <==> DmiIn(k, q, d)
  {
    assert l.rows[..r + 1][q] == k.rows[..r + 1][q];
  }

  lemma SameDmi(lex: Lexicon, l: Lat, k: Lat, r: nat, d: nat)
    requires SameTo(l, k, r) && d < DmiEnd(l, r)
    ensures l.dmis[d] == k.dmis[d] && PathIds(l.dmis, d) == PathIds(k.dmis, d)
      && ItemsOf(lex, l, d) == ItemsOf(lex, k, d)
  {
    var e := DmiEnd(l, r);
    assert l.dmis[..e][d] == k.dmis[..e][d];
    assert l.dmis[..d + 1] == l.dmis[..e][..d + 1] && k.dmis[..d + 1] == k.dmis[..e][..d + 1];
    PathIdsPrefix(l.dmis, k.dmis, d);
  }

  lemma SameNode(l: Lat, k: Lat, r: nat, n: nat)
    requires SameTo(l, k, r) && n < NodeEnd(l, r)
    ensures l.nodes[n] == k.nodes[n]
  {
    assert l.nodes[..NodeEnd(l, r)][n] == k.nodes[..NodeEnd(l, r)][n];
  }

  lemma SameDmiOk(lex: Lexicon, l: Lat, k: Lat, r: nat, q: nat, d: nat)
    requires Stacked(l) && SameTo(l, k, r) && q <= r && DmiIn(l, q, d) && d < |l.dmis| && DmiOk(lex, l, q, d)
    ensures d < |k.dmis| && DmiOk(lex, k, q, d)
  {
    hide *;
    SameGives(l, k, r);
    DmiBelow(l, r, q, d);
    DmiOkGives(lex, l, q, d);
    SameDmi(lex, l, k, r, d);
    var f, n := l.dmis[d].fr, LastLen(l, d);
    SameRow(l, k, r, q - n);
    if f != -1 {
      SameDmi(lex, l, k, r, f);
    }
    LastLenIs(k, d);
    SameSlice(l.pys, k.pys, r, q - n, q);
    DmiOkIs(lex, k, q, d, n);
  }

  lemma SameGives(l: Lat, k: Lat, r: nat)
    requires SameTo(l, k, r)
    ensures r < |l.rows| && r < |k.rows| && r <= |l.pys| && r <= |k.pys| && l.pys[..r] == k.pys[..r]
    ensures DmiEnd(l, r) <= |l.dmis| && DmiEnd(l, r) <= |k.dmis| && NodeEnd(l, r) <= |l.nodes|
      && NodeEnd(l, r) <= |k.nodes|
  {
  }

  lemma DmiBelow(l: Lat, r: nat, q: nat, d: nat)
    requires Stacked(l) && q <= r && r < |l.rows| && r <= |l.pys| && DmiIn(l, q, d)
    ensures d < DmiEnd(l, r)
  {
    if q < r {
      RowsOrdered(l, q, r);
    }
  }

  lemma LastLenIs(l: Lat, d: nat)
    requires d < |l.dmis|
    ensures LastLen(l, d) == l.dmis[d].splLen - if 0 <= l.dmis[d].fr < |l.dmis| then l.dmis[l.dmis[d].fr].splLen else 0
  {
  }

  lemma DmiOkGives(lex: Lexicon, l: Lat, r: nat, d: nat)
    requires d < |l.dmis| && r <= |l.pys| && DmiOk(lex, l, r, d)
    ensures var x, n := l.dmis[d], LastLen(l, d);
            && x.splId > 0 && 1 <= n <= x.splLen <= r && lex.parse(l.pys[r - n..r]).0 == x.splId
            && r - n < |l.rows| && l.rows[r - n].ndNum > 0 && (x.fr == -1 ==> x.level == 1 && x.splLen == n)
            && (x.fr != -1 ==>
                  DmiIn(l, r - n, x.fr) && 0 <= x.fr < d && x.level == l.dmis[x.fr].level + 1
                  && n == x.splLen - l.dmis[x.fr].splLen)
  {
  }

  lemma DmiOkIs(lex: Lexicon, l: Lat, r: nat, d: nat, n: nat)
    requires d < |l.dmis| && r <= |l.pys| && n == LastLen(l, d)
    requires var x := l.dmis[d];
            && x.splId > 0 && 1 <= n <= x.splLen <= r && lex.parse(l.pys[r - n..r]).0 == x.splId
            && r - n < |l.rows| && l.rows[r - n].ndNum > 0 && (x.fr == -1 ==> x.level == 1 && x.splLen == n)
            && (x.fr != -1 ==> DmiIn(l, r - n, x.fr) && 0 <= x.fr < d && x.level == l.dmis[x.fr].level + 1)
    ensures DmiOk(lex, l, r, d)
  {
    hide LastLen;
  }

  lemma SameNodeOk(lex: Lexicon, l: Lat, k: Lat, r: nat, q: nat, n: nat)
    requires Stacked(l) && SameTo(l, k, r) && 0 < q <= r && NodeIn(l, q, n) && n < |l.nodes| && NodeOk(lex, l, q, n)
    requires forall d :: DmiIn(l, q, d) && d < |l.dmis| ==> DmiOk(lex, l, q, d)
    ensures n < |k.nodes| && NodeOk(lex, k, q, n)
  {
    var x := l.nodes[n];
    var p := q - l.dmis[x.dmi].splLen;
    assert DmiOk(lex, l, q, x.dmi);
    if q < r {
      RowsOrdered(l, q, r);
    }
    RowsOrdered(l, p, q);
    SameNode(l, k, r, n);
    SameRow(l, k, r, q);
    SameRow(l, k, r, p);
    SameDmi(lex, l, k, r, x.dmi);
    SameNode(l, k, r, x.from);
    SameOffered(l, k, x.from, ItemsOf(lex, l, x.dmi), x.dmi, q, x);
  }

  lemma SameOffered(l: Lat, k: Lat, m: nat, items: seq<LmaItem>, dmi: nat, row: nat, x: Node)
    requires m < |l.nodes| && m < |k.nodes| && l.nodes[m] == k.nodes[m]
    ensures OfferedBy(l.nodes, m, items, dmi, row, x) ==> OfferedBy(k.nodes, m, items, dmi, row, x)
  {
    if OfferedBy(l.nodes, m, items, dmi, row, x) {
      var i :| 0 <= i < |items| && x == Offer(l.nodes, m, items[i], dmi, row);
      assert x == Offer(k.nodes, m, items[i], dmi, row);
    }
  }

  lemma SameCovered(lex: Lexicon, l: Lat, k: Lat, r: nat, q: nat, d: nat)
    requires Stacked(l) && SameTo(l, k, r) && q <= r && DmiIn(l, q, d) && d < |l.dmis| && DmiOk(lex, l, q, d)
    requires NodeEnd(l, q) <= |l.nodes| && NodeEnd(l, q) <= |k.nodes| && q < |k.rows| && l.rows[q] == k.rows[q]
      && d < |k.dmis| && l.dmis[d] == k.dmis[d]
    requires DmiCovered(lex, l, q, d)
    ensures DmiCovered(lex, k, q, d)
  {
    hide *;
    SameGives(l, k, r);
    DmiBelow(l, r, q, d);
    DmiOkGives(lex, l, q, d);
    var p, items := q - l.dmis[d].splLen, ItemsOf(lex, l, d);
    SameDmi(lex, l, k, r, d);
    SameRow(l, k, r, p);
    SameRow(l, k, r, q);
    SameRowNodes(l, k, r, q);
    NodesBelow(l, k, r, p);
    CoveredGives(lex, l, q, d);
    forall m, i | NodeIn(k, p, m) && 0 <= m < |k.nodes| && 0 <= i < |items|
      ensures Covers(RowNodes(k, q), Offer(k.nodes, m, items[i], d, q))
    {
      SameNode(l, k, r, m);
      SameOffer(l.nodes, k.nodes, m, items[i], d, q);
    }
    CoveredIs(lex, k, q, d);
  }

  lemma NodesBelow(l: Lat, k: Lat, r: nat, p: nat)
    requires Stacked(l) && SameTo(l, k, r) && p <= r
    ensures forall m :: NodeIn(k, p, m) ==> NodeIn(l, p, m) && 0 <= m < NodeEnd(l, r) <= |l.nodes| && m < |k.nodes|
  {
    SameRow(l, k, r, p);
    if p < r {
      RowsOrdered(l, p, r);
    }
  }

  lemma SameOffer(s: seq<Node>, t: seq<Node>, m: nat, item: LmaItem, d: nat, q: nat)
    requires m < |s| && m < |t| && s[m] == t[m]
    ensures Offer(s, m, item, d, q) == Offer(t, m, item, d, q)
  {
  }

  lemma CoveredGives(lex: Lexicon, l: Lat, r: nat, d: nat)
    requires d < |l.dmis| && l.dmis[d].splLen <= r < |l.rows| && NodeEnd(l, r) <= |l.nodes| && DmiCovered(lex, l, r, d)
    ensures l.rows[r].ndPos + l.rows[r].ndNum <= |l.nodes|
    ensures forall m, i :: NodeIn(l, r - l.dmis[d].splLen, m) && 0 <= m < |l.nodes| && 0 <= i < |ItemsOf(lex, l, d)| ==>
              Covers(RowNodes(l, r), Offer(l.nodes, m, ItemsOf(lex, l, d)[i], d, r))
  {
    hide Covers, Offer, ItemsOf, RowNodes, NodeIn;
  }

  lemma CoveredIs(lex: Lexicon, l: Lat, r: nat, d: nat)
    requires d < |l.dmis| && l.dmis[d].splLen <= r < |l.rows| && NodeEnd(l, r) <= |l.nodes|
      && l.rows[r].ndPos + l.rows[r].ndNum <= |l.nodes|
    requires forall m, i ::
               NodeIn(l, r - l.dmis[d].splLen, m) && 0 <= m < |l.nodes| && 0 <= i < |ItemsOf(lex, l, d)| ==>
               Covers(RowNodes(l, r), Offer(l.nodes, m, ItemsOf(lex, l, d)[i], d, r))
    ensures DmiCovered(lex, l, r, d)
  {
    hide Covers, Offer, ItemsOf, RowNodes;
  }

  lemma SameRowNodes(l: Lat, k: Lat, r: nat, q: nat)
    requires Stacked(l) && SameTo(l, k, r) && q <= r
    ensures q < |k.rows| && NodeEnd(l, q) == NodeEnd(k, q) <= NodeEnd(l, r)
      && k.rows[q].ndPos + k.rows[q].ndNum <= |k.nodes|
    ensures RowNodes(l, q) == RowNodes(k, q)
  {
    SameRow(l, k, r, q);
    if q < r {
      RowsOrdered(l, q, r);
    }
    SameSlice(l.nodes, k.nodes, NodeEnd(l, r), l.rows[q].ndPos, NodeEnd(l, q));
  }

  /** A row is as it was in every lattice that is the same up to the end of that row. */
  lemma RowKept(lex: Lexicon, l: Lat, k: Lat, r: nat, q: nat)
    requires Stacked(l) && SameTo(l, k, r) && q <= r <= |l.pys| && RowOk(lex, l, q) && q <= |k.pys|
    ensures RowOk(lex, k, q)
  {
    SameRow(l, k, r, q);
    if q < r {
      RowsOrdered(l, q, r);
    }
    SameRowNodes(l, k, r, q);
    forall d | DmiIn(k, q, d) ensures DmiOk(lex, k, q, d) && DmiCovered(lex, k, q, d) {
      assert DmiIn(l, q, d);
      SameDmi(lex, l, k, r, d);
      SameDmiOk(lex, l, k, r, q, d);
      SameCovered(lex, l, k, r, q, d);
    }
    if q > 0 {
      forall n | NodeIn(k, q, n) ensures NodeOk(lex, k, q, n) {
        assert NodeIn(l, q, n);
        SameNodeOk(lex, l, k, r, q, n);
      }
    }
  }

  /** The node pool never fills: before row r it holds the start node and at most five nodes for every row. */
  lemma {:induction false} PoolBound(lex: Lexicon, l: Lat, r: nat)
    requires LatOk(lex, l) && r <= |l.pys|
    ensures r < |l.rows| && NodeEnd(l, r) <= 1 + MAX_NODE_A_ROW * r
  {
    assert RowOk(lex, l, r);
    if r > 0 {
      PoolBound(lex, l, r - 1);
      assert After(l.rows[r - 1], l.rows[r]);
    }
  }
}
