/** The decoder: characters are added one at a time, and each adds a row to the search lattice. */
module PinyinDecoder {
  import opened Bytes
  import opened LemmaTrie
  import opened LatticeRow
  import opened Lattice
  import opened LatticeSteps
  import opened Traceback
  import opened WordLookup
  import opened MatchGrowth
  import opened MatchesMade
  import opened SystemDictionary

  const MAX_ROW_NUM: nat := 40
  const SPLIT: u8 := 39

  // ---- Matches ----

  /** The walk from a match to the root fills the buffer of spelling ids from its end. */
  method CollectIds(dmiPool: array<Dmi>, used: nat, d: nat) returns (ids: seq<u16>)
    requires d < used <= dmiPool.Length
    ensures ids == PathIds(dmiPool[..used], d)
  {
    hide *;
    ghost var pool := dmiPool[..used];
    ids := [dmiPool[d].splId];
    var x := d;
    PathIdsIs(pool, d);
    while 0 <= dmiPool[x].fr < x
      invariant x <= d && dmiPool[..used] == pool
      invariant PathIds(pool, d) == (if 0 <= pool[x].fr < x then PathIds(pool, pool[x].fr) else []) + ids
      decreases x
    {
      assert dmiPool[x] == pool[x];
      x := dmiPool[x].fr;
      PathIdsIs(pool, x);
      assert dmiPool[x] == pool[x];
      Regroup(if 0 <= pool[x].fr < x then PathIds(pool, pool[x].fr) else [], [pool[x].splId], ids);
      ids := [dmiPool[x].splId] + ids;
    }
    assert dmiPool[x] == pool[x];
    Regroup([], [], ids);
  }

  lemma Regroup(a: seq<u16>, b: seq<u16>, c: seq<u16>)
    ensures (a + b) + c == a + (b + c) && [] + c == c
  {
  }

  lemma PathIdsIs(pool: seq<Dmi>, d: nat)
    requires d < |pool|
    ensures PathIds(pool, d) == (if 0 <= pool[d].fr < d then PathIds(pool, pool[d].fr) else []) + [pool[d].splId]
  {
  }

  // ---- Offering to the last row ----

  /** The buffers hold the nodes and the rows of l. */
  ghost predicate Holds(l: Lat, nodes: seq<Node>, rows: seq<Row>) {
    |l.nodes| <= |nodes| && nodes[..|l.nodes|] == l.nodes && |l.rows| <= |rows| && rows[..|l.rows|] == l.rows
  }

  /** What the last row's growth leaves alone. */
  ghost predicate SameBut(l: Lat, k: Lat, row: nat) {
    && |l.rows| == |k.rows| == row + 1 && k.rows[..row] == l.rows[..row] && k.pys == l.pys
    && l.rows[row].ndPos <= |l.nodes| && l.rows[row].ndPos <= |k.nodes|
    && k.nodes[..l.rows[row].ndPos] == l.nodes[..l.rows[row].ndPos] && k.rows[row].ndPos == l.rows[row].ndPos
    && k.rows[row].dmiPos == l.rows[row].dmiPos
  }

  lemma SameButTrans(l: Lat, k: Lat, j: Lat, row: nat)
    requires SameBut(l, k, row) && SameBut(k, j, row)
    ensures SameBut(l, j, row)
  {
  }

  lemma SameButFacts(l: Lat, k: Lat, row: nat)
    requires SameBut(l, k, row)
    ensures |l.rows| == |k.rows| == row + 1 && k.pys == l.pys && k.rows[row].ndPos == l.rows[row].ndPos
      && k.rows[row].dmiPos == l.rows[row].dmiPos
  {
  }

  lemma PartialFacts(lex: Lexicon, l: Lat, d: nat, m: int, row: nat)
    requires Partial(lex, l, d, m) && |l.rows| == row + 1
    ensures row == Last(l) > 0 && d < |l.dmis| && 1 <= l.dmis[d].splLen <= row
    ensures NodeEnd(l, row) == |l.nodes| && DmiEnd(l, row) == |l.dmis| && l.rows[row].ndPos <= |l.nodes|
      && l.rows[row].ndNum <= MAX_NODE_A_ROW
    ensures RowNodes(l, row) == l.nodes[l.rows[row].ndPos..] && RowShape(RowNodes(l, row))
    ensures NodeEnd(l, row - l.dmis[d].splLen) <= l.rows[row].ndPos
    ensures SameBut(l, l, row) && NodeEnd(l, row) == l.rows[row].ndPos + l.rows[row].ndNum
  {
    assert DmiOk(lex, l, row, d);
    RowsOrdered(l, row - l.dmis[d].splLen, row);
  }

  lemma HoldsFacts(l: Lat, nodes: seq<Node>, rows: seq<Row>, r: nat)
    requires Holds(l, nodes, rows) && r < |l.rows|
    ensures |l.nodes| <= |nodes| && |l.rows| <= |rows| && rows[r] == l.rows[r]
      && forall n :: 0 <= n < |l.nodes| ==> nodes[n] == l.nodes[n]
    ensures nodes[..|l.nodes|] == l.nodes && rows[..|l.rows|] == l.rows
      && NodeEnd(l, r) == l.rows[r].ndPos + l.rows[r].ndNum
  {
    assert rows[..|l.rows|][r] == l.rows[r];
    forall n | 0 <= n < |l.nodes| ensures nodes[n] == l.nodes[n] {
      assert nodes[..|l.nodes|][n] == l.nodes[n];
    }
  }

  lemma PartialFrom(lex: Lexicon, l: Lat, d: nat, m: nat)
    requires Partial(lex, l, d, 0) && m == l.rows[Last(l) - l.dmis[d].splLen].ndPos
    ensures Partial(lex, l, d, m)
  {
  }

  /** The buffers after one call of `extend_mtrx_nd` hold the lattice whose last row is s. */
  lemma OffersHeld(l: Lat, k: Lat, row: nat, s: seq<Node>, rows: seq<Row>, nodes': seq<Node>, rows': seq<Row>)
    requires |l.rows| == row + 1 <= |rows| && rows[..row + 1] == l.rows && l.rows[row].ndPos <= |l.nodes|
    requires k == Lat(l.nodes[..l.rows[row].ndPos] + s, l.dmis,
               l.rows[row := l.rows[row].(ndNum := |s|, fixed := false)], l.pys)
    requires l.rows[row].ndPos + |s| <= |nodes'| && nodes'[..l.rows[row].ndPos] == l.nodes[..l.rows[row].ndPos]
    requires nodes'[l.rows[row].ndPos..l.rows[row].ndPos + |s|] == s
    requires rows' == rows[row := l.rows[row].(ndNum := |s|, fixed := false)]
    ensures Holds(k, nodes', rows') && k.dmis == l.dmis && SameBut(l, k, row)
    ensures k.rows[row].dmiNum == l.rows[row].dmiNum && k.rows[row].hasFull == l.rows[row].hasFull
      && |k.rows| == row + 1
  {
    var base, end := l.rows[row].ndPos, l.rows[row].ndPos + |s|;
    assert nodes'[..end] == nodes'[..base] + nodes'[base..end];
    assert rows'[..row + 1] == rows[..row + 1][row := l.rows[row].(ndNum := |s|, fixed := false)];
    assert k.nodes[..base] == l.nodes[..base] && k.rows[..row] == l.rows[..row];
    HoldsIs(k, nodes', rows');
    SameButIs(l, k, row);
  }

  lemma SameButIs(l: Lat, k: Lat, row: nat)
    requires |l.rows| == |k.rows| == row + 1 && k.rows[..row] == l.rows[..row] && k.pys == l.pys
    requires l.rows[row].ndPos <= |l.nodes| && l.rows[row].ndPos <= |k.nodes|
    requires k.nodes[..l.rows[row].ndPos] == l.nodes[..l.rows[row].ndPos] && k.rows[row].ndPos == l.rows[row].ndPos
    requires k.rows[row].dmiPos == l.rows[row].dmiPos
    ensures SameBut(l, k, row)
  {
  }

  lemma OffersValue(lex: Lexicon, l: Lat, d: nat, m: nat, row: nat)
    requires |l.rows| == row + 1 && d < |l.dmis| && m < l.rows[row].ndPos
      && l.rows[row].ndPos + l.rows[row].ndNum == |l.nodes|
    ensures var base, items := l.rows[row].ndPos, ItemsOf(lex, l, d);
            var s := Extended(l.nodes[base..], l.nodes[..base], m, items,
              ItemsTried(l.nodes[m].step, |items|), d, row, 0);
            WithOffers(lex, l, d, m)
              == Lat(l.nodes[..base] + s, l.dmis, l.rows[row := l.rows[row].(ndNum := |s|, fixed := false)], l.pys)
  {
    hide Extended, ItemsOf, ItemsTried;
    assert RowNodes(l, row) == l.nodes[l.rows[row].ndPos..];
  }

  /** The nodes of the last row, in the pool. */
  lemma RowHeld(l: Lat, nodes: seq<Node>, rows: seq<Row>, row: nat)
    requires Holds(l, nodes, rows) && |l.rows| == row + 1 && l.rows[row].ndPos + l.rows[row].ndNum == |l.nodes|
    ensures |l.nodes| <= |nodes| && nodes[l.rows[row].ndPos..|l.nodes|] == RowNodes(l, row)
  {
  }

  lemma HoldsIs(l: Lat, nodes: seq<Node>, rows: seq<Row>)
    requires |l.nodes| <= |nodes| && nodes[..|l.nodes|] == l.nodes && |l.rows| <= |rows| && rows[..|l.rows|] == l.rows
    ensures Holds(l, nodes, rows)
  {
  }

  lemma SourceIn(l: Lat, q: nat, m: int)
    requires q < |l.rows| && l.rows[q].ndPos <= m < NodeEnd(l, q)
    ensures NodeIn(l, q, m)
  {
  }

  /** One node of the source row offers all lemmas of match d. */
  method OfferOne(ghost lex: Lexicon, nodePool: array<Node>, matrix: array<Row>, row: nat, d: nat, m: nat,
    items: seq<LmaItem>, ghost k: Lat)
    requires nodePool.Length == NODE_POOL_SIZE && row < matrix.Length && lex.Valid()
      && Holds(k, nodePool[..], matrix[..]) && |k.rows| == row + 1
    requires Partial(lex, k, d, m) && NodeIn(k, row - k.dmis[d].splLen, m) && items == ItemsOf(lex, k, d)
    requires matrix[row].ndPos < NODE_POOL_SIZE - MAX_NODE_A_ROW
    modifies nodePool, matrix
    ensures d < |k.dmis| && m < k.rows[row].ndPos && row == Last(k) && NodeEnd(k, row) <= |k.nodes|
    ensures Holds(WithOffers(lex, k, d, m), nodePool[..], matrix[..]) && SameBut(k, WithOffers(lex, k, d, m), row)
    ensures var k' := WithOffers(lex, k, d, m);
            && Partial(lex, k', d, m + 1) && k'.dmis == k.dmis && |k'.rows| == row + 1
            && k'.rows[row].dmiNum == k.rows[row].dmiNum && k'.rows[row].hasFull == k.rows[row].hasFull
    ensures matrix[row].ndPos == old(matrix[row].ndPos) && k.rows[row].ndPos + k.rows[row].ndNum <= |k.nodes|
  {
    hide *;
    ghost var was, rows := nodePool[..], matrix[..];
    PartialFacts(lex, k, d, m, row);
    HoldsFacts(k, was, rows, row);
    OfferStep(lex, k, d, m);
    RowHeld(k, was, rows, row);
    var base := matrix[row].ndPos;
    assert nodePool[base..base + matrix[row].ndNum] == was[base..|k.nodes|] == k.nodes[base..];
    assert nodePool[..base] == was[..base] == k.nodes[..base] && nodePool[m] == k.nodes[m];
    var num := ExtendMtrxNd(nodePool, base, base, matrix[row].ndNum, m, items, d, row);
    matrix[row] := matrix[row].(ndNum := num, fixed := false);
    OffersValue(lex, k, d, m, row);
    ghost var x := nodePool[base..base + num];
    assert nodePool[..][..base] == nodePool[..base] && nodePool[..][base..base + num] == x;
    OffersHeld(k, WithOffers(lex, k, d, m), row, x, rows, nodePool[..], matrix[..]);
  }

  /** The loop over the nodes of the source row: each offers all lemmas of match d. */
  method OfferAll(ghost lex: Lexicon, nodePool: array<Node>, matrix: array<Row>, row: nat, d: nat, frRow: nat,
    items: seq<LmaItem>, ghost l: Lat)
    returns (any: bool, ghost k: Lat)
    requires nodePool.Length == NODE_POOL_SIZE && row < matrix.Length && lex.Valid()
      && Holds(l, nodePool[..], matrix[..]) && |l.rows| == row + 1
    requires Partial(lex, l, d, 0) && frRow == row - l.dmis[d].splLen && items == ItemsOf(lex, l, d)
    requires matrix[row].ndPos < NODE_POOL_SIZE - MAX_NODE_A_ROW
    modifies nodePool, matrix
    ensures k.dmis == l.dmis && SameBut(l, k, row) && k.rows[row].dmiNum == l.rows[row].dmiNum
      && k.rows[row].hasFull == l.rows[row].hasFull
    ensures Holds(k, nodePool[..], matrix[..]) && LatOk(lex, k) && NodeEnd(k, row) == |k.nodes|
      && DmiEnd(k, row) == |k.dmis|
    ensures any <==> frRow < |l.rows| && l.rows[frRow].ndNum > 0
  {
    hide *;
    k := l;
    PartialFacts(lex, l, d, 0, row);
    HoldsFacts(l, nodePool[..], matrix[..], frRow);
    any := false;
    var m, end := matrix[frRow].ndPos, matrix[frRow].ndPos + matrix[frRow].ndNum;
    PartialFrom(lex, l, d, m);
    while m < end
      invariant l.rows[frRow].ndPos <= m <= end && NodeEnd(l, frRow) == end && |k.rows| == row + 1
        && matrix[row].ndPos < NODE_POOL_SIZE - MAX_NODE_A_ROW
      invariant Holds(k, nodePool[..], matrix[..]) && Partial(lex, k, d, m) && (any <==> m > l.rows[frRow].ndPos)
      invariant k.dmis == l.dmis && SameBut(l, k, row) && k.rows[row].dmiNum == l.rows[row].dmiNum
        && k.rows[row].hasFull == l.rows[row].hasFull
      decreases end - m
    {
      SameSource(l, k, row, frRow);
      SourceIn(k, frRow, m);
      SameItems(lex, l, k, d);
      OfferOne(lex, nodePool, matrix, row, d, m, items, k);
      SameButTrans(l, k, WithOffers(lex, k, d, m), row);
      k := WithOffers(lex, k, d, m);
      m := m + 1;
      any := true;
    }
    PartialFacts(lex, k, d, m, row);
    SameSource(l, k, row, frRow);
    PartialDone(lex, k, d, m);
  }

  lemma SameItems(lex: Lexicon, l: Lat, k: Lat, d: nat)
    requires l.dmis == k.dmis && d < |l.dmis|
    ensures ItemsOf(lex, l, d) == ItemsOf(lex, k, d)
  {
  }

  lemma SameSource(l: Lat, k: Lat, row: nat, q: nat)
    requires SameBut(l, k, row) && q < row
    ensures k.rows[q] == l.rows[q] && NodeEnd(k, q) == NodeEnd(l, q) && k.rows[row].ndPos == l.rows[row].ndPos
  {
    assert k.rows[..row][q] == l.rows[..row][q];
  }

  // ---- The decoder ----

  /** What holds while the last row is built, as facts about the value the buffers hold. */
  ghost predicate RowOpen(lex: Lexicon, l: Lat, row: nat, used: nat) {
    && lex.Valid() && LatOk(lex, l) && |l.rows| == row + 1 && row == |l.pys| > 0
    && NodeEnd(l, row) == |l.nodes| && DmiEnd(l, row) == |l.dmis|
    && l.rows[row].ndPos == used <= 1 + MAX_NODE_A_ROW * (row - 1) && l.rows[row].ndNum <= MAX_NODE_A_ROW
  }

  lemma RowOpenFacts(lex: Lexicon, l: Lat, row: nat, used: nat)
    requires RowOpen(lex, l, row, used)
    ensures lex.Valid() && LatOk(lex, l) && |l.rows| == row + 1 && row == |l.pys| == Last(l) > 0
    ensures NodeEnd(l, row) == |l.nodes| && DmiEnd(l, row) == |l.dmis| && l.rows[row].ndNum <= MAX_NODE_A_ROW
    ensures l.rows[row].ndPos == used && |l.nodes| == used + l.rows[row].ndNum
      && |l.dmis| == l.rows[row].dmiPos + l.rows[row].dmiNum
    ensures used <= 1 + 5 * (row - 1) && MAX_NODE_A_ROW == 5
    ensures forall q :: 0 <= q < row ==> NodeEnd(l, q) <= used && NodeEnd(l, q) == l.rows[q].ndPos + l.rows[q].ndNum
    ensures forall q :: 0 <= q < row ==> DmiEnd(l, q) <= |l.dmis| && DmiEnd(l, q) == l.rows[q].dmiPos + l.rows[q].dmiNum
  {
    forall q | 0 <= q < row ensures NodeEnd(l, q) <= used && DmiEnd(l, q) <= |l.dmis| {
      RowsOrdered(l, q, row);
    }
  }

  lemma RowOpenIs(lex: Lexicon, l: Lat, k: Lat, row: nat, used: nat)
    requires RowOpen(lex, l, row, used) && LatOk(lex, k) && SameBut(l, k, row) && NodeEnd(k, row) == |k.nodes|
      && DmiEnd(k, row) == |k.dmis|
    ensures RowOpen(lex, k, row, used)
  {
    assert RowOk(lex, k, row);
  }

  lemma NewDmiReady(lex: Lexicon, l: Lat, row: nat, used: nat, dmi: int, splId: u16, extLen: nat, endSplit: bool,
    full: bool, handle: nat, more: bool)
    requires RowOpen(lex, l, row, used) && 1 <= extLen <= row && splId > 0
      && lex.parse(l.pys[row - extLen..]).0 == splId
    requires row - extLen < |l.rows| && l.rows[row - extLen].ndNum > 0 && (dmi == -1 || DmiIn(l, row - extLen, dmi))
    ensures -1 <= dmi < |l.dmis|
      && Spells(lex, l, NewDmi(l.dmis, dmi, splId, extLen, endSplit, full, handle, more), extLen)
    ensures var x := NewDmi(l.dmis, dmi, splId, extLen, endSplit, full, handle, more);
            var k, d := WithDmi(l, x, full), |l.dmis|;
            && Partial(lex, k, d, 0) && ItemsOf(lex, k, d) == lex.items(IdsWith(l.dmis, dmi, splId))
               && SameBut(l, k, row)
            && k.dmis == l.dmis + [x] && k.nodes == l.nodes && k.pys == l.pys && |k.rows| == row + 1
            && k.rows == l.rows[row :=
                 l.rows[row].(dmiNum := l.rows[row].dmiNum + 1, hasFull := l.rows[row].hasFull || full)]
            && k.dmis[d].splLen == extLen + (if dmi == -1 then 0 else l.dmis[dmi].splLen) <= row == Last(k)
  {
    RowOpenFacts(lex, l, row, used);
    if dmi != -1 {
      RowsOrdered(l, row - extLen, row);
      assert RowOk(lex, l, row - extLen);
      assert DmiOk(lex, l, row - extLen, dmi);
    }
    var x := NewDmi(l.dmis, dmi, splId, extLen, endSplit, full, handle, more);
    WithDmiPartial(lex, l, x, full, extLen);
    WithDmiPath(l, x, full);
    assert WithDmi(l, x, full).rows[..row] == l.rows[..row];
  }

  /** The match x is counted for the last row, and nothing has been offered by way of it yet. */
  ghost predicate Counted(lex: Lexicon, l: Lat, k: Lat, x: Dmi, row: nat, used: nat) {
    && RowOpen(lex, l, row, used) && SameBut(l, k, row) && |k.rows| == row + 1 && k.dmis == l.dmis + [x]
       && Partial(lex, k, |l.dmis|, 0)
    && 1 <= x.splLen <= row == Last(k) && forall q :: 0 <= q < row ==> k.rows[q] == l.rows[q]
  }

  lemma CountedGives(lex: Lexicon, l: Lat, k: Lat, x: Dmi, row: nat, used: nat)
    requires Counted(lex, l, k, x, row, used)
    ensures RowOpen(lex, l, row, used) && SameBut(l, k, row) && |k.rows| == row + 1 && k.dmis == l.dmis + [x]
      && Partial(lex, k, |l.dmis|, 0)
    ensures k.dmis[|l.dmis|] == x && 1 <= x.splLen <= row == Last(k)
      && forall q :: 0 <= q < row ==> k.rows[q] == l.rows[q]
  {
  }

  lemma CountedIs(lex: Lexicon, l: Lat, row: nat, used: nat, dmi: int, splId: u16, extLen: nat, full: bool, x: Dmi)
    requires RowOpen(lex, l, row, used) && 1 <= extLen <= row && splId > 0
      && lex.parse(l.pys[row - extLen..]).0 == splId
    requires row - extLen < |l.rows| && l.rows[row - extLen].ndNum > 0 && (dmi == -1 || DmiIn(l, row - extLen, dmi))
    requires -1 <= dmi < |l.dmis| && x == NewDmi(l.dmis, dmi, splId, extLen, x.endSplit, full, x.handle, x.more)
    ensures |l.rows| == row + 1
    ensures var k := WithDmi(l, x, full);
            && Counted(lex, l, k, x, row, used) && |l.dmis| < |k.dmis|
               && ItemsOf(lex, k, |l.dmis|) == lex.items(IdsWith(l.dmis, dmi, splId))
            && k == Lat(l.nodes, l.dmis + [x],
                 l.rows[row := l.rows[row].(dmiNum := l.rows[row].dmiNum + 1, hasFull := l.rows[row].hasFull || full)],
                 l.pys)
            && 1 <= x.splLen <= row
  {
    hide *;
    RowOpenFacts(lex, l, row, used);
    NewDmiReady(lex, l, row, used, dmi, splId, extLen, x.endSplit, full, x.handle, x.more);
    var k := WithDmi(l, x, full);
    assert k == Lat(l.nodes, l.dmis + [x],
             l.rows[row := l.rows[row].(dmiNum := l.rows[row].dmiNum + 1, hasFull := l.rows[row].hasFull || full)],
             l.pys);
    CountedHolds(lex, l, k, x, row, used);
  }

  lemma CountedHolds(lex: Lexicon, l: Lat, k: Lat, x: Dmi, row: nat, used: nat)
    requires RowOpen(lex, l, row, used) && SameBut(l, k, row) && |k.rows| == row + 1 && k.dmis == l.dmis + [x]
      && Partial(lex, k, |l.dmis|, 0)
    requires k.dmis[|l.dmis|].splLen <= row == Last(k) && |l.rows| == row + 1
    ensures Counted(lex, l, k, x, row, used)
  {
    PartialFacts(lex, k, |l.dmis|, 0, row);
    assert k.rows[..row] == l.rows[..row];
    hide RowOpen, Partial;
    forall q | 0 <= q < row ensures k.rows[q] == l.rows[q] {
      assert k.rows[..row][q] == l.rows[..row][q];
    }
  }

  lemma RowPartialDone(lex: Lexicon, l: Lat, k: Lat, row: nat, used: nat, d: nat)
    requires RowOpen(lex, l, row, used) && Partial(lex, k, d, 0) && SameBut(l, k, row) && d < |k.dmis|
      && ItemsOf(lex, k, d) == []
    requires k.dmis[d].splLen <= row == Last(k)
    ensures RowOpen(lex, k, row, used)
  {
    PartialFacts(lex, k, d, 0, row);
    PartialDone(lex, k, d, 0);
    RowOpenIs(lex, l, k, row, used);
  }

  /** The match dmi, or -1 for a new lemma, can be extended by the last extLen characters. */
  ghost predicate CanExtend(w: Words, lex: Lexicon, l: Lat, row: nat, g: Growth, dmi: int, splId: u16, extLen: nat) {
    && 1 <= extLen <= row == |l.pys| && |l.rows| == row + 1 && g.dmis == l.dmis && g.room
       && g.hasFull == l.rows[row].hasFull && g.first == l.rows[row].dmiPos
    && -1 <= dmi < |l.dmis| && HasRoom(w, g, dmi, splId) && w.Speaks(splId)
    && splId > 0 && lex.parse(l.pys[row - extLen..]).0 == splId
    && (dmi == -1 || DmiIn(l, row - extLen, dmi)) && l.rows[row - extLen].ndNum > 0
  }

  lemma CanExtendIs(w: Words, lex: Lexicon, l: Lat, row: nat, g: Growth, dmi: int, splId: u16, extLen: nat)
    requires 1 <= extLen <= row == |l.pys| && |l.rows| == row + 1 && g.dmis == l.dmis && g.room
      && g.hasFull == l.rows[row].hasFull && g.first == l.rows[row].dmiPos
    requires -1 <= dmi < |l.dmis| && HasRoom(w, g, dmi, splId) && w.Speaks(splId)
    requires splId > 0 && lex.parse(l.pys[row - extLen..]).0 == splId
    requires (dmi == -1 || DmiIn(l, row - extLen, dmi)) && l.rows[row - extLen].ndNum > 0
    ensures CanExtend(w, lex, l, row, g, dmi, splId, extLen)
  {
  }

  lemma CanExtendGives(w: Words, lex: Lexicon, l: Lat, row: nat, g: Growth, dmi: int, splId: u16, extLen: nat)
    requires CanExtend(w, lex, l, row, g, dmi, splId, extLen)
    ensures 1 <= extLen <= row == |l.pys| && |l.rows| == row + 1 && g.dmis == l.dmis && g.room
      && g.hasFull == l.rows[row].hasFull && g.first == l.rows[row].dmiPos
    ensures -1 <= dmi < |l.dmis| && HasRoom(w, g, dmi, splId) && w.Speaks(splId)
    ensures splId > 0 && lex.parse(l.pys[row - extLen..]).0 == splId
    ensures (dmi == -1 || DmiIn(l, row - extLen, dmi)) && l.rows[row - extLen].ndNum > 0
    ensures var n := MarksOf(w, g.dmis, dmi, splId);
            |g.dmis| < DMI_POOL_SIZE && n > 0 ==> g.stonesPos < MAX_MILE_STONE && g.marksPos + n <= MAX_PARSING_MARK
  {
  }

  method NewPools() returns (nodes: array<Node>, dmis: array<Dmi>, rows: array<Row>, pys: array<u8>)
    ensures fresh(nodes) && fresh(dmis) && fresh(rows) && fresh(pys)
    ensures nodes.Length == NODE_POOL_SIZE && dmis.Length == DMI_POOL_SIZE && rows.Length == pys.Length == MAX_ROW_NUM
  {
    nodes, dmis := new Node[NODE_POOL_SIZE], new Dmi[DMI_POOL_SIZE];
    rows, pys := new Row[MAX_ROW_NUM], new u8[MAX_ROW_NUM];
  }

  method NewBuffers() returns (a: array<nat>, b: array<nat>, c: array<nat>, d: array<nat>)
    ensures fresh(a) && fresh(b) && fresh(c) && fresh(d) && a != b && a != c && a != d && b != c && b != d && c != d
    ensures a.Length == b.Length == c.Length == d.Length == MAX_ROW_NUM
  {
    a, b := new nat[MAX_ROW_NUM], new nat[MAX_ROW_NUM];
    c, d := new nat[MAX_ROW_NUM], new nat[MAX_ROW_NUM];
  }

  class MatrixSearch {
    const given: Givens
    const dict: DictTrie
    ghost const words: Words
    ghost const lex: Lexicon
    const nodePool: array<Node>
    const dmiPool: array<Dmi>
    const matrix: array<Row>
    const pys: array<u8>
    const splStart: array<nat>
    const splId: array<nat>
    const lmaStart: array<nat>
    const lmaId: array<nat>
    var splIdNum: nat
    var lmaIdNum: nat
    var fixedHzs: nat
    var nodeUsed: nat
    var dmiUsed: nat
    var pysLen: nat
    var xiAn: bool
    /** The items that the last match was extended with. */
    var lpiItems: seq<LmaItem>

    ghost predicate Shape()
      reads this
    {
      && nodePool.Length == NODE_POOL_SIZE && dmiPool.Length == DMI_POOL_SIZE && matrix.Length == MAX_ROW_NUM
         && pys.Length == MAX_ROW_NUM
      && pysLen < MAX_ROW_NUM && nodeUsed <= NODE_POOL_SIZE && dmiUsed <= DMI_POOL_SIZE
    }

    /** The lattice with the first n nodes of the pool. */
    function View(n: nat): (l: Lat)
      requires Shape() && n <= NODE_POOL_SIZE
      reads this, nodePool, dmiPool, matrix, pys
    {
      Lat(nodePool[..n], dmiPool[..dmiUsed], matrix[..pysLen + 1], pys[..pysLen])
    }

    /** While the last row is built its nodes lie behind the used part of the pool. */
    ghost predicate Growing()
      reads this, nodePool, dmiPool, matrix, pys
    {
      && Shape() && matrix[pysLen].ndNum <= MAX_NODE_A_ROW && nodeUsed + MAX_NODE_A_ROW <= NODE_POOL_SIZE
      && RowOpen(lex, View(nodeUsed + matrix[pysLen].ndNum), pysLen, nodeUsed)
    }

    lemma GrowingFacts()
      requires Growing()
      ensures nodePool.Length == NODE_POOL_SIZE && dmiPool.Length == DMI_POOL_SIZE && matrix.Length == MAX_ROW_NUM
        && pys.Length == MAX_ROW_NUM
      ensures pysLen < MAX_ROW_NUM && nodeUsed <= NODE_POOL_SIZE && dmiUsed <= DMI_POOL_SIZE && Shape()
      ensures matrix[pysLen].ndNum <= MAX_NODE_A_ROW && nodeUsed + MAX_NODE_A_ROW <= NODE_POOL_SIZE
      ensures NODE_POOL_SIZE == 200 && DMI_POOL_SIZE == 800 && MAX_ROW_NUM == 40 && MAX_NODE_A_ROW == 5
        && MAX_LEMMA_SIZE == 8 && MAX_PINYIN_SIZE == 6
      ensures var n := nodeUsed + matrix[pysLen].ndNum;
              RowOpen(lex, View(n), pysLen, nodeUsed)
              && View(n) == Lat(nodePool[..n], dmiPool[..dmiUsed], matrix[..pysLen + 1], pys[..pysLen])
    {
    }

    lemma GrowingIs(l: Lat)
      requires nodePool.Length == NODE_POOL_SIZE && dmiPool.Length == DMI_POOL_SIZE && matrix.Length == MAX_ROW_NUM
        && pys.Length == MAX_ROW_NUM
      requires pysLen < MAX_ROW_NUM && nodeUsed + MAX_NODE_A_ROW <= NODE_POOL_SIZE && dmiUsed <= DMI_POOL_SIZE
      requires RowOpen(lex, l, pysLen, nodeUsed) && Holds(l, nodePool[..], matrix[..]) && l.dmis == dmiPool[..dmiUsed]
        && l.pys == pys[..pysLen]
      ensures Growing() && View(nodeUsed + matrix[pysLen].ndNum) == l
    {
      RowOpenFacts(lex, l, pysLen, nodeUsed);
      HoldsFacts(l, nodePool[..], matrix[..], pysLen);
      assert nodePool[..][..|l.nodes|] == nodePool[..|l.nodes|] && matrix[..][..pysLen + 1] == matrix[..pysLen + 1];
    }

    /** Both dictionaries know where the matches are in them. */
    ghost predicate Linked()
      reads this`dmiUsed, dmiPool, dict, dict.index, dict.marks, dict.stones
    {
      dmiUsed <= dmiPool.Length && Opened() && Handled(words, dict.queries, dmiPool[..dmiUsed])
    }

    /** The dictionary is in order, and the lattice speaks of its words. */
    ghost predicate Opened()
      reads dict, dict.index, dict.marks, dict.stones
    {
      Tied(words, given, dict) && words.Valid() && lex == words.Lex() && dict.Loaded() && dict.Standing()
    }

    lemma OpenedFacts()
      requires Opened()
      ensures Tied(words, given, dict) && words.Valid() && lex == words.Lex() && dict.Loaded() && dict.Standing()
      ensures words.given == given && lex.parse == given.parse && lex.half == given.half && lex.letter == given.letter
        && lex.Valid()
      ensures words.given.Sorts() && (forall ids :: lex.items(ids) == words.Items(ids))
        && dict.stonesPos == |dict.queries| + 1
    {
      words.LexValid();
    }

    lemma OpenedIs()
      requires Tied(words, given, dict) && words.Valid() && lex == words.Lex() && dict.Loaded() && dict.Standing()
      ensures Opened()
    {
    }

    lemma LinkedFacts()
      requires Linked()
      ensures dmiUsed <= dmiPool.Length && Opened() && Handled(words, dict.queries, dmiPool[..dmiUsed])
    {
    }

    lemma LinkedIs()
      requires dmiUsed <= dmiPool.Length && Opened() && Handled(words, dict.queries, dmiPool[..dmiUsed])
      ensures Linked()
    {
    }

    lemma ParsedSpeaks(s: seq<u8>)
      requires words.Valid() && given == words.given && given.parse(s).0 > 0
      ensures words.Speaks(given.parse(s).0)
    {
    }

    /** The pools are as g says. */
    ghost predicate At(g: Growth)
      reads this`dmiUsed, this`pysLen, this`lpiItems, dmiPool, matrix, dict`stonesPos, dict`marksPos
    {
      && dmiUsed <= dmiPool.Length && pysLen < matrix.Length && g.dmis == dmiPool[..dmiUsed] && g.room
      && g.stonesPos == dict.stonesPos && g.marksPos == dict.marksPos && g.hasFull == matrix[pysLen].hasFull
      && g.first == matrix[pysLen].dmiPos && (g.stale <==> lpiItems != [])
    }

    lemma AtFacts(g: Growth)
      requires At(g)
      ensures dmiUsed <= dmiPool.Length && pysLen < matrix.Length && g.dmis == dmiPool[..dmiUsed] && |g.dmis| == dmiUsed
        && g.room
      ensures g.stonesPos == dict.stonesPos && g.marksPos == dict.marksPos && g.hasFull == matrix[pysLen].hasFull
        && g.first == matrix[pysLen].dmiPos && (g.stale <==> lpiItems != [])
    {
    }

    lemma AtIs(g: Growth)
      requires dmiUsed <= dmiPool.Length && pysLen < matrix.Length && g.dmis == dmiPool[..dmiUsed] && g.room
      requires g.stonesPos == dict.stonesPos && g.marksPos == dict.marksPos && g.hasFull == matrix[pysLen].hasFull
        && g.first == matrix[pysLen].dmiPos && (g.stale <==> lpiItems != [])
      ensures At(g)
    {
    }

    /** `extend_dmi`: both dictionaries go on from the match, and the new match holds on to the new milestone. A full
        pool is noticed before the items of the last call are cleared: they stay. */
    method ExtendDmi(dmi: int, splId: u16, extLen: nat, endSplit: bool, ids: seq<u16>) returns (num: nat)
      requires Linked() && dmiPool.Length == DMI_POOL_SIZE && -1 <= dmi < dmiUsed
        && ids == IdsWith(dmiPool[..dmiUsed], dmi, splId)
      requires words.Speaks(splId)
      requires var n := MarksOf(words, dmiPool[..dmiUsed], dmi, splId);
               dmiUsed < DMI_POOL_SIZE && n > 0 ==>
                 dict.stonesPos < MAX_MILE_STONE && dict.marksPos + n <= MAX_PARSING_MARK
      modifies this`lpiItems, dmiPool, dict`marksPos, dict`stonesPos, dict`queries, dict.marks, dict.stones
      ensures Opened() && StacksOn(old(dict.Used()), dict.Used()) && dmiPool[..dmiUsed] == old(dmiPool[..dmiUsed])
      ensures dmiUsed == DMI_POOL_SIZE ==>
                && num == 0 && lpiItems == old(lpiItems) && dict.Used() == old(dict.Used())
                && dict.queries == old(dict.queries) && dict.stonesPos == old(dict.stonesPos)
                && dict.marksPos == old(dict.marksPos)
      ensures dmiUsed < DMI_POOL_SIZE ==>
                && lpiItems == words.Items(ids)
                   && num == (if words.SystemMore(ids) || words.UserMore(ids) then 1 else 0)
                && dict.queries == old(dict.queries) + (if words.SystemMore(ids) then [words.spl.Ranges(ids)] else [])
                && dict.stonesPos == old(dict.stonesPos) + (if words.SystemMore(ids) then 1 else 0)
                && dict.marksPos == old(dict.marksPos) + MarksOf(words, dmiPool[..dmiUsed], dmi, splId)
                && (words.SystemMore(ids) <==> dict.marksPos > old(dict.marksPos))
      ensures num == 1 ==>
                && dmiUsed < DMI_POOL_SIZE
                && dmiPool[dmiUsed] == NewDmi(dmiPool[..dmiUsed], dmi, splId, extLen, endSplit, !given.half(splId),
                                              if words.SystemMore(ids) then old(dict.stonesPos) else 0,
                                                words.UserMore(ids))
    {
      hide *;
      hide MatrixSearch.Opened, DictTrie.Loaded, DictTrie.Standing;
      LinkedFacts();
      OpenedFacts();
      ghost var pool := dmiPool[..dmiUsed];
      num := 0;
      StacksSame(dict.Used());
      if dmiUsed >= DMI_POOL_SIZE {
        return;
      }
      var handle, more;
      handle, more, lpiItems := AskBoth(given, dict, dmiPool, dmiUsed, dmi, splId, ids, words);
      var full := !given.half(splId);
      NewDmiIs(pool, dmi, splId, extLen, endSplit, full, handle, more);
      assert dmi >= 0 ==> dmiPool[dmi] == pool[dmi];
      if handle != 0 || more {
        dmiPool[dmiUsed] := if dmi == -1 then Dmi(-1, splId, 1, extLen, endSplit, full, handle, more)
                            else Dmi(dmi, splId, dmiPool[dmi].level + 1, dmiPool[dmi].splLen + extLen, endSplit, full
                              && dmiPool[dmi].allFull, handle, more);
        num := 1;
        assert dmiPool[..dmiUsed] == pool;
      }
      OpenedIs();
    }

    /** One match of the old row is extended, or, for -1, a new lemma begins: `extend_dmi` and the offers that follow
        it. */
    method ExtendFrom(oldrow: nat, dmi: int, splId: u16, extLen: nat, endSplit: bool, ghost g: Growth)
      returns (any: bool)
      requires Growing() && Linked() && At(g) && extLen >= 1 && oldrow + extLen == pysLen
      requires splId > 0 && given.parse(pys[oldrow..pysLen]).0 == splId && matrix[oldrow].ndNum > 0
      requires dmi == -1 || matrix[oldrow].dmiPos <= dmi < matrix[oldrow].dmiPos + matrix[oldrow].dmiNum
      requires -1 <= dmi < |g.dmis| && HasRoom(words, g, dmi, splId)
      modifies nodePool, dmiPool, matrix, this`dmiUsed, this`lpiItems, dict`marksPos, dict`stonesPos, dict`queries,
        dict.marks, dict.stones
      ensures Growing() && Linked() && StacksOn(old(dict.Used()), dict.Used())
      ensures var r := Tried(words, matrix[..pysLen], g, dmi, splId, extLen, endSplit);
              At(r) && r.longest == if any && g.longest == 0 then extLen else g.longest
      ensures matrix[..pysLen] == old(matrix[..pysLen]) && nodePool[..nodeUsed] == old(nodePool[..nodeUsed])
      ensures old(dmiUsed) <= dmiUsed && dmiPool[..old(dmiUsed)] == old(dmiPool[..dmiUsed])
    {
      hide *;
      hide MatrixSearch.Linked, MatrixSearch.Opened, MatrixSearch.At, MatrixSearch.Growing;
      GrowingFacts();
      LinkedFacts();
      OpenedFacts();
      AtFacts(g);
      ghost var l := View(nodeUsed + matrix[pysLen].ndNum);
      RowOpenFacts(lex, l, pysLen, nodeUsed);
      assert pys[..pysLen][oldrow..] == pys[oldrow..pysLen];
      assert matrix[..pysLen + 1][oldrow] == matrix[oldrow] && matrix[..pysLen + 1][pysLen] == matrix[pysLen];
      SourceDmi(l, oldrow, dmi);
      ParsedSpeaks(pys[oldrow..pysLen]);
      IdsWithIs(l.dmis, dmi, splId);
      CanExtendIs(words, lex, l, pysLen, g, dmi, splId, extLen);
      var ids := [splId];
      if dmi != -1 {
        var front := CollectIds(dmiPool, dmiUsed, dmi);
        ids := front + ids;
      }
      any := ExtendWith(l, dmi, splId, extLen, endSplit, ids, g);
    }

    /** The same, when the spelling ids are collected. */
    method ExtendWith(ghost l: Lat, dmi: int, splId: u16, extLen: nat, endSplit: bool, ids: seq<u16>, ghost g: Growth)
      returns (any: bool)
      requires Growing() && Linked() && At(g) && l == View(nodeUsed + matrix[pysLen].ndNum)
      requires CanExtend(words, lex, l, pysLen, g, dmi, splId, extLen) && -1 <= dmi < |l.dmis| && |l.dmis| == |g.dmis|
        && ids == IdsWith(l.dmis, dmi, splId)
      modifies nodePool, dmiPool, matrix, this`dmiUsed, this`lpiItems, dict`marksPos, dict`stonesPos, dict`queries,
        dict.marks, dict.stones
      ensures Growing() && Linked() && StacksOn(old(dict.Used()), dict.Used())
      ensures var r := Tried(words, matrix[..pysLen], g, dmi, splId, extLen, endSplit);
              At(r) && r.longest == if any && g.longest == 0 then extLen else g.longest
      ensures matrix[..pysLen] == old(matrix[..pysLen]) && nodePool[..nodeUsed] == old(nodePool[..nodeUsed])
      ensures old(dmiUsed) <= dmiUsed && dmiPool[..old(dmiUsed)] == old(dmiPool[..dmiUsed])
    {
      hide *;
      hide MatrixSearch.Linked, MatrixSearch.Opened, MatrixSearch.At, MatrixSearch.Growing;
      GrowingFacts();
      LinkedFacts();
      OpenedFacts();
      AtFacts(g);
      CanExtendGives(words, lex, l, pysLen, g, dmi, splId, extLen);
      ghost var queries, rows := dict.queries, matrix[..pysLen];
      var num := ExtendDmi(dmi, splId, extLen, endSplit, ids);
      SameGrowing(l);
      assert dmiPool[..dmiUsed] == l.dmis;
      any := false;
      if num > 0 {
        any := Join(dmiPool[dmiUsed], dmi, splId, extLen, endSplit, ids, l, g, queries);
      } else if dmiUsed < DMI_POOL_SIZE {
        words.NoItemsBehind(ids);
        NothingTried(words, rows, g, dmi, splId, extLen, endSplit);
        SamePlace(l, g.(stale := false), queries);
      } else {
        TriedInFull(words, rows, g, dmi, splId, extLen, endSplit);
        SamePlace(l, g, queries);
      }
    }

    /** What `extend_dmi` has found joins the row and makes its offers. */
    method Join(x: Dmi, ghost dmi: int, splId: u16, ghost extLen: nat, ghost endSplit: bool, ghost ids: seq<u16>,
                ghost l: Lat, ghost g: Growth, ghost queries: seq<seq<Range>>) returns (any: bool)
      requires Growing() && l == View(nodeUsed + matrix[pysLen].ndNum) && Opened() && Handled(words, queries, l.dmis)
      requires CanExtend(words, lex, l, pysLen, g, dmi, splId, extLen) && -1 <= dmi < |l.dmis|
        && ids == IdsWith(l.dmis, dmi, splId)
      requires dmiUsed < DMI_POOL_SIZE && g.stonesPos == |queries| + 1 && (words.SystemMore(ids) || words.UserMore(ids))
        && lpiItems == words.Items(ids)
      requires dict.queries == queries + (if words.SystemMore(ids) then [words.spl.Ranges(ids)] else [])
      requires dict.stonesPos == g.stonesPos + (if words.SystemMore(ids) then 1 else 0)
        && dict.marksPos == g.marksPos + MarksOf(words, l.dmis, dmi, splId)
      requires x == dmiPool[dmiUsed] == NewDmi(l.dmis, dmi, splId, extLen, endSplit, !given.half(splId),
                                               if words.SystemMore(ids) then g.stonesPos else 0, words.UserMore(ids))
      modifies nodePool, matrix, this`dmiUsed
      ensures Growing() && Linked() && dmiUsed == old(dmiUsed) + 1 && dmiPool[..old(dmiUsed)] == old(dmiPool[..dmiUsed])
      ensures matrix[..pysLen] == old(matrix[..pysLen]) && nodePool[..nodeUsed] == old(nodePool[..nodeUsed])
      ensures -1 <= dmi < |g.dmis|
      ensures var r := Tried(words, matrix[..pysLen], g, dmi, splId, extLen, endSplit);
              At(r) && r.longest == if any && g.longest == 0 then extLen else g.longest
    {
      hide *;
      hide MatrixSearch.Linked, MatrixSearch.Opened, MatrixSearch.At, MatrixSearch.Growing;
      OpenedFacts();
      GrowingFacts();
      CanExtendGives(words, lex, l, pysLen, g, dmi, splId, extLen);
      NewDmiIs(l.dmis, dmi, splId, extLen, endSplit, !given.half(splId),
        if words.SystemMore(ids) then g.stonesPos else 0, words.UserMore(ids));
      ghost var rows := matrix[..pysLen];
      assert rows == l.rows[..pysLen] && dmiPool[..dmiUsed] == l.dmis;
      any := TakeMatch(l, x, dmi, splId, extLen, ids, g, queries);
      FrontOf(dmiPool[..], |l.dmis|, dmiUsed);
      PlaceGrown(l, rows, g, dmi, splId, extLen, endSplit, ids, x, any);
    }

    lemma PlaceGrown(l: Lat, rows: seq<Row>, g: Growth, dmi: int, splId: u16, extLen: nat, endSplit: bool,
      ids: seq<u16>, x: Dmi, any: bool)
      requires Growing() && CanExtend(words, lex, l, pysLen, g, dmi, splId, extLen) && -1 <= dmi < |l.dmis|
        && ids == IdsWith(l.dmis, dmi, splId)
      requires dmiUsed <= dmiPool.Length && pysLen < matrix.Length && dmiPool[..dmiUsed] == l.dmis + [x]
      requires words.given == given && (words.SystemMore(ids) || words.UserMore(ids))
      requires x == NewDmi(l.dmis, dmi, splId, extLen, endSplit, !given.half(splId),
                 if words.SystemMore(ids) then g.stonesPos else 0, words.UserMore(ids))
      requires dict.stonesPos == g.stonesPos + if words.SystemMore(ids) then 1 else 0
      requires dict.marksPos == g.marksPos + MarksOf(words, l.dmis, dmi, splId)
      requires pysLen < |l.rows| && (matrix[pysLen].hasFull <==> l.rows[pysLen].hasFull || !given.half(splId))
      requires matrix[pysLen].dmiPos == l.rows[pysLen].dmiPos
      requires x.splLen <= pysLen && rows == l.rows[..pysLen] == matrix[..pysLen]
      requires lpiItems == words.Items(ids) && (any <==> lpiItems != [] && l.rows[pysLen - x.splLen].ndNum > 0)
      ensures -1 <= dmi < |g.dmis|
      ensures var r := Tried(words, matrix[..pysLen], g, dmi, splId, extLen, endSplit);
              At(r) && r.longest == if any && g.longest == 0 then extLen else g.longest
    {
      hide *;
      hide MatrixSearch.At, MatrixSearch.Growing;
      GrowingFacts();
      AtNew(l, rows, g, dmi, splId, extLen, endSplit, ids, x, any);
    }

    /** The new match joins its row with the milestone that it holds on to. */
    method TakeMatch(ghost l: Lat, x: Dmi, ghost dmi: int, splId: u16, ghost extLen: nat, ghost ids: seq<u16>,
      ghost g: Growth, ghost queries: seq<seq<Range>>)
      returns (any: bool)
      requires Growing() && l == View(nodeUsed + matrix[pysLen].ndNum) && Opened() && Handled(words, queries, l.dmis)
        && dmiUsed < DMI_POOL_SIZE
      requires CanExtend(words, lex, l, pysLen, g, dmi, splId, extLen) && -1 <= dmi < |l.dmis|
        && ids == IdsWith(l.dmis, dmi, splId)
      requires x == dmiPool[dmiUsed]
                 == NewDmi(l.dmis, dmi, splId, extLen, x.endSplit, !given.half(splId), x.handle, x.more)
      requires lpiItems == words.Items(ids) && x.fr == dmi && x.splId == splId && (x.more <==> words.UserMore(ids))
      requires x.handle == if words.SystemMore(ids) then |queries| + 1 else 0
      requires dict.queries == queries + if x.handle > 0 then [words.spl.Ranges(ids)] else []
      modifies nodePool, matrix, this`dmiUsed
      ensures Growing() && Linked() && dmiUsed == old(dmiUsed) + 1 && dmiPool[..dmiUsed] == l.dmis + [x]
      ensures matrix[..pysLen] == old(matrix[..pysLen]) && nodePool[..nodeUsed] == old(nodePool[..nodeUsed])
      ensures pysLen < |l.rows| && (matrix[pysLen].hasFull <==> l.rows[pysLen].hasFull || !given.half(splId))
        && matrix[pysLen].dmiPos == l.rows[pysLen].dmiPos
      ensures x.splLen <= pysLen && (any <==> lpiItems != [] && l.rows[pysLen - x.splLen].ndNum > 0)
    {
      hide *;
      hide MatrixSearch.Linked, MatrixSearch.Opened, MatrixSearch.Growing;
      OpenedFacts();
      GrowingFacts();
      CanExtendGives(words, lex, l, pysLen, g, dmi, splId, extLen);
      HandledPush(words, queries, l.dmis, x);
      any := AddMatch(l, x, dmi, splId, extLen);
      LinkedIs();
    }

    /** When no new match was made. */
    lemma SamePlace(l: Lat, g: Growth, queries: seq<seq<Range>>)
      requires dmiUsed <= dmiPool.Length && pysLen < matrix.Length && g.dmis == l.dmis == dmiPool[..dmiUsed] && g.room
      requires g.stonesPos == dict.stonesPos && g.marksPos == dict.marksPos && g.hasFull == matrix[pysLen].hasFull
        && g.first == matrix[pysLen].dmiPos && (g.stale <==> lpiItems != [])
      requires Opened() && Handled(words, queries, l.dmis) && dict.queries == queries + []
      ensures Linked() && At(g)
    {
      assert queries + [] == queries;
    }

    lemma AtNew(l: Lat, rows: seq<Row>, g: Growth, dmi: int, splId: u16, extLen: nat, endSplit: bool,
      ids: seq<u16>, x: Dmi, any: bool)
      requires CanExtend(words, lex, l, pysLen, g, dmi, splId, extLen) && -1 <= dmi < |l.dmis| < DMI_POOL_SIZE
        && ids == IdsWith(l.dmis, dmi, splId)
      requires dmiUsed <= dmiPool.Length && pysLen < matrix.Length && dmiPool[..dmiUsed] == l.dmis + [x]
      requires words.SystemMore(ids) || words.UserMore(ids)
      requires x == NewDmi(l.dmis, dmi, splId, extLen, endSplit, !words.given.half(splId),
                 if words.SystemMore(ids) then g.stonesPos else 0, words.UserMore(ids))
      requires dict.stonesPos == g.stonesPos + if words.SystemMore(ids) then 1 else 0
      requires dict.marksPos == g.marksPos + MarksOf(words, l.dmis, dmi, splId)
      requires pysLen < |l.rows| && (matrix[pysLen].hasFull <==> l.rows[pysLen].hasFull || !words.given.half(splId))
      requires matrix[pysLen].dmiPos == l.rows[pysLen].dmiPos
      requires x.splLen <= pysLen && rows == l.rows[..pysLen]
      requires lpiItems == words.Items(ids) && (any <==> lpiItems != [] && l.rows[pysLen - x.splLen].ndNum > 0)
      ensures -1 <= dmi < |g.dmis|
      ensures var r := Tried(words, rows, g, dmi, splId, extLen, endSplit);
              At(r) && r.longest == if any && g.longest == 0 then extLen else g.longest
    {
      hide *;
      hide MatrixSearch.At;
      CanExtendGives(words, lex, l, pysLen, g, dmi, splId, extLen);
      TriedIs(words, rows, g, dmi, splId, extLen, endSplit, x);
      assert rows[pysLen - x.splLen] == l.rows[..pysLen][pysLen - x.splLen];
      AtIs(Tried(words, rows, g, dmi, splId, extLen, endSplit));
    }

    /** The new match joins its row. */
    method CountMatch(ghost l: Lat, ghost k: Lat, x: Dmi, full: bool)
      requires Shape() && nodeUsed + matrix[pysLen].ndNum <= NODE_POOL_SIZE
        && l == View(nodeUsed + matrix[pysLen].ndNum)
      requires dmiUsed < DMI_POOL_SIZE && dmiPool[dmiUsed] == x
      requires k == Lat(l.nodes, l.dmis + [x],
                        l.rows[pysLen := l.rows[pysLen].(dmiNum := l.rows[pysLen].dmiNum + 1,
                          hasFull := l.rows[pysLen].hasFull || full)], l.pys)
      modifies matrix, this`dmiUsed
      ensures dmiUsed == old(dmiUsed) + 1 <= DMI_POOL_SIZE && Holds(k, nodePool[..], matrix[..])
      ensures dmiPool[..dmiUsed] == l.dmis + [x] && matrix[..pysLen] == old(matrix[..pysLen])
      ensures matrix[pysLen] == k.rows[pysLen] && l.pys == pys[..pysLen]
        && matrix[pysLen].dmiPos == old(matrix[pysLen].dmiPos)
    {
      ghost var n := nodeUsed + matrix[pysLen].ndNum;
      matrix[pysLen] := matrix[pysLen].(dmiNum := matrix[pysLen].dmiNum + 1, hasFull := matrix[pysLen].hasFull || full);
      dmiUsed := dmiUsed + 1;
      assert dmiPool[..dmiUsed] == l.dmis + [x];
      assert matrix[..][..pysLen + 1] == k.rows && nodePool[..][..n] == nodePool[..n];
    }

    /** The new match in its row, then its offers. */
    method AddMatch(ghost l: Lat, x: Dmi, ghost dmi: int, splId: u16, ghost extLen: nat) returns (any: bool)
      requires Growing() && lex.Valid() && dmiUsed < DMI_POOL_SIZE && l == View(nodeUsed + matrix[pysLen].ndNum)
        && 1 <= extLen <= pysLen
      requires -1 <= dmi < |l.dmis|
        && x == dmiPool[dmiUsed] == NewDmi(l.dmis, dmi, splId, extLen, x.endSplit, !given.half(splId), x.handle, x.more)
      requires lpiItems == lex.items(IdsWith(l.dmis, dmi, splId)) && splId > 0
        && lex.parse(l.pys[pysLen - extLen..]).0 == splId
      requires (dmi == -1 || DmiIn(l, pysLen - extLen, dmi)) && pysLen - extLen < |l.rows|
        && l.rows[pysLen - extLen].ndNum > 0
      modifies nodePool, matrix, this`dmiUsed
      ensures Growing() && dmiUsed == old(dmiUsed) + 1 && dmiPool[..dmiUsed] == l.dmis + [x]
      ensures matrix[..pysLen] == old(matrix[..pysLen]) && nodePool[..nodeUsed] == old(nodePool[..nodeUsed])
      ensures (matrix[pysLen].hasFull <==> l.rows[pysLen].hasFull || !given.half(splId))
        && matrix[pysLen].dmiPos == l.rows[pysLen].dmiPos
      ensures x.splLen <= pysLen && (any <==> lpiItems != [] && l.rows[pysLen - x.splLen].ndNum > 0)
    {
      hide *;
      GrowingFacts();
      RowOpenFacts(lex, l, pysLen, nodeUsed);
      var full := !given.half(splId);
      CountedIs(lex, l, pysLen, nodeUsed, dmi, splId, extLen, full, x);
      ghost var k := WithDmi(l, x, full);
      CountMatch(l, k, x, full);
      any := OfferMatch(l, k, x);
    }

    static lemma ConstsGive()
      ensures NODE_POOL_SIZE == 200 && DMI_POOL_SIZE == 800 && MAX_ROW_NUM == 40 && MAX_NODE_A_ROW == 5
        && MAX_LEMMA_SIZE == 8 && MAX_PINYIN_SIZE == 6
    {
    }

    /** All offers of the match that was counted last. */
    method OfferMatch(ghost l: Lat, ghost k: Lat, x: Dmi) returns (any: bool)
      requires nodePool.Length == NODE_POOL_SIZE && dmiPool.Length == DMI_POOL_SIZE && matrix.Length == MAX_ROW_NUM
        && pys.Length == MAX_ROW_NUM
      requires pysLen < MAX_ROW_NUM && nodeUsed + MAX_NODE_A_ROW <= NODE_POOL_SIZE && 0 < dmiUsed <= DMI_POOL_SIZE
        && lex.Valid()
      requires Counted(lex, l, k, x, pysLen, nodeUsed) && Holds(k, nodePool[..], matrix[..]) && |l.dmis| == dmiUsed - 1
      requires k.dmis == dmiPool[..dmiUsed] && k.pys == pys[..pysLen] && lpiItems == ItemsOf(lex, k, dmiUsed - 1)
      requires x.splLen <= pysLen < |l.rows|
      modifies nodePool, matrix
      ensures Growing() && matrix[pysLen].hasFull == old(matrix[pysLen].hasFull)
        && matrix[pysLen].dmiPos == old(matrix[pysLen].dmiPos)
      ensures matrix[..pysLen] == old(matrix[..pysLen]) && nodePool[..nodeUsed] == old(nodePool[..nodeUsed])
      ensures any <==> lpiItems != [] && l.rows[pysLen - x.splLen].ndNum > 0
    {
      hide *;
      ConstsGive();
      CountedGives(lex, l, k, x, pysLen, nodeUsed);
      HoldsFacts(k, nodePool[..], matrix[..], pysLen);
      RowOpenFacts(lex, l, pysLen, nodeUsed);
      SameButFacts(l, k, pysLen);
      FrontKept(l, k, nodePool[..], matrix[..], pysLen);
      assert nodePool[..nodeUsed] == l.nodes[..nodeUsed] && matrix[..pysLen] == l.rows[..pysLen];
      if lpiItems == [] {
        RowPartialDone(lex, l, k, pysLen, nodeUsed, dmiUsed - 1);
        any := false;
        GrowingIs(k);
        return;
      }
      ghost var j;
      any, j := OfferAll(lex, nodePool, matrix, pysLen, dmiUsed - 1, pysLen - x.splLen, lpiItems, k);
      SameButTrans(l, k, j, pysLen);
      SameButFacts(l, j, pysLen);
      RowOpenIs(lex, l, j, pysLen, nodeUsed);
      GrowingIs(j);
      FrontKept(l, j, nodePool[..], matrix[..], pysLen);
      assert nodePool[..nodeUsed] == l.nodes[..nodeUsed] && matrix[..pysLen] == l.rows[..pysLen];
      GrownRow(j, nodePool[..], matrix[..], pysLen);
    }

    /** The loop over the matches of the old row, with one more turn for a new lemma. */
    method ExtendRow(oldrow: nat, splId: u16, extLen: nat, endSplit: bool, longest: nat, ghost g: Growth)
      returns (longest': nat)
      requires Growing() && Linked() && At(g) && g.longest == longest && extLen >= 1 && oldrow + extLen == pysLen
      requires splId > 0 && given.parse(pys[oldrow..pysLen]).0 == splId && matrix[oldrow].ndNum > 0
      requires matrix[oldrow].dmiPos + matrix[oldrow].dmiNum <= |g.dmis|
      requires GrowRow(words, matrix[..pysLen], g, oldrow, matrix[oldrow].dmiPos, splId, extLen, endSplit).room
      modifies nodePool, dmiPool, matrix, this`dmiUsed, this`lpiItems, dict`marksPos, dict`stonesPos, dict`queries,
        dict.marks, dict.stones
      ensures Growing() && Linked() && StacksOn(old(dict.Used()), dict.Used())
      ensures matrix[..pysLen] == old(matrix[..pysLen]) && nodePool[..nodeUsed] == old(nodePool[..nodeUsed])
      ensures var r := GrowRow(words, matrix[..pysLen], g, oldrow, matrix[oldrow].dmiPos, splId, extLen, endSplit);
              At(r) && r.longest == longest' && r.matched == g.matched
      ensures old(dmiUsed) <= dmiUsed && dmiPool[..old(dmiUsed)] == old(dmiPool[..dmiUsed])
    {
      hide *;
      hide MatrixSearch.Linked, MatrixSearch.Opened, MatrixSearch.At, MatrixSearch.Growing;
      GrowingFacts();
      longest' := longest;
      ghost var used, rows, front, stack, nodes := dmiUsed, matrix[..pysLen], dmiPool[..dmiUsed], dict.Used(),
        nodePool[..nodeUsed];
      var pos, end := matrix[oldrow].dmiPos, matrix[oldrow].dmiPos + matrix[oldrow].dmiNum;
      ghost var from, h, r := pos, g, GrowRow(words, rows, g, oldrow, pos, splId, extLen, endSplit);
      StacksSame(stack);
      assert rows[oldrow] == matrix[oldrow];
      while pos <= end
        invariant from <= pos <= end + 1 && Growing() && Linked() && At(h) && h.longest == longest'
          && h.matched == g.matched
        invariant used <= dmiUsed <= dmiPool.Length && dmiPool[..used] == front && StacksOn(stack, dict.Used())
        invariant matrix[..pysLen] == rows && nodePool[..nodeUsed] == nodes
        invariant end <= |h.dmis| && GrowRow(words, rows, h, oldrow, pos, splId, extLen, endSplit) == r
        decreases end + 1 - pos
      {
        ghost var mid, before := dmiUsed, dict.Used();
        longest', h := ExtendTurn(oldrow, pos, splId, extLen, endSplit, longest', h);
        FrontOf(dmiPool[..], used, mid);
        StacksTrans(stack, before, dict.Used());
        GrowingFacts();
        pos := pos + 1;
      }
      GrowRowEnds(words, rows, h, oldrow, pos, splId, extLen, endSplit);
      assert rows[oldrow] == matrix[..pysLen][oldrow] == matrix[oldrow];
    }

    /** One turn of that loop: a match is passed over, or extended. */
    method ExtendTurn(oldrow: nat, pos: nat, splId: u16, extLen: nat, endSplit: bool, longest: nat, ghost g: Growth)
      returns (longest': nat, ghost h: Growth)
      requires Growing() && Linked() && At(g) && g.longest == longest && extLen >= 1 && oldrow + extLen == pysLen
      requires splId > 0 && given.parse(pys[oldrow..pysLen]).0 == splId && matrix[oldrow].ndNum > 0
      requires matrix[oldrow].dmiPos <= pos <= matrix[oldrow].dmiPos + matrix[oldrow].dmiNum <= |g.dmis|
      requires GrowRow(words, matrix[..pysLen], g, oldrow, pos, splId, extLen, endSplit).room
      modifies nodePool, dmiPool, matrix, this`dmiUsed, this`lpiItems, dict`marksPos, dict`stonesPos, dict`queries,
        dict.marks, dict.stones
      ensures Growing() && Linked() && At(h) && h.longest == longest' && h.matched == g.matched
        && StacksOn(old(dict.Used()), dict.Used())
      ensures matrix[..pysLen] == old(matrix[..pysLen]) && nodePool[..nodeUsed] == old(nodePool[..nodeUsed])
      ensures old(dmiUsed) <= dmiUsed && dmiPool[..old(dmiUsed)] == old(dmiPool[..dmiUsed])
      ensures |g.dmis| <= |h.dmis| && matrix[oldrow].dmiPos + matrix[oldrow].dmiNum <= |g.dmis|
      ensures GrowRow(words, matrix[..pysLen], h, oldrow, pos + 1, splId, extLen, endSplit) ==
              GrowRow(words, matrix[..pysLen], g, oldrow, pos, splId, extLen, endSplit)
    {
      hide *;
      hide MatrixSearch.Linked, MatrixSearch.Opened, MatrixSearch.At, MatrixSearch.Growing;
      GrowingFacts();
      LinkedFacts();
      OpenedFacts();
      AtFacts(g);
      ghost var rows := matrix[..pysLen];
      assert rows[oldrow] == matrix[oldrow];
      longest', h := longest, g;
      StacksSame(dict.Used());
      var dmi := if pos == matrix[oldrow].dmiPos + matrix[oldrow].dmiNum then -1 else pos;
      GrowRowStep(words, rows, g, oldrow, pos, splId, extLen, endSplit);
      assert dmi >= 0 ==> dmiPool[dmi] == g.dmis[dmi];
      var skip := false;
      if longest > extLen {
        if dmi == -1 {
          skip := !matrix[oldrow].hasFull;
        } else {
          skip := given.half(dmiPool[dmi].splId);
        }
      }
      if dmi != -1 && dmiPool[dmi].level >= MAX_LEMMA_SIZE {
        skip := true;
      }
      SkippedIs(words, rows, g, oldrow, dmi, extLen);
      if !skip {
        TriedLonger(words, rows, g, dmi, splId, extLen, endSplit);
        var any := ExtendFrom(oldrow, dmi, splId, extLen, endSplit, g);
        h := Tried(words, rows, g, dmi, splId, extLen, endSplit);
        if any && longest == 0 {
          longest' := extLen;
        }
      }
    }

    /** One turn of the loop of `add_char_qwerty`: the last extLen characters are tried as one more spelling. */
    method TryLength(extLen: nat, longest: nat, splMatched: bool, ghost g: Growth)
      returns (longest': nat, splMatched': bool, stop: bool, ghost h: Growth)
      requires Growing() && Linked() && At(g) && g.longest == longest && g.matched == splMatched && extLen > 0
      requires Within(matrix[..pysLen], |g.dmis|) && Grow(words, xiAn, matrix[..pysLen], pys[..pysLen], g, extLen).room
      modifies nodePool, dmiPool, matrix, this`dmiUsed, this`lpiItems, dict`marksPos, dict`stonesPos, dict`queries,
        dict.marks, dict.stones
      ensures Growing() && Linked() && At(h) && h.longest == longest' && h.matched == splMatched'
        && StacksOn(old(dict.Used()), dict.Used())
      ensures matrix[..pysLen] == old(matrix[..pysLen]) && nodePool[..nodeUsed] == old(nodePool[..nodeUsed])
      ensures old(dmiUsed) <= dmiUsed && dmiPool[..old(dmiUsed)] == old(dmiPool[..dmiUsed])
        && Within(matrix[..pysLen], |h.dmis|)
      ensures Grow(words, xiAn, matrix[..pysLen], pys[..pysLen], g, extLen) ==
              if stop then h else Grow(words, xiAn, matrix[..pysLen], pys[..pysLen], h, extLen - 1)
    {
      hide *;
      hide MatrixSearch.Linked, MatrixSearch.Opened, MatrixSearch.At, MatrixSearch.Growing;
      GrowingFacts();
      LinkedFacts();
      OpenedFacts();
      AtFacts(g);
      ghost var rows, text := matrix[..pysLen], pys[..pysLen];
      StacksSame(dict.Used());
      longest', splMatched', stop, h := longest, splMatched, false, g;
      if extLen > pysLen {
        GrowPast(words, xiAn, rows, text, g, extLen);
        return;
      }
      var oldrow := pysLen - extLen;
      assert rows[oldrow] == matrix[oldrow] && text[oldrow..] == pys[oldrow..pysLen]
             && text[|text| - 1] == pys[pysLen - 1];
      if extLen > 1 && longest != 0 && !matrix[oldrow].hasFull {
        GrowPast(words, xiAn, rows, text, g, extLen);
        stop := !xiAn;
      } else if matrix[oldrow].ndNum != 0 {
        GrowReady(words, xiAn, rows, text, g, extLen);
        longest', splMatched', h := TrySpelling(oldrow, extLen, longest, splMatched, g);
        assert matrix[..pysLen] == rows && matrix[oldrow] == matrix[..pysLen][oldrow];
        assert pys[oldrow..pysLen] == text[oldrow..] && pys[pysLen - 1] == text[|text| - 1];
        GrowTurn(words, xiAn, rows, text, g, extLen, h);
      } else {
        GrowPast(words, xiAn, rows, text, g, extLen);
      }
    }

    /** Steps 2 and 3 of that turn: the characters are parsed, and the matches of the old row extended. */
    method TrySpelling(oldrow: nat, extLen: nat, longest: nat, splMatched: bool, ghost g: Growth)
      returns (longest': nat, splMatched': bool, ghost h: Growth)
      requires Growing() && Linked() && At(g) && g.longest == longest && g.matched == splMatched
      requires extLen >= 1 && oldrow + extLen == pysLen && matrix[oldrow].ndNum > 0
        && matrix[oldrow].dmiPos + matrix[oldrow].dmiNum <= |g.dmis|
      requires var spl := given.parse(pys[oldrow..pysLen]);
               spl.0 != 0 ==> GrowRow(words, matrix[..pysLen], if spl.1 then g.(matched := true) else g, oldrow,
                              matrix[oldrow].dmiPos, spl.0, extLen,
                                      !given.letter(pys[pysLen - 1])).room
      modifies nodePool, dmiPool, matrix, this`dmiUsed, this`lpiItems, dict`marksPos, dict`stonesPos, dict`queries,
        dict.marks, dict.stones
      ensures Growing() && Linked() && At(h) && h.longest == longest' && h.matched == splMatched'
        && StacksOn(old(dict.Used()), dict.Used())
      ensures matrix[..pysLen] == old(matrix[..pysLen]) && nodePool[..nodeUsed] == old(nodePool[..nodeUsed])
      ensures old(dmiUsed) <= dmiUsed && dmiPool[..old(dmiUsed)] == old(dmiPool[..dmiUsed])
      ensures matrix[oldrow].dmiPos + matrix[oldrow].dmiNum <= |g.dmis| && |g.dmis| <= |h.dmis|
      ensures var spl := given.parse(pys[oldrow..pysLen]);
              var k := if spl.1 then g.(matched := true) else g;
              h == if spl.0 == 0 then k
                   else GrowRow(words, matrix[..pysLen], k, oldrow, matrix[oldrow].dmiPos, spl.0, extLen,
                     !given.letter(pys[pysLen - 1]))
    {
      hide *;
      hide MatrixSearch.Linked, MatrixSearch.Opened, MatrixSearch.At, MatrixSearch.Growing;
      GrowingFacts();
      AtFacts(g);
      StacksSame(dict.Used());
      longest', splMatched', h := longest, splMatched, g;
      assert matrix[..pysLen][oldrow] == matrix[oldrow];
      var spl := given.parse(pys[oldrow..pysLen]);
      if spl.1 {
        splMatched' := true;
        h := h.(matched := true);
        AtIs(h);
      }
      if spl.0 != 0 {
        var endSplit := !given.letter(pys[pysLen - 1]);
        ghost var k, rows := h, matrix[..pysLen];
        h := GrowRow(words, rows, k, oldrow, rows[oldrow].dmiPos, spl.0, extLen, endSplit);
        longest' := ExtendRow(oldrow, spl.0, extLen, endSplit, longest, k);
        assert matrix[..pysLen][oldrow] == matrix[oldrow];
      }
    }

    /** `add_char_qwerty`: the last one to seven characters are tried as one more spelling. */
    method AddCharQwerty(ghost g: Growth) returns (ok: bool)
      requires Growing() && Linked() && At(g) && g.longest == 0 && !g.matched
      requires Within(matrix[..pysLen], |g.dmis|)
        && Grow(words, xiAn, matrix[..pysLen], pys[..pysLen], g, MAX_PINYIN_SIZE + 1).room
      modifies nodePool, dmiPool, matrix, this`dmiUsed, this`lpiItems, dict`marksPos, dict`stonesPos, dict`queries,
        dict.marks, dict.stones, this`nodeUsed
      ensures Valid() && Linked() && StacksOn(old(dict.Used()), dict.Used())
      ensures matrix[..pysLen] == old(matrix[..pysLen]) && nodePool[..old(nodeUsed)] == old(nodePool[..nodeUsed])
      ensures var r := Grow(words, xiAn, matrix[..pysLen], pys[..pysLen], g, MAX_PINYIN_SIZE + 1);
              At(r) && (ok <==> matrix[pysLen].ndNum != 0 || r.matched)
      ensures old(dmiUsed) <= dmiUsed && dmiPool[..old(dmiUsed)] == old(dmiPool[..dmiUsed])
      ensures nodeUsed == old(nodeUsed) + matrix[pysLen].ndNum && matrix[pysLen].ndPos == old(nodeUsed)
      ensures dmiUsed == matrix[pysLen].dmiPos + matrix[pysLen].dmiNum
    {
      hide *;
      hide MatrixSearch.Linked, MatrixSearch.Opened, MatrixSearch.At, MatrixSearch.Growing, MatrixSearch.Valid;
      GrowingFacts();
      ghost var r := Grow(words, xiAn, matrix[..pysLen], pys[..pysLen], g, MAX_PINYIN_SIZE + 1);
      var splMatched := TryLengths(g);
      ok := CloseRow(splMatched);
      AtFacts(r);
      AtIs(r);
    }

    /** The loop over the lengths, the longest first. */
    method TryLengths(ghost g: Growth) returns (splMatched: bool)
      requires Growing() && Linked() && At(g) && g.longest == 0 && !g.matched
      requires Within(matrix[..pysLen], |g.dmis|)
        && Grow(words, xiAn, matrix[..pysLen], pys[..pysLen], g, MAX_PINYIN_SIZE + 1).room
      modifies nodePool, dmiPool, matrix, this`dmiUsed, this`lpiItems, dict`marksPos, dict`stonesPos, dict`queries,
        dict.marks, dict.stones
      ensures Growing() && Linked() && StacksOn(old(dict.Used()), dict.Used())
      ensures matrix[..pysLen] == old(matrix[..pysLen]) && nodePool[..nodeUsed] == old(nodePool[..nodeUsed])
      ensures var r := Grow(words, xiAn, matrix[..pysLen], pys[..pysLen], g, MAX_PINYIN_SIZE + 1);
              At(r) && r.matched == splMatched
      ensures old(dmiUsed) <= dmiUsed && dmiPool[..old(dmiUsed)] == old(dmiPool[..dmiUsed])
    {
      hide *;
      hide MatrixSearch.Linked, MatrixSearch.Opened, MatrixSearch.At, MatrixSearch.Growing;
      GrowingFacts();
      splMatched := false;
      var longest: nat, extLen: nat := 0, MAX_PINYIN_SIZE + 1;
      ghost var used, rows, front, stack, nodes, text := dmiUsed, matrix[..pysLen], dmiPool[..dmiUsed], dict.Used(),
        nodePool[..nodeUsed], pys[..pysLen];
      ghost var h, r := g, Grow(words, xiAn, rows, text, g, extLen);
      StacksSame(stack);
      while extLen > 0
        invariant used <= dmiUsed <= dmiPool.Length && Growing() && Linked() && At(h) && h.longest == longest
          && h.matched == splMatched
        invariant matrix[..pysLen] == rows && nodePool[..nodeUsed] == nodes && dmiPool[..used] == front
          && StacksOn(stack, dict.Used())
        invariant Within(rows, |h.dmis|) && Grow(words, xiAn, rows, text, h, extLen) == r
      {
        ghost var mid, before := dmiUsed, dict.Used();
        var stop;
        longest, splMatched, stop, h := TryLength(extLen, longest, splMatched, h);
        FrontOf(dmiPool[..], used, mid);
        StacksTrans(stack, before, dict.Used());
        GrowingFacts();
        if stop {
          break;
        }
        extLen := extLen - 1;
      }
      GrowEnds(words, xiAn, rows, text, h, extLen);
    }

    /** The row is finished. */
    method CloseRow(splMatched: bool) returns (ok: bool)
      requires Growing()
      modifies this`nodeUsed
      ensures Valid() && nodeUsed == old(nodeUsed) + matrix[pysLen].ndNum && matrix[pysLen].ndPos == old(nodeUsed)
      ensures dmiUsed == matrix[pysLen].dmiPos + matrix[pysLen].dmiNum
        && (ok <==> matrix[pysLen].ndNum != 0 || splMatched)
    {
      hide *;
      GrowingFacts();
      ghost var l := View(nodeUsed + matrix[pysLen].ndNum);
      RowOpenFacts(lex, l, pysLen, nodeUsed);
      assert l.rows[pysLen] == matrix[pysLen];
      nodeUsed := nodeUsed + matrix[pysLen].ndNum;
      ok := matrix[pysLen].ndNum != 0 || splMatched;
      ValidIs(l);
    }

    /** Between calls the lattice is in order. */
    ghost predicate Valid()
      reads this, nodePool, dmiPool, matrix, pys
    {
      Shape() && lex.Valid() && LatOk(lex, View(nodeUsed))
    }

    lemma ValidIs(l: Lat)
      requires nodePool.Length == NODE_POOL_SIZE && dmiPool.Length == DMI_POOL_SIZE && matrix.Length == MAX_ROW_NUM
        && pys.Length == MAX_ROW_NUM
      requires pysLen < MAX_ROW_NUM && nodeUsed <= NODE_POOL_SIZE && dmiUsed <= DMI_POOL_SIZE && lex.Valid()
        && LatOk(lex, l)
      requires l.nodes == nodePool[..nodeUsed] && l.dmis == dmiPool[..dmiUsed] && l.rows == matrix[..pysLen + 1]
        && l.pys == pys[..pysLen]
      ensures Valid() && View(nodeUsed) == l
    {
    }

    lemma ValidFacts()
      requires Valid()
      ensures nodePool.Length == NODE_POOL_SIZE && dmiPool.Length == DMI_POOL_SIZE && matrix.Length == MAX_ROW_NUM
        && pys.Length == MAX_ROW_NUM
      ensures pysLen < MAX_ROW_NUM && nodeUsed <= NODE_POOL_SIZE && dmiUsed <= DMI_POOL_SIZE && lex.Valid() && Shape()
      ensures NODE_POOL_SIZE == 200 && DMI_POOL_SIZE == 800 && MAX_ROW_NUM == 40 && MAX_NODE_A_ROW == 5
      ensures nodeUsed <= 1 + 5 * pysLen && LatOk(lex, View(nodeUsed)) && Stacked(View(nodeUsed))
      ensures View(nodeUsed) == Lat(nodePool[..nodeUsed], dmiPool[..dmiUsed], matrix[..pysLen + 1], pys[..pysLen])
    {
      PoolBound(lex, View(nodeUsed), pysLen);
    }

    /** `prepare_add_char`: the new row starts at the end of both pools. */
    method PrepareAddChar(ch: u8) returns (ok: bool)
      requires Valid()
      modifies pys, matrix, this`pysLen
      ensures ok <==> old(Accepts(ch))
      ensures !ok ==>
                Valid() && View(nodeUsed) == old(View(nodeUsed)) && pysLen == old(pysLen)
                && matrix[..] == old(matrix[..]) && pys[..] == old(pys[..])
      ensures ok ==>
                Growing() && pysLen == old(pysLen) + 1 && matrix[..pysLen] == old(matrix[..pysLen + 1])
                && pys[..pysLen] == old(pys[..pysLen]) + [ch]
      ensures ok ==> !matrix[pysLen].hasFull && matrix[pysLen].dmiPos == dmiUsed && matrix[pysLen].ndPos == nodeUsed
    {
      hide *;
      ValidFacts();
      AcceptsIs(ch);
      if pysLen >= MAX_ROW_NUM - 1 || (!given.letter(ch) && ch != SPLIT) {
        return false;
      }
      if dmiUsed >= DMI_POOL_SIZE {
        return false;
      }
      ghost var l := View(nodeUsed);
      pys[pysLen] := ch;
      assert pys[..pysLen + 1] == l.pys + [ch];
      var row := pysLen + 1;
      ghost var rows, fixed := matrix[..row], matrix[row].fixed;
      matrix[row] := Row(nodeUsed, 0, dmiUsed, 0, false, matrix[row].fixed);
      pysLen := row;
      assert matrix[..row + 1] == rows + [Row(nodeUsed, 0, dmiUsed, 0, false, fixed)];
      PreparedReady(lex, l, ch, fixed, row, nodeUsed);
      ghost var k := Prepared(l, ch, fixed);
      assert nodePool[..][..nodeUsed] == nodePool[..nodeUsed] && matrix[..][..row + 1] == matrix[..row + 1];
      HoldsIs(k, nodePool[..], matrix[..]);
      GrowingIs(k);
      ok := true;
    }

    /** `prepare_add_char` accepts the character. */
    predicate Accepts(ch: u8)
      reads this`pysLen, this`dmiUsed
    {
      pysLen < MAX_ROW_NUM - 1 && (given.letter(ch) || ch == SPLIT) && dmiUsed < DMI_POOL_SIZE
    }

    lemma AcceptsIs(ch: u8)
      ensures Accepts(ch) <==> pysLen < MAX_ROW_NUM - 1 && (given.letter(ch) || ch == SPLIT) && dmiUsed < DMI_POOL_SIZE
      ensures Accepts(ch) <==> pysLen < 39 && (given.letter(ch) || ch == 39) && dmiUsed < 800
    {
    }

    /** What one more character adds to the match pool and to the milestones. */
    ghost function Next(ch: u8): (r: Growth)
      requires Shape()
      reads this, dmiPool, matrix, pys, dict`stonesPos, dict`marksPos
    {
      var g := Growth(dmiPool[..dmiUsed], dmiUsed, dict.stonesPos, dict.marksPos, 0, false, false,
                      lpiItems != [], true);
      if Within(matrix[..pysLen + 1], dmiUsed) then
        Grow(words, xiAn, matrix[..pysLen + 1], pys[..pysLen] + [ch], g, MAX_PINYIN_SIZE + 1)
      else g
    }

    /** `add_char`: the new row has exactly the matches that `Grow` says, and its nodes are in order; what the earlier
        rows use of the node pool, of the match pool and of the milestones is never written again. */
    method AddChar(ch: u8) returns (ok: bool)
      requires Valid() && Linked() && (Accepts(ch) ==> Next(ch).room)
      modifies nodePool, dmiPool, matrix, this`dmiUsed, this`lpiItems, dict`marksPos, dict`stonesPos, dict`queries,
        dict.marks, dict.stones, this`nodeUsed, this`pysLen, pys
      ensures Valid() && Linked() && StacksOn(old(dict.Used()), dict.Used()) && nodeUsed >= old(nodeUsed)
        && dmiUsed >= old(dmiUsed)
      ensures pysLen == old(pysLen) + if old(Accepts(ch)) then 1 else 0
      ensures old(Accepts(ch)) <==> old(pysLen) < 39 && (given.letter(ch) || ch == 39) && old(dmiUsed) < 800
      ensures !old(Accepts(ch)) ==> !ok && View(nodeUsed) == old(View(nodeUsed))
      ensures old(Accepts(ch)) ==>
                && At(old(Next(ch))) && pys[..pysLen] == old(pys[..pysLen]) + [ch]
                   && (ok <==> matrix[pysLen].ndNum != 0 || old(Next(ch)).matched)
                && matrix[pysLen].dmiPos == old(dmiUsed) && matrix[pysLen].dmiNum == dmiUsed - old(dmiUsed)
                && matrix[pysLen].ndPos == old(nodeUsed) && matrix[pysLen].ndNum == nodeUsed - old(nodeUsed)
      ensures matrix[..old(pysLen) + 1] == old(matrix[..pysLen + 1]) && pys[..old(pysLen)] == old(pys[..pysLen])
      ensures nodePool[..old(nodeUsed)] == old(nodePool[..nodeUsed])
        && dmiPool[..old(dmiUsed)] == old(dmiPool[..dmiUsed])
      ensures old(Accepts(ch)) ==>
                && RowComplete(words, xiAn, matrix[..pysLen], pys[..pysLen], old(Next(ch)))
                && (dmiUsed < DMI_POOL_SIZE && (exists k :: Spelt(words, matrix[..pysLen], pys[..pysLen], k)) ==>
                      matrix[pysLen].ndNum > 0)
    {
      hide *;
      hide MatrixSearch.Linked, MatrixSearch.Opened, MatrixSearch.At, MatrixSearch.Growing, MatrixSearch.Valid;
      ValidFacts();
      LinkedFacts();
      RowsWithin();
      StacksSame(dict.Used());
      ghost var p, rows, nodes := pysLen, matrix[..pysLen + 1], nodeUsed;
      ghost var g := Growth(dmiPool[..dmiUsed], dmiUsed, dict.stonesPos, dict.marksPos, 0, false, false,
                            lpiItems != [], true);
      ghost var text := pys[..pysLen] + [ch];
      AcceptsIs(ch);
      NextIs(ch, g);
      if Next(ch).room {
        GrowIsComplete(words, xiAn, rows, text, g);
      }
      ok := PrepareAddChar(ch);
      if !ok {
        return;
      }
      GrowingFacts();
      LinkedIs();
      AtIs(g);
      ok := AddCharQwerty(g);
      AtFacts(old(Next(ch)));
      assert matrix[..pysLen] == rows && pys[..pysLen] == text;
      NewRowReached(old(Next(ch)));
    }

    /** A new row with all its matches has nodes if the last characters are a spelling that has lemmas. */
    lemma NewRowReached(r: Growth)
      requires Valid() && Linked() && At(r) && RowComplete(words, xiAn, matrix[..pysLen], pys[..pysLen], r)
      requires matrix[pysLen].dmiPos + matrix[pysLen].dmiNum == dmiUsed
      ensures dmiUsed < DMI_POOL_SIZE && (exists k :: Spelt(words, matrix[..pysLen], pys[..pysLen], k)) ==>
                matrix[pysLen].ndNum > 0
    {
      hide *;
      hide MatrixSearch.Linked, MatrixSearch.Opened, MatrixSearch.At, MatrixSearch.Valid;
      ValidFacts();
      LinkedFacts();
      OpenedFacts();
      AtFacts(r);
      if dmiUsed < DMI_POOL_SIZE && exists k :: Spelt(words, matrix[..pysLen], pys[..pysLen], k) {
        var k :| Spelt(words, matrix[..pysLen], pys[..pysLen], k);
        var d := SpeltLeads(words, xiAn, matrix[..pysLen], pys[..pysLen], r, k);
        var l := View(nodeUsed);
        assert l.rows[..pysLen] == matrix[..pysLen] && l.rows[pysLen] == matrix[pysLen];
        InNewRow(l, pysLen, d);
        LeadsReaches(words, lex, l, pysLen, d);
      }
    }

    /** The turn of `search` and of `delsearch`: a character that leads nowhere is not decoded; the matches that were
        tried for it stay in the pool, and their milestones on the stack. */
    method TryAdd(ch: u8) returns (ok: bool)
      requires Valid() && Linked() && (Accepts(ch) ==> Next(ch).room)
      modifies nodePool, dmiPool, matrix, this`dmiUsed, this`lpiItems, dict`marksPos, dict`stonesPos, dict`queries,
        dict.marks, dict.stones, this`nodeUsed, this`pysLen, pys
      ensures Valid() && Linked() && StacksOn(old(dict.Used()), dict.Used())
        && pysLen == old(pysLen) + if ok then 1 else 0
      ensures pys[..pysLen] == old(pys[..pysLen]) + if ok then [ch] else []
      ensures ok ==> old(Accepts(ch)) && (matrix[pysLen].ndNum != 0 || old(Next(ch)).matched)
      ensures old(Accepts(ch)) ==> dmiPool[..dmiUsed] == old(Next(ch)).dmis && dict.stonesPos == old(Next(ch)).stonesPos
      ensures matrix[..old(pysLen) + 1] == old(matrix[..pysLen + 1])
      ensures nodePool[..old(nodeUsed)] == old(nodePool[..nodeUsed])
        && dmiPool[..old(dmiUsed)] == old(dmiPool[..dmiUsed])
    {
      hide *;
      hide MatrixSearch.Linked, MatrixSearch.Opened, MatrixSearch.At, MatrixSearch.Growing, MatrixSearch.Valid;
      ValidFacts();
      var p := pysLen;
      ok := AddChar(ch);
      ValidFacts();
      if pysLen != p {
        AtFacts(old(Next(ch)));
      }
      if !ok && pysLen != p {
        ghost var l := View(nodeUsed);
        assert l.rows[pysLen] == matrix[pysLen];
        DroppedReady(lex, l, p);
        pysLen := p;
        assert l.rows[..p + 1] == matrix[..p + 1] && l.pys[..p] == pys[..p];
        LinkedFacts();
        OpenedFacts();
        ValidIs(Dropped(l));
      }
    }

    /** `reset_search0`. */
    method ResetAll()
      requires Shape() && Opened()
      modifies nodePool, matrix, this`pysLen, this`dmiUsed, this`nodeUsed, dict`marksPos, dict`stonesPos, dict`queries
      ensures Valid() && Linked() && View(nodeUsed) == EMPTY && pysLen == 0 && nodeUsed == 1 && dmiUsed == 0
        && dict.queries == []
      ensures StacksOn(dict.Used(), old(dict.Used()))
    {
      hide *;
      hide DictTrie.Loaded, DictTrie.Standing;
      OpenedFacts();
      ConstsGive();
      SizesGive();
      EmptyIs();
      pysLen, nodeUsed, dmiUsed := 0, 1, 0;
      nodePool[0] := START;
      matrix[0] := START_ROW;
      dict.ResetMilestones(0, 0);
      EmptyOk(lex);
      assert nodePool[..1] == [START] && matrix[..1] == [START_ROW] && dmiPool[..0] == [] && pys[..0] == [];
      NoneHandled(words, dict.queries);
      OpenedIs();
      LinkedIs();
      ValidIs(EMPTY);
    }

    /** `reset_search` to an earlier position, when nothing is fixed. All three pools are cut back to what rows 0 to p
        use, or to what rows 0 to p - 1 use where row p is to be cleared; every remaining match keeps its milestone. */
    method ResetSearch(p: nat, clearDmi: bool, clearMtrx: bool) returns (ok: bool)
      requires Valid() && Linked()
      modifies nodePool, matrix, this`pysLen, this`dmiUsed, this`nodeUsed, dict`marksPos, dict`stonesPos, dict`queries
      ensures (ok <==> p <= old(pysLen)) && Linked() && StacksOn(dict.Used(), old(dict.Used()))
      ensures !ok ==> Valid() && View(nodeUsed) == old(View(nodeUsed)) && dict.Used() == old(dict.Used())
      ensures ok && p == 0 ==> Valid() && View(nodeUsed) == EMPTY && dict.queries == []
      ensures ok && p > 0 ==>
                CanCut(old(View(nodeUsed)), p) && Shape()
                && View(nodeUsed) == CutAndCleared(old(View(nodeUsed)), p, clearDmi, clearMtrx)
      ensures ok && p > 0 && !clearDmi && !clearMtrx ==> Valid() && View(nodeUsed) == Cut(old(View(nodeUsed)), p)
      ensures ok && p > 0 ==>
                var h := HandleToClear(old(View(nodeUsed)), p, clearDmi);
                h <= |old(dict.queries)|
                && dict.queries == if h > 0 then old(dict.queries)[..h - 1] else old(dict.queries)
    {
      hide *;
      hide MatrixSearch.Linked, MatrixSearch.Valid, DictTrie.Loaded, DictTrie.Standing;
      ValidFacts();
      LinkedFacts();
      StacksSame(dict.Used());
      if p > pysLen || p >= MAX_ROW_NUM {
        return false;
      }
      ok := true;
      if p == 0 {
        ResetAll();
        return;
      }
      CutBack(p, clearDmi, clearMtrx, View(nodeUsed));
    }

    /** The part of `reset_search` for a position behind the first. */
    method CutBack(p: nat, clearDmi: bool, clearMtrx: bool, ghost l: Lat)
      requires Valid() && Linked() && 0 < p <= pysLen && l == View(nodeUsed)
      modifies matrix, this`pysLen, this`dmiUsed, this`nodeUsed, dict`marksPos, dict`stonesPos, dict`queries
      ensures Linked() && StacksOn(dict.Used(), old(dict.Used())) && CanCut(l, p)
      ensures Shape() && View(nodeUsed) == CutAndCleared(l, p, clearDmi, clearMtrx)
      ensures !clearDmi && !clearMtrx ==> Valid() && View(nodeUsed) == Cut(l, p)
      ensures var h := HandleToClear(l, p, clearDmi);
              h <= |old(dict.queries)|
              && dict.queries == if h > 0 then old(dict.queries)[..h - 1] else old(dict.queries)
    {
      hide *;
      hide MatrixSearch.Linked, MatrixSearch.Opened, MatrixSearch.Valid, DictTrie.Loaded, DictTrie.Standing;
      ValidFacts();
      LinkedFacts();
      OpenedFacts();
      ghost var queries := dict.queries;
      ClearReady(lex, words, queries, l, p, clearDmi);
      ResetStones(p, clearDmi, l);
      CutRow(p, clearDmi, clearMtrx, l);
      LinkedIs();
    }

    /** The rows and the two pools of the lattice are cut back. */
    method CutRow(p: nat, clearDmi: bool, clearMtrx: bool, ghost l: Lat)
      requires Valid() && 0 < p <= pysLen && l == View(nodeUsed) && CanCut(l, p)
      modifies matrix, this`pysLen, this`dmiUsed, this`nodeUsed
      ensures Shape() && View(nodeUsed) == CutAndCleared(l, p, clearDmi, clearMtrx)
      ensures !clearDmi && !clearMtrx ==> Valid() && View(nodeUsed) == Cut(l, p)
      ensures dmiUsed == DmiEnd(l, if clearDmi then p - 1 else p) <= dmiPool.Length && dmiUsed <= |l.dmis|
        && dmiPool[..dmiUsed] == l.dmis[..dmiUsed]
    {
      hide *;
      hide MatrixSearch.Valid;
      ValidFacts();
      CutReady(lex, l, p);
      CutSame(l, p);
      ClearIs(l, p, clearDmi);
      assert l.rows[p] == matrix[p] && l.rows[p - 1] == matrix[p - 1];
      CutPools(p, clearDmi, clearMtrx);
      pysLen := p;
      ClearedView(l, p, clearDmi, clearMtrx);
      if !clearDmi && !clearMtrx {
        ValidIs(Cut(l, p));
      }
    }

    /** The milestones of what is dropped are dropped. */
    method ResetStones(p: nat, clearDmi: bool, ghost l: Lat)
      requires Valid() && Linked() && 0 < p <= pysLen && l == View(nodeUsed) && CanCut(l, p)
        && HandleToClear(l, p, clearDmi) <= |dict.queries|
      modifies dict`marksPos, dict`stonesPos, dict`queries
      ensures dict.Loaded() && dict.Standing() && StacksOn(dict.Used(), old(dict.Used()))
      ensures var h := HandleToClear(l, p, clearDmi);
              dict.queries == if h > 0 then old(dict.queries)[..h - 1] else old(dict.queries)
    {
      hide *;
      hide MatrixSearch.Linked, MatrixSearch.Valid, DictTrie.Loaded, DictTrie.Standing;
      ValidFacts();
      LinkedFacts();
      ClearIs(l, p, clearDmi);
      StacksSame(dict.Used());
      var toClear, handle := false, 0;
      assert forall q :: 0 <= q <= pysLen ==> l.rows[q] == matrix[q];
      if clearDmi && matrix[p].dmiNum > 0 {
        toClear, handle := true, dmiPool[matrix[p].dmiPos].handle;
      }
      if pysLen > p && !clearDmi {
        toClear := false;
        if matrix[p + 1].dmiNum > 0 {
          toClear, handle := true, dmiPool[matrix[p + 1].dmiPos].handle;
        }
      }
      if toClear {
        dict.ResetMilestones(p, handle);
      }
    }

    method CutPools(p: nat, clearDmi: bool, clearMtrx: bool)
      requires 0 < p < matrix.Length
      modifies matrix, this`dmiUsed, this`nodeUsed
      ensures dmiUsed ==
                if clearDmi then
                  old(matrix[p - 1].dmiPos + matrix[p - 1].dmiNum)
                else old(matrix[p].dmiPos + matrix[p].dmiNum)
      ensures nodeUsed ==
                if clearMtrx then
                  old(matrix[p - 1].ndPos + matrix[p - 1].ndNum)
                else old(matrix[p].ndPos + matrix[p].ndNum)
      ensures matrix[..p] == old(matrix[..p])
      ensures matrix[p] == old(matrix[p]).(dmiNum := if clearDmi then 0 else old(matrix[p].dmiNum),
                ndNum := if clearMtrx then 0 else old(matrix[p].ndNum))
    {
      if clearDmi {
        dmiUsed := matrix[p - 1].dmiPos + matrix[p - 1].dmiNum;
        matrix[p] := matrix[p].(dmiNum := 0);
      } else {
        dmiUsed := matrix[p].dmiPos + matrix[p].dmiNum;
      }
      if clearMtrx {
        nodeUsed := matrix[p - 1].ndPos + matrix[p - 1].ndNum;
        matrix[p] := matrix[p].(ndNum := 0);
      } else {
        nodeUsed := matrix[p].ndPos + matrix[p].ndNum;
      }
    }

    lemma ClearedView(l: Lat, p: nat, clearDmi: bool, clearMtrx: bool)
      requires nodePool.Length == NODE_POOL_SIZE && dmiPool.Length == DMI_POOL_SIZE && matrix.Length == MAX_ROW_NUM
        && pys.Length == MAX_ROW_NUM
      requires CanCut(l, p) && pysLen == p < MAX_ROW_NUM && l.nodes <= nodePool[..] && l.dmis <= dmiPool[..]
        && l.pys <= pys[..]
      requires nodeUsed == NodeEnd(l, if clearMtrx then p - 1 else p)
        && dmiUsed == DmiEnd(l, if clearDmi then p - 1 else p)
      requires matrix[..p] == l.rows[..p]
      requires matrix[p] == l.rows[p].(dmiNum := if clearDmi then 0 else l.rows[p].dmiNum,
                 ndNum := if clearMtrx then 0 else l.rows[p].ndNum)
      ensures Shape() && View(nodeUsed) == CutAndCleared(l, p, clearDmi, clearMtrx)
      ensures dmiPool[..dmiUsed] == l.dmis[..dmiUsed]
    {
      assert NodeEnd(l, p - 1) <= NodeEnd(l, p) && DmiEnd(l, p - 1) <= DmiEnd(l, p);
      assert nodePool[..nodeUsed] == l.nodes[..nodeUsed] && dmiPool[..dmiUsed] == l.dmis[..dmiUsed]
             && pys[..p] == l.pys[..p];
      assert matrix[..p + 1] == matrix[..p] + [matrix[p]];
    }

    static lemma EmptyIs()
      ensures EMPTY == Lat([START], [], [START_ROW], [])
    {
    }

    lemma SizesGive()
      requires Shape()
      ensures nodePool.Length == NODE_POOL_SIZE == 200 && dmiPool.Length == DMI_POOL_SIZE == 800
        && matrix.Length == MAX_ROW_NUM == 40 && pys.Length == 40
      ensures pysLen < 40 && nodeUsed <= 200 && dmiUsed <= 800
    {
    }

    /** All rows' matches are in the pool. */
    lemma RowsWithin()
      requires Valid()
      ensures Shape() && Within(matrix[..pysLen + 1], dmiUsed)
    {
      var l := View(nodeUsed);
      forall q | 0 <= q <= pysLen ensures l.rows[q].dmiPos + l.rows[q].dmiNum <= dmiUsed {
        CutFits(l, q);
      }
    }

    lemma NextIs(ch: u8, g: Growth)
      requires Shape() && Within(matrix[..pysLen + 1], dmiUsed)
        && g == Growth(dmiPool[..dmiUsed], dmiUsed, dict.stonesPos, dict.marksPos, 0, false, false,
                       lpiItems != [], true)
      ensures Next(ch) == Grow(words, xiAn, matrix[..pysLen + 1], pys[..pysLen] + [ch], g, MAX_PINYIN_SIZE + 1)
        && Next(ch).first == dmiUsed
    {
    }

    lemma SameGrowing(l: Lat)
      requires nodePool.Length == NODE_POOL_SIZE && dmiPool.Length == DMI_POOL_SIZE && matrix.Length == MAX_ROW_NUM
        && pys.Length == MAX_ROW_NUM
      requires pysLen < MAX_ROW_NUM && nodeUsed + MAX_NODE_A_ROW <= NODE_POOL_SIZE && dmiUsed <= DMI_POOL_SIZE
        && matrix[pysLen].ndNum <= MAX_NODE_A_ROW
      requires RowOpen(lex, l, pysLen, nodeUsed) && l.dmis == dmiPool[..dmiUsed] && l.pys == pys[..pysLen]
      requires l.nodes == nodePool[..nodeUsed + matrix[pysLen].ndNum] && l.rows == matrix[..pysLen + 1]
      ensures Growing() && View(nodeUsed + matrix[pysLen].ndNum) == l
    {
    }

    lemma ShapeIs()
      requires nodePool.Length == NODE_POOL_SIZE && dmiPool.Length == DMI_POOL_SIZE && matrix.Length == MAX_ROW_NUM
        && pys.Length == MAX_ROW_NUM
      requires pysLen < MAX_ROW_NUM && nodeUsed <= NODE_POOL_SIZE && dmiUsed <= DMI_POOL_SIZE
      ensures Shape()
    {
    }

    /** `match_dmi`: the first match of the row that was made by exactly these spelling ids, or -1. */
    method MatchDmi(stepTo: nat, ids: seq<u16>) returns (r: int)
      requires Valid() && ids != []
      ensures r >= 0 ==> DmiIn(View(nodeUsed), stepTo, r) && r < dmiUsed && PathIds(dmiPool[..dmiUsed], r) == ids
      ensures forall d ::
                0 <= d < dmiUsed && DmiIn(View(nodeUsed), stepTo, d) && stepTo <= pysLen
                && PathIds(dmiPool[..dmiUsed], d) == ids ==>
                  0 <= r <= d
    {
      hide *;
      ValidFacts();
      ghost var l := View(nodeUsed);
      if pysLen < stepTo || matrix[stepTo].dmiNum == 0 {
        NoMatch(l, stepTo);
        assert stepTo <= pysLen ==> matrix[..pysLen + 1][stepTo] == matrix[stepTo];
        return -1;
      }
      assert matrix[..pysLen + 1][stepTo] == matrix[stepTo];
      CutReady(lex, l, stepTo);
      var pos := 0;
      while pos < matrix[stepTo].dmiNum
        invariant pos <= matrix[stepTo].dmiNum
        invariant forall d ::
                    0 <= d < dmiUsed && matrix[stepTo].dmiPos <= d < matrix[stepTo].dmiPos + pos ==>
                      PathIds(dmiPool[..dmiUsed], d) != ids
      {
        var d := matrix[stepTo].dmiPos + pos;
        SourceDmi(l, stepTo, d);
        LevelIs(lex, l, stepTo, d);
        if dmiPool[d].level == |ids| {
          var matched := SamePath(dmiPool, dmiUsed, d, ids);
          if matched {
            SourceRange(l, stepTo);
            return d;
          }
        }
        pos := pos + 1;
      }
      SourceRange(l, stepTo);
      r := -1;
    }

    /** The buffers for the segmentation are as long as the longest input allows, and they are different buffers. */
    ghost predicate Buffers()
    {
      && splStart.Length == MAX_ROW_NUM && splId.Length == MAX_ROW_NUM && lmaStart.Length == MAX_ROW_NUM
         && lmaId.Length == MAX_ROW_NUM
      && splStart != splId && splStart != lmaStart && splStart != lmaId && splId != lmaStart && splId != lmaId
         && lmaStart != lmaId
    }

    lemma BuffersFacts()
      requires Buffers()
      ensures splStart.Length == 40 && splId.Length == 40 && lmaStart.Length == 40 && lmaId.Length == 40
      ensures splStart != splId && splStart != lmaStart && splStart != lmaId && splId != lmaStart && splId != lmaId
        && lmaStart != lmaId
    {
    }

    /** An empty decoder. */
    constructor (given: Givens, dict: DictTrie, xiAn: bool)
      requires dict.Loaded() && dict.Standing() && Words(given, dict.spl, dict.trie, dict.uniPsb).Valid()
      modifies dict`marksPos, dict`stonesPos, dict`queries
      ensures this.given == given && this.dict == dict && this.xiAn == xiAn
      ensures words == Words(given, dict.spl, dict.trie, dict.uniPsb) && lex == words.Lex()
      ensures Valid() && Linked() && Buffers() && View(nodeUsed) == EMPTY && fixedHzs == 0
    {
      hide *;
      hide MatrixSearch.Opened, MatrixSearch.Linked, MatrixSearch.Valid, MatrixSearch.Buffers, MatrixSearch.Shape,
        DictTrie.Loaded, DictTrie.Standing, Words.Valid;
      MatrixSearch.ConstsGive();
      this.given, this.dict, this.xiAn, lpiItems := given, dict, xiAn, [];
      words := Words(given, dict.spl, dict.trie, dict.uniPsb);
      lex := Words(given, dict.spl, dict.trie, dict.uniPsb).Lex();
      var pool0, pool1, rows, text := NewPools();
      nodePool, dmiPool, matrix, pys := pool0, pool1, rows, text;
      var starts, ids, lmaStarts, lmaIds := NewBuffers();
      splStart, splId, lmaStart, lmaId := starts, ids, lmaStarts, lmaIds;
      splIdNum, lmaIdNum, fixedHzs, nodeUsed, dmiUsed, pysLen := 0, 0, 0, 1, 0, 0;
      new;
      ShapeIs();
      BuffersAre();
      NowOpened();
      ResetAll();
    }

    lemma BuffersAre()
      requires splStart.Length == 40 && splId.Length == 40 && lmaStart.Length == 40 && lmaId.Length == 40
      requires splStart != splId && splStart != lmaStart && splStart != lmaId && splId != lmaStart && splId != lmaId
        && lmaStart != lmaId
      ensures Buffers()
    {
    }

    lemma NowOpened()
      requires words == Words(given, dict.spl, dict.trie, dict.uniPsb)
        && lex == Words(given, dict.spl, dict.trie, dict.uniPsb).Lex()
      requires words.Valid() && dict.Loaded() && dict.Standing()
      ensures Opened()
    {
    }

    /** `get_spl_start_id`, when nothing is fixed: the best path of the last row, as a segmentation of the input. */
    method GetSplStartId()
      requires Valid() && Buffers() && fixedHzs == 0
      modifies splStart, splId, lmaStart, lmaId, this`splIdNum, this`lmaIdNum, this`fixedHzs
      ensures Valid() && Buffers() && fixedHzs == 0 && View(nodeUsed) == old(View(nodeUsed))
      ensures splIdNum < MAX_ROW_NUM && lmaIdNum < MAX_ROW_NUM
      ensures pysLen == 0 || matrix[pysLen].ndNum == 0 ==> splIdNum == 0 && lmaIdNum == 0
      ensures pysLen > 0 && matrix[pysLen].ndNum > 0 ==>
                Decoded(lex, View(nodeUsed), matrix[pysLen].ndPos, splStart[..splIdNum + 1], splId[..splIdNum],
                  lmaStart[..lmaIdNum + 1], lmaId[..lmaIdNum])
    {
      hide *;
      hide MatrixSearch.Valid, MatrixSearch.Buffers;
      ValidFacts();
      BuffersFacts();
      ghost var l := View(nodeUsed);
      lmaIdNum, splIdNum := 0, 0;
      lmaStart[0] := 0;
      splStart[0] := 0;
      ValidIs(l);
      if pysLen == 0 || matrix[pysLen].ndNum == 0 {
        return;
      }
      assert l.rows[pysLen] == matrix[pysLen] && nodePool[..|l.nodes|] == l.nodes;
      splIdNum, lmaIdNum := Unwind(matrix[pysLen].ndPos, View(nodeUsed));
      var fixed := LastFixed(matrix, splStart, splIdNum);
      fixedHzs := fixed;
      ValidIs(l);
    }

    /** The walk back from the head of the last row, turned around in place. */
    method Unwind(n: nat, l: Lat) returns (splNum: nat, lmaNum: nat)
      requires LatOk(lex, l) && Buffers() && |l.pys| < 40 && |l.pys| < |l.rows| && l.rows[|l.pys|].ndNum > 0
        && n == l.rows[|l.pys|].ndPos
      requires nodePool.Length >= |l.nodes| && nodePool[..|l.nodes|] == l.nodes && matrix.Length >= |l.rows|
        && matrix[..|l.rows|] == l.rows
      requires splStart.Length > 0 && splStart[0] == 0 && lmaStart.Length > 0 && lmaStart[0] == 0
      modifies splStart, splId, lmaStart, lmaId
      ensures splNum < 40 && lmaNum < 40 && splStart.Length == splId.Length == lmaStart.Length == lmaId.Length == 40
      ensures Decoded(lex, l, n, splStart[..splNum + 1], splId[..splNum], lmaStart[..lmaNum + 1], lmaId[..lmaNum])
      ensures forall k :: 0 < k <= splNum ==> splStart[..][k] < matrix.Length && !matrix[splStart[..][k]].fixed
    {
      hide *;
      BuffersFacts();
      HeadReady(lex, l, |l.pys|, n);
      assert splStart[..1] == [0] && lmaStart[..1] == [0] && splId[..0] == [] && lmaId[..0] == [];
      splNum, lmaNum := Segment(nodePool, l, n, 0, splStart, splId, lmaStart, lmaId, 0, 0);
      assert lmaStart[0..lmaNum + 1] == lmaStart[..lmaNum + 1];
      NoFront(splId[..splNum], lmaId[..lmaNum]);
      DecodedIs(lex, l, n, splStart[..splNum + 1], splId[..splNum], lmaStart[..lmaNum + 1], lmaId[..lmaNum]);
      PathOpen(lex, l, |l.pys|, n);
      PathEntries(l, n, splStart[..], splNum, matrix[..]);
    }
  }

  lemma NoFront(a: seq<nat>, b: seq<nat>)
    ensures [] + a == a && [] + b == b
  {
  }

  /** The last loop of `get_spl_start_id`: the last position whose row is fixed, or 0. */
  method LastFixed(rows: array<Row>, splStart: array<nat>, num: nat) returns (fixed: nat)
    requires num < splStart.Length && forall k :: 0 < k <= num ==> splStart[..][k] < rows.Length
    ensures fixed <= num && (fixed > 0 ==> splStart[..][fixed] < rows.Length && rows[splStart[..][fixed]].fixed)
    ensures forall k :: fixed < k <= num ==> splStart[..][k] < rows.Length && !rows[splStart[..][k]].fixed
  {
    fixed := num;
    while fixed > 0
      invariant fixed <= num && forall k :: fixed < k <= num ==> !rows[splStart[..][k]].fixed
    {
      assert splStart[..][fixed] == splStart[fixed];
      if rows[splStart[fixed]].fixed {
        return;
      }
      fixed := fixed - 1;
    }
  }

  /** No row on the path is fixed. */
  ghost predicate NoneFixed(l: Lat, n: nat) {
    forall e :: e in SplEndsTo(l, n, 0) ==> Open(l, e)
  }

  lemma PathOpen(lex: Lexicon, l: Lat, r: nat, n: nat)
    requires LatOk(lex, l) && r == |l.pys| && r < |l.rows| && l.rows[r].ndNum > 0 && n == l.rows[r].ndPos
    ensures NoneFixed(l, n)
  {
    assert NodeIn(l, r, n);
    WalkOpen(lex, l, r, n);
  }

  lemma PathEntries(l: Lat, n: nat, starts: seq<nat>, num: nat, rows: seq<Row>)
    requires NoneFixed(l, n) && num < |starts| && starts[..num + 1] == [0] + SplEndsTo(l, n, 0) && |l.rows| <= |rows|
      && rows[..|l.rows|] == l.rows
    ensures forall k :: 0 < k <= num ==> starts[k] < |l.rows| && !rows[starts[k]].fixed
  {
    var ends := SplEndsTo(l, n, 0);
    hide SplEndsTo;
    forall k | 0 < k <= num ensures starts[k] < |l.rows| && !rows[starts[k]].fixed {
      assert starts[..num + 1][k] == starts[k] == ends[k - 1];
      assert ends[k - 1] in ends;
      assert rows[..|l.rows|][starts[k]] == rows[starts[k]];
    }
  }

  /** The walk from the head of the last row is possible and stays within the buffers. */
  lemma HeadReady(lex: Lexicon, l: Lat, r: nat, n: nat)
    requires LatOk(lex, l) && r == |l.pys| && r < |l.rows| && l.rows[r].ndNum > 0 && n == l.rows[r].ndPos
    ensures Walkable(l, n, 0) && |SplIdsTo(l, n, 0)| <= r && |LmaIdsTo(l, n, 0)| <= r
    ensures Segments(lex, l.pys, 0, SplIdsTo(l, n, 0), SplEndsTo(l, n, 0), r)
  {
    assert NodeIn(l, r, n);
    WalkSegments(lex, l, r, n);
    SegmentsBound(lex, l.pys, 0, SplIdsTo(l, n, 0), SplEndsTo(l, n, 0), r);
    AllWalkable(lex, l, r, n);
    LensSum(l, n, 0);
    LensPositive(l, n, 0);
    CountBelowSum(LmaLensTo(l, n, 0));
  }

  /** Comparing from the last id backwards, along the links. */
  method SamePath(dmiPool: array<Dmi>, used: nat, d: nat, ids: seq<u16>) returns (r: bool)
    requires d < used <= dmiPool.Length && |PathIds(dmiPool[..used], d)| == |ids|
    ensures r <==> PathIds(dmiPool[..used], d) == ids
  {
    hide *;
    ghost var pool := dmiPool[..used];
    var x: int := d;
    var k := |ids|;
    while k > 0
      invariant 0 <= k <= |ids| && dmiPool[..used] == pool
      invariant k > 0 ==> 0 <= x <= d && |PathIds(pool, x)| == k
      invariant PathIds(pool, d) == (if k > 0 then PathIds(pool, x) else []) + ids[k..]
    {
      PathIdsIs(pool, x);
      assert dmiPool[x] == pool[x];
      LastDiffers(PathIds(pool, x), ids, k, PathIds(pool, d));
      if ids[k - 1] != dmiPool[x].splId {
        return false;
      }
      k := k - 1;
      x := dmiPool[x].fr;
      NonEmptyPath(pool, x);
    }
    r := true;
  }

  lemma LastDiffers(front: seq<u16>, ids: seq<u16>, k: nat, all: seq<u16>)
    requires 0 < k <= |ids| && |front| == k && all == front + ids[k..]
    ensures all[k - 1] == front[k - 1] && (front[k - 1] != ids[k - 1] ==> all != ids)
    ensures front[k - 1] == ids[k - 1] ==> all == front[..k - 1] + ids[k - 1..]
  {
    assert front == front[..k - 1] + [front[k - 1]] && ids[k - 1..] == [ids[k - 1]] + ids[k..];
  }

  lemma NonEmptyPath(pool: seq<Dmi>, x: int)
    ensures 0 <= x < |pool| ==> PathIds(pool, x) != []
  {
  }

  /** The level of a match counts its spelling ids. */
  lemma {:induction false} LevelIs(lex: Lexicon, l: Lat, r: nat, d: nat)
    requires LatOk(lex, l) && r <= |l.pys| && DmiIn(l, r, d)
    ensures d < |l.dmis| && |PathIds(l.dmis, d)| == l.dmis[d].level
    decreases d
  {
    CutFits(l, r);
    assert RowOk(lex, l, r) && DmiOk(lex, l, r, d);
    if l.dmis[d].fr != -1 {
      LevelIs(lex, l, r - LastLen(l, d), l.dmis[d].fr);
    }
  }

  lemma NoMatch(l: Lat, r: nat)
    ensures r >= |l.rows| || l.rows[r].dmiNum == 0 ==> forall d :: !DmiIn(l, r, d)
  {
  }

  lemma SourceRange(l: Lat, r: nat)
    requires r < |l.rows|
    ensures forall d :: DmiIn(l, r, d) <==> l.rows[r].dmiPos <= d < l.rows[r].dmiPos + l.rows[r].dmiNum
  {
  }

  lemma CutReady(lex: Lexicon, l: Lat, p: nat)
    requires LatOk(lex, l) && p <= |l.pys|
    ensures p < |l.rows| && NodeEnd(l, p) == l.rows[p].ndPos + l.rows[p].ndNum <= |l.nodes|
    ensures DmiEnd(l, p) == l.rows[p].dmiPos + l.rows[p].dmiNum <= |l.dmis|
    ensures LatOk(lex, Cut(l, p))
      && Cut(l, p) == Lat(l.nodes[..NodeEnd(l, p)], l.dmis[..DmiEnd(l, p)], l.rows[..p + 1], l.pys[..p])
    ensures |l.nodes| >= 1
    ensures p > 0 ==>
              l.rows[p - 1].ndPos + l.rows[p - 1].ndNum <= l.rows[p].ndPos
              && l.rows[p - 1].dmiPos + l.rows[p - 1].dmiNum <= l.rows[p].dmiPos
  {
    CutOk(lex, l, p);
    assert p > 0 ==> After(l.rows[p - 1], l.rows[p]);
  }

  /** The first match that is dropped lies behind all that stay, so its milestone lies behind all of theirs. */
  lemma ClearReady(lex: Lexicon, w: Words, queries: seq<seq<Range>>, l: Lat, p: nat, clearDmi: bool)
    requires LatOk(lex, l) && Handled(w, queries, l.dmis) && 0 < p <= |l.pys|
    ensures CanCut(l, p) && HandleToClear(l, p, clearDmi) <= |queries|
    ensures var h, n := HandleToClear(l, p, clearDmi), DmiEnd(l, if clearDmi then p - 1 else p);
            n <= |l.dmis| && Handled(w, if h > 0 then queries[..h - 1] else queries, l.dmis[..n])
  {
    CanCutIs(l, p);
    var h, n := HandleToClear(l, p, clearDmi), DmiEnd(l, if clearDmi then p - 1 else p);
    if h > 0 {
      var e := l.rows[if clearDmi then p else p + 1].dmiPos;
      assert After(l.rows[p - 1], l.rows[p]) && (!clearDmi ==> After(l.rows[p], l.rows[p + 1]));
      assert DmiEnd(l, if clearDmi then p else p + 1) <= |l.dmis|;
      HandledCut(w, queries, l.dmis, n, e);
    } else {
      HandledShorter(w, queries, l.dmis, n);
    }
  }

  lemma CutSame(l: Lat, p: nat)
    requires CanCut(l, p)
    ensures NodeEnd(l, p) <= |l.nodes| && DmiEnd(l, p) <= |l.dmis| && Cut(l, p) == CutAndCleared(l, p, false, false)
  {
    assert l.rows[..p + 1] == l.rows[..p] + [l.rows[p]];
  }

  lemma ClearIs(l: Lat, p: nat, clearDmi: bool)
    requires CanCut(l, p)
    ensures 0 < p <= |l.pys| && |l.rows| == |l.pys| + 1
      && forall q :: 0 <= q < |l.rows| ==> l.rows[q].dmiPos + l.rows[q].dmiNum <= |l.dmis|
    ensures forall q ::
              0 <= q < |l.rows| ==>
                DmiEnd(l, q) == l.rows[q].dmiPos + l.rows[q].dmiNum
                && NodeEnd(l, q) == l.rows[q].ndPos + l.rows[q].ndNum
    ensures HandleToClear(l, p, clearDmi) ==
            if clearDmi then (if l.rows[p].dmiNum > 0 then l.dmis[l.rows[p].dmiPos].handle else 0)
            else if p < |l.pys| && l.rows[p + 1].dmiNum > 0 then l.dmis[l.rows[p + 1].dmiPos].handle
            else 0
  {
    forall q | 0 <= q < |l.rows| ensures l.rows[q].dmiPos + l.rows[q].dmiNum <= |l.dmis| {
      assert DmiEnd(l, q) <= |l.dmis|;
    }
  }

  lemma DroppedReady(lex: Lexicon, l: Lat, p: nat)
    requires LatOk(lex, l) && |l.pys| == p + 1 && |l.rows| == p + 2 && l.rows[p + 1].ndNum == 0
    ensures |l.rows| == p + 2 && LatOk(lex, Dropped(l))
      && Dropped(l) == Lat(l.nodes, l.dmis, l.rows[..p + 1], l.pys[..p])
  {
    DroppedOk(lex, l);
  }

  lemma PreparedReady(lex: Lexicon, l: Lat, ch: u8, fixed: bool, row: nat, used: nat)
    requires lex.Valid() && LatOk(lex, l) && row == |l.pys| + 1 && used == |l.nodes| <= 1 + 5 * (row - 1)
    ensures RowOpen(lex, Prepared(l, ch, fixed), row, used)
    ensures Prepared(l, ch, fixed)
              == Lat(l.nodes, l.dmis, l.rows + [Row(|l.nodes|, 0, |l.dmis|, 0, false, fixed)], l.pys + [ch])
  {
    PreparedOk(lex, l, ch, fixed);
  }

  lemma SourceDmi(l: Lat, q: nat, d: int)
    requires q < |l.rows|
    ensures l.rows[q].dmiPos <= d < l.rows[q].dmiPos + l.rows[q].dmiNum ==> DmiIn(l, q, d)
  {
  }

  lemma NewDmiIs(dmis: seq<Dmi>, dmi: int, splId: u16, extLen: nat, endSplit: bool, full: bool, handle: nat, more: bool)
    requires -1 <= dmi < |dmis|
    ensures var x := NewDmi(dmis, dmi, splId, extLen, endSplit, full, handle, more);
            && (dmi == -1 ==> x == Dmi(-1, splId, 1, extLen, endSplit, full, handle, more))
            && (dmi >= 0 ==>
                  x == Dmi(dmi, splId, dmis[dmi].level + 1, dmis[dmi].splLen + extLen, endSplit, full
                    && dmis[dmi].allFull, handle, more))
  {
  }

  /** The last row, in the buffers. */
  lemma GrownRow(l: Lat, nodes: seq<Node>, rows: seq<Row>, row: nat)
    requires Holds(l, nodes, rows) && |l.rows| == row + 1
    ensures row < |rows| && rows[row] == l.rows[row]
  {
    HoldsFacts(l, nodes, rows, row);
  }

  lemma InNewRow(l: Lat, r: nat, d: nat)
    requires r < |l.rows| && l.rows[r].dmiPos <= d < l.rows[r].dmiPos + l.rows[r].dmiNum
    ensures DmiIn(l, r, d)
  {
  }

  lemma FrontOf(s: seq<Dmi>, a: nat, b: nat)
    requires a <= b <= |s|
    ensures s[..b][..a] == s[..a]
  {
  }

  lemma TriedLonger(w: Words, rows: seq<Row>, g: Growth, dmi: int, splId: u16, extLen: nat, endSplit: bool)
    requires -1 <= dmi < |g.dmis| && HasRoom(w, g, dmi, splId)
    ensures var r := Tried(w, rows, g, dmi, splId, extLen, endSplit); |r.dmis| >= |g.dmis| && r.matched == g.matched
  {
  }

  lemma SkippedIs(w: Words, rows: seq<Row>, g: Growth, oldrow: nat, dmi: int, extLen: nat)
    requires -1 <= dmi < |g.dmis| && oldrow < |rows|
    ensures MAX_LEMMA_SIZE == 8
    ensures Skipped(w, rows, g, oldrow, dmi, extLen) <==>
              || (g.longest > extLen && if dmi == -1 then !rows[oldrow].hasFull else w.given.half(g.dmis[dmi].splId))
              || (dmi != -1 && g.dmis[dmi].level >= MAX_LEMMA_SIZE)
  {
  }

  /** One turn of the loop over the matches of a row. */
  lemma GrowRowStep(w: Words, rows: seq<Row>, g: Growth, oldrow: nat, pos: nat, splId: u16, extLen: nat, endSplit: bool)
    requires oldrow < |rows| && rows[oldrow].dmiPos <= pos <= rows[oldrow].dmiPos + rows[oldrow].dmiNum <= |g.dmis|
      && g.room
    requires GrowRow(w, rows, g, oldrow, pos, splId, extLen, endSplit).room
    ensures var r, dmi := GrowRow(w, rows, g, oldrow, pos, splId, extLen, endSplit),
      if pos == rows[oldrow].dmiPos + rows[oldrow].dmiNum then -1 else pos;
            if Skipped(w, rows, g, oldrow, dmi, extLen) then
              r == GrowRow(w, rows, g, oldrow, pos + 1, splId, extLen, endSplit)
            else
              HasRoom(w, g, dmi, splId)
              && r == GrowRow(w, rows, Tried(w, rows, g, dmi, splId, extLen, endSplit), oldrow, pos + 1, splId, extLen,
                              endSplit)
  {
    hide HasRoom, Skipped;
  }

  lemma GrowRowEnds(w: Words, rows: seq<Row>, g: Growth, oldrow: nat, pos: nat, splId: u16, extLen: nat, endSplit: bool)
    requires oldrow < |rows| && rows[oldrow].dmiPos + rows[oldrow].dmiNum <= |g.dmis|
    ensures pos > rows[oldrow].dmiPos + rows[oldrow].dmiNum ==>
              GrowRow(w, rows, g, oldrow, pos, splId, extLen, endSplit) == g
  {
  }

  /** A length that is not tried. */
  lemma GrowPast(w: Words, xiAn: bool, rows: seq<Row>, pys: seq<u8>, g: Growth, extLen: nat)
    requires |rows| == |pys| > 0 && Within(rows, |g.dmis|) && extLen > 0 && g.room
    ensures extLen > |rows| ==> Grow(w, xiAn, rows, pys, g, extLen) == Grow(w, xiAn, rows, pys, g, extLen - 1)
    ensures extLen <= |rows| ==>
              var oldrow := |rows| - extLen;
              var barred := extLen > 1 && g.longest != 0 && !rows[oldrow].hasFull;
              && (barred ==>
                    Grow(w, xiAn, rows, pys, g, extLen) == if xiAn then Grow(w, xiAn, rows, pys, g, extLen - 1) else g)
              && (!barred && rows[oldrow].ndNum == 0 ==>
                    Grow(w, xiAn, rows, pys, g, extLen) == Grow(w, xiAn, rows, pys, g, extLen - 1))
  {
  }

  /** A length that is tried: there is room for what its turn adds. */
  lemma GrowReady(w: Words, xiAn: bool, rows: seq<Row>, pys: seq<u8>, g: Growth, extLen: nat)
    requires |rows| == |pys| > 0 && Within(rows, |g.dmis|) && 0 < extLen <= |rows| && g.room
      && Grow(w, xiAn, rows, pys, g, extLen).room
    requires rows[|rows| - extLen].ndNum > 0 && !(extLen > 1 && g.longest != 0 && !rows[|rows| - extLen].hasFull)
    ensures var oldrow := |rows| - extLen;
            var spl := w.given.parse(pys[oldrow..]);
            && rows[oldrow].dmiPos + rows[oldrow].dmiNum <= |g.dmis|
            && (spl.0 != 0 ==>
                  GrowRow(w, rows, if spl.1 then g.(matched := true) else g, oldrow, rows[oldrow].dmiPos, spl.0, extLen,
                          !w.given.letter(pys[|pys| - 1])).room)
  {
    hide GrowRow;
  }

  /** After its turn come the shorter ones. */
  lemma GrowTurn(w: Words, xiAn: bool, rows: seq<Row>, pys: seq<u8>, g: Growth, extLen: nat, h: Growth)
    requires |rows| == |pys| > 0 && Within(rows, |g.dmis|) && 0 < extLen <= |rows| && g.room
    requires rows[|rows| - extLen].ndNum > 0 && !(extLen > 1 && g.longest != 0 && !rows[|rows| - extLen].hasFull)
    requires rows[|rows| - extLen].dmiPos + rows[|rows| - extLen].dmiNum <= |g.dmis| <= |h.dmis|
    requires var oldrow := |rows| - extLen;
             var spl := w.given.parse(pys[oldrow..]);
             var k := if spl.1 then g.(matched := true) else g;
             h == if spl.0 == 0 then k
                  else GrowRow(w, rows, k, oldrow, rows[oldrow].dmiPos, spl.0, extLen,
                               !w.given.letter(pys[|pys| - 1]))
    ensures Within(rows, |h.dmis|) && Grow(w, xiAn, rows, pys, g, extLen) == Grow(w, xiAn, rows, pys, h, extLen - 1)
  {
    hide GrowRow;
  }

  lemma GrowEnds(w: Words, xiAn: bool, rows: seq<Row>, pys: seq<u8>, g: Growth, extLen: nat)
    requires |rows| == |pys| > 0 && Within(rows, |g.dmis|)
    ensures extLen == 0 ==> Grow(w, xiAn, rows, pys, g, extLen) == g
  {
  }

  lemma StacksTrans(a: MileStack, b: MileStack, c: MileStack)
    requires StacksOn(a, b) && StacksOn(b, c)
    ensures StacksOn(a, c)
  {
  }

  lemma IdsWithIs(dmis: seq<Dmi>, dmi: int, splId: u16)
    requires -1 <= dmi < |dmis|
    ensures IdsWith(dmis, dmi, splId) == (if dmi == -1 then [] else PathIds(dmis, dmi)) + [splId]
    ensures IdsWith(dmis, -1, splId) == [splId]
  {
  }

  /** The finished rows, and the part of the pool that they use, are as before. */
  lemma FrontKept(l: Lat, k: Lat, nodes: seq<Node>, rows: seq<Row>, row: nat)
    requires SameBut(l, k, row) && Holds(k, nodes, rows)
    ensures row <= |rows| && l.rows[row].ndPos <= |nodes| && l.rows[row].ndPos <= |l.nodes|
    ensures rows[..row] == l.rows[..row] && nodes[..l.rows[row].ndPos] == l.nodes[..l.rows[row].ndPos]
  {
    var e := l.rows[row].ndPos;
    assert rows[..row] == rows[..row + 1][..row];
    assert nodes[..e] == nodes[..|k.nodes|][..e];
  }
}
