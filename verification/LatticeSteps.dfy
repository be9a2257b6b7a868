/** How the lattice grows and is cut back, step by step. */
module LatticeSteps {
  import opened Bytes
  import opened LatticeRow
  import opened Lattice

  /** The last row. */
  function Last(l: Lat): (r: nat) {
    |l.pys|
  }

  // ---- reset_search ----

  const EMPTY: Lat := Lat([START], [], [START_ROW], [])

  /** Back to row p, with all its matches and nodes. */
  function Cut(l: Lat, p: nat): (k: Lat)
    requires p <= |l.pys| && p < |l.rows| && NodeEnd(l, p) <= |l.nodes| && DmiEnd(l, p) <= |l.dmis|
  {
    Lat(l.nodes[..NodeEnd(l, p)], l.dmis[..DmiEnd(l, p)], l.rows[..p + 1], l.pys[..p])
  }

  /** What going back to row p needs to know of the lattice. */
  ghost predicate CanCut(l: Lat, p: nat) {
    && 0 < p <= |l.pys| && |l.rows| == |l.pys| + 1 && After(l.rows[p - 1], l.rows[p]) && NodeEnd(l, p) <= |l.nodes|
    && forall q :: 0 <= q < |l.rows| ==> DmiEnd(l, q) <= |l.dmis|
  }

  lemma CanCutIs(l: Lat, p: nat)
    requires Stacked(l) && 0 < p <= |l.pys|
    ensures CanCut(l, p)
  {
    forall q | 0 <= q < |l.rows| ensures DmiEnd(l, q) <= |l.dmis| {
      CutFits(l, q);
    }
    CutFits(l, p);
  }

  /** Back to row p, of which the matches and the nodes may be dropped, too. */
  ghost function CutAndCleared(l: Lat, p: nat, clearDmi: bool, clearMtrx: bool): (k: Lat)
    requires CanCut(l, p)
  {
    var row := l.rows[p].(dmiNum := if clearDmi then 0 else l.rows[p].dmiNum,
      ndNum := if clearMtrx then 0 else l.rows[p].ndNum);
    Lat(l.nodes[..NodeEnd(l, if clearMtrx then p - 1 else p)], l.dmis[..DmiEnd(l, if clearDmi then p - 1 else p)],
        l.rows[..p] + [row], l.pys[..p])
  }

  /** The milestone handle to which `reset_search` goes back: that of the first match that is dropped with its row, or
      0. */
  ghost function HandleToClear(l: Lat, p: nat, clearDmi: bool): (h: nat)
    requires CanCut(l, p)
  {
    if clearDmi then (if DmiEnd(l, p) > l.rows[p].dmiPos then l.dmis[l.rows[p].dmiPos].handle else 0)
    else if p < |l.pys| && DmiEnd(l, p + 1) > l.rows[p + 1].dmiPos then l.dmis[l.rows[p + 1].dmiPos].handle
    else 0
  }

  lemma EmptyOk(lex: Lexicon)
    ensures LatOk(lex, EMPTY)
  {
    assert RowNodes(EMPTY, 0) == [START];
  }

  lemma CutFits(l: Lat, p: nat)
    requires Stacked(l) && p <= |l.pys|
    ensures p < |l.rows| && NodeEnd(l, p) <= |l.nodes| && DmiEnd(l, p) <= |l.dmis|
  {
    if p < |l.pys| {
      RowsOrdered(l, p, |l.pys|);
    }
  }

  /** Going back to an earlier row keeps every node and match that the remaining rows use. */
  lemma CutOk(lex: Lexicon, l: Lat, p: nat)
    requires LatOk(lex, l) && p <= |l.pys|
    ensures p < |l.rows| && NodeEnd(l, p) <= |l.nodes| && DmiEnd(l, p) <= |l.dmis| && LatOk(lex, Cut(l, p))
  {
    CutFits(l, p);
    var k := Cut(l, p);
    assert Stacked(k) by {
      RowsBeforeEnd(l, p);
      forall r | 1 <= r < |k.rows| ensures After(k.rows[r - 1], k.rows[r]) {
        assert After(l.rows[r - 1], l.rows[r]);
      }
    }
    assert l.nodes[..NodeEnd(l, p)] == k.nodes[..NodeEnd(l, p)];
    assert l.dmis[..DmiEnd(l, p)] == k.dmis[..DmiEnd(l, p)];
    assert l.rows[..p + 1] == k.rows[..p + 1] && l.pys[..p] == k.pys[..p];
    assert SameTo(l, k, p);
    forall q | 0 <= q <= p ensures RowOk(lex, k, q) {
      RowKept(lex, l, k, p, q);
    }
  }

  lemma RowsBeforeEnd(l: Lat, p: nat)
    requires Stacked(l) && p <= |l.pys|
    ensures p < |l.rows| && NodeEnd(l, p) >= 1 && l.rows[..p + 1][0] == l.rows[0]
  {
    if p > 0 {
      RowsOrdered(l, 0, p);
    }
  }

  // ---- prepare_add_char ----

  /** A new, empty row at the end of both pools. */
  function Prepared(l: Lat, ch: u8, fixed: bool): (k: Lat) {
    Lat(l.nodes, l.dmis, l.rows + [Row(|l.nodes|, 0, |l.dmis|, 0, false, fixed)], l.pys + [ch])
  }

  lemma PreparedOk(lex: Lexicon, l: Lat, ch: u8, fixed: bool)
    requires LatOk(lex, l)
    ensures LatOk(lex, Prepared(l, ch, fixed))
  {
    var k, p := Prepared(l, ch, fixed), |l.pys|;
    assert Stacked(k) by {
      forall r | 1 <= r < |k.rows| ensures After(k.rows[r - 1], k.rows[r]) {
        if r <= p {
          assert After(l.rows[r - 1], l.rows[r]);
        }
      }
    }
    assert l.rows[..p + 1] == k.rows[..p + 1] && l.pys[..p] == k.pys[..p];
    assert SameTo(l, k, p);
    forall q | 0 <= q <= p + 1 ensures RowOk(lex, k, q) {
      if q <= p {
        RowKept(lex, l, k, p, q);
      } else {
        assert RowNodes(k, q) == [];
      }
    }
  }

  // ---- The row under construction ----

  /** The last row, when everything has been offered except what nodes from m on offer by way of match d. */
  ghost predicate Partial(lex: Lexicon, l: Lat, d: nat, m: int) {
    && Stacked(l) && |l.pys| > 0 && NodeEnd(l, Last(l)) == |l.nodes| && DmiEnd(l, Last(l)) == |l.dmis|
    && (forall q :: 0 <= q < Last(l) ==> RowOk(lex, l, q))
    && RowShape(RowNodes(l, Last(l))) && (l.rows[Last(l)].ndNum > 0 ==> !l.rows[Last(l)].fixed)
    && (forall e :: DmiIn(l, Last(l), e) ==> DmiOk(lex, l, Last(l), e))
    && (forall e :: DmiIn(l, Last(l), e) && e != d ==> DmiCovered(lex, l, Last(l), e))
    && (forall n :: NodeIn(l, Last(l), n) ==> NodeOk(lex, l, Last(l), n))
    && DmiIn(l, Last(l), d) && CoveredBefore(lex, l, d, m)
  }

  ghost predicate CoveredBefore(lex: Lexicon, l: Lat, d: nat, m: int)
    requires d < |l.dmis| && l.dmis[d].splLen <= Last(l) < |l.rows| && NodeEnd(l, Last(l)) <= |l.nodes|
  {
    forall n, k ::
      NodeIn(l, Last(l) - l.dmis[d].splLen, n) && n < m && n < |l.nodes| && 0 <= k < |ItemsOf(lex, l, d)| ==>
      Covers(RowNodes(l, Last(l)), Offer(l.nodes, n, ItemsOf(lex, l, d)[k], d, Last(l)))
  }

  /** One more match for the last row. */
  function WithDmi(l: Lat, x: Dmi, full: bool): (k: Lat)
    requires |l.rows| > 0
  {
    var r := l.rows[|l.rows| - 1];
    l.(dmis := l.dmis + [x], rows := l.rows[|l.rows| - 1 := r.(dmiNum := r.dmiNum + 1, hasFull := r.hasFull || full)])
  }

  /** What a new match must say of the characters before the last row. */
  ghost predicate Spells(lex: Lexicon, l: Lat, x: Dmi, extLen: nat) {
    && x.splId > 0 && 1 <= extLen <= x.splLen <= |l.pys|
    && lex.parse(l.pys[|l.pys| - extLen..]).0 == x.splId
    && |l.pys| - extLen < |l.rows| && l.rows[|l.pys| - extLen].ndNum > 0
    && if x.fr == -1 then x.level == 1 && x.splLen == extLen
       else 0 <= x.fr < |l.dmis| && DmiIn(l, |l.pys| - extLen, x.fr) && x.level == l.dmis[x.fr].level + 1
            && x.splLen == l.dmis[x.fr].splLen + extLen
  }

  lemma WithDmiStacked(l: Lat, x: Dmi, full: bool)
    requires Stacked(l) && |l.pys| > 0 && DmiEnd(l, Last(l)) == |l.dmis|
    ensures Stacked(WithDmi(l, x, full))
  {
    var k := WithDmi(l, x, full);
    forall r | 1 <= r < |k.rows| ensures After(k.rows[r - 1], k.rows[r]) {
      assert After(l.rows[r - 1], l.rows[r]);
    }
  }

  lemma WithDmiSame(l: Lat, x: Dmi, full: bool)
    requires Stacked(l) && |l.pys| > 0 && DmiEnd(l, Last(l)) == |l.dmis|
    ensures SameTo(l, WithDmi(l, x, full), Last(l) - 1)
  {
    var k, p := WithDmi(l, x, full), Last(l) - 1;
    assert After(l.rows[p], l.rows[p + 1]);
    assert l.rows[..p + 1] == k.rows[..p + 1];
    assert l.dmis[..DmiEnd(l, p)] == k.dmis[..DmiEnd(l, p)];
  }

  /** A match that exists reads the same. */
  lemma WithDmiOld(lex: Lexicon, l: Lat, x: Dmi, full: bool, d: nat)
    requires |l.rows| > 0 && d < |l.dmis|
    ensures var k := WithDmi(l, x, full);
            k.dmis[d] == l.dmis[d] && PathIds(k.dmis, d) == PathIds(l.dmis, d)
            && ItemsOf(lex, k, d) == ItemsOf(lex, l, d)
  {
    var k := WithDmi(l, x, full);
    assert k.dmis[..d + 1] == l.dmis[..d + 1];
    PathIdsPrefix(k.dmis, l.dmis, d);
  }

  lemma WithDmiPath(l: Lat, x: Dmi, full: bool)
    requires |l.rows| > 0
    ensures var k := WithDmi(l, x, full);
            PathIds(k.dmis, |l.dmis|) == (if 0 <= x.fr < |l.dmis| then PathIds(l.dmis, x.fr) else []) + [x.splId]
  {
    var k := WithDmi(l, x, full);
    if 0 <= x.fr < |l.dmis| {
      assert k.dmis[..x.fr + 1] == l.dmis[..x.fr + 1];
      PathIdsPrefix(k.dmis, l.dmis, x.fr);
    }
  }

  /** A new match is in order, and nothing has been offered by way of it yet. */
  lemma WithDmiPartial(lex: Lexicon, l: Lat, x: Dmi, full: bool, extLen: nat)
    requires LatOk(lex, l) && |l.pys| > 0 && NodeEnd(l, Last(l)) == |l.nodes| && DmiEnd(l, Last(l)) == |l.dmis|
    requires Spells(lex, l, x, extLen)
    ensures Partial(lex, WithDmi(l, x, full), |l.dmis|, 0)
  {
    var k, r, d := WithDmi(l, x, full), Last(l), |l.dmis|;
    WithDmiStacked(l, x, full);
    WithDmiSame(l, x, full);
    assert RowOk(lex, l, r);
    forall q | 0 <= q < r ensures RowOk(lex, k, q) {
      assert RowOk(lex, l, q);
      RowKept(lex, l, k, r - 1, q);
    }
    assert RowNodes(k, r) == RowNodes(l, r);
    forall e | DmiIn(k, r, e) ensures DmiOk(lex, k, r, e) && (e != d ==> DmiCovered(lex, k, r, e)) {
      if e < d {
        assert DmiIn(l, r, e);
        OldDmiKept(lex, l, x, full, e);
      } else {
        NewDmiOk(lex, l, x, full, extLen);
      }
    }
    forall n | NodeIn(k, r, n) ensures NodeOk(lex, k, r, n) {
      assert NodeIn(l, r, n);
      OldNodeKept(lex, l, x, full, n);
    }
  }

  lemma OldDmiKept(lex: Lexicon, l: Lat, x: Dmi, full: bool, e: nat)
    requires LatOk(lex, l) && |l.pys| > 0 && NodeEnd(l, Last(l)) == |l.nodes| && DmiEnd(l, Last(l)) == |l.dmis|
      && DmiIn(l, Last(l), e)
    ensures var k := WithDmi(l, x, full); DmiOk(lex, k, Last(l), e) && DmiCovered(lex, k, Last(l), e)
  {
    hide *;
    LastRowMatch(lex, l, e);
    var k, r := WithDmi(l, x, full), Last(l);
    DmiOkGives(lex, l, r, e);
    WithDmiOld(lex, l, x, full, e);
    var f, n := l.dmis[e].fr, LastLen(l, e);
    WithDmiRows(l, x, full, r - n, f);
    WithDmiRows(l, x, full, r - l.dmis[e].splLen, f);
    LastLenIs(l, e);
    LastLenIs(k, e);
    if f != -1 {
      WithDmiOld(lex, l, x, full, f);
    }
    DmiOkIs(lex, k, r, e, n);
    CoveredGives(lex, l, r, e);
    CoveredIs(lex, k, r, e);
  }

  lemma LastRowMatch(lex: Lexicon, l: Lat, e: nat)
    requires LatOk(lex, l) && |l.pys| > 0 && NodeEnd(l, Last(l)) == |l.nodes| && DmiIn(l, Last(l), e)
    ensures |l.rows| == Last(l) + 1 && Last(l) == |l.pys| && e < |l.dmis| && DmiOk(lex, l, Last(l), e)
    ensures l.dmis[e].splLen <= Last(l) && DmiCovered(lex, l, Last(l), e)
  {
    assert RowOk(lex, l, Last(l)) && DmiOk(lex, l, Last(l), e) && DmiCovered(lex, l, Last(l), e);
    hide RowOk, Stacked;
  }

  /** A new match changes no node and no earlier row. */
  lemma WithDmiRows(l: Lat, x: Dmi, full: bool, p: nat, f: int)
    requires |l.rows| == Last(l) + 1 && p < Last(l) && NodeEnd(l, Last(l)) == |l.nodes|
    ensures var k := WithDmi(l, x, full);
            && k.nodes == l.nodes && k.pys == l.pys && |k.rows| == |l.rows| && k.rows[p] == l.rows[p]
               && |k.dmis| == |l.dmis| + 1
            && (DmiIn(k, p, f) <==> DmiIn(l, p, f)) && (forall n :: NodeIn(k, p, n) <==> NodeIn(l, p, n))
            && NodeEnd(k, Last(l)) == |k.nodes| == k.rows[Last(l)].ndPos + k.rows[Last(l)].ndNum
               && RowNodes(k, Last(l)) == RowNodes(l, Last(l))
  {
  }

  lemma NewDmiOk(lex: Lexicon, l: Lat, x: Dmi, full: bool, extLen: nat)
    requires Stacked(l) && |l.pys| > 0 && DmiEnd(l, Last(l)) == |l.dmis| && Spells(lex, l, x, extLen)
    ensures DmiOk(lex, WithDmi(l, x, full), Last(l), |l.dmis|)
  {
    var k, r := WithDmi(l, x, full), Last(l);
    assert LastLen(k, |l.dmis|) == extLen;
    assert k.pys[r - extLen..r] == l.pys[r - extLen..];
  }

  lemma OldNodeKept(lex: Lexicon, l: Lat, x: Dmi, full: bool, n: nat)
    requires LatOk(lex, l) && |l.pys| > 0 && NodeEnd(l, Last(l)) == |l.nodes| && DmiEnd(l, Last(l)) == |l.dmis|
      && NodeIn(l, Last(l), n)
    ensures NodeOk(lex, WithDmi(l, x, full), Last(l), n)
  {
    hide *;
    LastRowGives(lex, l, n);
    NodeOkGives(lex, l, Last(l), n);
    var y, k := l.nodes[n], WithDmi(l, x, full);
    WithDmiOld(lex, l, x, full, y.dmi);
    var p := Last(l) - l.dmis[y.dmi].splLen;
    WithDmiIn(l, x, full, y.dmi, p);
    NodeOkIs(lex, k, Last(l), n);
  }

  lemma LastRowGives(lex: Lexicon, l: Lat, n: nat)
    requires LatOk(lex, l) && |l.pys| > 0 && NodeEnd(l, Last(l)) == |l.nodes| && NodeIn(l, Last(l), n)
    ensures |l.rows| == Last(l) + 1 && n < |l.nodes| && NodeOk(lex, l, Last(l), n)
    ensures 0 <= l.nodes[n].dmi < |l.dmis| && 1 <= l.dmis[l.nodes[n].dmi].splLen
  {
    assert RowOk(lex, l, Last(l)) && NodeOk(lex, l, Last(l), n);
    assert DmiOk(lex, l, Last(l), l.nodes[n].dmi);
    hide RowOk, OfferedBy, ItemsOf, Stacked;
  }

  /** A new match leaves the nodes where they are. */
  lemma WithDmiIn(l: Lat, x: Dmi, full: bool, d: int, p: nat)
    requires |l.rows| == Last(l) + 1
    ensures var k := WithDmi(l, x, full);
            && k.nodes == l.nodes && |k.rows| == |l.rows| && Last(k) == Last(l) && |k.dmis| == |l.dmis| + 1
            && (DmiIn(l, Last(l), d) ==> DmiIn(k, Last(l), d)) && forall n :: NodeIn(k, p, n) <==> NodeIn(l, p, n)
  {
  }

  /** The last row after node m has offered its lemmas by way of match d. */
  function WithOffers(lex: Lexicon, l: Lat, d: nat, m: nat): (k: Lat)
    requires |l.rows| > 0 && d < |l.dmis| && m < l.rows[|l.rows| - 1].ndPos
    requires l.rows[|l.rows| - 1].ndPos + l.rows[|l.rows| - 1].ndNum <= |l.nodes|
  {
    var r := |l.rows| - 1;
    var base, items := l.rows[r].ndPos, ItemsOf(lex, l, d);
    var s := Extended(RowNodes(l, r), l.nodes[..base], m, items, ItemsTried(l.nodes[m].step, |items|), d, r, 0);
    l.(nodes := l.nodes[..base] + s, rows := l.rows[r := l.rows[r].(ndNum := |s|, fixed := false)])
  }

  /** An empty last row after node m has offered what the item buffer still holds when the match pool is full:
      `extend_dmi` makes no match then, and the offer names the position behind the last one. */
  function WithStale(l: Lat, m: nat, stale: seq<LmaItem>): (k: Lat)
    requires |l.rows| > 0 && m < l.rows[|l.rows| - 1].ndPos <= |l.nodes|
  {
    var r := |l.rows| - 1;
    var base := l.rows[r].ndPos;
    var s := Extended([], l.nodes[..base], m, stale, ItemsTried(l.nodes[m].step, |stale|), |l.dmis|, r, 0);
    l.(nodes := l.nodes[..base] + s, rows := l.rows[r := l.rows[r].(ndNum := |s|, fixed := false)])
  }

  /** At a full match pool with items left over from an earlier call the row gets nodes whose match lies behind the
      pool, and the lattice is no longer in order. */
  lemma StaleOffers(lex: Lexicon, l: Lat, m: nat, stale: seq<LmaItem>)
    requires Stacked(l) && |l.pys| > 0 && m < l.rows[|l.pys|].ndPos <= |l.nodes| && stale != []
    ensures var k := WithStale(l, m, stale);
            && k.rows[|l.pys|].ndNum > 0 && |k.nodes| == k.rows[|l.pys|].ndPos + k.rows[|l.pys|].ndNum
            && (forall n :: NodeIn(k, |l.pys|, n) && 0 <= n < |k.nodes| ==> k.nodes[n].dmi == |l.dmis|)
               && !LatOk(lex, k)
  {
    hide *;
    RowsCounted(l);
    var k, r, base := WithStale(l, m, stale), |l.pys|, l.rows[|l.pys|].ndPos;
    var n := ItemsTried(l.nodes[m].step, |stale|);
    var s := Extended([], l.nodes[..base], m, stale, n, |l.dmis|, r, 0);
    StaleRow(l, m, stale);
    EmptyShape();
    ExtendedShape([], l.nodes[..base], m, stale, n, |l.dmis|, r, 0);
    forall i | NodeIn(k, r, i) && 0 <= i < |k.nodes| ensures k.nodes[i].dmi == |l.dmis| {
      assert k.nodes[i] == s[i - base] && s[i - base] in s;
      OfferedStep(l.nodes[..base], m, stale, |l.dmis|, r, k.nodes[i]);
    }
    MatchInPool(lex, k, r, base);
  }

  lemma RowsCounted(l: Lat)
    requires Stacked(l)
    ensures |l.rows| == |l.pys| + 1
  {
  }

  lemma EmptyShape()
    ensures RowShape([])
  {
  }

  lemma StaleRow(l: Lat, m: nat, stale: seq<LmaItem>)
    requires Stacked(l) && |l.pys| > 0 && m < l.rows[|l.pys|].ndPos <= |l.nodes| && stale != []
    ensures var k, r, base := WithStale(l, m, stale), |l.pys|, l.rows[|l.pys|].ndPos;
            var s := Extended([], l.nodes[..base], m, stale, ItemsTried(l.nodes[m].step, |stale|), |l.dmis|, r, 0);
            && |l.rows| == r + 1 && 0 < ItemsTried(l.nodes[m].step, |stale|) <= |stale|
               && k.nodes == l.nodes[..base] + s
            && k.pys == l.pys && k.dmis == l.dmis && |k.rows| == r + 1 && k.rows[r].ndPos == base
               && k.rows[r].ndNum == |s|
            && (forall i :: NodeIn(k, r, i) <==> base <= i < base + |s|)
  {
    hide Extended, After;
  }

  /** In a lattice in order every node has its match in the pool. */
  lemma MatchInPool(lex: Lexicon, l: Lat, r: nat, n: nat)
    requires 0 < r <= |l.pys| && NodeIn(l, r, n)
    ensures LatOk(lex, l) ==> n < |l.nodes| && 0 <= l.nodes[n].dmi < |l.dmis|
  {
    if LatOk(lex, l) {
      assert RowOk(lex, l, r) && NodeOk(lex, l, r, n);
    }
  }

  /** The source of an offer lies before the row that takes it. */
  lemma SourceBefore(lex: Lexicon, l: Lat, d: nat, m: nat)
    requires Partial(lex, l, d, m) && NodeIn(l, Last(l) - l.dmis[d].splLen, m)
    ensures d < |l.dmis| && m < l.rows[Last(l)].ndPos && m < |l.nodes| && |l.rows| == Last(l) + 1
      && NodeEnd(l, Last(l)) <= |l.nodes|
  {
    assert DmiOk(lex, l, Last(l), d);
    RowsOrdered(l, Last(l) - l.dmis[d].splLen, Last(l));
  }

  /** What the last row becomes. */
  lemma OffersIs(lex: Lexicon, l: Lat, d: nat, m: nat)
    requires Partial(lex, l, d, m) && NodeIn(l, Last(l) - l.dmis[d].splLen, m) && lex.Valid()
    requires d < |l.dmis| && m < l.rows[Last(l)].ndPos && |l.rows| == Last(l) + 1 && NodeEnd(l, Last(l)) <= |l.nodes|
    ensures var k, r := WithOffers(lex, l, d, m), Last(l);
            && |k.rows| == |l.rows| && k.rows[r].ndPos == l.rows[r].ndPos && NodeEnd(k, r) == |k.nodes|
            && k.nodes[..l.rows[r].ndPos] == l.nodes[..l.rows[r].ndPos]
            && RowShape(RowNodes(k, r)) && k.rows[r].ndNum <= MAX_NODE_A_ROW
            && (forall x ::
                  x in RowNodes(k, r) ==> x in RowNodes(l, r) || OfferedBy(l.nodes, m, ItemsOf(lex, l, d), d, r, x))
            && (forall o :: Covers(RowNodes(l, r), o) ==> Covers(RowNodes(k, r), o))
            && (forall i ::
                  0 <= i < |ItemsOf(lex, l, d)| ==>
                    Covers(RowNodes(k, r), Offer(l.nodes, m, ItemsOf(lex, l, d)[i], d, r)))
            && (ItemsOf(lex, l, d) != [] ==> k.rows[r].ndNum > 0)
  {
    hide *;
    PartialShape(lex, l, d, m);
    var k, r, items, front := WithOffers(lex, l, d, m), Last(l), ItemsOf(lex, l, d), l.nodes[..l.rows[Last(l)].ndPos];
    var s, n := RowNodes(l, r), ItemsTried(l.nodes[m].step, |items|);
    OffersRow(lex, l, d, m);
    ExtendedShape(s, front, m, items, n, d, r, 0);
    ShortRow(RowNodes(k, r));
    forall x | x in RowNodes(k, r) ensures x in s || OfferedBy(l.nodes, m, items, d, r, x) {
      SameFront(l.nodes, front, m, items, d, r, x);
    }
    forall o | Covers(s, o) ensures Covers(RowNodes(k, r), o) {
      ExtendedCoversOld(s, front, m, items, n, d, r, 0, o);
    }
    ItemsSorted(lex, l, d);
    NoneReached(s, front, m, items);
    forall i | 0 <= i < |items| ensures Covers(RowNodes(k, r), Offer(l.nodes, m, items[i], d, r)) {
      ExtendedCoversNew(s, front, m, items, n, d, r, 0, i);
      SameOffer(l.nodes, front, m, items[i], d, r);
    }
  }

  /** What the last row becomes, as a row. */
  lemma OffersRow(lex: Lexicon, l: Lat, d: nat, m: nat)
    requires |l.rows| == Last(l) + 1 && d < |l.dmis| && m < l.rows[Last(l)].ndPos && NodeEnd(l, Last(l)) <= |l.nodes|
    ensures var k, r := WithOffers(lex, l, d, m), Last(l);
            var base, items, front := l.rows[r].ndPos, ItemsOf(lex, l, d), l.nodes[..l.rows[r].ndPos];
            && r < |k.rows| == |l.rows| && k.rows[r].ndPos == base
               && NodeEnd(k, r) == |k.nodes| == base + k.rows[r].ndNum && k.nodes[..base] == front
            && front[m] == l.nodes[m] && ItemsTried(l.nodes[m].step, |items|) <= |items|
            && (items != [] ==> ItemsTried(l.nodes[m].step, |items|) > 0)
            && RowNodes(k, r) == Extended(RowNodes(l, r), front, m, items,
                 ItemsTried(l.nodes[m].step, |items|), d, r, 0)
            && k.rows[r].ndNum == |RowNodes(k, r)|
  {
    hide Extended, ItemsOf;
    var k, r := WithOffers(lex, l, d, m), Last(l);
    var base := l.rows[r].ndPos;
    assert k.nodes[base..] == k.nodes[base..base + k.rows[r].ndNum];
  }

  lemma PartialShape(lex: Lexicon, l: Lat, d: nat, m: int)
    requires Partial(lex, l, d, m)
    ensures Last(l) < |l.rows| && NodeEnd(l, Last(l)) <= |l.nodes|
      && l.rows[Last(l)].ndPos + l.rows[Last(l)].ndNum == NodeEnd(l, Last(l))
    ensures RowShape(RowNodes(l, Last(l)))
  {
    hide RowShape, RowNodes;
  }

  lemma ShortRow(s: seq<Node>)
    requires RowShape(s)
    ensures |s| <= MAX_NODE_A_ROW
  {
  }

  lemma SameFront(nodes: seq<Node>, front: seq<Node>, m: nat, items: seq<LmaItem>, d: nat, r: nat, x: Node)
    requires m < |nodes| && m < |front| && front[m] == nodes[m]
    ensures OfferedBy(front, m, items, d, r, x) ==> OfferedBy(nodes, m, items, d, r, x)
  {
    if OfferedBy(front, m, items, d, r, x) {
      var i :| 0 <= i < |items| && x == Offer(front, m, items[i], d, r);
      SameOffer(nodes, front, m, items[i], d, r);
      hide Offer;
    }
  }

  lemma ItemsSorted(lex: Lexicon, l: Lat, d: nat)
    requires lex.Valid() && d < |l.dmis|
    ensures SortedItems(ItemsOf(lex, l, d))
  {
    hide SortedItems;
  }

  lemma NoneReached(s: seq<Node>, nodes: seq<Node>, m: nat, items: seq<LmaItem>)
    requires m < |nodes|
    ensures Reached(s, nodes, m, items, 0)
  {
  }

  lemma OffersSame(lex: Lexicon, l: Lat, k: Lat, r: nat)
    requires Stacked(l) && r == Last(l) > 0 && |k.rows| == |l.rows| && k.rows[..r] == l.rows[..r] && k.dmis == l.dmis
      && k.pys == l.pys
    requires l.rows[r].ndPos <= |k.nodes| && k.nodes[..l.rows[r].ndPos] == l.nodes[..l.rows[r].ndPos]
    ensures SameTo(l, k, r - 1)
  {
    assert After(l.rows[r - 1], l.rows[r]);
    var e, b := NodeEnd(l, r - 1), l.rows[r].ndPos;
    assert k.nodes[..e] == k.nodes[..b][..e] && l.nodes[..e] == l.nodes[..b][..e];
  }

  lemma OffersStacked(l: Lat, k: Lat, r: nat)
    requires Stacked(l) && r == Last(l) > 0 && |k.rows| == |l.rows| && k.rows[..r] == l.rows[..r] && k.dmis == l.dmis
      && k.pys == l.pys
    requires l.rows[r].ndPos <= |k.nodes| && k.nodes[..l.rows[r].ndPos] == l.nodes[..l.rows[r].ndPos]
    requires k.rows[r].ndPos == l.rows[r].ndPos && NodeEnd(k, r) == |k.nodes|
    requires k.rows[r].dmiPos == l.rows[r].dmiPos && k.rows[r].dmiNum == l.rows[r].dmiNum
    ensures Stacked(k)
  {
    forall q | 1 <= q < |k.rows| ensures After(k.rows[q - 1], k.rows[q]) {
      assert After(l.rows[q - 1], l.rows[q]);
      assert k.rows[..r][q - 1] == l.rows[..r][q - 1];
      if q < r {
        assert k.rows[..r][q] == l.rows[..r][q];
      }
    }
    assert k.rows[..r][0] == l.rows[..r][0];
    RowsOrdered(l, 0, r);
    assert k.nodes[..l.rows[r].ndPos][0] == l.nodes[..l.rows[r].ndPos][0];
  }

  /** One source node done. */
  lemma OfferStep(lex: Lexicon, l: Lat, d: nat, m: nat)
    requires lex.Valid() && Partial(lex, l, d, m) && NodeIn(l, Last(l) - l.dmis[d].splLen, m)
    ensures d < |l.dmis| && m < l.rows[Last(l)].ndPos && |l.rows| == Last(l) + 1 && NodeEnd(l, Last(l)) <= |l.nodes|
    ensures Partial(lex, WithOffers(lex, l, d, m), d, m + 1)
  {
    hide *;
    SourceBefore(lex, l, d, m);
    OffersIs(lex, l, d, m);
    OffersKeep(lex, l, d, m);
    OffersRow(lex, l, d, m);
    PartialGives(lex, l, d, m);
    var k, r := WithOffers(lex, l, d, m), Last(l);
    OffersSame(lex, l, k, r);
    OffersStacked(l, k, r);
    GrownIs(lex, l, k, r, d, m);
    forall q | 0 <= q < r ensures RowOk(lex, k, q) {
      RowKept(lex, l, k, r - 1, q);
    }
    forall e: int | DmiIn(k, r, e)
      ensures 0 <= e < |k.dmis| && DmiOk(lex, k, r, e) && (e != d ==> k.dmis[e].splLen <= r && DmiCovered(lex, k, r, e))
    {
      SameMatches(l, k, r, e);
      OffersDmiOk(lex, l, k, r, d, m, e);
      if e != d {
        OffersDmi(lex, l, k, r, d, m, e);
      }
    }
    forall n: int | NodeIn(k, r, n) ensures 0 <= n < |k.nodes| && NodeOk(lex, k, r, n) {
      LastNode(k, r, n);
      OffersNode(lex, l, k, r, d, m, n);
    }
    OffersCovered(lex, l, k, r, d, m);
    SameMatches(l, k, r, d);
    PartialIs(lex, k, d, m + 1);
  }

  /** What offers leave alone. */
  lemma OffersKeep(lex: Lexicon, l: Lat, d: nat, m: nat)
    requires |l.rows| == Last(l) + 1 && d < |l.dmis| && m < l.rows[Last(l)].ndPos && NodeEnd(l, Last(l)) <= |l.nodes|
    ensures var k, r := WithOffers(lex, l, d, m), Last(l);
            && k.dmis == l.dmis && k.pys == l.pys && |k.rows| == |l.rows| && k.rows[..r] == l.rows[..r]
            && k.rows[r].dmiPos == l.rows[r].dmiPos && k.rows[r].dmiNum == l.rows[r].dmiNum && !k.rows[r].fixed
               && Last(k) == r == |l.pys|
            && DmiEnd(k, r) == DmiEnd(l, r)
  {
    hide Extended, ItemsOf;
  }

  lemma LastNode(k: Lat, r: nat, n: int)
    requires r < |k.rows| && NodeEnd(k, r) == |k.nodes| && NodeIn(k, r, n)
    ensures 0 <= n < |k.nodes|
  {
  }

  lemma SameMatches(l: Lat, k: Lat, r: nat, e: int)
    requires r < |l.rows| && r < |k.rows| && k.rows[r].dmiPos == l.rows[r].dmiPos
      && k.rows[r].dmiNum == l.rows[r].dmiNum
    ensures (DmiIn(k, r, e) <==> DmiIn(l, r, e)) && (DmiIn(k, r, e) ==> e >= 0)
  {
  }

  lemma GrownIs(lex: Lexicon, l: Lat, k: Lat, r: nat, d: nat, m: nat)
    requires Stacked(l) && Stacked(k) && r == Last(l) > 0 && k.dmis == l.dmis && k.pys == l.pys && SameTo(l, k, r - 1)
    requires r < |l.rows| == |k.rows| && k.rows[r].ndPos == l.rows[r].ndPos && k.rows[r].dmiPos == l.rows[r].dmiPos
      && k.rows[r].dmiNum == l.rows[r].dmiNum
    requires NodeEnd(l, r) <= |l.nodes| && NodeEnd(k, r) == |k.nodes| && l.rows[r].ndPos <= |k.nodes|
    requires l.rows[r].ndPos + l.rows[r].ndNum <= |l.nodes| && k.rows[r].ndPos + k.rows[r].ndNum <= |k.nodes|
    requires k.nodes[..l.rows[r].ndPos] == l.nodes[..l.rows[r].ndPos] && d < |l.dmis| && m < l.rows[r].ndPos
    requires forall x ::
               x in RowNodes(k, r) ==> x in RowNodes(l, r) || OfferedBy(l.nodes, m, ItemsOf(lex, l, d), d, r, x)
    requires forall o :: Covers(RowNodes(l, r), o) ==> Covers(RowNodes(k, r), o)
    requires forall i ::
               0 <= i < |ItemsOf(lex, l, d)| ==> Covers(RowNodes(k, r), Offer(l.nodes, m, ItemsOf(lex, l, d)[i], d, r))
    ensures Grown(lex, l, k, r, d, m)
  {
    hide Stacked, SameTo, Covers, OfferedBy, Offer, ItemsOf, RowNodes;
  }

  lemma PartialGives(lex: Lexicon, l: Lat, d: nat, m: int)
    requires Partial(lex, l, d, m)
    ensures Stacked(l) && Last(l) == |l.pys| > 0 && NodeEnd(l, Last(l)) == |l.nodes| && DmiEnd(l, Last(l)) == |l.dmis|
    ensures |l.rows| == Last(l) + 1 && l.rows[Last(l)].ndPos + l.rows[Last(l)].ndNum == |l.nodes|
    ensures forall q :: 0 <= q < Last(l) ==> RowOk(lex, l, q)
    ensures forall e :: DmiIn(l, Last(l), e) ==> e < |l.dmis| && DmiOk(lex, l, Last(l), e)
    ensures forall e :: DmiIn(l, Last(l), e) && e != d ==> l.dmis[e].splLen <= Last(l) && DmiCovered(lex, l, Last(l), e)
    ensures forall n :: NodeIn(l, Last(l), n) ==> n < |l.nodes| && NodeOk(lex, l, Last(l), n)
    ensures DmiIn(l, Last(l), d) && d < |l.dmis| && 1 <= l.dmis[d].splLen <= Last(l) && CoveredBefore(lex, l, d, m)
  {
    hide RowShape, RowOk, After, CoveredBefore, DmiCovered, NodeOk, SameTo;
    assert DmiOk(lex, l, Last(l), d);
  }

  lemma PartialIs(lex: Lexicon, l: Lat, d: nat, m: int)
    requires Stacked(l) && Last(l) == |l.pys| > 0 && |l.rows| == Last(l) + 1 && NodeEnd(l, Last(l)) == |l.nodes|
      && DmiEnd(l, Last(l)) == |l.dmis|
    requires l.rows[Last(l)].ndPos + l.rows[Last(l)].ndNum == |l.nodes| && RowShape(RowNodes(l, Last(l)))
      && !l.rows[Last(l)].fixed
    requires forall q :: 0 <= q < Last(l) ==> RowOk(lex, l, q)
    requires forall e :: DmiIn(l, Last(l), e) ==> e < |l.dmis| && DmiOk(lex, l, Last(l), e)
    requires forall e ::
               DmiIn(l, Last(l), e) && e != d ==> l.dmis[e].splLen <= Last(l) && DmiCovered(lex, l, Last(l), e)
    requires forall n :: NodeIn(l, Last(l), n) ==> n < |l.nodes| && NodeOk(lex, l, Last(l), n)
    requires DmiIn(l, Last(l), d) && d < |l.dmis| && l.dmis[d].splLen <= Last(l) && CoveredBefore(lex, l, d, m)
    ensures Partial(lex, l, d, m)
  {
    hide RowShape, RowOk, After, CoveredBefore, DmiCovered, NodeOk, DmiOk, Stacked;
  }

  /** What stays of the lattice while the last row takes offers. */
  ghost predicate Grown(lex: Lexicon, l: Lat, k: Lat, r: nat, d: nat, m: nat) {
    && Stacked(l) && Stacked(k) && r == Last(l) > 0 && k.dmis == l.dmis && k.pys == l.pys && SameTo(l, k, r - 1)
    && k.rows[r].ndPos == l.rows[r].ndPos && k.rows[r].dmiPos == l.rows[r].dmiPos
       && k.rows[r].dmiNum == l.rows[r].dmiNum
    && k.nodes[..l.rows[r].ndPos] == l.nodes[..l.rows[r].ndPos]
    && d < |l.dmis| && m < l.rows[r].ndPos
    && (forall x :: x in RowNodes(k, r) ==> x in RowNodes(l, r) || OfferedBy(l.nodes, m, ItemsOf(lex, l, d), d, r, x))
    && (forall o :: Covers(RowNodes(l, r), o) ==> Covers(RowNodes(k, r), o))
    && (forall i ::
          0 <= i < |ItemsOf(lex, l, d)| ==> Covers(RowNodes(k, r), Offer(l.nodes, m, ItemsOf(lex, l, d)[i], d, r)))
  }

  lemma EarlierNode(lex: Lexicon, l: Lat, k: Lat, r: nat, d: nat, m: nat, q: nat, n: int)
    requires Grown(lex, l, k, r, d, m) && q < r && (NodeIn(l, q, n) || NodeIn(k, q, n))
    ensures NodeIn(l, q, n) && NodeIn(k, q, n) && 0 <= n < l.rows[r].ndPos <= |l.nodes| && n < |k.nodes|
      && k.nodes[n] == l.nodes[n]
  {
    SameRow(l, k, r - 1, q);
    RowsOrdered(l, q, r);
    assert k.nodes[..l.rows[r].ndPos][n] == l.nodes[..l.rows[r].ndPos][n];
  }

  lemma OffersDmiOk(lex: Lexicon, l: Lat, k: Lat, r: nat, d: nat, m: nat, e: nat)
    requires Grown(lex, l, k, r, d, m) && DmiIn(l, r, e) && e < |l.dmis| && DmiOk(lex, l, r, e)
    ensures r <= |k.pys| && e < |k.dmis| && DmiOk(lex, k, r, e)
  {
    SameRow(l, k, r - 1, r - LastLen(l, e));
    hide SameTo, Stacked, Covers, OfferedBy;
  }

  lemma OffersDmi(lex: Lexicon, l: Lat, k: Lat, r: nat, d: nat, m: nat, e: nat)
    requires Grown(lex, l, k, r, d, m) && DmiIn(l, r, e) && e < |l.dmis| && DmiOk(lex, l, r, e)
      && NodeEnd(l, r) <= |l.nodes|
    requires l.dmis[e].splLen <= r && DmiCovered(lex, l, r, e)
    ensures e < |k.dmis| && k.dmis[e].splLen <= r < |k.rows| && NodeEnd(k, r) <= |k.nodes| && DmiCovered(lex, k, r, e)
  {
    GrownEnds(lex, l, k, r, d, m, e);
    hide Covers, OfferedBy, Stacked, SameTo;
    var q := r - l.dmis[e].splLen;
    forall n, i | NodeIn(k, q, n) && n < |k.nodes| && 0 <= i < |ItemsOf(lex, k, e)|
      ensures Covers(RowNodes(k, r), Offer(k.nodes, n, ItemsOf(lex, k, e)[i], e, r))
    {
      EarlierNode(lex, l, k, r, d, m, q, n);
      assert Covers(RowNodes(l, r), Offer(l.nodes, n, ItemsOf(lex, l, e)[i], e, r));
    }
  }

  lemma GrownEnds(lex: Lexicon, l: Lat, k: Lat, r: nat, d: nat, m: nat, e: nat)
    requires Grown(lex, l, k, r, d, m) && e < |l.dmis| && DmiOk(lex, l, r, e)
    ensures 1 <= l.dmis[e].splLen <= r < |k.rows| && NodeEnd(k, r) <= |k.nodes|
    ensures k.rows[r].ndPos + k.rows[r].ndNum == NodeEnd(k, r)
  {
    hide Covers, OfferedBy, SameTo;
  }

  lemma OffersNode(lex: Lexicon, l: Lat, k: Lat, r: nat, d: nat, m: nat, n: nat)
    requires Grown(lex, l, k, r, d, m) && NodeIn(k, r, n) && n < |k.nodes| && NodeEnd(l, r) <= |l.nodes|
    requires forall i :: NodeIn(l, r, i) ==> NodeOk(lex, l, r, i)
    requires DmiIn(l, r, d) && DmiOk(lex, l, r, d) && NodeIn(l, r - l.dmis[d].splLen, m)
    requires forall e :: DmiIn(l, r, e) ==> e < |l.dmis| && DmiOk(lex, l, r, e)
    ensures NodeOk(lex, k, r, n)
  {
    hide *;
    var x := k.nodes[n];
    GrownNode(lex, l, k, r, d, m, n);
    if x in RowNodes(l, r) {
      var i := RowNodeAt(l, r, x);
      NodeMatch(lex, l, r, i);
      OldNode(lex, l, k, r, d, m, i, n);
    } else {
      NewNode(lex, l, k, r, d, m, n);
    }
  }

  lemma GrownNode(lex: Lexicon, l: Lat, k: Lat, r: nat, d: nat, m: nat, n: nat)
    requires Grown(lex, l, k, r, d, m) && NodeIn(k, r, n) && n < |k.nodes| && NodeEnd(l, r) <= |l.nodes|
    ensures r < |l.rows| && NodeEnd(l, r) == l.rows[r].ndPos + l.rows[r].ndNum && d < |l.dmis| && m < |l.nodes|
    ensures k.nodes[n] in RowNodes(l, r) || OfferedBy(l.nodes, m, ItemsOf(lex, l, d), d, r, k.nodes[n])
  {
    hide ItemsOf, OfferedBy, Covers;
    assert RowNodes(k, r)[n - k.rows[r].ndPos] == k.nodes[n];
    assert k.nodes[n] in RowNodes(k, r);
  }

  lemma RowNodeAt(l: Lat, r: nat, x: Node) returns (i: nat)
    requires r < |l.rows| && l.rows[r].ndPos + l.rows[r].ndNum <= |l.nodes| && x in RowNodes(l, r)
    ensures NodeIn(l, r, i) && i < |l.nodes| && l.nodes[i] == x
  {
    var s := RowNodes(l, r);
    var j :| 0 <= j < |s| && s[j] == x;
    i := l.rows[r].ndPos + j;
  }

  lemma NodeMatch(lex: Lexicon, l: Lat, r: nat, i: nat)
    requires i < |l.nodes| && NodeOk(lex, l, r, i)
    ensures DmiIn(l, r, l.nodes[i].dmi)
  {
  }

  /** A node that the row had. */
  lemma OldNode(lex: Lexicon, l: Lat, k: Lat, r: nat, d: nat, m: nat, i: nat, n: nat)
    requires Grown(lex, l, k, r, d, m) && i < |l.nodes| && n < |k.nodes| && k.nodes[n] == l.nodes[i]
      && NodeOk(lex, l, r, i)
    requires l.nodes[i].dmi >= 0 && l.nodes[i].dmi < |l.dmis| && DmiOk(lex, l, r, l.nodes[i].dmi)
    ensures NodeOk(lex, k, r, n)
  {
    var x := k.nodes[n];
    EarlierNode(lex, l, k, r, d, m, r - l.dmis[x.dmi].splLen, x.from);
    SameOffered(l, k, x.from, ItemsOf(lex, l, x.dmi), x.dmi, r, x);
    hide OfferedBy, Covers, Stacked;
  }

  /** A node that was offered now. */
  lemma NewNode(lex: Lexicon, l: Lat, k: Lat, r: nat, d: nat, m: nat, n: nat)
    requires Grown(lex, l, k, r, d, m) && n < |k.nodes| && m < |l.nodes|
      && OfferedBy(l.nodes, m, ItemsOf(lex, l, d), d, r, k.nodes[n])
    requires DmiIn(l, r, d) && DmiOk(lex, l, r, d) && NodeIn(l, r - l.dmis[d].splLen, m)
    ensures NodeOk(lex, k, r, n)
  {
    var x := k.nodes[n];
    EarlierNode(lex, l, k, r, d, m, r - l.dmis[d].splLen, m);
    SameOffered(l, k, m, ItemsOf(lex, l, d), d, r, x);
    OfferedStep(k.nodes, m, ItemsOf(lex, l, d), d, r, x);
    hide OfferedBy, Covers, Stacked;
  }

  lemma OfferedStep(nodes: seq<Node>, m: nat, items: seq<LmaItem>, d: nat, r: nat, x: Node)
    requires m < |nodes| && OfferedBy(nodes, m, items, d, r, x)
    ensures x.step == r && x.dmi == d && x.from == m
  {
  }

  lemma OffersCovered(lex: Lexicon, l: Lat, k: Lat, r: nat, d: nat, m: nat)
    requires Grown(lex, l, k, r, d, m) && DmiIn(l, r, d) && DmiOk(lex, l, r, d) && NodeIn(l, r - l.dmis[d].splLen, m)
    requires CoveredBefore(lex, l, d, m)
    ensures l.dmis[d].splLen <= Last(k) < |k.rows| && NodeEnd(k, Last(k)) <= |k.nodes|
      && CoveredBefore(lex, k, d, m + 1)
  {
    hide Covers;
    var q := r - l.dmis[d].splLen;
    forall n, i | NodeIn(k, q, n) && n < m + 1 && n < |k.nodes| && 0 <= i < |ItemsOf(lex, k, d)|
      ensures Covers(RowNodes(k, r), Offer(k.nodes, n, ItemsOf(lex, k, d)[i], d, r))
    {
      EarlierNode(lex, l, k, r, d, m, q, n);
      if n < m {
        assert Covers(RowNodes(l, r), Offer(l.nodes, n, ItemsOf(lex, l, d)[i], d, r));
      } else {
        assert Covers(RowNodes(k, r), Offer(l.nodes, m, ItemsOf(lex, l, d)[i], d, r));
      }
    }
  }

  /** When every node of the source row has offered, or there was nothing to offer, the row is in order. */
  lemma PartialDone(lex: Lexicon, l: Lat, d: nat, m: int)
    requires Partial(lex, l, d, m)
    requires NodeEnd(l, Last(l) - l.dmis[d].splLen) <= m || ItemsOf(lex, l, d) == []
    ensures LatOk(lex, l) && NodeEnd(l, Last(l)) == |l.nodes| && DmiEnd(l, Last(l)) == |l.dmis|
  {
    assert DmiCovered(lex, l, Last(l), d);
    assert RowOk(lex, l, Last(l));
  }

  /** When no character can be added, the row is given up; the match pool keeps what it used. */
  function Dropped(l: Lat): (k: Lat)
    requires |l.pys| > 0 && |l.rows| > 0
  {
    l.(rows := l.rows[..|l.rows| - 1], pys := l.pys[..|l.pys| - 1])
  }

  lemma DroppedOk(lex: Lexicon, l: Lat)
    requires LatOk(lex, l) && |l.pys| > 0 && l.rows[|l.pys|].ndNum == 0
    ensures LatOk(lex, Dropped(l))
  {
    var k, p := Dropped(l), |l.pys| - 1;
    CutFits(l, p);
    RowsBeforeEnd(l, p);
    forall r | 1 <= r < |k.rows| ensures After(k.rows[r - 1], k.rows[r]) {
      assert After(l.rows[r - 1], l.rows[r]);
    }
    assert l.rows[..p + 1] == k.rows[..p + 1] && l.pys[..p] == k.pys[..p];
    assert SameTo(l, k, p);
    forall q | 0 <= q <= p ensures RowOk(lex, k, q) {
      RowKept(lex, l, k, p, q);
    }
  }
}
