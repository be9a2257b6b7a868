/** Viterbi search is exact: what the kept nodes of a row say about all paths that lead to it. */
module LatticePaths {
  import opened Bytes
  import opened LatticeRow
  import opened Lattice

  /** A way to cover a beginning of the input with lemmas: each step takes a match of its row and one of
      the lemmas found for it. */
  datatype Path = Start | Then(prev: Path, row: nat, dmi: nat, item: nat)

  function End(p: Path): (r: nat) {
    if p.Start? then 0 else p.row
  }

  ghost predicate IsPath(lex: Lexicon, l: Lat, p: Path) {
    match p
    case Start => true
    case Then(prev, row, dmi, item) =>
      && IsPath(lex, l, prev) && 1 <= row <= |l.pys| && DmiIn(l, row, dmi) && dmi < |l.dmis|
      && row == End(prev) + l.dmis[dmi].splLen && item < |ItemsOf(lex, l, dmi)|
  }

  /** The score of a path: the sum of its lemmas' scores. */
  function Total(lex: Lexicon, l: Lat, p: Path): (s: nat) {
    match p
    case Start => 0
    case Then(prev, _, dmi, item) =>
      Total(lex, l, prev) +
        if dmi < |l.dmis| && item < |ItemsOf(lex, l, dmi)| then ItemsOf(lex, l, dmi)[item].psb else 0
  }

  /** The back links of node n spell out path p, and its score is the score of p. */
  ghost predicate Stands(lex: Lexicon, l: Lat, n: nat, p: Path)
    decreases p
  {
    n < |l.nodes| && l.nodes[n].score == Total(lex, l, p) &&
    match p
    case Start => n == 0
    case Then(prev, row, dmi, item) =>
      && dmi < |l.dmis| && item < |ItemsOf(lex, l, dmi)|
      && l.nodes[n].from >= 0 && Stands(lex, l, l.nodes[n].from, prev)
      && l.nodes[n] == Node(ItemsOf(lex, l, dmi)[item].id, Total(lex, l, p), l.nodes[n].from, dmi, row)
  }

  // ---- Row facts ----

  lemma RowAt(lex: Lexicon, l: Lat, r: nat)
    requires LatOk(lex, l) && r <= |l.pys|
    ensures RowOk(lex, l, r)
  {
  }

  lemma {:induction false} RowsBefore(l: Lat, r: nat)
    requires Stacked(l) && r < |l.rows|
    ensures l.rows[r].ndPos + l.rows[r].ndNum >= 1 && (r > 0 ==> l.rows[r].ndPos >= 1)
  {
    if r > 0 {
      RowsBefore(l, r - 1);
    }
  }

  lemma StartRow(lex: Lexicon, l: Lat, n: int)
    requires Stacked(l) && NodeIn(l, 0, n)
    ensures n == 0 && l.nodes[0] == START
  {
  }

  // ---- Every kept node stands for a path ----

  /** Each node's score is the sum of the lemma scores along its back links, which lead to the start. */
  lemma {:induction false} NodeHasPath(lex: Lexicon, l: Lat, r: nat, n: nat) returns (p: Path)
    requires LatOk(lex, l) && r <= |l.pys| && NodeIn(l, r, n)
    ensures IsPath(lex, l, p) && End(p) == r && Stands(lex, l, n, p)
    decreases r
  {
    if r == 0 {
      StartRow(lex, l, n);
      p := Start;
    } else {
      RowAt(lex, l, r);
      NodeFacts(lex, l, r, n);
      hide RowOk, LatOk, NodeOk;
      var x := l.nodes[n];
      var q := r - l.dmis[x.dmi].splLen;
      var prev := NodeHasPath(lex, l, q, x.from);
      var k :| 0 <= k < |ItemsOf(lex, l, x.dmi)| && x == Offer(l.nodes, x.from, ItemsOf(lex, l, x.dmi)[k], x.dmi, r);
      p := Then(prev, r, x.dmi, k);
    }
  }

  lemma NodeFacts(lex: Lexicon, l: Lat, r: nat, n: nat)
    requires LatOk(lex, l) && 0 < r <= |l.pys| && NodeIn(l, r, n)
    ensures n < |l.nodes| && NodeOk(lex, l, r, n) && l.nodes[n].from >= 0 && l.nodes[n].dmi >= 0
    ensures var x := l.nodes[n];
            && x.step == r && DmiIn(l, r, x.dmi) && x.dmi < |l.dmis| && 1 <= l.dmis[x.dmi].splLen <= r
            && NodeIn(l, r - l.dmis[x.dmi].splLen, x.from) && x.from < |l.nodes|
            && OfferedBy(l.nodes, x.from, ItemsOf(lex, l, x.dmi), x.dmi, r, x)
  {
    RowAt(lex, l, r);
    assert NodeOk(lex, l, r, n);
    assert DmiOk(lex, l, r, l.nodes[n].dmi);
    RowsBefore(l, r - l.dmis[l.nodes[n].dmi].splLen);
  }

  // ---- The best five ----

  /** At least five nodes of row r are as good as s. */
  ghost predicate FiveAsGood(l: Lat, r: nat, s: nat) {
    && r < |l.rows| && l.rows[r].ndNum == 5 && l.rows[r].ndPos + l.rows[r].ndNum <= |l.nodes|
    && forall n :: NodeIn(l, r, n) && n < |l.nodes| ==> l.nodes[n].score <= s
  }

  ghost predicate Kept(lex: Lexicon, l: Lat, r: nat, p: Path) {
    exists n :: NodeIn(l, r, n) && 0 <= n && Stands(lex, l, n, p)
  }

  function HeadScore(l: Lat, r: nat): (s: nat)
    requires r < |l.rows| && l.rows[r].ndNum > 0 && l.rows[r].ndPos < |l.nodes|
  {
    l.nodes[l.rows[r].ndPos].score
  }

  /** A covered offer shows that the row has a head, and that the head is as good. */
  lemma CoveredHead(l: Lat, r: nat, o: Node)
    requires r < |l.rows| && l.rows[r].ndPos + l.rows[r].ndNum <= |l.nodes| && RowShape(RowNodes(l, r))
      && Covers(RowNodes(l, r), o)
    ensures l.rows[r].ndNum > 0 && HeadScore(l, r) <= o.score
    ensures o.score <= HeadScore(l, r) + PRUNING_SCORE ==> o in RowNodes(l, r) || FiveAsGood(l, r, o.score)
  {
    var s := RowNodes(l, r);
    assert |s| > 0 ==> s[0] in s;
    if |s| == MAX_NODE_A_ROW && forall n :: n in s ==> n.score <= o.score {
      forall n | NodeIn(l, r, n) && n < |l.nodes| ensures l.nodes[n].score <= o.score {
        assert s[n - l.rows[r].ndPos] in s;
      }
    }
  }

  lemma OfferCovered(lex: Lexicon, l: Lat, r: nat, d: nat, m: nat, k: nat)
    requires LatOk(lex, l) && 0 < r <= |l.pys| && DmiIn(l, r, d) && d < |l.dmis| && l.dmis[d].splLen <= r
    requires NodeIn(l, r - l.dmis[d].splLen, m) && m < |l.nodes| && k < |ItemsOf(lex, l, d)|
    ensures r < |l.rows| && l.rows[r].ndPos + l.rows[r].ndNum <= |l.nodes| && RowShape(RowNodes(l, r))
    ensures Covers(RowNodes(l, r), Offer(l.nodes, m, ItemsOf(lex, l, d)[k], d, r))
  {
    RowAt(lex, l, r);
    assert DmiCovered(lex, l, r, d);
  }

  /** The path through an offer that was kept is kept. */
  lemma OfferStands(lex: Lexicon, l: Lat, r: nat, d: nat, m: nat, k: nat, p: Path)
    requires r < |l.rows| && l.rows[r].ndPos + l.rows[r].ndNum <= |l.nodes| && d < |l.dmis| && k < |ItemsOf(lex, l, d)|
    requires m < |l.nodes| && Stands(lex, l, m, p) && Offer(l.nodes, m, ItemsOf(lex, l, d)[k], d, r) in RowNodes(l, r)
    ensures Kept(lex, l, r, Then(p, r, d, k))
  {
    var s := RowNodes(l, r);
    var i :| 0 <= i < |s| && s[i] == Offer(l.nodes, m, ItemsOf(lex, l, d)[k], d, r);
    assert Stands(lex, l, l.rows[r].ndPos + i, Then(p, r, d, k));
  }

  ghost function Elements(s: seq<Node>): (e: set<Node>) {
    set n | n in s
  }

  lemma {:induction false} ElementsSize(s: seq<Node>)
    ensures |Elements(s)| <= |s|
  {
    if s != [] {
      ElementsSize(s[1..]);
      assert Elements(s) == Elements(s[1..]) + {s[0]};
    }
  }

  /** Five different members of a row are the whole row. */
  lemma FiveFillRow(s: seq<Node>, a: Node, b: Node, c: Node, d: Node, e: Node)
    requires |s| <= MAX_NODE_A_ROW && a in s && b in s && c in s && d in s && e in s
    requires a != b && a != c && a != d && a != e && b != c && b != d && b != e && c != d && c != e && d != e
    ensures |s| == MAX_NODE_A_ROW && forall n :: n in s ==> n == a || n == b || n == c || n == d || n == e
  {
    var five := {a, b, c, d, e};
    ElementsSize(s);
    assert |five| == 5;
    assert five <= Elements(s);
    Fills(five, Elements(s));
  }

  lemma Fills(a: set<Node>, b: set<Node>)
    requires a <= b && |b| <= |a|
    ensures a == b
  {
    assert |b - a| == |b| - |a|;
  }

  /** If five nodes of row q are at least as good as t, then five nodes of row r are as good as t plus the item. */
  lemma FiveOffers(lex: Lexicon, l: Lat, r: nat, d: nat, k: nat, t: nat)
    requires LatOk(lex, l) && 0 < r <= |l.pys| && DmiIn(l, r, d) && d < |l.dmis| && l.dmis[d].splLen <= r
    requires k < |ItemsOf(lex, l, d)| && FiveAsGood(l, r - l.dmis[d].splLen, t)
    requires r < |l.rows| && l.rows[r].ndNum > 0 && l.rows[r].ndPos < |l.nodes|
    requires t + ItemsOf(lex, l, d)[k].psb <= HeadScore(l, r) + PRUNING_SCORE
    ensures FiveAsGood(l, r, t + ItemsOf(lex, l, d)[k].psb)
  {
    var q := r - l.dmis[d].splLen;
    var m, item := l.rows[q].ndPos, ItemsOf(lex, l, d)[k];
    hide LatOk, ItemsOf, FiveAsGood, Covers, RowShape;
    forall i | m <= i < m + 5
      ensures i < |l.nodes| && l.rows[r].ndPos + l.rows[r].ndNum <= |l.nodes|
      ensures Offer(l.nodes, i, item, d, r) in RowNodes(l, r) || FiveAsGood(l, r, t + item.psb)
    {
      FiveGives(l, q, t, i);
      OfferCovered(lex, l, r, d, i, k);
      CoveredHead(l, r, Offer(l.nodes, i, item, d, r));
      FiveWeaken(l, r, l.nodes[i].score + item.psb, t + item.psb);
    }
    if !FiveAsGood(l, r, t + item.psb) {
      FiveRoom(l, q, t);
      FiveGives(l, q, t, m);
      OfferCovered(lex, l, r, d, m, k);
      FiveKept(lex, l, r, d, item, m, q, t);
    }
  }

  lemma FiveRoom(l: Lat, q: nat, t: nat)
    requires FiveAsGood(l, q, t)
    ensures l.rows[q].ndPos + 5 <= |l.nodes|
  {
  }

  lemma FiveGives(l: Lat, q: nat, t: nat, i: nat)
    requires FiveAsGood(l, q, t) && l.rows[q].ndPos <= i < l.rows[q].ndPos + 5
    ensures NodeIn(l, q, i) && i < |l.nodes| && l.nodes[i].score <= t
  {
  }

  lemma FiveWeaken(l: Lat, r: nat, s: nat, t: nat)
    requires s <= t
    ensures FiveAsGood(l, r, s) ==> FiveAsGood(l, r, t)
  {
  }

  lemma FiveKept(lex: Lexicon, l: Lat, r: nat, d: nat, item: LmaItem, m: nat, q: nat, t: nat)
    requires LatOk(lex, l) && r <= |l.pys| && m + 5 <= |l.nodes| && r < |l.rows|
      && l.rows[r].ndPos + l.rows[r].ndNum <= |l.nodes|
    requires FiveAsGood(l, q, t) && m == l.rows[q].ndPos
    requires forall i :: m <= i < m + 5 ==> Offer(l.nodes, i, item, d, r) in RowNodes(l, r)
    ensures FiveAsGood(l, r, t + item.psb)
  {
    var s := RowNodes(l, r);
    RowAt(lex, l, r);
    var v, w, x, y, z := Offer(l.nodes, m, item, d, r), Offer(l.nodes, m + 1, item, d, r),
      Offer(l.nodes, m + 2, item, d, r),
                         Offer(l.nodes, m + 3, item, d, r), Offer(l.nodes, m + 4, item, d, r);
    FiveGives(l, q, t, m);
    FiveGives(l, q, t, m + 1);
    FiveGives(l, q, t, m + 2);
    FiveGives(l, q, t, m + 3);
    FiveGives(l, q, t, m + 4);
    hide FiveAsGood, LatOk, RowOk, RowShape, NodeIn;
    FiveFillRow(s, v, w, x, y, z);
    AllWithin(l, r, t + item.psb);
  }

  lemma AllWithin(l: Lat, r: nat, t: nat)
    requires r < |l.rows| && l.rows[r].ndPos + l.rows[r].ndNum <= |l.nodes| && |RowNodes(l, r)| == MAX_NODE_A_ROW
    requires forall n :: n in RowNodes(l, r) ==> n.score <= t
    ensures FiveAsGood(l, r, t)
  {
    var s := RowNodes(l, r);
    forall n | NodeIn(l, r, n) && n < |l.nodes| ensures l.nodes[n].score <= t {
      assert s[n - l.rows[r].ndPos] in s;
    }
  }

  /** What a row keeps of path p: the path itself, or five nodes as good, unless p is too far behind the best. */
  ghost predicate Exact(lex: Lexicon, l: Lat, p: Path) {
    var r := End(p);
    && r < |l.rows| && l.rows[r].ndNum > 0 && l.rows[r].ndPos < |l.nodes|
    && HeadScore(l, r) <= Total(lex, l, p)
    && (Total(lex, l, p) <= HeadScore(l, r) + 8000 ==>
          Kept(lex, l, r, p) || FiveAsGood(l, r, Total(lex, l, p)))
  }

  /** Beam search loses nothing that matters: of all paths to a row, the head is the best, and among those within
      the pruning distance the kept nodes are the five best. */
  lemma {:induction false} SearchIsExact(lex: Lexicon, l: Lat, p: Path)
    requires LatOk(lex, l) && IsPath(lex, l, p)
    ensures Exact(lex, l, p)
  {
    match p
    case Start =>
      StartRowIs(l);
      assert Stands(lex, l, 0, p);
      assert NodeIn(l, 0, 0);
    case Then(prev, r, d, k) =>
      SearchIsExact(lex, l, prev);
      ExactStep(lex, l, prev, r, d, k);
  }

  lemma StartRowIs(l: Lat)
    requires Stacked(l)
    ensures l.rows[0] == START_ROW && l.nodes[0] == START
  {
  }

  lemma ExactStep(lex: Lexicon, l: Lat, prev: Path, r: nat, d: nat, k: nat)
    requires LatOk(lex, l) && IsPath(lex, l, Then(prev, r, d, k)) && Exact(lex, l, prev)
    ensures Exact(lex, l, Then(prev, r, d, k))
  {
    var p, q, item := Then(prev, r, d, k), End(prev), ItemsOf(lex, l, d)[k];
    var head := l.rows[q].ndPos;
    hide LatOk, ItemsOf, FiveAsGood, Covers, RowShape, IsPath, Stands;
    assert NodeIn(l, q, head);
    OfferCovered(lex, l, r, d, head, k);
    CoveredHead(l, r, Offer(l.nodes, head, item, d, r));
    var total := Total(lex, l, prev);
    assert Total(lex, l, p) == total + item.psb;
    if total + item.psb <= HeadScore(l, r) + PRUNING_SCORE {
      if Kept(lex, l, q, prev) {
        var n :| NodeIn(l, q, n) && 0 <= n && Stands(lex, l, n, prev);
        StandsScore(lex, l, n, prev);
        OfferCovered(lex, l, r, d, n, k);
        CoveredHead(l, r, Offer(l.nodes, n, item, d, r));
        if Offer(l.nodes, n, item, d, r) in RowNodes(l, r) {
          OfferStands(lex, l, r, d, n, k, prev);
        }
      } else {
        FiveOffers(lex, l, r, d, k, total);
      }
    }
  }

  lemma StandsScore(lex: Lexicon, l: Lat, n: nat, p: Path)
    requires Stands(lex, l, n, p)
    ensures n < |l.nodes| && l.nodes[n].score == Total(lex, l, p)
  {
  }

  /** The score of a row's head is the least total of any path that leads there, and some path has it. */
  lemma HeadIsBest(lex: Lexicon, l: Lat, r: nat, p: Path) returns (best: Path)
    requires LatOk(lex, l) && IsPath(lex, l, p) && End(p) == r
    ensures IsPath(lex, l, best) && End(best) == r && Total(lex, l, best) <= Total(lex, l, p)
    ensures r < |l.rows| && l.rows[r].ndNum > 0 && l.rows[r].ndPos < |l.nodes| && Total(lex, l, best) == HeadScore(l, r)
  {
    SearchIsExact(lex, l, p);
    PathEnd(lex, l, p);
    hide LatOk, IsPath, Stands;
    assert NodeIn(l, r, l.rows[r].ndPos);
    best := NodeHasPath(lex, l, r, l.rows[r].ndPos);
    StandsScore(lex, l, l.rows[r].ndPos, best);
  }

  lemma PathEnd(lex: Lexicon, l: Lat, p: Path)
    requires IsPath(lex, l, p)
    ensures End(p) <= |l.pys|
  {
  }
}
