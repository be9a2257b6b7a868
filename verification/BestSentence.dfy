/** What the decoder promises its user: the sentence it shows first is a best one. */
module BestSentence {
  import opened Bytes
  import opened LatticeRow
  import opened Lattice
  import opened LatticePaths
  import opened Traceback

  /** The lemmas of a path, front to back. */
  function PathLemmas(lex: Lexicon, l: Lat, p: Path): (ids: seq<nat>) {
    match p
    case Start => []
    case Then(prev, _, dmi, item) =>
      PathLemmas(lex, l, prev) +
        if dmi < |l.dmis| && item < |ItemsOf(lex, l, dmi)| then [ItemsOf(lex, l, dmi)[item].id] else []
  }

  /** Its spellings. */
  function PathSpellings(lex: Lexicon, l: Lat, p: Path): (ids: seq<nat>) {
    match p
    case Start => []
    case Then(prev, _, dmi, _) => PathSpellings(lex, l, prev) + if dmi < |l.dmis| then PathIds(l.dmis, dmi) else []
  }

  /** Walking back from a node reads off the path that it stands for. */
  lemma {:induction false} WalkReadsPath(lex: Lexicon, l: Lat, r: nat, n: nat, p: Path)
    requires LatOk(lex, l) && r <= |l.pys| && NodeIn(l, r, n) && IsPath(lex, l, p) && End(p) == r
      && Stands(lex, l, n, p)
    ensures LmaIdsTo(l, n, 0) == PathLemmas(lex, l, p) && SplIdsTo(l, n, 0) == PathSpellings(lex, l, p)
    decreases p
  {
    NodeLinked(lex, l, r, n);
    match p
    case Start =>
    case Then(prev, row, dmi, item) =>
      hide LatOk, ItemsOf;
      WalkReadsPath(lex, l, r - l.dmis[dmi].splLen, l.nodes[n].from, prev);
  }

  /** The lemmas and spellings that `get_spl_start_id` leaves are those of a path through the whole input, and no path
      through the whole input has a smaller total score. */
  lemma FirstSentenceIsBest(lex: Lexicon, l: Lat) returns (best: Path)
    requires LatOk(lex, l) && |l.pys| > 0 && l.rows[|l.pys|].ndNum > 0
    ensures IsPath(lex, l, best) && End(best) == |l.pys|
    ensures LmaIdsTo(l, l.rows[|l.pys|].ndPos, 0) == PathLemmas(lex, l, best)
    ensures SplIdsTo(l, l.rows[|l.pys|].ndPos, 0) == PathSpellings(lex, l, best)
    ensures forall p: Path :: IsPath(lex, l, p) && End(p) == |l.pys| ==> Total(lex, l, best) <= Total(lex, l, p)
  {
    var r, n := |l.pys|, l.rows[|l.pys|].ndPos;
    assert NodeIn(l, r, n);
    best := NodeHasPath(lex, l, r, n);
    WalkReadsPath(lex, l, r, n, best);
    StandsScore(lex, l, n, best);
    hide LatOk, IsPath, Stands, PathLemmas, PathSpellings;
    forall p: Path | IsPath(lex, l, p) && End(p) == r ensures Total(lex, l, best) <= Total(lex, l, p) {
      SearchIsExact(lex, l, p);
    }
  }
}
