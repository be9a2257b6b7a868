/** Milestones: what a lookup has reached so far, kept on two stacks so that the next spelling goes on from there. */
module Milestones {
  import opened Bytes
  import opened LemmaTrie
  import opened TrieNodes
  import opened TrieWalk

  type u24 = x: nat | x < OFFSET_RANGE

  /** Neighbouring nodes of one layer. */
  datatype ParsingMark = ParsingMark(nodeOffset: u24, nodeNum: u8)

  /** A stretch of marks. */
  datatype MileStone = MileStone(markStart: u16, markNum: u16)
  {
    function End(): (e: nat) {
      markStart as nat + markNum as nat
    }
  }

  /** The nodes of these marks. */
  function Marked(ms: seq<ParsingMark>): (ps: seq<nat>) {
    if ms == [] then [] else Positions(ms[0].nodeOffset, ms[0].nodeNum) + Marked(ms[1..])
  }

  lemma {:induction false} MarkedSnoc(ms: seq<ParsingMark>, m: ParsingMark)
    ensures Marked(ms + [m]) == Marked(ms) + Positions(m.nodeOffset, m.nodeNum)
  {
    Cons(ms, [m]);
    if ms == [] {
      assert Marked([m]) == Positions(m.nodeOffset, m.nodeNum) + [];
    } else {
      MarkedSnoc(ms[1..], m);
      Assoc(Positions(ms[0].nodeOffset, ms[0].nodeNum), Marked(ms[1..]), Positions(m.nodeOffset, m.nodeNum));
    }
  }

  lemma {:induction false} MarkedConcat(a: seq<ParsingMark>, b: seq<ParsingMark>)
    ensures Marked(a + b) == Marked(a) + Marked(b)
  {
    Cons(a, b);
    if a != [] {
      MarkedConcat(a[1..], b);
      Assoc(Positions(a[0].nodeOffset, a[0].nodeNum), Marked(a[1..]), Marked(b));
    }
  }

  /** The nodes of the first k marks come first, and then those of mark k. */
  lemma MarkedAt(ms: seq<ParsingMark>, k: nat, ext: nat)
    requires k < |ms| && ext <= ms[k].nodeNum
    ensures |Marked(ms[..k])| + ms[k].nodeNum as nat == |Marked(ms[..k + 1])| <= |Marked(ms)|
    ensures ext < ms[k].nodeNum ==>
              |Marked(ms[..k])| + ext < |Marked(ms)|
              && Marked(ms)[|Marked(ms[..k])| + ext] == ms[k].nodeOffset as nat + ext
  {
    hide Marked;
    assert ms[..k + 1] == ms[..k] + [ms[k]] && ms == ms[..k + 1] + ms[k + 1..];
    MarkedSnoc(ms[..k], ms[k]);
    MarkedConcat(ms[..k + 1], ms[k + 1..]);
  }

  /** The milestone marks what the asked spellings reach. */
  ghost predicate Stands(x: seq<Le0>, g: seq<Ge1>, h: seq<nat>, marks: seq<ParsingMark>, s: MileStone,
    q: seq<Range>, ts: seq<Trie>) {
    && q != [] && s.End() <= |marks|
    && var ps := Marked(marks[s.markStart as nat..s.End()]);
       if |q| == 1 then TopsAt(x, g, h, ps, Reach(ts, q)) else NodesAt(g, h, ps, Reach(ts, q))
  }

  /** Both stacks: milestone k stands for query k - 1, and no two share a mark. */
  ghost predicate Stacked(x: seq<Le0>, g: seq<Ge1>, h: seq<nat>, marks: seq<ParsingMark>, mp: nat,
    stones: seq<MileStone>, sp: nat,
                          queries: seq<seq<Range>>, ts: seq<Trie>) {
    && sp == |queries| + 1 <= |stones| && mp <= |marks|
    && (forall k :: 1 <= k < sp ==> stones[k].End() <= mp && Stands(x, g, h, marks, stones[k], queries[k - 1], ts))
    && (forall j, k :: 1 <= j < k < sp ==> stones[j].End() <= stones[k].markStart)
  }

  lemma StackEmpty(x: seq<Le0>, g: seq<Ge1>, h: seq<nat>, marks: seq<ParsingMark>,
    stones: seq<MileStone>, ts: seq<Trie>)
    requires |stones| > 0
    ensures Stacked(x, g, h, marks, 0, stones, 1, [], ts)
  {
  }

  lemma StandsStill(x: seq<Le0>, g: seq<Ge1>, h: seq<nat>, marks: seq<ParsingMark>, s: MileStone, q: seq<Range>,
    ts: seq<Trie>, mp: nat, marks': seq<ParsingMark>)
    requires Stands(x, g, h, marks, s, q, ts) && s.End() <= mp <= |marks| && mp <= |marks'|
      && marks'[..mp] == marks[..mp]
    ensures Stands(x, g, h, marks', s, q, ts)
  {
    var b, e := s.markStart as nat, s.End();
    forall k | b <= k < e ensures marks'[k] == marks[k] {
      assert marks'[..mp][k] == marks[..mp][k];
    }
    assert marks'[b..e] == marks[b..e];
    hide Marked, TopsAt, NodesAt, Reach;
  }

  lemma Pushed(x: seq<Le0>, g: seq<Ge1>, h: seq<nat>, marks: seq<ParsingMark>, mp: nat, stones: seq<MileStone>, sp: nat,
               queries: seq<seq<Range>>, ts: seq<Trie>, marks': seq<ParsingMark>, mp': nat,
                 stones': seq<MileStone>, q: seq<Range>)
    requires Stacked(x, g, h, marks, mp, stones, sp, queries, ts) && sp + 1 <= |stones'|
    requires mp <= mp' <= |marks'| < 0x1_0000 && marks'[..mp] == marks[..mp]
      && (forall k :: 1 <= k < sp ==> stones'[k] == stones[k])
    requires stones'[sp] == MileStone(mp, mp' - mp) && Stands(x, g, h, marks', stones'[sp], q, ts)
    ensures Stacked(x, g, h, marks', mp', stones', sp + 1, queries + [q], ts)
  {
    hide Stands;
    forall k | 1 <= k < sp ensures Stands(x, g, h, marks', stones'[k], (queries + [q])[k - 1], ts) {
      StandsStill(x, g, h, marks, stones[k], queries[k - 1], ts, mp, marks');
    }
  }

  /** Nothing that stood changes when marks behind the used ones are written. */
  lemma Untouched(x: seq<Le0>, g: seq<Ge1>, h: seq<nat>, marks: seq<ParsingMark>, mp: nat,
    stones: seq<MileStone>, sp: nat,
                  queries: seq<seq<Range>>, ts: seq<Trie>, marks': seq<ParsingMark>, stones': seq<MileStone>)
    requires Stacked(x, g, h, marks, mp, stones, sp, queries, ts) && sp <= |stones'| && mp <= |marks'|
    requires marks'[..mp] == marks[..mp] && (forall k :: 1 <= k < sp ==> stones'[k] == stones[k])
    ensures Stacked(x, g, h, marks', mp, stones', sp, queries, ts)
  {
    hide Stands;
    forall k | 1 <= k < sp ensures Stands(x, g, h, marks', stones'[k], queries[k - 1], ts) {
      StandsStill(x, g, h, marks, stones[k], queries[k - 1], ts, mp, marks');
    }
  }

  /** Cutting the stacks back at a milestone keeps all earlier ones. */
  lemma CutBack(x: seq<Le0>, g: seq<Ge1>, h: seq<nat>, marks: seq<ParsingMark>, mp: nat,
    stones: seq<MileStone>, sp: nat,
                queries: seq<seq<Range>>, ts: seq<Trie>, handle: nat)
    requires Stacked(x, g, h, marks, mp, stones, sp, queries, ts) && 1 <= handle < sp
    ensures Stacked(x, g, h, marks, stones[handle].markStart, stones, handle, queries[..handle - 1], ts)
  {
    hide Stands;
  }

  lemma StackGives(x: seq<Le0>, g: seq<Ge1>, h: seq<nat>, marks: seq<ParsingMark>, mp: nat,
    stones: seq<MileStone>, sp: nat,
                   queries: seq<seq<Range>>, ts: seq<Trie>, handle: nat)
    requires Stacked(x, g, h, marks, mp, stones, sp, queries, ts) && 1 <= handle < sp
    ensures sp == |queries| + 1 <= |stones| && mp <= |marks| && stones[handle].End() <= mp && queries[handle - 1] != []
    ensures var ps, q := Marked(marks[stones[handle].markStart as nat..stones[handle].End()]), queries[handle - 1];
            |ps| == |Reach(ts, q)|
            && if |q| == 1 then TopsAt(x, g, h, ps, Reach(ts, q)) else NodesAt(g, h, ps, Reach(ts, q))
  {
    hide Marked, Reach;
    assert Stands(x, g, h, marks, stones[handle], queries[handle - 1], ts);
  }

  // ---- Going on from a milestone ----

  /** For how many of these nodes some son is in the range. */
  function MarkCount(ts: seq<Trie>, r: Range): (n: nat) {
    if ts == [] then 0 else (if Selected(ts[0].sons, r) == [] then 0 else 1) + MarkCount(ts[1..], r)
  }

  lemma {:induction false} MarkCountConcat(a: seq<Trie>, b: seq<Trie>, r: Range)
    ensures MarkCount(a + b, r) == MarkCount(a, r) + MarkCount(b, r)
  {
    Cons(a, b);
    if a != [] {
      MarkCountConcat(a[1..], b, r);
    }
  }

  lemma MarkCountStep(ts: seq<Trie>, k: nat, r: Range)
    requires k < |ts|
    ensures MarkCount(ts[..k + 1], r) == MarkCount(ts[..k], r) + if Selected(ts[k].sons, r) == [] then 0 else 1
    ensures MarkCount(ts[..k + 1], r) <= MarkCount(ts, r)
  {
    assert ts[..k + 1] == ts[..k] + [ts[k]] && ts == ts[..k + 1] + ts[k + 1..];
    MarkCountConcat(ts[..k], [ts[k]], r);
    MarkCountConcat(ts[..k + 1], ts[k + 1..], r);
    assert MarkCount([], r) == 0;
  }

  /** Something is marked exactly when something is reached. */
  lemma {:induction false} MarkCountZero(ts: seq<Trie>, r: Range)
    ensures MarkCount(ts, r) == 0 <==> Selected(SonsOf(ts), r) == []
  {
    if ts != [] {
      MarkCountZero(ts[1..], r);
      SelectedConcat(ts[0].sons, SonsOf(ts[1..]), r);
    }
  }

  /** The marks and items after these nodes were extended. */
  ghost predicate Extended(g: seq<Ge1>, h: seq<nat>, ms: seq<ParsingMark>, items: seq<LpiItem>, ts: seq<Trie>, r: Range,
    len: nat, uniPsb: nat -> u16, max: nat) {
    && NodesAt(g, h, Marked(ms), Selected(SonsOf(ts), r)) && |ms| == MarkCount(ts, r)
    && items == Take(Lpis(HomosOf(Selected(SonsOf(ts), r)), len, uniPsb), max)
  }

  lemma NothingExtended(g: seq<Ge1>, h: seq<nat>, ts: seq<Trie>, r: Range, len: nat, uniPsb: nat -> u16, max: nat)
    ensures Extended(g, h, [], [], ts[..0], r, len, uniPsb, max)
  {
  }

  lemma JoinNodes(g: seq<Ge1>, h: seq<nat>, ps: seq<nat>, ts: seq<Trie>, ps': seq<nat>, ts': seq<Trie>)
    requires NodesAt(g, h, ps, ts) && NodesAt(g, h, ps', ts')
    ensures NodesAt(g, h, ps + ps', ts + ts')
  {
    hide NodeHolds;
  }

  lemma ExtendedStep(g: seq<Ge1>, h: seq<nat>, ms: seq<ParsingMark>, items: seq<LpiItem>, ts: seq<Trie>, k: nat,
    r: Range, len: nat, uniPsb: nat -> u16, max: nat,
                     off: nat, start: nat, num: nat, ms': seq<ParsingMark>, items': seq<LpiItem>)
    requires k < |ts| && Extended(g, h, ms, items, ts[..k], r, len, uniPsb, max)
    requires start + num <= |ts[k].sons| && Selected(ts[k].sons, r) == ts[k].sons[start..start + num]
      && (num > 0 ==> SonsAt(g, h, off, ts[k].sons))
    requires items' == Take(items + Lpis(HomosOf(Selected(ts[k].sons, r)), len, uniPsb), max)
    requires num == 0 ==> ms' == ms
    requires num > 0 ==> num < 0x100 && off + start < OFFSET_RANGE && ms' == ms + [ParsingMark(off + start, num)]
    ensures Extended(g, h, ms', items', ts[..k + 1], r, len, uniPsb, max)
  {
    hide Marked, Selected, SonsOf, HomosOf, NodesAt, SonsAt, MarkCount, Lpis;
    StepNodes(r, ts, k);
    MarkCountStep(ts, k, r);
    var a, b := Selected(SonsOf(ts[..k]), r), Selected(ts[k].sons, r);
    HomosOfConcat(a, b);
    LpisConcat(HomosOf(a), HomosOf(b), len, uniPsb);
    TakeMore(Lpis(HomosOf(a), len, uniPsb), Lpis(HomosOf(b), len, uniPsb), max);
    if num > 0 {
      MarkedSnoc(ms, ParsingMark(off + start, num));
      BlockAt(g, h, off, ts[k].sons, start, num);
      JoinNodes(g, h, Marked(ms), a, Positions(off + start, num), b);
    } else {
      assert b == [] && a + b == a;
    }
  }
}
