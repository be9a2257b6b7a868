/** One row of the search lattice: at most five nodes, best first, filled in place at the end of the node pool. */
module LatticeRow {
  import opened Bytes

  const MAX_NODE_A_ROW: nat := 5
  const NODE_POOL_SIZE: nat := 200
  const PRUNING_SCORE: nat := 8000

  /** A lemma found for a spelling; a smaller score is better. */
  datatype LmaItem = LmaItem(id: nat, psb: u16)

  /** MatrixNode: `from` and `dmi` are pool positions, -1 for none. */
  datatype Node = Node(id: nat, score: nat, from: int, dmi: int, step: nat)

  ghost predicate SortedNodes(s: seq<Node>) {
    forall i, j :: 0 <= i < j < |s| ==> s[i].score <= s[j].score
  }

  ghost predicate RowShape(s: seq<Node>) {
    |s| <= MAX_NODE_A_ROW && SortedNodes(s)
  }

  /** What a lemma offers to a row when it follows node m. */
  function Offer(nodes: seq<Node>, m: nat, item: LmaItem, dmi: nat, row: nat): (x: Node)
    requires m < |nodes|
  {
    Node(item.id, nodes[m].score + item.psb, m, dmi, row)
  }

  // ---- Inserting one node ----

  /** The position that the shifting loop reaches from j. */
  function Place(s: seq<Node>, score: nat, j: nat): (p: nat)
    requires j <= |s|
    ensures p <= j && (p > 0 ==> s[p - 1].score <= score)
    ensures forall i :: p <= i < j ==> s[i].score > score
  {
    if j > 0 && score < s[j - 1].score then Place(s, score, j - 1) else j
  }

  /** The row after one more node was offered: sorted in after its equals, and cut to five. */
  function Inserted(s: seq<Node>, x: Node): (r: seq<Node>)
    ensures |r| == if |s| < MAX_NODE_A_ROW then |s| + 1 else |s|
  {
    var p := Place(s, x.score, |s|);
    if p == |s| && |s| >= MAX_NODE_A_ROW then s
    else if |s| < MAX_NODE_A_ROW then s[..p] + [x] + s[p..]
    else s[..p] + [x] + s[p..|s| - 1]
  }

  lemma InsertedShape(s: seq<Node>, x: Node)
    requires RowShape(s)
    ensures RowShape(Inserted(s, x)) && Inserted(s, x) != [] && Inserted(s, x)[0].score <= x.score
    ensures s != [] ==> Inserted(s, x)[0].score <= s[0].score
    ensures forall n :: n in Inserted(s, x) ==> n in s || n == x
  {
    var r, p := Inserted(s, x), Place(s, x.score, |s|);
    InsertedAt(s, x);
    hide Inserted, Place;
    forall i, j | 0 <= i < j < |r| ensures r[i].score <= r[j].score {
    }
    forall n | n in r ensures n in s || n == x {
      var k :| 0 <= k < |r| && r[k] == n;
    }
  }

  /** Entry k of s with x put in at p. */
  function EntryWith(s: seq<Node>, x: Node, p: nat, k: nat): (n: Node)
    requires p <= |s| && k <= |s|
  {
    if k < p then s[k] else if k == p then x else s[k - 1]
  }

  /** Entry by entry. */
  lemma InsertedAt(s: seq<Node>, x: Node)
    requires RowShape(s)
    ensures var r, p := Inserted(s, x), Place(s, x.score, |s|);
            && p <= |s| && (p > 0 ==> s[p - 1].score <= x.score) && (p < |s| ==> x.score < s[p].score)
            && |r| <= MAX_NODE_A_ROW && r != []
            && forall k :: 0 <= k < |r| ==> r[k] == EntryWith(s, x, p, k)
  {
  }

  /** An offer is kept, or five nodes at least as good are, or it is too far behind the best. */
  ghost predicate Covers(s: seq<Node>, o: Node) {
    || o in s
    || (|s| == MAX_NODE_A_ROW && forall n :: n in s ==> n.score <= o.score)
    || (s != [] && o.score > s[0].score + PRUNING_SCORE)
  }

  lemma InsertedCoversNew(s: seq<Node>, x: Node)
    requires RowShape(s)
    ensures Covers(Inserted(s, x), x)
  {
    var p := Place(s, x.score, |s|);
    if !(p == |s| && |s| >= MAX_NODE_A_ROW) {
      assert Inserted(s, x)[p] == x;
    }
  }

  lemma InsertedCoversOld(s: seq<Node>, x: Node, o: Node)
    requires RowShape(s) && Covers(s, o)
    ensures Covers(Inserted(s, x), o)
  {
    var r, p := Inserted(s, x), Place(s, x.score, |s|);
    InsertedShape(s, x);
    InsertedAt(s, x);
    InsertedSize(s, x);
    hide Inserted, Place;
    if o in s {
      var i :| 0 <= i < |s| && s[i] == o;
      if i < p {
        assert r[i] == o;
      } else if i + 1 < |r| {
        assert r[i + 1] == o;
      } else {
        LastDropped(s, x, r, o, i);
      }
    } else if |s| == MAX_NODE_A_ROW && forall n :: n in s ==> n.score <= o.score {
      assert s[|s| - 1] in s;
      forall n | n in r ensures n.score <= o.score {
      }
    }
  }

  lemma InsertedSize(s: seq<Node>, x: Node)
    ensures |Inserted(s, x)| == if |s| < MAX_NODE_A_ROW then |s| + 1 else |s|
    ensures Place(s, x.score, |s|) == |s| && |s| >= MAX_NODE_A_ROW ==> Inserted(s, x) == s
  {
  }

  /** The node that falls off the end is no better than those that stay. */
  lemma LastDropped(s: seq<Node>, x: Node, r: seq<Node>, o: Node, i: nat)
    requires RowShape(s) && |r| == |s| == MAX_NODE_A_ROW && i == |s| - 1 && s[i] == o && x.score <= o.score
    requires forall n :: n in r ==> n in s || n == x
    ensures Covers(r, o)
  {
    forall n | n in r ensures n.score <= o.score {
    }
  }

  /** As more offers come in, the k-th best score never gets worse, and the new one counts. */
  lemma InsertedBest(s: seq<Node>, x: Node, k: nat, best: nat)
    requires RowShape(s) && k <= |s| && (k > 0 ==> s[k - 1].score <= best) && best <= x.score
    ensures |Inserted(s, x)| >= k && (k > 0 ==> Inserted(s, x)[k - 1].score <= best)
    ensures k < MAX_NODE_A_ROW ==> |Inserted(s, x)| >= k + 1 && Inserted(s, x)[k].score <= x.score
  {
  }

  // ---- extend_mtrx_nd ----

  /** The items a source node may offer: from the start of the sentence only the first five. */
  function ItemsTried(step: nat, n: nat): (k: nat)
    ensures k <= n
  {
    if step == 0 && n > MAX_NODE_A_ROW then MAX_NODE_A_ROW else n
  }

  /** The row after the items from pos on were offered. */
  function Extended(s: seq<Node>, nodes: seq<Node>, m: nat, items: seq<LmaItem>, n: nat, dmi: nat, row: nat,
    pos: nat): (r: seq<Node>)
    requires m < |nodes| && pos <= n <= |items|
    decreases n - pos
  {
    if pos == n then s
    else
      var x := Offer(nodes, m, items[pos], dmi, row);
      if pos > 0 && s != [] && x.score > s[0].score + PRUNING_SCORE then s
      else Extended(Inserted(s, x), nodes, m, items, n, dmi, row, pos + 1)
  }

  ghost predicate SortedItems(items: seq<LmaItem>) {
    forall i, j :: 0 <= i < j < |items| ==> items[i].psb <= items[j].psb
  }

  /** x is what node m offers with one of the items. */
  ghost predicate OfferedBy(nodes: seq<Node>, m: nat, items: seq<LmaItem>, dmi: nat, row: nat, x: Node)
    requires m < |nodes|
  {
    exists k :: 0 <= k < |items| && x == Offer(nodes, m, items[k], dmi, row)
  }

  lemma {:induction false} ExtendedShape(s: seq<Node>, nodes: seq<Node>, m: nat, items: seq<LmaItem>, n: nat, dmi: nat,
    row: nat, pos: nat)
    requires RowShape(s) && m < |nodes| && pos <= n <= |items|
    ensures var r := Extended(s, nodes, m, items, n, dmi, row, pos);
            && RowShape(r) && (s != [] ==> r != [] && r[0].score <= s[0].score) && (pos == 0 < n ==> r != [])
            && forall x :: x in r ==> x in s || OfferedBy(nodes, m, items, dmi, row, x)
    decreases n - pos
  {
    hide *;
    ExtendedIs(s, nodes, m, items, n, dmi, row, pos);
    if pos < n {
      var x := Offer(nodes, m, items[pos], dmi, row);
      if !(pos > 0 && s != [] && x.score > s[0].score + PRUNING_SCORE) {
        InsertedShape(s, x);
        ExtendedShape(Inserted(s, x), nodes, m, items, n, dmi, row, pos + 1);
        OfferedIs(nodes, m, items, dmi, row, pos);
      }
    }
  }

  lemma OfferedIs(nodes: seq<Node>, m: nat, items: seq<LmaItem>, dmi: nat, row: nat, i: nat)
    requires m < |nodes| && i < |items|
    ensures OfferedBy(nodes, m, items, dmi, row, Offer(nodes, m, items[i], dmi, row))
  {
    hide Offer;
  }

  /** What the row covers, it still covers. */
  lemma {:induction false} ExtendedCoversOld(s: seq<Node>, nodes: seq<Node>, m: nat, items: seq<LmaItem>, n: nat,
    dmi: nat, row: nat, pos: nat, o: Node)
    requires RowShape(s) && m < |nodes| && pos <= n <= |items| && Covers(s, o)
    ensures Covers(Extended(s, nodes, m, items, n, dmi, row, pos), o)
    decreases n - pos
  {
    if pos < n {
      var x := Offer(nodes, m, items[pos], dmi, row);
      if !(pos > 0 && s != [] && x.score > s[0].score + PRUNING_SCORE) {
        InsertedShape(s, x);
        InsertedCoversOld(s, x, o);
        ExtendedCoversOld(Inserted(s, x), nodes, m, items, n, dmi, row, pos + 1, o);
      }
    }
  }

  /** The first `pos` items already reached the row: its pos-th node is no worse than the last of them. */
  ghost predicate Reached(s: seq<Node>, nodes: seq<Node>, m: nat, items: seq<LmaItem>, pos: nat)
    requires m < |nodes| && pos <= |items|
  {
    var k := if pos < MAX_NODE_A_ROW then pos else MAX_NODE_A_ROW;
    k <= |s| && (k > 0 ==> s[k - 1].score <= nodes[m].score + items[pos - 1].psb)
  }

  /** Every item is covered afterwards, those cut off by `ItemsTried` included. */
  lemma {:induction false} ExtendedCoversNew(s: seq<Node>, nodes: seq<Node>, m: nat, items: seq<LmaItem>, n: nat,
    dmi: nat, row: nat, pos: nat, k: nat)
    requires RowShape(s) && m < |nodes| && pos <= n <= |items| && SortedItems(items)
    requires n == ItemsTried(nodes[m].step, |items|) && Reached(s, nodes, m, items, pos) && pos <= k < |items|
    ensures Covers(Extended(s, nodes, m, items, n, dmi, row, pos), Offer(nodes, m, items[k], dmi, row))
    decreases n - pos
  {
    hide *;
    var o := Offer(nodes, m, items[k], dmi, row);
    ExtendedIs(s, nodes, m, items, n, dmi, row, pos);
    if pos == n {
      NotTriedCovered(s, nodes, m, items, dmi, row, k);
    } else {
      var x := Offer(nodes, m, items[pos], dmi, row);
      if pos > 0 && s != [] && x.score > s[0].score + PRUNING_SCORE {
        PrunedCovered(s, nodes, m, items, dmi, row, pos, k);
      } else {
        InsertedShape(s, x);
        ReachedNext(s, nodes, m, items, dmi, row, pos);
        if k == pos {
          InsertedCoversNew(s, x);
          ExtendedCoversOld(Inserted(s, x), nodes, m, items, n, dmi, row, pos + 1, o);
        } else {
          ExtendedCoversNew(Inserted(s, x), nodes, m, items, n, dmi, row, pos + 1, k);
        }
      }
    }
  }

  /** The items behind the first five that a node of the first row offers. */
  lemma NotTriedCovered(s: seq<Node>, nodes: seq<Node>, m: nat, items: seq<LmaItem>, dmi: nat, row: nat, k: nat)
    requires RowShape(s) && m < |nodes| && SortedItems(items) && k < |items| && ItemsTried(nodes[m].step, |items|) <= k
    requires Reached(s, nodes, m, items, ItemsTried(nodes[m].step, |items|))
    ensures Covers(s, Offer(nodes, m, items[k], dmi, row))
  {
    LastIsWorst(s, Offer(nodes, m, items[k], dmi, row));
    hide Covers;
  }

  /** The items behind the one at which the loop breaks off. */
  lemma PrunedCovered(s: seq<Node>, nodes: seq<Node>, m: nat, items: seq<LmaItem>, dmi: nat, row: nat, pos: nat, k: nat)
    requires m < |nodes| && SortedItems(items) && pos <= k < |items| && s != []
    requires Offer(nodes, m, items[pos], dmi, row).score > s[0].score + PRUNING_SCORE
    ensures Covers(s, Offer(nodes, m, items[k], dmi, row))
  {
  }

  lemma LastIsWorst(s: seq<Node>, o: Node)
    requires RowShape(s) && |s| == MAX_NODE_A_ROW && s[MAX_NODE_A_ROW - 1].score <= o.score
    ensures Covers(s, o)
  {
    forall n | n in s ensures n.score <= o.score {
    }
  }

  lemma ReachedNext(s: seq<Node>, nodes: seq<Node>, m: nat, items: seq<LmaItem>, dmi: nat, row: nat, pos: nat)
    requires RowShape(s) && m < |nodes| && pos < |items| && SortedItems(items) && Reached(s, nodes, m, items, pos)
    ensures Reached(Inserted(s, Offer(nodes, m, items[pos], dmi, row)), nodes, m, items, pos + 1)
  {
    var x := Offer(nodes, m, items[pos], dmi, row);
    var k := if pos < MAX_NODE_A_ROW then pos else MAX_NODE_A_ROW;
    hide Inserted, Place;
    InsertedBest(s, x, k, if k > 0 then nodes[m].score + items[pos - 1].psb else x.score);
  }

  /** `extend_mtrx_nd`: the row at `base` takes the offers of node m, in place. The pool guard is never the reason
      to stop when there is room for a whole row. */
  method ExtendMtrxNd(pool: array<Node>, used: nat, base: nat, num: nat, m: nat, items: seq<LmaItem>,
    dmi: nat, row: nat)
    returns (num': nat)
    requires pool.Length == NODE_POOL_SIZE && m < base <= used < NODE_POOL_SIZE - MAX_NODE_A_ROW
    requires num <= MAX_NODE_A_ROW && RowShape(pool[base..base + num])
    modifies pool
    ensures num' <= MAX_NODE_A_ROW && pool[..base] == old(pool[..base])
    ensures pool[base..base + num'] == Extended(old(pool[base..base + num]), old(pool[..base]), m, items,
                                                ItemsTried(old(pool[m]).step, |items|), dmi, row, 0)
  {
    hide *;
    ghost var front := pool[..base];
    ghost var s0 := pool[base..base + num];
    Sizes();
    if used >= NODE_POOL_SIZE - MAX_NODE_A_ROW {
      return num;
    }
    var n := ItemsTried(pool[m].step, |items|);
    num' := num;
    var pos := 0;
    while pos < n
      invariant pos <= n && num' <= MAX_NODE_A_ROW && pool[..base] == front && (pos > 0 ==> num' > 0)
      invariant RowShape(pool[base..base + num'])
      invariant Extended(pool[base..base + num'], front, m, items, n, dmi, row, pos)
                  == Extended(s0, front, m, items, n, dmi, row, 0)
    {
      ghost var s := pool[base..base + num'];
      assert front[m] == pool[m];
      ExtendedIs(s, front, m, items, n, dmi, row, pos);
      var score := pool[m].score + items[pos].psb;
      if pos > 0 && score > pool[base].score + PRUNING_SCORE {
        assert s[0] == pool[base];
        return;
      }
      var x := Node(items[pos].id, score, m, dmi, row);
      num' := InsertNode(pool, base, num', x);
      InsertedShape(s, x);
      pos := pos + 1;
    }
    ExtendedIs(pool[base..base + num'], front, m, items, n, dmi, row, pos);
  }

  lemma Sizes()
    ensures MAX_NODE_A_ROW == 5 && NODE_POOL_SIZE == 200 && PRUNING_SCORE == 8000
  {
  }

  lemma ExtendedIs(s: seq<Node>, nodes: seq<Node>, m: nat, items: seq<LmaItem>, n: nat, dmi: nat, row: nat, pos: nat)
    requires m < |nodes| && pos <= n <= |items|
    ensures pos == n ==> Extended(s, nodes, m, items, n, dmi, row, pos) == s
    ensures pos < n ==>
              var x := Offer(nodes, m, items[pos], dmi, row);
              && x == Node(items[pos].id, nodes[m].score + items[pos].psb, m, dmi, row)
              && Extended(s, nodes, m, items, n, dmi, row, pos) ==
                 if pos > 0 && s != [] && x.score > s[0].score + PRUNING_SCORE then s
                 else Extended(Inserted(s, x), nodes, m, items, n, dmi, row, pos + 1)
  {
  }

  /** While slot base + res is free: the slots before it are as they were, those after it moved up by one. */
  ghost predicate Shifting(was: seq<Node>, now: seq<Node>, base: nat, num: nat, res: nat) {
    && res <= num <= MAX_NODE_A_ROW && base + MAX_NODE_A_ROW <= |was| == |now|
    && now[..base + res] == was[..base + res]
    && (forall k :: base + res < k <= base + num && k < base + MAX_NODE_A_ROW ==> now[k] == Before(was, k))
  }

  function Before(was: seq<Node>, k: nat): (n: Node)
    requires 0 < k <= |was|
  {
    was[k - 1]
  }

  lemma ShiftStart(was: seq<Node>, base: nat, num: nat)
    requires num <= MAX_NODE_A_ROW && base + MAX_NODE_A_ROW <= |was|
    ensures Shifting(was, was, base, num, num)
  {
  }

  lemma ShiftStep(was: seq<Node>, now: seq<Node>, base: nat, num: nat, res: nat)
    requires Shifting(was, now, base, num, res) && res > 0
    ensures base + res <= |now| && (res < MAX_NODE_A_ROW ==> base + res < |now|)
    ensures Shifting(was, if res < MAX_NODE_A_ROW then now[base + res := now[base + res - 1]] else now,
              base, num, res - 1)
    ensures base + num <= |was| && now[base + res - 1] == was[base..base + num][res - 1]
  {
    assert now[..base + res][base + res - 1] == was[..base + res][base + res - 1];
    assert forall k :: 0 <= k < base + res - 1 ==> now[k] == was[..base + res][k];
    var next := if res < MAX_NODE_A_ROW then now[base + res := now[base + res - 1]] else now;
    assert next[..base + res - 1] == was[..base + res - 1];
  }

  lemma ShiftEnd(was: seq<Node>, now: seq<Node>, base: nat, num: nat, res: nat, x: Node, num': nat)
    requires Shifting(was, now, base, num, res) && RowShape(was[base..base + num])
    requires res == Place(was[base..base + num], x.score, num)
    requires num' == if num < MAX_NODE_A_ROW then num + 1 else num
    ensures var next := if res < num || num < MAX_NODE_A_ROW then now[base + res := x] else now;
            && num' <= MAX_NODE_A_ROW && base + num' <= |next|
            && next[..base] == was[..base] && next[base..base + num'] == Inserted(was[base..base + num], x)
  {
    var s := was[base..base + num];
    var next := if res < num || num < MAX_NODE_A_ROW then now[base + res := x] else now;
    var r := next[base..base + num'];
    ShiftFront(was, now, base, num, res);
    forall k | 0 <= k < |r| ensures r[k] == EntryWith(s, x, res, k) {
      if k != res {
        ShiftEntry(was, now, base, num, res, x, k);
      }
    }
    hide *;
    InsertedIs(s, x, r, res);
  }

  lemma ShiftFront(was: seq<Node>, now: seq<Node>, base: nat, num: nat, res: nat)
    requires Shifting(was, now, base, num, res)
    ensures now[..base] == was[..base]
  {
    assert now[..base] == now[..base + res][..base] && was[..base] == was[..base + res][..base];
  }

  lemma ShiftEntry(was: seq<Node>, now: seq<Node>, base: nat, num: nat, res: nat, x: Node, k: nat)
    requires Shifting(was, now, base, num, res) && k <= num && k < MAX_NODE_A_ROW && k != res
    ensures now[base + k] == EntryWith(was[base..base + num], x, res, k)
  {
    if k < res {
      assert now[..base + res][base + k] == was[..base + res][base + k];
    } else {
      assert now[base + k] == Before(was, base + k);
    }
  }

  /** The shifting loop and the store. */
  method InsertNode(pool: array<Node>, base: nat, num: nat, x: Node) returns (num': nat)
    requires num <= MAX_NODE_A_ROW && base + MAX_NODE_A_ROW <= pool.Length && RowShape(pool[base..base + num])
    modifies pool
    ensures num' <= MAX_NODE_A_ROW && num' > 0 && pool[..base] == old(pool[..base])
    ensures pool[base..base + num'] == Inserted(old(pool[base..base + num]), x)
  {
    hide *;
    Sizes();
    ghost var was := pool[..];
    ghost var s := was[base..base + num];
    ShiftStart(was, base, num);
    var res: nat := num;
    var replace := false;
    num' := num;
    PlaceIs(s, x.score, num);
    while res > 0 && x.score < pool[base + res - 1].score
      invariant res <= num && (replace <==> res < num)
      invariant Place(s, x.score, res) == Place(s, x.score, num)
      invariant Shifting(was, pool[..], base, num, res)
    {
      ghost var now := pool[..];
      ShiftStep(was, now, base, num, res);
      PlaceIs(s, x.score, res);
      if res < MAX_NODE_A_ROW {
        pool[base + res] := pool[base + res - 1];
        assert pool[..] == now[base + res := now[base + res - 1]];
      }
      res := res - 1;
      replace := true;
    }
    ghost var now := pool[..];
    if res > 0 {
      ShiftStep(was, now, base, num, res);
    }
    PlaceIs(s, x.score, res);
    if replace || num < MAX_NODE_A_ROW {
      pool[base + res] := x;
      assert pool[..] == now[base + res := x];
      if num < MAX_NODE_A_ROW {
        num' := num + 1;
      }
    }
    ShiftEnd(was, now, base, num, res, x, num');
    assert pool[..base] == pool[..][..base] && pool[base..base + num'] == pool[..][base..base + num'];
  }

  lemma PlaceIs(s: seq<Node>, score: nat, j: nat)
    requires j <= |s|
    ensures Place(s, score, j) == if j > 0 && score < s[j - 1].score then Place(s, score, j - 1) else j
  {
  }

  lemma InsertedIs(s: seq<Node>, x: Node, r: seq<Node>, res: nat)
    requires RowShape(s) && res == Place(s, x.score, |s|)
    requires |r| == if |s| < MAX_NODE_A_ROW then |s| + 1 else |s|
    requires forall k :: 0 <= k < |r| ==> r[k] == EntryWith(s, x, res, k)
    ensures r == Inserted(s, x)
  {
    var t := Inserted(s, x);
    InsertedAt(s, x);
    hide *;
    forall k | 0 <= k < |r| ensures r[k] == t[k] {
    }
  }
}
