/** `reclaim`: a bounded max-heap picks the lowest-scored entries, which are then removed. */
module ScoreHeap {
  import opened Bytes
  import opened LemmaBlock
  import opened DictModel

  /** UserDictScoreOffsetPair; scores are compared as signed 32-bit numbers. */
  datatype Pair = Pair(score: int, index: nat)

  function Signed(s: u32): (v: int) {
    if s < 0x8000_0000 then s else s - WORD_RANGE
  }

  ghost predicate ScoresDistinct(s: seq<Pair>) {
    forall i, j :: 0 <= i < j < |s| ==> s[i].score != s[j].score
  }

  /** Node c does not exceed its parent. */
  ghost predicate Below(s: seq<Pair>, c: nat)
    requires 1 <= c < |s|
  {
    s[c].score <= s[(c - 1) / 2].score
  }

  /** Children of the nodes from i on, except of node par, do not exceed their parent; the children
      of par do not exceed par's own parent. */
  ghost predicate HeapExcept(s: seq<Pair>, i: nat, par: nat) {
    && (forall c :: 1 <= c < |s| && i <= (c - 1) / 2 != par ==> Below(s, c))
    && (i < par ==> forall c :: 1 <= c < |s| && (c - 1) / 2 == par ==> s[c].score <= s[(par - 1) / 2].score)
  }

  ghost predicate HeapFrom(s: seq<Pair>, i: nat) {
    forall c :: 1 <= c < |s| && i <= (c - 1) / 2 ==> Below(s, c)
  }

  function Swapped(s: seq<Pair>, i: nat, j: nat): (r: seq<Pair>)
    requires i < |s| && j < |s|
    ensures |r| == |s|
  {
    s[i := s[j]][j := s[i]]
  }

  /** Where `shift_down` goes on from par: the strictly larger child that exceeds par; -1 where it stops. */
  function Child(s: seq<Pair>, par: nat): (c: int)
    requires par < |s|
    ensures c == -1 || ((c == 2 * par + 1 || c == 2 * par + 2) && c < |s|)
  {
    var left := 2 * par + 1;
    if left >= |s| then -1
    else if left + 1 >= |s| then if s[left].score > s[par].score then left else -1
    else if s[left].score > s[left + 1].score && s[left].score > s[par].score then left
    else if s[left + 1].score > s[left].score && s[left + 1].score > s[par].score then left + 1
    else -1
  }

  /** What `shift_down` leaves. */
  function Down(s: seq<Pair>, par: nat): (r: seq<Pair>)
    ensures |r| == |s|
    decreases |s| - par
  {
    if par >= |s| || Child(s, par) == -1 then s else Down(Swapped(s, par, Child(s, par)), Child(s, par))
  }

  /** Two equal children exceed their parent: there `shift_down` stops. */
  ghost predicate Tied(s: seq<Pair>, par: nat) {
    2 * par + 2 < |s| && s[2 * par + 1].score == s[2 * par + 2].score > s[par].score
  }

  /** On its way down from par it comes to a tie. */
  ghost predicate Ties(s: seq<Pair>, par: nat)
    decreases |s| - par
  {
    par < |s| && if Child(s, par) == -1 then Tied(s, par) else Ties(Swapped(s, par, Child(s, par)), Child(s, par))
  }

  /** Moving par's value down to its larger child. */
  lemma DownKeepsHeap(s: seq<Pair>, i: nat, par: nat, child: nat)
    requires HeapExcept(s, i, par) && i <= par < child < |s| && (child - 1) / 2 == par
    requires s[child].score > s[par].score
    requires forall c :: 1 <= c < |s| && (c - 1) / 2 == par ==> s[c].score <= s[child].score
    ensures HeapExcept(Swapped(s, par, child), i, child)
  {
    var t := Swapped(s, par, child);
    assert par == 0 || (par - 1) / 2 < i || Below(s, par);
    forall c | 1 <= c < |t| && i <= (c - 1) / 2 != child ensures Below(t, c) {
      var p := (c - 1) / 2;
      assert p == par || Below(s, c);
      if c == par && i < par {
        assert s[child].score <= s[p].score;
      }
    }
    forall c | 1 <= c < |t| && (c - 1) / 2 == child ensures t[c].score <= t[(child - 1) / 2].score {
      assert Below(s, c);
    }
  }

  lemma HeapSettled(s: seq<Pair>, i: nat, par: nat)
    requires HeapExcept(s, i, par)
    requires forall c :: 1 <= c < |s| && (c - 1) / 2 == par ==> s[c].score <= s[par].score
    ensures HeapFrom(s, i)
  {
    forall c | 1 <= c < |s| && i <= (c - 1) / 2 ensures Below(s, c) {
    }
  }

  lemma ChildrenOf(par: nat, c: nat)
    requires 1 <= c && (c - 1) / 2 == par
    ensures c == 2 * par + 1 || c == 2 * par + 2
  {
  }

  /** The value of par goes to the larger child. */
  lemma DownTo(s: seq<Pair>, i: nat, par: nat)
    requires HeapExcept(s, i, par) && i <= par < |s| && Child(s, par) != -1
    ensures HeapExcept(Swapped(s, par, Child(s, par)), i, Child(s, par))
  {
    var child := Child(s, par);
    forall c | 1 <= c < |s| && (c - 1) / 2 == par
      ensures s[c].score <= s[child].score
    {
      ChildrenOf(par, c);
    }
    DownKeepsHeap(s, i, par, child);
  }

  /** Where it stops, there is a heap from i on, or a tie. */
  lemma Stopped(s: seq<Pair>, i: nat, par: nat)
    requires HeapExcept(s, i, par) && i <= par && (par < |s| ==> Child(s, par) == -1)
    ensures HeapFrom(s, i) <==> !Tied(s, par)
  {
    if Tied(s, par) {
      var c := 2 * par + 1;
      assert (c - 1) / 2 == par && !Below(s, c);
    } else {
      forall c | 1 <= c < |s| && (c - 1) / 2 == par
        ensures s[c].score <= s[par].score
      {
        ChildrenOf(par, c);
      }
      HeapSettled(s, i, par);
    }
  }

  lemma {:induction false} DownFrom(s: seq<Pair>, i: nat, par: nat)
    requires HeapExcept(s, i, par) && i <= par
    ensures HeapFrom(Down(s, par), i) <==> !Ties(s, par)
    decreases |s| - par
  {
    hide *;
    DownIs(s, par);
    if par < |s| && Child(s, par) != -1 {
      DownTo(s, i, par);
      DownFrom(Swapped(s, par, Child(s, par)), i, Child(s, par));
    } else {
      Stopped(s, i, par);
    }
  }

  lemma DownIs(s: seq<Pair>, par: nat)
    ensures par >= |s| || Child(s, par) == -1 ==> Down(s, par) == s && (Ties(s, par) <==> Tied(s, par))
    ensures par < |s| && Child(s, par) != -1 ==>
              par < Child(s, par) < |s| && Down(s, par) == Down(Swapped(s, par, Child(s, par)), Child(s, par))
              && (Ties(s, par) <==> Ties(Swapped(s, par, Child(s, par)), Child(s, par)))
  {
  }

  /** `shift_down` makes a heap of node i and the heaps below it exactly when it comes to no tie. */
  lemma DownExact(s: seq<Pair>, i: nat)
    requires HeapFrom(s, i + 1)
    ensures HeapFrom(Down(s, i), i) <==> !Ties(s, i)
  {
    assert HeapExcept(s, i, i);
    DownFrom(s, i, i);
  }

  /** t holds the same pairs as s. */
  ghost predicate Shuffled(s: seq<Pair>, t: seq<Pair>) {
    && |s| == |t|
    && (forall p :: p in s <==> p in t)
    && (ScoresDistinct(s) ==> ScoresDistinct(t))
    && (Apart(s) ==> Apart(t))
  }

  /** No entry twice. */
  ghost predicate Apart(s: seq<Pair>) {
    forall i, j :: 0 <= i < j < |s| ==> s[i].index != s[j].index
  }

  lemma SwappedShuffles(s: seq<Pair>, i: nat, j: nat)
    requires i < |s| && j < |s|
    ensures Shuffled(s, Swapped(s, i, j))
  {
    var t := Swapped(s, i, j);
    assert t[i] == s[j] && t[j] == s[i];
    forall p | p in s
      ensures p in t
    {
      var k :| 0 <= k < |s| && s[k] == p;
      assert t[if k == i then j else if k == j then i else k] == p;
    }
  }

  lemma {:induction false} DownShuffles(s: seq<Pair>, par: nat)
    ensures Shuffled(s, Down(s, par))
    ensures ScoresDistinct(s) ==> !Ties(s, par)
    decreases |s| - par
  {
    DownIs(s, par);
    if par < |s| && Child(s, par) != -1 {
      var t := Swapped(s, par, Child(s, par));
      SwappedShuffles(s, par, Child(s, par));
      DownShuffles(t, Child(s, par));
    }
  }

  /** `swap`. */
  method Swap(sop: array<Pair>, i: nat, j: nat)
    requires i < sop.Length && j < sop.Length
    modifies sop
    ensures sop[..] == Swapped(old(sop[..]), i, j)
  {
    var s := sop[i];
    sop[i] := sop[j];
    sop[j] := s;
  }

  /** `shift_down` over the whole array. */
  method ShiftDown(sop: array<Pair>, i: nat)
    modifies sop
    ensures sop[..] == Down(old(sop[..]), i)
  {
    hide *;
    var n, par := sop.Length, i;
    while par < n
      invariant Down(sop[..], par) == Down(old(sop[..]), i)
      decreases n - par
    {
      ghost var s := sop[..];
      DownIs(s, par);
      ChildIs(s, par);
      var left := par * 2 + 1;
      var right := left + 1;
      if left >= n && right >= n {
        break;
      }
      if right >= n {
        if sop[left].score > sop[par].score {
          Swap(sop, left, par);
          SwappedBack(s, left, par);
          par := left;
          continue;
        }
      } else if sop[left].score > sop[right].score && sop[left].score > sop[par].score {
        Swap(sop, left, par);
        SwappedBack(s, left, par);
        par := left;
        continue;
      } else if sop[right].score > sop[left].score && sop[right].score > sop[par].score {
        Swap(sop, right, par);
        SwappedBack(s, right, par);
        par := right;
        continue;
      }
      break;
    }
    DownIs(sop[..], par);
  }

  lemma ChildIs(s: seq<Pair>, par: nat)
    requires par < |s|
    ensures var left := 2 * par + 1;
            Child(s, par) ==
            if left >= |s| then -1
            else if left + 1 >= |s| then if s[left].score > s[par].score then left else -1
            else if s[left].score > s[left + 1].score && s[left].score > s[par].score then left
            else if s[left + 1].score > s[left].score && s[left + 1].score > s[par].score then left + 1
            else -1
  {
  }

  lemma SwappedBack(s: seq<Pair>, i: nat, j: nat)
    requires i < |s| && j < |s|
    ensures Swapped(s, i, j) == Swapped(s, j, i)
  {
  }

  lemma {:induction false} RootIsMax(s: seq<Pair>, c: nat)
    requires HeapFrom(s, 0) && c < |s|
    ensures s[c].score <= s[0].score
    decreases c
  {
    if c > 0 {
      assert Below(s, c);
      RootIsMax(s, (c - 1) / 2);
    }
  }

  // ---- Selecting the victims ----

  ghost predicate AllDistinct(scores: seq<u32>) {
    forall i, j :: 0 <= i < j < |scores| ==> Signed(scores[i]) != Signed(scores[j])
  }

  ghost predicate Picked(s: seq<Pair>, j: nat) {
    exists p :: p in s && p.index == j
  }

  /** s holds entries among the first n, and every one of those that it does not hold scores higher
      than all it holds. */
  ghost predicate Lowest(scores: seq<u32>, s: seq<Pair>, n: nat) {
    && n <= |scores|
    && (forall p :: p in s ==> p.index < n && p.score == Signed(scores[p.index]))
    && (forall j, p :: 0 <= j < n && !Picked(s, j) && p in s ==> p.score < Signed(scores[j]))
  }

  lemma LowestShuffled(scores: seq<u32>, s: seq<Pair>, t: seq<Pair>, n: nat)
    requires Lowest(scores, s, n) && Shuffled(s, t)
    ensures Lowest(scores, t, n)
  {
    forall j | 0 <= j < n && !Picked(t, j)
      ensures !Picked(s, j)
    {
    }
  }

  /** The next entry scores lower than the largest picked one, and replaces it. */
  lemma ReplaceRoot(scores: seq<u32>, s: seq<Pair>, n: nat)
    requires AllDistinct(scores) && n < |scores| && s != [] && Lowest(scores, s, n) && ScoresDistinct(s)
    requires forall k :: 0 <= k < |s| ==> s[k].score <= s[0].score
    requires Signed(scores[n]) < s[0].score
    ensures var t := s[0 := Pair(Signed(scores[n]), n)]; Lowest(scores, t, n + 1) && ScoresDistinct(t)
  {
    var x := Pair(Signed(scores[n]), n);
    var t := s[0 := x];
    forall k | 1 <= k < |s|
      ensures s[k].index < n && s[k].score == Signed(scores[s[k].index]) && s[k].score < s[0].score
              && s[k].score != x.score
    {
      assert s[k] in s && s[0] in s;
      assert s[0].score != s[k].score;
    }
    forall p | p in t ensures p.index < n + 1 && p.score == Signed(scores[p.index]) && p.score < s[0].score {
      var k :| 0 <= k < |t| && t[k] == p;
    }
    assert t[0] == x && x in t;
    forall j, p | 0 <= j < n + 1 && !Picked(t, j) && p in t ensures p.score < Signed(scores[j]) {
      assert j != n;
      forall k | 1 <= k < |s| ensures s[k].index != j {
        assert t[k] == s[k] && t[k] in t;
      }
      assert s[0] in s;
    }
  }

  lemma KeepRoot(scores: seq<u32>, s: seq<Pair>, n: nat)
    requires AllDistinct(scores) && n < |scores| && s != [] && Lowest(scores, s, n)
    requires forall k :: 0 <= k < |s| ==> s[k].score <= s[0].score
    requires Signed(scores[n]) >= s[0].score
    ensures Lowest(scores, s, n + 1)
  {
    assert s[0] in s;
    forall p | p in s ensures p.score < Signed(scores[n]) {
      var k :| 0 <= k < |s| && s[k] == p;
    }
  }

  ghost predicate FirstPairs(scores: seq<u32>, s: seq<Pair>) {
    |s| <= |scores| && forall k :: 0 <= k < |s| ==> s[k] == Pair(Signed(scores[k]), k)
  }

  lemma FirstPairsLowest(scores: seq<u32>, s: seq<Pair>)
    requires FirstPairs(scores, s) && AllDistinct(scores)
    ensures Lowest(scores, s, |s|) && ScoresDistinct(s)
  {
    forall j | 0 <= j < |s| ensures Picked(s, j) {
      assert s[j] in s;
    }
  }

  lemma LeavesAreHeap(s: seq<Pair>, i: nat)
    requires 2 * i + 1 >= |s|
    ensures HeapFrom(s, i)
  {
  }

  lemma RootMax(s: seq<Pair>)
    requires HeapFrom(s, 0)
    ensures forall k :: 0 <= k < |s| ==> s[k].score <= s[0].score
  {
    forall k | 0 <= k < |s| ensures s[k].score <= s[0].score {
      RootIsMax(s, k);
    }
  }

  lemma HeapBelowRoot(s: seq<Pair>, x: Pair)
    requires HeapFrom(s, 0) && s != []
    ensures HeapFrom(s[0 := x], 1)
  {
    var t := s[0 := x];
    forall c | 1 <= c < |t| && 1 <= (c - 1) / 2 ensures Below(t, c) {
      assert Below(s, c);
    }
  }

  // ---- The victims of `reclaim` ----

  function Firsts(scores: seq<u32>, rc: nat): (s: seq<Pair>)
    requires rc <= |scores|
    ensures |s| == rc
  {
    seq(rc, k requires 0 <= k < rc => Pair(Signed(scores[k]), k))
  }

  /** `shift_down` at i, i - 1, …, 0. */
  function Heaped(s: seq<Pair>, i: int): (r: seq<Pair>)
    ensures |r| == |s|
    decreases i + 1
  {
    if i < 0 then s else Heaped(Down(s, i), i - 1)
  }

  /** One more entry: it replaces the root if it scores lower. */
  function Offered(s: seq<Pair>, x: Pair): (r: seq<Pair>)
    ensures |r| == |s|
  {
    if s != [] && x.score < s[0].score then Down(s[0 := x], 0) else s
  }

  /** What the heap holds after the first n entries. */
  function Picks(scores: seq<u32>, rc: nat, n: nat): (r: seq<Pair>)
    requires rc <= n <= |scores|
    ensures |r| == rc
    decreases n
  {
    if n == rc then Heaped(Firsts(scores, rc), (rc + 1) / 2)
    else Offered(Picks(scores, rc, n - 1), Pair(Signed(scores[n - 1]), n - 1))
  }

  /** The heap of `reclaim`, for all scores. */
  method SelectVictims(scores: seq<u32>, rc: nat) returns (sop: array<Pair>)
    requires 0 < rc <= |scores|
    ensures fresh(sop) && sop[..] == Picks(scores, rc, |scores|)
  {
    hide *;
    sop := new Pair[rc](_ => Pair(0, 0));
    FillPairs(scores, sop);
    var i := (rc + 1) / 2;
    PicksStart(scores, rc);
    while i >= 0
      invariant -1 <= i && Heaped(sop[..], i) == Picks(scores, rc, rc)
      decreases i
    {
      HeapedIs(sop[..], i);
      ShiftDown(sop, i);
      i := i - 1;
    }
    HeapedIs(sop[..], i);
    var n := rc;
    while n < |scores|
      invariant rc <= n <= |scores| && sop[..] == Picks(scores, rc, n)
    {
      PicksNext(scores, rc, n);
      ghost var s := sop[..];
      var v := Signed(scores[n]);
      if v < sop[0].score {
        sop[0] := Pair(v, n);
        assert sop[..] == s[0 := Pair(v, n)];
        ShiftDown(sop, 0);
      }
      n := n + 1;
    }
  }

  method FillPairs(scores: seq<u32>, sop: array<Pair>)
    requires sop.Length <= |scores|
    modifies sop
    ensures sop[..] == Firsts(scores, sop.Length)
  {
    var i := 0;
    while i < sop.Length
      invariant i <= sop.Length && forall k :: 0 <= k < i ==> sop[k] == Pair(Signed(scores[k]), k)
    {
      sop[i] := Pair(Signed(scores[i]), i);
      i := i + 1;
    }
  }

  lemma PicksStart(scores: seq<u32>, rc: nat)
    requires rc <= |scores|
    ensures Picks(scores, rc, rc) == Heaped(Firsts(scores, rc), (rc + 1) / 2)
  {
  }

  lemma HeapedIs(s: seq<Pair>, i: int)
    ensures Heaped(s, i) == if i < 0 then s else Heaped(Down(s, i), i - 1)
  {
  }

  lemma PicksNext(scores: seq<u32>, rc: nat, n: nat)
    requires 0 < rc <= n < |scores|
    ensures var s, x := Picks(scores, rc, n), Pair(Signed(scores[n]), n);
            Picks(scores, rc, n + 1) == if x.score < s[0].score then Down(s[0 := x], 0) else s
  {
  }

  // ---- What the heap holds ----

  /** Entries among the first n with their scores, none twice. */
  ghost predicate Entries(scores: seq<u32>, s: seq<Pair>, n: nat) {
    n <= |scores| && Apart(s) && forall p :: p in s ==> p.index < n && p.score == Signed(scores[p.index])
  }

  lemma {:induction false} HeapedShuffles(s: seq<Pair>, i: int)
    ensures Shuffled(s, Heaped(s, i))
    decreases i + 1
  {
    hide *;
    HeapedIs(s, i);
    if i >= 0 {
      DownShuffles(s, i);
      HeapedShuffles(Down(s, i), i - 1);
      ShuffledTwice(s, Down(s, i), Heaped(s, i));
    } else {
      ShuffledSelf(s);
    }
  }

  lemma ShuffledTwice(s: seq<Pair>, t: seq<Pair>, u: seq<Pair>)
    requires Shuffled(s, t) && Shuffled(t, u)
    ensures Shuffled(s, u)
  {
  }

  lemma ShuffledSelf(s: seq<Pair>)
    ensures Shuffled(s, s)
  {
  }

  lemma {:induction false} HeapedIsHeap(s: seq<Pair>, i: int)
    requires -1 <= i && ScoresDistinct(s) && HeapFrom(s, i + 1)
    ensures HeapFrom(Heaped(s, i), 0)
    decreases i + 1
  {
    hide *;
    HeapedIs(s, i);
    if i >= 0 {
      DownShuffles(s, i);
      DownExact(s, i);
      DistinctShuffled(s, Down(s, i));
      HeapedIsHeap(Down(s, i), i - 1);
    }
  }

  lemma DistinctShuffled(s: seq<Pair>, t: seq<Pair>)
    requires ScoresDistinct(s) && Shuffled(s, t)
    ensures ScoresDistinct(t)
  {
  }

  lemma EntriesShuffled(scores: seq<u32>, s: seq<Pair>, t: seq<Pair>, n: nat)
    requires Entries(scores, s, n) && Shuffled(s, t)
    ensures Entries(scores, t, n)
  {
  }

  lemma EntriesReplaced(scores: seq<u32>, s: seq<Pair>, n: nat)
    requires Entries(scores, s, n) && s != [] && n < |scores|
    ensures Entries(scores, s, n + 1) && Entries(scores, s[0 := Pair(Signed(scores[n]), n)], n + 1)
  {
    var t := s[0 := Pair(Signed(scores[n]), n)];
    forall k | 0 <= k < |s|
      ensures s[k].index < n
    {
      assert s[k] in s;
    }
    forall p | p in t
      ensures p.index < n + 1 && p.score == Signed(scores[p.index])
    {
      var k :| 0 <= k < |t| && t[k] == p;
      assert k > 0 ==> s[k] in s;
    }
  }

  /** For all scores the heap holds entries of the dictionary with their scores, as many as asked for. */
  lemma {:induction false} PicksAreEntries(scores: seq<u32>, rc: nat, n: nat)
    requires 0 < rc <= n <= |scores|
    ensures Entries(scores, Picks(scores, rc, n), n)
    decreases n
  {
    hide *;
    if n == rc {
      PicksStart(scores, rc);
      FirstEntries(scores, rc);
      HeapedShuffles(Firsts(scores, rc), (rc + 1) / 2);
      EntriesShuffled(scores, Firsts(scores, rc), Picks(scores, rc, rc), rc);
    } else {
      PicksAreEntries(scores, rc, n - 1);
      PicksNext(scores, rc, n - 1);
      var s := Picks(scores, rc, n - 1);
      var t := s[0 := Pair(Signed(scores[n - 1]), n - 1)];
      EntriesReplaced(scores, s, n - 1);
      DownShuffles(t, 0);
      EntriesShuffled(scores, t, Down(t, 0), n);
    }
  }

  lemma FirstEntries(scores: seq<u32>, rc: nat)
    requires rc <= |scores|
    ensures Entries(scores, Firsts(scores, rc), rc) && FirstPairs(scores, Firsts(scores, rc))
  {
  }

  /** With pairwise distinct scores it is a heap of the lowest-scored entries. */
  lemma {:induction false} PicksAreLowest(scores: seq<u32>, rc: nat, n: nat)
    requires 0 < rc <= n <= |scores| && AllDistinct(scores)
    ensures var s := Picks(scores, rc, n); Lowest(scores, s, n) && ScoresDistinct(s) && HeapFrom(s, 0)
    decreases n
  {
    hide *;
    if n == rc {
      var s := Firsts(scores, rc);
      PicksStart(scores, rc);
      FirstEntries(scores, rc);
      FirstPairsLowest(scores, s);
      HeapedShuffles(s, (rc + 1) / 2);
      LeavesAreHeap(s, (rc + 1) / 2 + 1);
      HeapedIsHeap(s, (rc + 1) / 2);
      DistinctShuffled(s, Picks(scores, rc, rc));
      LowestShuffled(scores, s, Picks(scores, rc, rc), rc);
    } else {
      PicksAreLowest(scores, rc, n - 1);
      PicksNext(scores, rc, n - 1);
      var s, x := Picks(scores, rc, n - 1), Pair(Signed(scores[n - 1]), n - 1);
      RootMax(s);
      if x.score < s[0].score {
        var t := s[0 := x];
        ReplaceRoot(scores, s, n - 1);
        HeapBelowRoot(s, x);
        DownShuffles(t, 0);
        DownExact(t, 0);
        DistinctShuffled(t, Down(t, 0));
        LowestShuffled(scores, t, Down(t, 0), n);
      } else {
        KeepRoot(scores, s, n - 1);
      }
    }
  }

  /** With equal scores it need not be: of the scores 1, 2, 2, 0 the picked ones are 0, 2 and 2, and the 1 is left. */
  lemma EqualScores()
    ensures var scores: seq<u32> := [1, 2, 2, 0];
            Picks(scores, 3, 4) == [Pair(0, 3), Pair(2, 1), Pair(2, 2)] && !Picked(Picks(scores, 3, 4), 0)
            && Rank(scores, 0) == 1
  {
    var scores: seq<u32> := [1, 2, 2, 0];
    var s := [Pair(1, 0), Pair(2, 1), Pair(2, 2)];
    assert Firsts(scores, 3) == s;
    assert Down(s, 2) == s && Down(s, 1) == s && Down(s, 0) == s;
    assert Heaped(s, 2) == Heaped(s, 1) == Heaped(s, 0) == Heaped(s, -1) == s;
    PicksStart(scores, 3);
    PicksNext(scores, 3, 3);
    assert s[0 := Pair(0, 3)] == [Pair(0, 3), Pair(2, 1), Pair(2, 2)];
    assert LowerThan(scores, 0) == {3};
  }

  // ---- The victims, said without the heap ----

  /** How many entries score lower than entry j. */
  ghost function Rank(scores: seq<u32>, j: nat): (r: nat)
    requires j < |scores|
  {
    |LowerThan(scores, j)|
  }

  ghost function LowerThan(scores: seq<u32>, j: nat): (r: set<nat>)
    requires j < |scores|
  {
    set i: nat | i < |scores| && Signed(scores[i]) < Signed(scores[j])
  }

  /** Scores are compared as signed numbers: those with the top bit are the lowest. */
  lemma LowerMeans(scores: seq<u32>, i: nat, j: nat)
    requires i < |scores| && j < |scores|
    ensures i in LowerThan(scores, j) <==>
            (scores[i] as nat + 0x8000_0000) % 0x1_0000_0000 < (scores[j] as nat + 0x8000_0000) % 0x1_0000_0000
  {
  }

  ghost function Indices(s: seq<Pair>): (r: set<nat>) {
    set k | 0 <= k < |s| :: s[k].index
  }

  lemma {:induction false} IndicesSize(scores: seq<u32>, s: seq<Pair>)
    requires ScoresDistinct(s)
    requires forall k :: 0 <= k < |s| ==> s[k].index < |scores| && s[k].score == Signed(scores[s[k].index])
    ensures |Indices(s)| == |s|
  {
    if s != [] {
      var n := |s| - 1;
      var t := s[..n];
      IndicesSize(scores, t);
      assert Indices(s) == Indices(t) + {s[n].index} by {
        assert forall k :: 0 <= k < n ==> t[k] == s[k];
      }
      forall k | 0 <= k < n ensures t[k].index != s[n].index {
        assert s[k].score != s[n].score;
      }
    }
  }

  lemma SubsetSize(a: set<nat>, b: set<nat>)
    requires a <= b
    ensures |a| <= |b|
    decreases |b|
  {
    if a != {} {
      var x :| x in a;
      SubsetSize(a - {x}, b - {x});
    }
  }

  lemma LowerPicked(scores: seq<u32>, s: seq<Pair>, j: nat)
    requires Lowest(scores, s, |scores|) && j < |scores| && Picked(s, j)
    ensures j in Indices(s) && LowerThan(scores, j) <= Indices(s) - {j}
  {
    var q :| q in s && q.index == j;
    var k :| 0 <= k < |s| && s[k] == q;
    assert s[k].index in Indices(s);
    forall i | i in LowerThan(scores, j)
      ensures i in Indices(s) - {j}
    {
      assert Picked(s, i);
      var x :| x in s && x.index == i;
      var m :| 0 <= m < |s| && s[m] == x;
      assert s[m].index in Indices(s);
    }
  }

  /** The picked entries are exactly those that fewer than rc others score below. */
  lemma VictimsAreLowest(scores: seq<u32>, s: seq<Pair>, j: nat)
    requires AllDistinct(scores) && Lowest(scores, s, |scores|) && ScoresDistinct(s) && j < |scores|
    ensures Picked(s, j) <==> Rank(scores, j) < |s|
  {
    var p, lower := Indices(s), LowerThan(scores, j);
    forall k | 0 <= k < |s| ensures s[k].index < |scores| && s[k].score == Signed(scores[s[k].index]) {
      assert s[k] in s;
    }
    IndicesSize(scores, s);
    if Picked(s, j) {
      LowerPicked(scores, s, j);
      SubsetSize(lower, p - {j});
    } else {
      forall i | i in p ensures i in lower {
        var k :| 0 <= k < |s| && s[k].index == i;
        assert s[k] in s;
      }
      SubsetSize(p, lower);
    }
  }
}
