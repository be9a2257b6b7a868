/** Which matches one more character adds to the pool, and which milestones they hold on to. */
module MatchGrowth {
  import opened Bytes
  import opened LemmaTrie
  import opened TrieWalk
  import opened LatticeRow
  import opened Lattice
  import opened SystemDictionary
  import opened WordLookup
  import Milestones

  const DMI_POOL_SIZE: nat := 800
  const MAX_PINYIN_SIZE: nat := 6
  const MAX_LEMMA_SIZE: nat := 8

  // ---- Matches and milestones ----

  /** The handle of match d is the milestone that stands for its spelling ids, or 0 when no lemma begins with them. */
  ghost predicate HandleOk(w: Words, queries: seq<seq<Range>>, dmis: seq<Dmi>, d: nat)
    requires d < |dmis|
  {
    var ids := PathIds(dmis, d);
    && (dmis[d].handle == 0 <==> !w.SystemMore(ids)) && dmis[d].handle <= |queries|
    && (dmis[d].handle > 0 ==> queries[dmis[d].handle - 1] == w.spl.Ranges(ids))
    && (dmis[d].more <==> w.UserMore(ids))
  }

  /** Along the match pool the handles grow: an earlier match never holds on to a later milestone. */
  ghost predicate HandlesGrow(dmis: seq<Dmi>) {
    forall c, d :: 0 <= c < d < |dmis| && dmis[c].handle > 0 && dmis[d].handle > 0 ==> dmis[c].handle < dmis[d].handle
  }

  ghost predicate Handled(w: Words, queries: seq<seq<Range>>, dmis: seq<Dmi>) {
    HandlesGrow(dmis) && forall d :: 0 <= d < |dmis| ==> HandleOk(w, queries, dmis, d)
  }

  lemma HandledAt(w: Words, queries: seq<seq<Range>>, dmis: seq<Dmi>, d: nat)
    requires Handled(w, queries, dmis) && d < |dmis|
    ensures HandleOk(w, queries, dmis, d)
  {
  }

  /** What the handle of an earlier match stands for does not depend on what lies behind it. */
  lemma HandleKept(w: Words, queries: seq<seq<Range>>, dmis: seq<Dmi>, d: nat,
    queries': seq<seq<Range>>, dmis': seq<Dmi>)
    requires d < |dmis| && d < |dmis'| && dmis'[..d + 1] == dmis[..d + 1] && HandleOk(w, queries, dmis, d)
    requires dmis[d].handle <= |queries'|
      && (dmis[d].handle > 0 ==> queries'[dmis[d].handle - 1] == queries[dmis[d].handle - 1])
    ensures HandleOk(w, queries', dmis', d)
  {
    PathIdsPrefix(dmis, dmis', d);
    assert dmis'[..d + 1][d] == dmis[..d + 1][d];
  }

  lemma NoneHandled(w: Words, queries: seq<seq<Range>>)
    ensures Handled(w, queries, [])
  {
  }

  /** Cutting the match pool at n, and the milestones at the handle of a match that was cut off, leaves every remaining
      match the milestone that it had. */
  lemma HandledCut(w: Words, queries: seq<seq<Range>>, dmis: seq<Dmi>, n: nat, e: nat)
    requires Handled(w, queries, dmis) && n <= e < |dmis| && dmis[e].handle > 0
    ensures dmis[e].handle <= |queries| && Handled(w, queries[..dmis[e].handle - 1], dmis[..n])
  {
    HandledAt(w, queries, dmis, e);
    var cut, front := queries[..dmis[e].handle - 1], dmis[..n];
    forall d | 0 <= d < n ensures HandleOk(w, cut, front, d) {
      HandledAt(w, queries, dmis, d);
      assert front[..d + 1] == dmis[..d + 1];
      HandleKept(w, queries, dmis, d, cut, front);
    }
  }

  lemma HandledShorter(w: Words, queries: seq<seq<Range>>, dmis: seq<Dmi>, n: nat)
    requires Handled(w, queries, dmis) && n <= |dmis|
    ensures Handled(w, queries, dmis[..n])
  {
    var front := dmis[..n];
    forall d | 0 <= d < n ensures HandleOk(w, queries, front, d) {
      HandledAt(w, queries, dmis, d);
      assert front[..d + 1] == dmis[..d + 1];
      HandleKept(w, queries, dmis, d, queries, front);
    }
  }

  /** A new match with a new milestone, or without one. */
  lemma HandledPush(w: Words, queries: seq<seq<Range>>, dmis: seq<Dmi>, x: Dmi)
    requires Handled(w, queries, dmis) && -1 <= x.fr < |dmis|
    requires x.handle == (if w.SystemMore(IdsWith(dmis, x.fr, x.splId)) then |queries| + 1 else 0)
    requires x.more <==> w.UserMore(IdsWith(dmis, x.fr, x.splId))
    ensures Handled(w, queries + (if x.handle > 0 then [w.spl.Ranges(IdsWith(dmis, x.fr, x.splId))] else []),
              dmis + [x])
  {
    var q := queries + if x.handle > 0 then [w.spl.Ranges(IdsWith(dmis, x.fr, x.splId))] else [];
    var s, n := dmis + [x], |dmis|;
    forall d | 0 <= d <= n ensures HandleOk(w, q, s, d) && (d < n ==> s[d].handle <= |queries|) {
      if d < n {
        HandledAt(w, queries, dmis, d);
        assert s[..d + 1] == dmis[..d + 1];
        HandleKept(w, queries, dmis, d, q, s);
      } else {
        NewPath(dmis, x);
      }
    }
  }

  lemma NewPath(dmis: seq<Dmi>, x: Dmi)
    requires -1 <= x.fr < |dmis|
    ensures PathIds(dmis + [x], |dmis|) == IdsWith(dmis, x.fr, x.splId)
  {
    var s := dmis + [x];
    if x.fr >= 0 {
      assert s[..x.fr + 1] == dmis[..x.fr + 1];
      PathIdsPrefix(s, dmis, x.fr);
    }
  }

  // ---- One more character ----

  /** The spelling ids of the match and one more. */
  function IdsWith(dmis: seq<Dmi>, dmi: int, splId: u16): (ids: seq<u16>)
    requires -1 <= dmi < |dmis|
    ensures ids != []
  {
    (if dmi == -1 then [] else PathIds(dmis, dmi)) + [splId]
  }

  /** The new match of `extend_dmi`. */
  function NewDmi(dmis: seq<Dmi>, dmi: int, splId: u16, extLen: nat, endSplit: bool, full: bool, handle: nat,
    more: bool): (x: Dmi)
    requires -1 <= dmi < |dmis|
  {
    if dmi == -1 then Dmi(-1, splId, 1, extLen, endSplit, full, handle, more)
    else Dmi(dmi, splId, dmis[dmi].level + 1, dmis[dmi].splLen + extLen, endSplit, full
      && dmis[dmi].allFull, handle, more)
  }

  /** The pools while a row is built: the matches, and the first one of the row; the positions of both milestone stacks;
      the longest spelling that has led to lemmas; whether the row has a match that ends with a full id; whether some
      spelling goes on behind the row; whether the last match has left items; and whether everything has found room. */
  datatype Growth = Growth(dmis: seq<Dmi>, first: nat, stonesPos: nat, marksPos: nat, longest: nat, hasFull: bool,
    matched: bool, stale: bool, room: bool)

  /** How many marks the system dictionary makes when a match is extended. */
  function MarksOf(w: Words, dmis: seq<Dmi>, dmi: int, splId: u16): (n: nat)
    requires -1 <= dmi < |dmis|
  {
    if dmi == -1 then 1 else Milestones.MarkCount(Reach(w.trie, w.spl.Ranges(PathIds(dmis, dmi))), w.spl.expand(splId))
  }

  /** The milestones have room for what is marked; in a full match pool nothing is tried, and then no items of an
      earlier match may be left, as these would be offered. */
  predicate HasRoom(w: Words, g: Growth, dmi: int, splId: u16)
    requires -1 <= dmi < |g.dmis|
  {
    if |g.dmis| >= DMI_POOL_SIZE then !g.stale
    else
      var n := MarksOf(w, g.dmis, dmi, splId);
      n > 0 ==> g.stonesPos < MAX_MILE_STONE && g.marksPos + n <= MAX_PARSING_MARK
  }

  /** The characters of the match when it is extended by extLen. */
  function ExtendedLen(dmis: seq<Dmi>, dmi: int, extLen: nat): (n: nat)
    requires -1 <= dmi < |dmis|
  {
    extLen + if dmi == -1 then 0 else dmis[dmi].splLen
  }

  /** One match of an old row, or -1 for a new lemma, is extended by a spelling. */
  function Tried(w: Words, rows: seq<Row>, g: Growth, dmi: int, splId: u16, extLen: nat, endSplit: bool): (r: Growth)
    requires -1 <= dmi < |g.dmis|
    ensures |r.dmis| >= |g.dmis| && r.dmis[..|g.dmis|] == g.dmis && r.first == g.first
  {
    if !HasRoom(w, g, dmi, splId) then g.(room := false)
    else if |g.dmis| >= DMI_POOL_SIZE then g
    else
      var ids := IdsWith(g.dmis, dmi, splId);
      var sys, user, full := w.SystemMore(ids), w.UserMore(ids), !w.given.half(splId);
      var n := ExtendedLen(g.dmis, dmi, extLen);
      var k := if 0 < n <= |rows| && rows[|rows| - n].ndNum > 0 && w.Items(ids) != [] && g.longest == 0 then extLen
               else g.longest;
      if sys || user then
        var x := NewDmi(g.dmis, dmi, splId, extLen, endSplit, full, if sys then g.stonesPos else 0, user);
        Growth(g.dmis + [x], g.first, g.stonesPos + (if sys then 1 else 0), g.marksPos + MarksOf(w, g.dmis, dmi, splId),
               k, g.hasFull || full, g.matched, w.Items(ids) != [], true)
      else g.(stale := false)
  }

  /** What trying a match comes to when there is room. */
  lemma TriedIs(w: Words, rows: seq<Row>, g: Growth, dmi: int, splId: u16, extLen: nat, endSplit: bool, x: Dmi)
    requires -1 <= dmi < |g.dmis| < DMI_POOL_SIZE && HasRoom(w, g, dmi, splId) && extLen > 0
    ensures var n := MarksOf(w, g.dmis, dmi, splId);
            n > 0 ==> g.stonesPos < MAX_MILE_STONE && g.marksPos + n <= MAX_PARSING_MARK
    ensures var ids := IdsWith(g.dmis, dmi, splId);
            var sys, user, r := w.SystemMore(ids), w.UserMore(ids), Tried(w, rows, g, dmi, splId, extLen, endSplit);
            && (!sys && !user ==> r == g.(stale := false))
            && (sys || user ==> x == NewDmi(g.dmis, dmi, splId, extLen, endSplit, !w.given.half(splId),
                                            if sys then g.stonesPos else 0, user) ==>
                  && x.splLen > 0 && r.dmis == g.dmis + [x] && r.first == g.first && r.room && r.matched == g.matched
                  && (r.hasFull <==> g.hasFull || !w.given.half(splId)) && (r.stale <==> w.Items(ids) != [])
                  && r.stonesPos == g.stonesPos + (if sys then 1 else 0)
                  && r.marksPos == g.marksPos + MarksOf(w, g.dmis, dmi, splId)
                  && r.longest == if g.longest == 0 && x.splLen <= |rows| && rows[|rows| - x.splLen].ndNum > 0
                                     && w.Items(ids) != [] then extLen else g.longest)
  {
    hide Words.SystemMore, Words.UserMore, Words.Items, MarksOf, IdsWith;
  }

  lemma NothingTried(w: Words, rows: seq<Row>, g: Growth, dmi: int, splId: u16, extLen: nat, endSplit: bool)
    requires -1 <= dmi < |g.dmis| < DMI_POOL_SIZE && HasRoom(w, g, dmi, splId)
    requires var ids := IdsWith(g.dmis, dmi, splId); !w.SystemMore(ids) && !w.UserMore(ids)
    ensures Tried(w, rows, g, dmi, splId, extLen, endSplit) == g.(stale := false)
  {
  }

  /** In a full pool nothing is tried. */
  lemma TriedInFull(w: Words, rows: seq<Row>, g: Growth, dmi: int, splId: u16, extLen: nat, endSplit: bool)
    requires -1 <= dmi < |g.dmis| && |g.dmis| >= DMI_POOL_SIZE && HasRoom(w, g, dmi, splId)
    ensures !g.stale && Tried(w, rows, g, dmi, splId, extLen, endSplit) == g
  {
  }

  /** What is not tried: "gao" shuts out "g ao", and "zh" shuts out "z h"; a lemma has at most eight spellings. */
  predicate Skipped(w: Words, rows: seq<Row>, g: Growth, oldrow: nat, dmi: int, extLen: nat)
    requires -1 <= dmi < |g.dmis| && oldrow < |rows|
  {
    || (g.longest > extLen && if dmi == -1 then !rows[oldrow].hasFull else w.given.half(g.dmis[dmi].splId))
    || (dmi != -1 && g.dmis[dmi].level >= MAX_LEMMA_SIZE)
  }

  /** The matches of the old row from pos on, and then a new lemma, are extended by a spelling. */
  function GrowRow(w: Words, rows: seq<Row>, g: Growth, oldrow: nat, pos: nat, splId: u16, extLen: nat,
    endSplit: bool): (r: Growth)
    requires oldrow < |rows| && rows[oldrow].dmiPos + rows[oldrow].dmiNum <= |g.dmis|
    ensures |r.dmis| >= |g.dmis| && r.first == g.first
    decreases rows[oldrow].dmiPos + rows[oldrow].dmiNum + 1 - pos
  {
    var end := rows[oldrow].dmiPos + rows[oldrow].dmiNum;
    if pos > end || !g.room then g
    else
      var dmi := if pos == end then -1 else pos;
      GrowRow(w, rows, if Skipped(w, rows, g, oldrow, dmi,
        extLen) then g else Tried(w, rows, g, dmi, splId, extLen, endSplit),
              oldrow, pos + 1, splId, extLen, endSplit)
  }

  /** The rows' matches are in the pool. */
  ghost predicate Within(rows: seq<Row>, n: nat) {
    forall q :: 0 <= q < |rows| ==> rows[q].dmiPos + rows[q].dmiNum <= n
  }

  /** The last extLen and then fewer characters are tried as one more spelling. rows are the rows before the new one. */
  ghost function Grow(w: Words, xiAn: bool, rows: seq<Row>, pys: seq<u8>, g: Growth, extLen: nat): (r: Growth)
    requires |rows| == |pys| > 0 && Within(rows, |g.dmis|)
    ensures r.first == g.first
    decreases extLen
  {
    if extLen == 0 || !g.room then g
    else if extLen > |rows| then Grow(w, xiAn, rows, pys, g, extLen - 1)
    else
      var oldrow := |rows| - extLen;
      if extLen > 1 && g.longest != 0 && !rows[oldrow].hasFull then
        if xiAn then Grow(w, xiAn, rows, pys, g, extLen - 1) else g
      else if rows[oldrow].ndNum == 0 then Grow(w, xiAn, rows, pys, g, extLen - 1)
      else
        var spl := w.given.parse(pys[oldrow..]);
        var k := if spl.1 then g.(matched := true) else g;
        Grow(w, xiAn, rows, pys,
             if spl.0 == 0 then k
             else GrowRow(w, rows, k, oldrow, rows[oldrow].dmiPos, spl.0, extLen, !w.given.letter(pys[|pys| - 1])),
               extLen - 1)
  }

  // ---- Asking both dictionaries ----

  /** The words are those of this dictionary. */
  ghost predicate Tied(w: Words, given: Givens, dict: DictTrie) {
    w == Words(given, dict.spl, dict.trie, dict.uniPsb)
  }

  /** The match that is extended: the system dictionary is asked from its milestone. */
  lemma FromMatch(w: Words, queries: seq<seq<Range>>, dmis: seq<Dmi>, dmi: int, splId: u16)
    requires Handled(w, queries, dmis) && -1 <= dmi < |dmis|
    ensures var ids := IdsWith(dmis, dmi, splId);
            && (dmi == -1 ==>
                  ids == [splId] && w.spl.Ranges(ids) == [w.spl.expand(splId)] && MarksOf(w, dmis, dmi, splId) == 1)
            && (dmi >= 0 ==>
                  var h, front := dmis[dmi].handle, PathIds(dmis, dmi);
                  && |ids| == |front| + 1 > 1 && h <= |queries|
                     && (MarksOf(w, dmis, dmi, splId) == 0 <==> !w.SystemMore(ids))
                  && (h == 0 ==> !w.SystemMore(ids) && w.System(ids) == [] && MarksOf(w, dmis, dmi, splId) == 0)
                  && (h > 0 ==> queries[h - 1] == w.spl.Ranges(front) && |queries[h - 1]| == |ids| - 1 > 0
                                && w.spl.Ranges(ids) == queries[h - 1] + [w.spl.expand(splId)]
                                && MarksOf(w, dmis, dmi, splId) == Milestones.MarkCount(Reach(w.trie, queries[h - 1]),
                                   w.spl.expand(splId))))
  {
    if dmi >= 0 {
      HandledAt(w, queries, dmis, dmi);
      w.OneMore(PathIds(dmis, dmi), splId);
      var q, r := w.spl.Ranges(PathIds(dmis, dmi)), w.spl.expand(splId);
      ReachSnoc(w.trie, q, r, 0);
      Milestones.MarkCountZero(Reach(w.trie, q), r);
      assert Milestones.MarkCount([], w.spl.expand(splId)) == 0;
    } else {
      assert IdsWith(dmis, dmi, splId) == [splId];
    }
  }

  /** Whether and how the user dictionary is asked. */
  lemma UserFromMatch(w: Words, queries: seq<seq<Range>>, dmis: seq<Dmi>, dmi: int, splId: u16)
    requires Handled(w, queries, dmis) && -1 <= dmi < |dmis|
    ensures var ids := IdsWith(dmis, dmi, splId);
            w.UserMore(ids) <==> (dmi == -1 || dmis[dmi].more) && (w.Answer(ids).items != [] || w.Answer(ids).more)
  {
    var front := if dmi == -1 then [] else PathIds(dmis, dmi);
    if dmi >= 0 {
      HandledAt(w, queries, dmis, dmi);
    }
    assert IdsWith(dmis, dmi, splId) == front + [splId];
    w.OneMore(front, splId);
  }

  /** What is found for the ids, from what both dictionaries say. */
  lemma FoundIs(w: Words, ids: seq<u16>, sys: seq<LmaItem>)
    requires ids != [] && sys == w.System(ids)
    ensures |sys| <= MAX_LMA_PSB_ITEMS && w.Answer(ids) == w.given.user(ids, MAX_LMA_PSB_ITEMS - |sys|)
    ensures w.Items(ids) == w.Kept(ids, w.given.order(sys + if w.UserMore(ids) then w.Answer(ids).items else []))
  {
    w.SystemShort(ids);
    hide Words.System, Words.Kept, Words.UserMore;
  }

  lemma SystemIs(w: Words, ids: seq<u16>, found: seq<LpiItem>)
    requires ids != []
      && found == Take(Lpis(HomosOf(Answering(w.spl, ids, Reach(w.trie, w.spl.Ranges(ids)))), |ids|, w.uniPsb),
           MAX_LMA_PSB_ITEMS)
    ensures Shown(found) == w.System(ids) && (!w.SystemMore(ids) ==> w.System(ids) == [])
  {
  }

  lemma MoreIs(w: Words, ids: seq<u16>)
    requires ids != []
    ensures w.SystemMore(ids) <==> Reach(w.trie, w.spl.Ranges(ids)) != []
    ensures |ids| > 1 ==> forall ts :: Answering(w.spl, ids, ts) == ts
  {
  }

  lemma SpeaksIs(w: Words, id: u16)
    requires w.Speaks(id)
    ensures FullRange(w.trie, w.spl.expand(id)) && 0 < w.spl.expand(id).num < 0x100
  {
  }

  /** Steps 2 of `extend_dmi`: the system dictionary goes on from the milestone of the match. */
  method AskSystem(given: Givens, dict: DictTrie, dmis: array<Dmi>, used: nat, dmi: int, splId: u16,
    ids: seq<u16>, ghost w: Words)
    returns (handle: nat, sys: seq<LmaItem>)
    requires used <= dmis.Length && -1 <= dmi < used && ids == IdsWith(dmis[..used], dmi, splId) && w.Speaks(splId)
    requires Tied(w, given, dict) && dict.Loaded() && dict.Standing() && Handled(w, dict.queries, dmis[..used])
    requires var n := MarksOf(w, dmis[..used], dmi, splId);
             n > 0 ==> dict.stonesPos < MAX_MILE_STONE && dict.marksPos + n <= MAX_PARSING_MARK
    modifies dict`marksPos, dict`stonesPos, dict`queries, dict.marks, dict.stones
    ensures dict.Loaded() && dict.Standing() && StacksOn(old(dict.Used()), dict.Used())
    ensures handle == (if w.SystemMore(ids) then old(dict.stonesPos) else 0) && sys == w.System(ids)
    ensures dict.queries == old(dict.queries) + if w.SystemMore(ids) then [w.spl.Ranges(ids)] else []
    ensures dict.marksPos == old(dict.marksPos) + MarksOf(w, dmis[..used], dmi, splId)
      && (w.SystemMore(ids) <==> dict.marksPos > old(dict.marksPos))
    ensures dict.stonesPos == old(dict.stonesPos) + if w.SystemMore(ids) then 1 else 0
  {
    hide *;
    hide DictTrie.Loaded, DictTrie.Standing;
    ghost var pool := dmis[..used];
    TiedIs(w, given, dict);
    dict.StandingHas();
    SpeaksIs(w, splId);
    dict.RangeReaches(w.spl.expand(splId));
    FromMatch(w, dict.queries, pool, dmi, splId);
    MoreIs(w, ids);
    handle, sys := 0, [];
    assert dmi >= 0 ==> dmis[dmi] == pool[dmi];
    if dmi == -1 || dmis[dmi].handle > 0 {
      assert [] + [dict.spl.expand(splId)] == [dict.spl.expand(splId)];
      var found;
      handle, found := dict.ExtendDict(if dmi == -1 then 0 else dmis[dmi].handle, |ids| - 1, splId,
        dict.spl.expand(splId), false, MAX_LMA_PSB_ITEMS);
      SystemIs(w, ids, found);
      dict.StandingHas();
      if handle > 0 {
        sys := Shown(found);
      }
    } else {
      StacksSame(dict.Used());
    }
  }

  /** `extend_dmi` up to the new match: both dictionaries are asked, and what they find is sorted. */
  method AskBoth(given: Givens, dict: DictTrie, dmis: array<Dmi>, used: nat, dmi: int, splId: u16,
    ids: seq<u16>, ghost w: Words)
    returns (handle: nat, more: bool, items: seq<LmaItem>)
    requires used <= dmis.Length && -1 <= dmi < used && ids == IdsWith(dmis[..used], dmi, splId) && w.Speaks(splId)
    requires Tied(w, given, dict) && dict.Loaded() && dict.Standing() && Handled(w, dict.queries, dmis[..used])
    requires var n := MarksOf(w, dmis[..used], dmi, splId);
             n > 0 ==> dict.stonesPos < MAX_MILE_STONE && dict.marksPos + n <= MAX_PARSING_MARK
    modifies dict`marksPos, dict`stonesPos, dict`queries, dict.marks, dict.stones
    ensures dict.Loaded() && dict.Standing() && StacksOn(old(dict.Used()), dict.Used())
    ensures handle == (if w.SystemMore(ids) then old(dict.stonesPos) else 0) && (more <==> w.UserMore(ids))
      && items == w.Items(ids)
    ensures dict.queries == old(dict.queries) + if w.SystemMore(ids) then [w.spl.Ranges(ids)] else []
    ensures dict.marksPos == old(dict.marksPos) + MarksOf(w, dmis[..used], dmi, splId)
      && (w.SystemMore(ids) <==> dict.marksPos > old(dict.marksPos))
    ensures dict.stonesPos == old(dict.stonesPos) + if w.SystemMore(ids) then 1 else 0
  {
    hide *;
    hide DictTrie.Loaded, DictTrie.Standing;
    ghost var pool := dmis[..used];
    TiedIs(w, given, dict);
    UserFromMatch(w, dict.queries, pool, dmi, splId);
    FromMatch(w, dict.queries, pool, dmi, splId);
    assert dmi >= 0 ==> dmis[dmi] == pool[dmi];
    var sys;
    handle, sys := AskSystem(given, dict, dmis, used, dmi, splId, ids, w);
    FoundIs(w, ids, sys);
    more := false;
    var all := sys;
    if dmi == -1 || dmis[dmi].more {
      var a := given.user(ids, MAX_LMA_PSB_ITEMS - |sys|);
      if a.items != [] || a.more {
        more := true;
        all := sys + a.items;
      }
    }
    assert sys + [] == sys;
    items := given.order(all);
    KeptIs(w, ids, items);
    if dmi == -1 && given.half(splId) {
      items := Take(items, MAX_LPI_CACHE_PER_ID);
    }
  }

  lemma KeptIs(w: Words, ids: seq<u16>, all: seq<LmaItem>)
    requires ids != []
    ensures w.Kept(ids, all) == if |ids| == 1 && w.given.half(ids[0]) then Take(all, MAX_LPI_CACHE_PER_ID) else all
  {
  }

  lemma TiedIs(w: Words, given: Givens, dict: DictTrie)
    requires Tied(w, given, dict)
    ensures w == Words(given, dict.spl, dict.trie, dict.uniPsb)
  {
  }

  lemma StacksSame(a: MileStack)
    ensures StacksOn(a, a)
  {
  }
}
