/** Which matches a new row must have: every spelling that the last characters are is tried on every match that it can
    extend. */
module MatchesMade {
  import opened Bytes
  import opened LatticeRow
  import opened Lattice
  import opened WordLookup
  import opened MatchGrowth

  // ---- What is said of the matches, without the turns ----

  /** How many characters the last spelling of the match is written with. */
  function Extent(dmis: seq<Dmi>, d: nat): (n: int)
    requires d < |dmis|
  {
    dmis[d].splLen - if 0 <= dmis[d].fr < d then dmis[dmis[d].fr].splLen else 0
  }

  /** The match has items, and they are offered to the nodes of a row. */
  ghost predicate Leads(w: Words, rows: seq<Row>, dmis: seq<Dmi>, d: nat) {
    d < |dmis| && 0 < dmis[d].splLen <= |rows| && rows[|rows| - dmis[d].splLen].ndNum > 0
    && w.Items(PathIds(dmis, d)) != []
  }

  /** `longest` is the longest last spelling of a new match that leads to lemmas, 0 if there is none. */
  ghost predicate LongestOk(w: Words, rows: seq<Row>, g: Growth) {
    && (forall d :: g.first <= d < |g.dmis| && Leads(w, rows, g.dmis, d) ==> Extent(g.dmis, d) <= g.longest)
    && (g.longest > 0 ==>
          exists d :: g.first <= d < |g.dmis| && Leads(w, rows, g.dmis, d) && Extent(g.dmis, d) == g.longest)
  }

  ghost predicate MatchAt(dmis: seq<Dmi>, d: nat, dmi: int, id: u16, k: nat) {
    d < |dmis| && dmis[d].fr == dmi && dmis[d].splId == id
    && dmis[d].splLen == k + if 0 <= dmi < |dmis| then dmis[dmi].splLen else 0
  }

  /** From position `from` on there is a match that goes on from dmi, -1 for the root, with this spelling of k
      characters. */
  ghost predicate Made(dmis: seq<Dmi>, from: nat, dmi: int, id: u16, k: nat) {
    exists d :: from <= d && MatchAt(dmis, d, dmi, id, k)
  }

  /** A length is shut out when a longer spelling has led to lemmas, and no full id ends where it begins; without the
      switch the lengths below are shut out with it. */
  ghost predicate Barred(rows: seq<Row>, xiAn: bool, longest: nat, k: nat) {
    exists m: nat :: BarredAt(rows, longest, m) && if xiAn then m == k else m >= k
  }

  ghost predicate BarredAt(rows: seq<Row>, longest: nat, m: nat) {
    1 < m <= |rows| && m <= MAX_PINYIN_SIZE + 1 && m < longest && !rows[|rows| - m].hasFull
  }

  /** A match of the old row, or the root, from which the last k characters should lead on. */
  ghost predicate Due(w: Words, xiAn: bool, rows: seq<Row>, pys: seq<u8>, dmis: seq<Dmi>, longest: nat, k: nat,
    dmi: int)
  {
    && |pys| == |rows| && 1 <= k <= |rows| && k <= MAX_PINYIN_SIZE + 1 && -1 <= dmi < |dmis|
    && var o := rows[|rows| - k];
    && o.ndNum > 0 && (dmi == -1 || o.dmiPos <= dmi < o.dmiPos + o.dmiNum)
    && var id := w.given.parse(pys[|rows| - k..]).0;
    && id != 0 && (w.SystemMore(IdsWith(dmis, dmi, id)) || w.UserMore(IdsWith(dmis, dmi, id)))
    && !Barred(rows, xiAn, longest, k)
    && !(longest > k && if dmi == -1 then !o.hasFull else w.given.half(dmis[dmi].splId))
    && (dmi >= 0 ==> dmis[dmi].level < MAX_LEMMA_SIZE)
  }

  /** All matches that are due are there. */
  ghost predicate AllMade(w: Words, xiAn: bool, rows: seq<Row>, pys: seq<u8>, r: Growth) {
    forall k: nat, dmi: int :: dmi < r.first && Due(w, xiAn, rows, pys, r.dmis, r.longest, k, dmi) ==>
      Made(r.dmis, r.first, dmi, w.given.parse(pys[|rows| - k..]).0, k)
  }

  /** Each new match was due. */
  ghost predicate AllDue(w: Words, xiAn: bool, rows: seq<Row>, pys: seq<u8>, r: Growth) {
    forall d: nat :: r.first <= d < |r.dmis| ==> MatchDue(w, xiAn, rows, pys, r.dmis, r.longest, d)
  }

  /** What a match says of its spellings: whether a splitter ends them, and whether all their ids are full. */
  ghost predicate Flagged(w: Words, dmis: seq<Dmi>, d: nat, endSplit: bool) {
    d < |dmis| && dmis[d].endSplit == endSplit
    && (dmis[d].allFull <==>
          !w.given.half(dmis[d].splId) && (dmis[d].fr == -1 || (0 <= dmis[d].fr < d && dmis[dmis[d].fr].allFull)))
  }

  ghost predicate MatchDue(w: Words, xiAn: bool, rows: seq<Row>, pys: seq<u8>, dmis: seq<Dmi>, longest: nat, d: nat)
    requires d < |dmis|
  {
    var k := Extent(dmis, d);
    1 <= k <= |rows| == |pys| && dmis[d].splId == w.given.parse(pys[|rows| - k..]).0
    && Due(w, xiAn, rows, pys, dmis, longest, k, dmis[d].fr)
    && Flagged(w, dmis, d, !w.given.letter(pys[|pys| - 1]))
  }

  /** The flag of the row: some new match ends with a full id. */
  ghost predicate FullOk(w: Words, g: Growth) {
    g.hasFull <==> exists d: nat :: FullAt(w, g, d)
  }

  ghost predicate FullAt(w: Words, g: Growth, d: nat) {
    g.first <= d < |g.dmis| && !w.given.half(g.dmis[d].splId)
  }

  /** A length that is tried, and that the parser says may go on. */
  ghost predicate GoesOnAt(w: Words, xiAn: bool, rows: seq<Row>, pys: seq<u8>, longest: nat, k: nat) {
    1 <= k <= |rows| == |pys| && rows[|rows| - k].ndNum > 0 && w.given.parse(pys[|rows| - k..]).1
    && !Barred(rows, xiAn, longest, k) && k <= MAX_PINYIN_SIZE + 1
  }

  /** What the matches of a new row are: exactly those that are due, unless the pool is full. */
  ghost predicate RowComplete(w: Words, xiAn: bool, rows: seq<Row>, pys: seq<u8>, r: Growth) {
    && LongestOk(w, rows, r) && (|r.dmis| < DMI_POOL_SIZE ==> AllMade(w, xiAn, rows, pys, r))
    && AllDue(w, xiAn, rows, pys, r) && FullOk(w, r)
    && (r.matched <==> exists k: nat :: GoesOnAt(w, xiAn, rows, pys, r.longest, k))
  }

  // ---- One match after the other ----

  ghost predicate Extends(g: Growth, r: Growth) {
    && |g.dmis| <= |r.dmis| && r.dmis[..|g.dmis|] == g.dmis && r.first == g.first && g.first <= |g.dmis|
    && (g.longest != 0 ==> r.longest == g.longest)
  }

  lemma ExtendsTrans(a: Growth, b: Growth, c: Growth)
    requires Extends(a, b) && Extends(b, c)
    ensures Extends(a, c)
  {
    assert c.dmis[..|a.dmis|] == c.dmis[..|b.dmis|][..|a.dmis|];
  }

  lemma MadeStays(a: seq<Dmi>, b: seq<Dmi>, from: nat, dmi: int, id: u16, k: nat)
    requires |a| <= |b| && b[..|a|] == a && Made(a, from, dmi, id, k) && dmi < |a|
    ensures Made(b, from, dmi, id, k)
  {
    var d :| from <= d && MatchAt(a, d, dmi, id, k);
    assert b[..|a|][d] == b[d] && (dmi >= 0 ==> b[..|a|][dmi] == b[dmi]);
    assert MatchAt(b, d, dmi, id, k);
  }

  lemma SameIds(a: seq<Dmi>, b: seq<Dmi>, dmi: int, id: u16)
    requires |a| <= |b| && b[..|a|] == a && -1 <= dmi < |a|
    ensures IdsWith(a, dmi, id) == IdsWith(b, dmi, id) && (dmi >= 0 ==> a[dmi] == b[dmi])
  {
    if dmi >= 0 {
      assert b[..dmi + 1] == b[..|a|][..dmi + 1];
      PathIdsPrefix(b, a, dmi);
    }
  }

  lemma LeadsStays(w: Words, rows: seq<Row>, a: seq<Dmi>, b: seq<Dmi>, d: nat)
    requires d < |a| <= |b| && b[..|a|] == a
    ensures Leads(w, rows, a, d) == Leads(w, rows, b, d) && Extent(a, d) == Extent(b, d)
  {
    assert b[..d + 1] == b[..|a|][..d + 1] && b[..|a|][d] == b[d];
    assert 0 <= a[d].fr < d ==> b[..|a|][a[d].fr] == b[a[d].fr];
    PathIdsPrefix(b, a, d);
  }

  /** Trying a match keeps what `longest` means, and makes the match if a dictionary goes on. */
  lemma TriedMakes(w: Words, rows: seq<Row>, g: Growth, dmi: int, id: u16, k: nat, endSplit: bool)
    requires -1 <= dmi < |g.dmis| && HasRoom(w, g, dmi, id) && k > 0 && g.room && g.first <= |g.dmis|
      && LongestOk(w, rows, g) && (g.longest == 0 || g.longest >= k) && FullOk(w, g)
    ensures var r := Tried(w, rows, g, dmi, id, k, endSplit);
            && r.room && Extends(g, r) && LongestOk(w, rows, r) && (r.longest == 0 || r.longest >= k) && FullOk(w, r)
            && (g.longest == 0 ==> r.longest <= k) && r.matched == g.matched
            && (r.dmis != g.dmis ==>
                  && |r.dmis| == |g.dmis| + 1 && MatchAt(r.dmis, |g.dmis|, dmi, id, k) && Extent(r.dmis, |g.dmis|) == k
                  && Flagged(w, r.dmis, |g.dmis|, endSplit)
                  && (w.SystemMore(IdsWith(g.dmis, dmi, id)) || w.UserMore(IdsWith(g.dmis, dmi, id))))
            && (|r.dmis| < DMI_POOL_SIZE
                && (w.SystemMore(IdsWith(g.dmis, dmi, id)) || w.UserMore(IdsWith(g.dmis, dmi, id))) ==>
                  Made(r.dmis, r.first, dmi, id, k))
  {
    hide *;
    if |g.dmis| >= DMI_POOL_SIZE {
      TriedInFull(w, rows, g, dmi, id, k, endSplit);
      ExtendsSelf(g);
      return;
    }
    var ids, r := IdsWith(g.dmis, dmi, id), Tried(w, rows, g, dmi, id, k, endSplit);
    var sys, user := w.SystemMore(ids), w.UserMore(ids);
    var x := NewDmi(g.dmis, dmi, id, k, endSplit, !w.given.half(id), if sys then g.stonesPos else 0, user);
    TriedIs(w, rows, g, dmi, id, k, endSplit, x);
    if sys || user {
      NewMatch(g.dmis, x, dmi, id, k, endSplit, !w.given.half(id), if sys then g.stonesPos else 0, user);
      NewLongest(w, rows, g, r, x, dmi, id, k);
      NewFull(w, g, r, x);
      NewFlags(w, g.dmis, x, dmi, id, k, endSplit, if sys then g.stonesPos else 0, user);
    } else {
      SameLongest(w, rows, g, r);
      SameFull(w, g, r);
    }
  }

  lemma NewFlags(w: Words, dmis: seq<Dmi>, x: Dmi, dmi: int, id: u16, k: nat, endSplit: bool, handle: nat, more: bool)
    requires -1 <= dmi < |dmis| && x == NewDmi(dmis, dmi, id, k, endSplit, !w.given.half(id), handle, more)
    ensures Flagged(w, dmis + [x], |dmis|, endSplit)
  {
  }

  lemma NewFull(w: Words, g: Growth, r: Growth, x: Dmi)
    requires FullOk(w, g) && r.dmis == g.dmis + [x] && r.first == g.first <= |g.dmis|
      && (r.hasFull <==> g.hasFull || !w.given.half(x.splId))
    ensures FullOk(w, r)
  {
    assert r.dmis[|g.dmis|] == x;
    forall d: nat | d < |g.dmis|
      ensures FullAt(w, r, d) <==> FullAt(w, g, d)
    {
    }
    if g.hasFull {
      var d: nat :| FullAt(w, g, d);
      assert FullAt(w, r, d);
    } else if !w.given.half(x.splId) {
      assert FullAt(w, r, |g.dmis|);
    }
  }

  lemma SameFull(w: Words, g: Growth, r: Growth)
    requires FullOk(w, g) && r.dmis == g.dmis && r.first == g.first && r.hasFull == g.hasFull
    ensures FullOk(w, r)
  {
    forall d: nat
      ensures FullAt(w, r, d) <==> FullAt(w, g, d)
    {
    }
  }

  lemma ExtendsSelf(g: Growth)
    requires g.first <= |g.dmis|
    ensures Extends(g, g)
  {
  }

  lemma SameLongest(w: Words, rows: seq<Row>, g: Growth, r: Growth)
    requires LongestOk(w, rows, g) && r.dmis == g.dmis && r.first == g.first <= |g.dmis| && r.longest == g.longest
    ensures LongestOk(w, rows, r) && Extends(g, r)
  {
    hide Leads, Extent;
  }

  lemma NewMatch(dmis: seq<Dmi>, x: Dmi, dmi: int, id: u16, k: nat, endSplit: bool, full: bool, handle: nat, more: bool)
    requires -1 <= dmi < |dmis| && x == NewDmi(dmis, dmi, id, k, endSplit, full, handle, more)
    ensures x.fr == dmi && x.splId == id && MatchAt(dmis + [x], |dmis|, dmi, id, k) && Extent(dmis + [x], |dmis|) == k
    ensures PathIds(dmis + [x], |dmis|) == IdsWith(dmis, dmi, id)
  {
    NewPath(dmis, x);
  }

  lemma NewLongest(w: Words, rows: seq<Row>, g: Growth, r: Growth, x: Dmi, dmi: int, id: u16, k: nat)
    requires -1 <= dmi < |g.dmis| && k > 0 && g.first <= |g.dmis| && LongestOk(w, rows, g)
      && (g.longest == 0 || g.longest >= k)
    requires r.dmis == g.dmis + [x] && r.first == g.first && MatchAt(r.dmis, |g.dmis|, dmi, id, k)
      && Extent(r.dmis, |g.dmis|) == k && PathIds(r.dmis, |g.dmis|) == IdsWith(g.dmis, dmi, id) && x.splLen > 0
    requires r.longest == if g.longest == 0 && x.splLen <= |rows| && rows[|rows| - x.splLen].ndNum > 0
                             && w.Items(IdsWith(g.dmis, dmi, id)) != [] then k else g.longest
    ensures Extends(g, r) && LongestOk(w, rows, r) && (r.longest == 0 || r.longest >= k)
      && (g.longest == 0 ==> r.longest <= k) && Made(r.dmis, r.first, dmi, id, k)
  {
    var n := |g.dmis|;
    hide Words.Items, PathIds, IdsWith;
    assert Leads(w, rows, r.dmis, n) <==>
           x.splLen <= |rows| && rows[|rows| - x.splLen].ndNum > 0 && w.Items(IdsWith(g.dmis, dmi, id)) != [];
    forall d: nat | d < n
      ensures Leads(w, rows, r.dmis, d) == Leads(w, rows, g.dmis, d) && Extent(r.dmis, d) == Extent(g.dmis, d)
    {
      LeadsStays(w, rows, g.dmis, r.dmis, d);
    }
    hide Leads, Extent;
    if g.longest == 0 && r.longest > 0 {
      assert Leads(w, rows, r.dmis, n) && Extent(r.dmis, n) == r.longest;
    } else if r.longest > 0 {
      var d :| g.first <= d < |g.dmis| && Leads(w, rows, g.dmis, d) && Extent(g.dmis, d) == g.longest;
      assert Leads(w, rows, r.dmis, d);
    }
  }

  // ---- One row, and one length after the other ----

  /** What keeps while the lengths down to k are tried. */
  ghost predicate Sound(w: Words, rows: seq<Row>, g: Growth, k: nat) {
    g.room && g.first <= |g.dmis| && LongestOk(w, rows, g) && (g.longest == 0 || g.longest >= k) && FullOk(w, g)
  }

  lemma SoundDown(w: Words, rows: seq<Row>, g: Growth, k: nat, m: nat)
    requires Sound(w, rows, g, k) && m <= k
    ensures Sound(w, rows, g, m)
  {
    hide LongestOk, FullOk;
  }

  lemma RowIs(w: Words, rows: seq<Row>, g: Growth, oldrow: nat, pos: nat, id: u16, k: nat, endSplit: bool)
    requires oldrow < |rows| && rows[oldrow].dmiPos + rows[oldrow].dmiNum <= |g.dmis| && g.room
    ensures var end := rows[oldrow].dmiPos + rows[oldrow].dmiNum;
            && (pos > end ==> GrowRow(w, rows, g, oldrow, pos, id, k, endSplit) == g)
            && (pos <= end ==>
                  var dmi := if pos == end then -1 else pos;
                  GrowRow(w, rows, g, oldrow, pos, id, k, endSplit) ==
                  if Skipped(w, rows, g, oldrow, dmi, k) then GrowRow(w, rows, g, oldrow, pos + 1, id, k, endSplit)
                  else GrowRow(w, rows, Tried(w, rows, g, dmi, id, k, endSplit), oldrow, pos + 1, id, k, endSplit))
  {
    hide Skipped, Tried;
  }

  lemma NoRoomStays(w: Words, rows: seq<Row>, g: Growth, oldrow: nat, pos: nat, id: u16, k: nat, endSplit: bool)
    requires oldrow < |rows| && rows[oldrow].dmiPos + rows[oldrow].dmiNum <= |g.dmis| && !g.room
    ensures GrowRow(w, rows, g, oldrow, pos, id, k, endSplit) == g
  {
  }

  lemma TriedRoom(w: Words, rows: seq<Row>, g: Growth, dmi: int, id: u16, k: nat, endSplit: bool)
    requires -1 <= dmi < |g.dmis|
    ensures Tried(w, rows, g, dmi, id, k, endSplit).room ==> HasRoom(w, g, dmi, id)
    ensures |Tried(w, rows, g, dmi, id, k, endSplit).dmis| >= |g.dmis|
  {
    hide HasRoom;
  }

  /** What is skipped at some state of the turn is skipped by what `longest` is in the end. */
  lemma SkippedLast(w: Words, rows: seq<Row>, g: Growth, r: Growth, oldrow: nat, dmi: int, k: nat)
    requires -1 <= dmi < |g.dmis| && oldrow < |rows| && Extends(g, r) && Skipped(w, rows, g, oldrow, dmi, k)
    ensures (dmi >= 0 ==> r.dmis[dmi] == g.dmis[dmi])
      && ((r.longest > k && if dmi == -1 then !rows[oldrow].hasFull else w.given.half(r.dmis[dmi].splId))
          || (dmi >= 0 && r.dmis[dmi].level >= MAX_LEMMA_SIZE))
  {
    if dmi >= 0 {
      assert r.dmis[..|g.dmis|][dmi] == r.dmis[dmi];
    }
  }

  /** Whether the match should be made in a turn that is tried. */
  ghost predicate Wanted(w: Words, row: Row, dmis: seq<Dmi>, longest: nat, id: u16, k: nat, dmi: int) {
    && -1 <= dmi < |dmis| && (dmi == -1 || row.dmiPos <= dmi < row.dmiPos + row.dmiNum)
    && (w.SystemMore(IdsWith(dmis, dmi, id)) || w.UserMore(IdsWith(dmis, dmi, id)))
    && !(longest > k && if dmi == -1 then !row.hasFull else w.given.half(dmis[dmi].splId))
    && (dmi >= 0 ==> dmis[dmi].level < MAX_LEMMA_SIZE)
  }

  /** All matches of the old row, and the root, are tried. */
  lemma {:induction false} RowMakes(w: Words, rows: seq<Row>, g: Growth, oldrow: nat, pos: nat, id: u16, k: nat,
    endSplit: bool, dmi: int)
    requires oldrow < |rows| && rows[oldrow].dmiPos <= pos && rows[oldrow].dmiPos + rows[oldrow].dmiNum <= |g.dmis|
      && k > 0 && Sound(w, rows, g, k)
    requires GrowRow(w, rows, g, oldrow, pos, id, k, endSplit).room
    ensures var r := GrowRow(w, rows, g, oldrow, pos, id, k, endSplit);
            && Extends(g, r) && Sound(w, rows, r, k) && (g.longest == 0 ==> r.longest <= k) && r.matched == g.matched
            && (|r.dmis| < DMI_POOL_SIZE && dmi < |g.dmis| && Wanted(w, rows[oldrow], r.dmis, r.longest, id, k, dmi)
                && (dmi == -1 || pos <= dmi) && pos <= rows[oldrow].dmiPos + rows[oldrow].dmiNum ==>
                  Made(r.dmis, r.first, dmi, id, k))
    decreases rows[oldrow].dmiPos + rows[oldrow].dmiNum + 1 - pos
  {
    hide *;
    SoundGives(w, rows, g, k);
    var end := rows[oldrow].dmiPos + rows[oldrow].dmiNum;
    RowIs(w, rows, g, oldrow, pos, id, k, endSplit);
    if pos > end {
      ExtendsSelf(g);
    } else {
      var now := if pos == end then -1 else pos;
      if Skipped(w, rows, g, oldrow, now, k) {
        RowMakes(w, rows, g, oldrow, pos + 1, id, k, endSplit, dmi);
        var r := GrowRow(w, rows, g, oldrow, pos + 1, id, k, endSplit);
        if dmi == now {
          SkippedLast(w, rows, g, r, oldrow, now, k);
          NotWanted(w, rows[oldrow], r, id, k, dmi);
        } else {
          OtherWanted(w, rows[oldrow], r, id, k, dmi, pos);
        }
      } else {
        var h := Tried(w, rows, g, now, id, k, endSplit);
        TriedRoom(w, rows, g, now, id, k, endSplit);
        if !h.room {
          NoRoomStays(w, rows, h, oldrow, pos + 1, id, k, endSplit);
        }
        TriedMakes(w, rows, g, now, id, k, endSplit);
        SoundIs(w, rows, h, k);
        ExtendsGives(g, h);
        RowMakes(w, rows, h, oldrow, pos + 1, id, k, endSplit, dmi);
        var r := GrowRow(w, rows, h, oldrow, pos + 1, id, k, endSplit);
        ExtendsTrans(g, h, r);
        ExtendsGives(h, r);
        ExtendsGives(g, r);
        if dmi == now {
          WantedMore(w, rows[oldrow], g, r, id, k, dmi);
          if Made(h.dmis, h.first, dmi, id, k) {
            MadeStays(h.dmis, r.dmis, h.first, dmi, id, k);
          }
        } else {
          OtherWanted(w, rows[oldrow], r, id, k, dmi, pos);
        }
      }
    }
  }

  lemma SoundGives(w: Words, rows: seq<Row>, g: Growth, k: nat)
    requires Sound(w, rows, g, k)
    ensures g.room && g.first <= |g.dmis| && LongestOk(w, rows, g) && (g.longest == 0 || g.longest >= k) && FullOk(w, g)
  {
  }

  lemma SoundIs(w: Words, rows: seq<Row>, g: Growth, k: nat)
    requires g.room && g.first <= |g.dmis| && LongestOk(w, rows, g) && (g.longest == 0 || g.longest >= k)
      && FullOk(w, g)
    ensures Sound(w, rows, g, k)
  {
  }

  lemma ExtendsGives(g: Growth, r: Growth)
    requires Extends(g, r)
    ensures |g.dmis| <= |r.dmis| && r.dmis[..|g.dmis|] == g.dmis && r.first == g.first <= |g.dmis|
    ensures g.longest != 0 ==> r.longest == g.longest
  {
  }

  lemma NotWanted(w: Words, row: Row, r: Growth, id: u16, k: nat, dmi: int)
    requires -1 <= dmi < |r.dmis|
    requires (r.longest > k && if dmi == -1 then !row.hasFull else w.given.half(r.dmis[dmi].splId))
             || (dmi >= 0 && r.dmis[dmi].level >= MAX_LEMMA_SIZE)
    ensures !Wanted(w, row, r.dmis, r.longest, id, k, dmi)
  {
  }

  lemma OtherWanted(w: Words, row: Row, r: Growth, id: u16, k: nat, dmi: int, pos: nat)
    requires dmi != if pos == row.dmiPos + row.dmiNum then -1 else pos
    requires pos <= row.dmiPos + row.dmiNum
    ensures Wanted(w, row, r.dmis, r.longest, id, k, dmi) && (dmi == -1 || pos <= dmi) ==>
              (dmi == -1 || pos + 1 <= dmi) && pos + 1 <= row.dmiPos + row.dmiNum
  {
  }

  lemma WantedMore(w: Words, row: Row, g: Growth, r: Growth, id: u16, k: nat, dmi: int)
    requires Extends(g, r) && -1 <= dmi < |g.dmis|
    ensures Wanted(w, row, r.dmis, r.longest, id, k, dmi) ==>
              w.SystemMore(IdsWith(g.dmis, dmi, id)) || w.UserMore(IdsWith(g.dmis, dmi, id))
  {
    SameIds(g.dmis, r.dmis, dmi, id);
  }

  lemma GrowIs(w: Words, xiAn: bool, rows: seq<Row>, pys: seq<u8>, g: Growth, extLen: nat)
    requires |rows| == |pys| > 0 && Within(rows, |g.dmis|)
    ensures extLen == 0 || !g.room ==> Grow(w, xiAn, rows, pys, g, extLen) == g
    ensures extLen > 0 && g.room && extLen > |rows| ==>
              Grow(w, xiAn, rows, pys, g, extLen) == Grow(w, xiAn, rows, pys, g, extLen - 1)
    ensures 0 < extLen <= |rows| && g.room ==>
              var oldrow := |rows| - extLen;
              var barred := extLen > 1 && g.longest != 0 && !rows[oldrow].hasFull;
              var spl := w.given.parse(pys[oldrow..]);
              var h := if spl.1 then g.(matched := true) else g;
              && (barred ==>
                    Grow(w, xiAn, rows, pys, g, extLen) == if xiAn then Grow(w, xiAn, rows, pys, g, extLen - 1) else g)
              && (!barred && rows[oldrow].ndNum == 0 ==>
                    Grow(w, xiAn, rows, pys, g, extLen) == Grow(w, xiAn, rows, pys, g, extLen - 1))
              && (!barred && rows[oldrow].ndNum > 0 && spl.0 == 0 ==>
                    Grow(w, xiAn, rows, pys, g, extLen) == Grow(w, xiAn, rows, pys, h, extLen - 1))
              && (!barred && rows[oldrow].ndNum > 0 && spl.0 != 0 ==>
                    && rows[oldrow].dmiPos + rows[oldrow].dmiNum <= |g.dmis|
                    && var r := GrowRow(w, rows, h, oldrow, rows[oldrow].dmiPos, spl.0, extLen,
                                        !w.given.letter(pys[|pys| - 1]));
                       Within(rows, |r.dmis|) && Grow(w, xiAn, rows, pys, g, extLen) ==
                                                 Grow(w, xiAn, rows, pys, r, extLen - 1))
  {
    hide GrowRow;
  }

  lemma SameButMatched(w: Words, rows: seq<Row>, g: Growth, k: nat)
    requires Sound(w, rows, g, k)
    ensures Sound(w, rows, g.(matched := true), k) && Extends(g, g.(matched := true))
  {
    SameFull(w, g, g.(matched := true));
    hide Leads, Extent, FullOk;
  }

  /** A length that is not tried leaves nothing due. */
  lemma NotDue(w: Words, xiAn: bool, rows: seq<Row>, pys: seq<u8>, dmis: seq<Dmi>, longest: nat, n: nat, k: nat,
    dmi: int)
    requires 0 < n <= |rows| == |pys| && n <= MAX_PINYIN_SIZE + 1
    ensures n > 1 && longest > n && !rows[|rows| - n].hasFull && (k == n || (!xiAn && k <= n)) ==>
              !Due(w, xiAn, rows, pys, dmis, longest, k, dmi)
    ensures k == n && (rows[|rows| - n].ndNum == 0 || w.given.parse(pys[|rows| - n..]).0 == 0) ==>
              !Due(w, xiAn, rows, pys, dmis, longest, k, dmi)
  {
    if n > 1 && longest > n && !rows[|rows| - n].hasFull {
      assert BarredAt(rows, longest, n);
    }
  }

  lemma TooLong(w: Words, xiAn: bool, rows: seq<Row>, pys: seq<u8>, dmis: seq<Dmi>, longest: nat, k: nat, dmi: int)
    ensures k > |rows| ==> !Due(w, xiAn, rows, pys, dmis, longest, k, dmi)
  {
  }

  lemma DueWanted(w: Words, xiAn: bool, rows: seq<Row>, pys: seq<u8>, dmis: seq<Dmi>, longest: nat, k: nat, dmi: int)
    requires Due(w, xiAn, rows, pys, dmis, longest, k, dmi)
    ensures 0 < k <= |rows| == |pys|
      && Wanted(w, rows[|rows| - k], dmis, longest, w.given.parse(pys[|rows| - k..]).0, k, dmi)
    ensures dmi == -1 || rows[|rows| - k].dmiPos <= dmi < rows[|rows| - k].dmiPos + rows[|rows| - k].dmiNum
  {
    hide Barred;
  }

  /** All lengths from n down are tried: what is due is made. */
  lemma {:induction false} GrowMakes(w: Words, xiAn: bool, rows: seq<Row>, pys: seq<u8>, g: Growth, n: nat, k: nat,
    dmi: int)
    requires |rows| == |pys| > 0 && Within(rows, |g.dmis|) && n <= MAX_PINYIN_SIZE + 1 && Sound(w, rows, g, n + 1)
    requires Grow(w, xiAn, rows, pys, g, n).room
    ensures var r := Grow(w, xiAn, rows, pys, g, n);
            && Extends(g, r) && Sound(w, rows, r, 0)
            && (0 < k <= n && |r.dmis| < DMI_POOL_SIZE && dmi < |g.dmis|
                && Due(w, xiAn, rows, pys, r.dmis, r.longest, k, dmi) ==>
                  Made(r.dmis, r.first, dmi, w.given.parse(pys[|rows| - k..]).0, k))
    decreases n
  {
    hide *;
    SoundGives(w, rows, g, n + 1);
    GrowIs(w, xiAn, rows, pys, g, n);
    SoundDown(w, rows, g, n + 1, n);
    var r := Grow(w, xiAn, rows, pys, g, n);
    if n == 0 {
      ExtendsSelf(g);
    } else if n > |rows| {
      GrowMakes(w, xiAn, rows, pys, g, n - 1, k, dmi);
      TooLong(w, xiAn, rows, pys, r.dmis, r.longest, k, dmi);
    } else {
      NotDue(w, xiAn, rows, pys, r.dmis, r.longest, n, k, dmi);
      var spl := w.given.parse(pys[|rows| - n..]);
      if n > 1 && g.longest != 0 && !rows[|rows| - n].hasFull {
        if xiAn {
          GrowMakes(w, xiAn, rows, pys, g, n - 1, k, dmi);
          ExtendsGives(g, r);
        } else {
          ExtendsSelf(g);
          SoundDown(w, rows, g, n + 1, 0);
        }
      } else if rows[|rows| - n].ndNum == 0 {
        GrowMakes(w, xiAn, rows, pys, g, n - 1, k, dmi);
      } else {
        SameButMatched(w, rows, g, n);
        ExtendsSelf(g);
        var h := if spl.1 then g.(matched := true) else g;
        if spl.0 == 0 {
          GrowMakes(w, xiAn, rows, pys, h, n - 1, k, dmi);
          ExtendsTrans(g, h, r);
        } else {
          TurnMakes(w, xiAn, rows, pys, g, h, n, k, dmi);
        }
      }
    }
  }

  /** A turn that is tried, and the shorter lengths after it. */
  lemma {:induction false} TurnMakes(w: Words, xiAn: bool, rows: seq<Row>, pys: seq<u8>, g: Growth, h: Growth, n: nat,
    k: nat, dmi: int)
    requires 0 < n <= |rows| == |pys| && Within(rows, |g.dmis|) && n <= MAX_PINYIN_SIZE + 1 && Sound(w, rows, h, n)
      && Extends(g, h) && h.dmis == g.dmis && g.room && rows[|rows| - n].dmiPos + rows[|rows| - n].dmiNum <= |g.dmis|
    requires var f := GrowRow(w, rows, h, |rows| - n, rows[|rows| - n].dmiPos, w.given.parse(pys[|rows| - n..]).0, n,
                              !w.given.letter(pys[|pys| - 1]));
             && Within(rows, |f.dmis|) && Grow(w, xiAn, rows, pys, f, n - 1).room
             && Grow(w, xiAn, rows, pys, g, n) == Grow(w, xiAn, rows, pys, f, n - 1)
    ensures var r := Grow(w, xiAn, rows, pys, g, n);
            && Extends(g, r) && Sound(w, rows, r, 0)
            && (0 < k <= n && |r.dmis| < DMI_POOL_SIZE && dmi < |g.dmis|
                && Due(w, xiAn, rows, pys, r.dmis, r.longest, k, dmi) ==>
                  Made(r.dmis, r.first, dmi, w.given.parse(pys[|rows| - k..]).0, k))
    decreases n, 0
  {
    hide *;
    var o, id := |rows| - n, w.given.parse(pys[|rows| - n..]).0;
    var endSplit := !w.given.letter(pys[|pys| - 1]);
    var f := GrowRow(w, rows, h, o, rows[o].dmiPos, id, n, endSplit);
    SoundGives(w, rows, h, n);
    RoomBack(w, xiAn, rows, pys, f, n - 1);
    RowMakes(w, rows, h, o, rows[o].dmiPos, id, n, endSplit, dmi);
    GrowMakes(w, xiAn, rows, pys, f, n - 1, k, dmi);
    var r := Grow(w, xiAn, rows, pys, g, n);
    ExtendsTrans(h, f, r);
    ExtendsTrans(g, h, r);
    ExtendsGives(h, f);
    ExtendsGives(f, r);
    if k == n && |r.dmis| < DMI_POOL_SIZE && dmi < |g.dmis| && Due(w, xiAn, rows, pys, r.dmis, r.longest, k, dmi) {
      DueWanted(w, xiAn, rows, pys, r.dmis, r.longest, k, dmi);
      SoundGives(w, rows, f, n);
      WantedBack(w, rows[o], h, f, r, id, n, dmi);
      MadeStays(f.dmis, r.dmis, f.first, dmi, id, n);
    }
  }

  lemma RoomBack(w: Words, xiAn: bool, rows: seq<Row>, pys: seq<u8>, g: Growth, n: nat)
    requires |rows| == |pys| > 0 && Within(rows, |g.dmis|) && Grow(w, xiAn, rows, pys, g, n).room
    ensures g.room
  {
  }

  /** What is wanted in the end is wanted at the end of its turn. */
  lemma WantedBack(w: Words, row: Row, h: Growth, f: Growth, r: Growth, id: u16, n: nat, dmi: int)
    requires Extends(f, r) && Extends(h, f) && dmi < |h.dmis| && Wanted(w, row, r.dmis, r.longest, id, n, dmi)
      && (f.longest == 0 || f.longest >= n) && (h.longest == 0 ==> f.longest <= n)
    ensures Wanted(w, row, f.dmis, f.longest, id, n, dmi) && dmi < |f.dmis|
  {
    SameIds(f.dmis, r.dmis, dmi, id);
    hide Words.SystemMore, Words.UserMore, IdsWith;
  }

  // ---- Nothing else is made ----

  /** Match d was made in a turn of length k from this row. */
  ghost predicate TurnMatch(w: Words, row: Row, r: Growth, id: u16, k: nat, endSplit: bool, d: nat) {
    d < |r.dmis| && Extent(r.dmis, d) == k && r.dmis[d].splId == id && Flagged(w, r.dmis, d, endSplit)
    && Wanted(w, row, r.dmis, r.longest, id, k, r.dmis[d].fr)
  }

  lemma NotSkippedWanted(w: Words, rows: seq<Row>, g: Growth, r: Growth, oldrow: nat, dmi: int, id: u16, k: nat)
    requires -1 <= dmi < |g.dmis| && oldrow < |rows| && Extends(g, r) && !Skipped(w, rows, g, oldrow, dmi, k)
      && (g.longest == 0 ==> r.longest <= k)
      && (dmi == -1 || rows[oldrow].dmiPos <= dmi < rows[oldrow].dmiPos + rows[oldrow].dmiNum)
    requires w.SystemMore(IdsWith(g.dmis, dmi, id)) || w.UserMore(IdsWith(g.dmis, dmi, id))
    ensures Wanted(w, rows[oldrow], r.dmis, r.longest, id, k, dmi)
  {
    SameIds(g.dmis, r.dmis, dmi, id);
    hide Words.SystemMore, Words.UserMore, IdsWith;
  }

  lemma {:induction false} RowDue(w: Words, rows: seq<Row>, g: Growth, oldrow: nat, pos: nat, id: u16, k: nat,
    endSplit: bool)
    requires oldrow < |rows| && rows[oldrow].dmiPos <= pos && rows[oldrow].dmiPos + rows[oldrow].dmiNum <= |g.dmis|
      && k > 0 && Sound(w, rows, g, k)
    requires GrowRow(w, rows, g, oldrow, pos, id, k, endSplit).room
    ensures var r := GrowRow(w, rows, g, oldrow, pos, id, k, endSplit);
            forall d: nat :: |g.dmis| <= d < |r.dmis| ==> TurnMatch(w, rows[oldrow], r, id, k, endSplit, d)
    decreases rows[oldrow].dmiPos + rows[oldrow].dmiNum + 1 - pos
  {
    hide *;
    SoundGives(w, rows, g, k);
    var end := rows[oldrow].dmiPos + rows[oldrow].dmiNum;
    RowIs(w, rows, g, oldrow, pos, id, k, endSplit);
    if pos <= end {
      var now := if pos == end then -1 else pos;
      if Skipped(w, rows, g, oldrow, now, k) {
        RowDue(w, rows, g, oldrow, pos + 1, id, k, endSplit);
      } else {
        var h := Tried(w, rows, g, now, id, k, endSplit);
        TriedRoom(w, rows, g, now, id, k, endSplit);
        if !h.room {
          NoRoomStays(w, rows, h, oldrow, pos + 1, id, k, endSplit);
        }
        TriedMakes(w, rows, g, now, id, k, endSplit);
        SoundIs(w, rows, h, k);
        ExtendsGives(g, h);
        RowDue(w, rows, h, oldrow, pos + 1, id, k, endSplit);
        RowMakes(w, rows, h, oldrow, pos + 1, id, k, endSplit, -1);
        var r := GrowRow(w, rows, h, oldrow, pos + 1, id, k, endSplit);
        ExtendsGives(h, r);
        ExtendsTrans(g, h, r);
        if h.dmis != g.dmis {
          NotSkippedWanted(w, rows, g, r, oldrow, now, id, k);
          TurnMatchIs(w, rows[oldrow], h.dmis, r, id, k, endSplit, now, |g.dmis|);
        }
      }
    }
  }

  lemma TurnMatchIs(w: Words, row: Row, dmis: seq<Dmi>, r: Growth, id: u16, k: nat, endSplit: bool, dmi: int, d: nat)
    requires d < |dmis| <= |r.dmis| && r.dmis[..|dmis|] == dmis && MatchAt(dmis, d, dmi, id, k) && Extent(dmis, d) == k
      && Wanted(w, row, r.dmis, r.longest, id, k, dmi) && Flagged(w, dmis, d, endSplit)
    ensures TurnMatch(w, row, r, id, k, endSplit, d)
  {
    hide Wanted, PathIds;
    assert r.dmis[..|dmis|][d] == r.dmis[d];
    assert 0 <= dmis[d].fr < d ==> r.dmis[..|dmis|][dmis[d].fr] == r.dmis[dmis[d].fr];
  }

  /** The loop has not stopped before the length n. */
  ghost predicate NotStopped(rows: seq<Row>, xiAn: bool, longest: nat, n: nat) {
    !xiAn ==> forall m: nat :: n < m ==> !BarredAt(rows, longest, m)
  }

  lemma StillGoing(rows: seq<Row>, xiAn: bool, longest: nat, longest': nat, n: nat)
    requires NotStopped(rows, xiAn, longest, n) && n > 0
      && (longest != 0 ==> longest' == longest) && (longest == 0 ==> longest' <= n)
    requires n > |rows| || !(n > 1 && longest != 0 && !rows[|rows| - n].hasFull)
    ensures NotStopped(rows, xiAn, longest', n - 1) && !Barred(rows, xiAn, longest', n)
  {
  }

  lemma BarredNow(rows: seq<Row>, xiAn: bool, longest: nat, n: nat)
    requires 1 < n <= |rows| && n <= MAX_PINYIN_SIZE + 1 && n < longest && !rows[|rows| - n].hasFull
    ensures Barred(rows, xiAn, longest, n) && (!xiAn ==> forall k: nat :: k <= n ==> Barred(rows, xiAn, longest, k))
  {
    assert BarredAt(rows, longest, n);
  }

  /** The lengths from n down that the parser says may go on. */
  ghost predicate AnyGoesOn(w: Words, xiAn: bool, rows: seq<Row>, pys: seq<u8>, longest: nat, n: nat) {
    exists k: nat :: k <= n && GoesOnAt(w, xiAn, rows, pys, longest, k)
  }

  lemma AnyGoesOnNext(w: Words, xiAn: bool, rows: seq<Row>, pys: seq<u8>, longest: nat, n: nat)
    requires n > 0
    ensures AnyGoesOn(w, xiAn, rows, pys, longest, n) <==>
            AnyGoesOn(w, xiAn, rows, pys, longest, n - 1) || GoesOnAt(w, xiAn, rows, pys, longest, n)
  {
    hide GoesOnAt;
    if AnyGoesOn(w, xiAn, rows, pys, longest, n) {
      var k: nat :| k <= n && GoesOnAt(w, xiAn, rows, pys, longest, k);
      assert k == n || k <= n - 1;
    }
  }

  lemma GoesOnIs(w: Words, xiAn: bool, rows: seq<Row>, pys: seq<u8>, longest: nat, n: nat)
    requires |rows| == |pys|
    ensures !AnyGoesOn(w, xiAn, rows, pys, longest, 0)
    ensures n > |rows| ==> !GoesOnAt(w, xiAn, rows, pys, longest, n)
    ensures 0 < n <= |rows| && n <= MAX_PINYIN_SIZE + 1 && !Barred(rows, xiAn, longest, n) ==>
              (GoesOnAt(w, xiAn, rows, pys, longest, n) <==>
               rows[|rows| - n].ndNum > 0 && w.given.parse(pys[|rows| - n..]).1)
    ensures Barred(rows, xiAn, longest, n) ==> !GoesOnAt(w, xiAn, rows, pys, longest, n)
  {
    hide Barred;
  }

  lemma NoneGoesOn(w: Words, xiAn: bool, rows: seq<Row>, pys: seq<u8>, longest: nat, n: nat)
    requires forall k: nat :: k <= n ==> Barred(rows, xiAn, longest, k)
    ensures !AnyGoesOn(w, xiAn, rows, pys, longest, n)
  {
    hide Barred;
  }

  /** Each match that the lengths from n down make is due; and what they say of going on. */
  lemma {:induction false} GrowDue(w: Words, xiAn: bool, rows: seq<Row>, pys: seq<u8>, g: Growth, n: nat)
    requires |rows| == |pys| > 0 && Within(rows, g.first) && Within(rows, |g.dmis|) && n <= MAX_PINYIN_SIZE + 1
      && Sound(w, rows, g, n + 1) && NotStopped(rows, xiAn, g.longest, n)
    requires Grow(w, xiAn, rows, pys, g, n).room
    ensures var r := Grow(w, xiAn, rows, pys, g, n);
            && (g.longest == 0 ==> r.longest <= n)
            && (forall d: nat :: |g.dmis| <= d < |r.dmis| ==> MatchDue(w, xiAn, rows, pys, r.dmis, r.longest, d))
            && (r.matched <==> g.matched || AnyGoesOn(w, xiAn, rows, pys, r.longest, n))
    decreases n
  {
    hide *;
    SoundGives(w, rows, g, n + 1);
    GrowIs(w, xiAn, rows, pys, g, n);
    SoundDown(w, rows, g, n + 1, n);
    GrowMakes(w, xiAn, rows, pys, g, n, 0, 0);
    var r := Grow(w, xiAn, rows, pys, g, n);
    ExtendsGives(g, r);
    if n == 0 {
      GoesOnIs(w, xiAn, rows, pys, r.longest, 0);
    } else if n > |rows| {
      StillGoing(rows, xiAn, g.longest, g.longest, n);
      GrowDue(w, xiAn, rows, pys, g, n - 1);
      AnyGoesOnNext(w, xiAn, rows, pys, r.longest, n);
      GoesOnIs(w, xiAn, rows, pys, r.longest, n);
    } else if n > 1 && g.longest != 0 && !rows[|rows| - n].hasFull {
      BarredNow(rows, xiAn, r.longest, n);
      if xiAn {
        XiAnGoes(rows, g.longest, n - 1);
        GrowDue(w, xiAn, rows, pys, g, n - 1);
        AnyGoesOnNext(w, xiAn, rows, pys, r.longest, n);
        GoesOnIs(w, xiAn, rows, pys, r.longest, n);
      } else {
        NoneGoesOn(w, xiAn, rows, pys, r.longest, n);
      }
    } else {
      StillGoing(rows, xiAn, g.longest, g.longest, n);
      var spl := w.given.parse(pys[|rows| - n..]);
      if rows[|rows| - n].ndNum == 0 {
        GrowDue(w, xiAn, rows, pys, g, n - 1);
        StillGoing(rows, xiAn, g.longest, r.longest, n);
        AnyGoesOnNext(w, xiAn, rows, pys, r.longest, n);
        GoesOnIs(w, xiAn, rows, pys, r.longest, n);
      } else {
        SameButMatched(w, rows, g, n);
        ExtendsSelf(g);
        var h := if spl.1 then g.(matched := true) else g;
        if spl.0 == 0 {
          GrowDue(w, xiAn, rows, pys, h, n - 1);
          StillGoing(rows, xiAn, g.longest, r.longest, n);
          AnyGoesOnNext(w, xiAn, rows, pys, r.longest, n);
          GoesOnIs(w, xiAn, rows, pys, r.longest, n);
        } else {
          TurnDue(w, xiAn, rows, pys, g, h, n);
        }
      }
    }
  }

  lemma XiAnGoes(rows: seq<Row>, longest: nat, n: nat)
    ensures NotStopped(rows, true, longest, n)
  {
  }

  lemma {:induction false} TurnDue(w: Words, xiAn: bool, rows: seq<Row>, pys: seq<u8>, g: Growth, h: Growth, n: nat)
    requires 0 < n <= |rows| == |pys| && Within(rows, g.first) && Within(rows, |g.dmis|) && n <= MAX_PINYIN_SIZE + 1
      && g.first <= |g.dmis| && rows[|rows| - n].ndNum > 0
    requires Sound(w, rows, h, n) && (g.longest == 0 || g.longest >= n + 1) && NotStopped(rows, xiAn, g.longest, n)
    requires h == (if w.given.parse(pys[|rows| - n..]).1 then g.(matched := true) else g) && g.room
      && w.given.parse(pys[|rows| - n..]).0 != 0 && rows[|rows| - n].dmiPos + rows[|rows| - n].dmiNum <= |g.dmis|
    requires !(n > 1 && g.longest != 0 && !rows[|rows| - n].hasFull)
    requires var f := GrowRow(w, rows, h, |rows| - n, rows[|rows| - n].dmiPos, w.given.parse(pys[|rows| - n..]).0, n,
                              !w.given.letter(pys[|pys| - 1]));
             && Within(rows, |f.dmis|) && Grow(w, xiAn, rows, pys, f, n - 1).room
             && Grow(w, xiAn, rows, pys, g, n) == Grow(w, xiAn, rows, pys, f, n - 1)
    ensures var r := Grow(w, xiAn, rows, pys, g, n);
            && (g.longest == 0 ==> r.longest <= n)
            && (forall d: nat :: |g.dmis| <= d < |r.dmis| ==> MatchDue(w, xiAn, rows, pys, r.dmis, r.longest, d))
            && (r.matched <==> g.matched || AnyGoesOn(w, xiAn, rows, pys, r.longest, n))
    decreases n, 0
  {
    hide *;
    var o, id := |rows| - n, w.given.parse(pys[|rows| - n..]).0;
    var endSplit := !w.given.letter(pys[|pys| - 1]);
    var f := GrowRow(w, rows, h, o, rows[o].dmiPos, id, n, endSplit);
    SoundGives(w, rows, h, n);
    RoomBack(w, xiAn, rows, pys, f, n - 1);
    RowMakes(w, rows, h, o, rows[o].dmiPos, id, n, endSplit, -1);
    RowDue(w, rows, h, o, rows[o].dmiPos, id, n, endSplit);
    ExtendsGives(h, f);
    SoundGives(w, rows, f, n);
    StillGoing(rows, xiAn, g.longest, f.longest, n);
    GrowMakes(w, xiAn, rows, pys, f, n - 1, 0, 0);
    GrowDue(w, xiAn, rows, pys, f, n - 1);
    var r := Grow(w, xiAn, rows, pys, g, n);
    ExtendsGives(f, r);
    StillGoing(rows, xiAn, g.longest, r.longest, n);
    AnyGoesOnNext(w, xiAn, rows, pys, r.longest, n);
    GoesOnIs(w, xiAn, rows, pys, r.longest, n);
    forall d: nat | |g.dmis| <= d < |r.dmis|
      ensures MatchDue(w, xiAn, rows, pys, r.dmis, r.longest, d)
    {
      if d < |f.dmis| {
        TurnMatchDue(w, xiAn, rows, pys, f, r, id, n, d);
      }
    }
  }

  lemma TurnMatchDue(w: Words, xiAn: bool, rows: seq<Row>, pys: seq<u8>, f: Growth, r: Growth, id: u16, n: nat, d: nat)
    requires 0 < n <= |rows| == |pys| && n <= MAX_PINYIN_SIZE + 1 && rows[|rows| - n].ndNum > 0
      && id == w.given.parse(pys[|rows| - n..]).0 != 0
    requires Extends(f, r) && (f.longest == 0 ==> r.longest <= n)
      && TurnMatch(w, rows[|rows| - n], f, id, n, !w.given.letter(pys[|pys| - 1]), d)
    requires !Barred(rows, xiAn, r.longest, n)
    ensures d < |r.dmis| && MatchDue(w, xiAn, rows, pys, r.dmis, r.longest, d)
  {
    hide Barred, Words.SystemMore, Words.UserMore, IdsWith;
    LeadsStays(w, rows, f.dmis, r.dmis, d);
    assert r.dmis[..|f.dmis|][d] == r.dmis[d];
    assert 0 <= f.dmis[d].fr < d ==> r.dmis[..|f.dmis|][f.dmis[d].fr] == r.dmis[f.dmis[d].fr];
    SameIds(f.dmis, r.dmis, f.dmis[d].fr, id);
  }

  /** The new row has exactly the matches that are due, `longest` is the longest spelling that leads to lemmas, and the
      flags say what they should, whatever the order of the turns. */
  lemma GrowIsComplete(w: Words, xiAn: bool, rows: seq<Row>, pys: seq<u8>, g: Growth)
    requires |rows| == |pys| > 0 && Within(rows, |g.dmis|) && g.first == |g.dmis| && g.longest == 0 && g.room
      && !g.hasFull && !g.matched
    requires Grow(w, xiAn, rows, pys, g, MAX_PINYIN_SIZE + 1).room
    ensures var r := Grow(w, xiAn, rows, pys, g, MAX_PINYIN_SIZE + 1);
            RowComplete(w, xiAn, rows, pys, r) && r.first == g.first <= |r.dmis|
  {
    hide *;
    NoneYet(w, rows, g);
    NothingBarred(rows, xiAn);
    var n := MAX_PINYIN_SIZE + 1;
    var r := Grow(w, xiAn, rows, pys, g, n);
    GrowMakes(w, xiAn, rows, pys, g, n, 0, 0);
    GrowDue(w, xiAn, rows, pys, g, n);
    SoundGives(w, rows, r, 0);
    ExtendsGives(g, r);
    AllDueIs(w, xiAn, rows, pys, r);
    if |r.dmis| < DMI_POOL_SIZE {
      forall k: nat, dmi: int | dmi < r.first && Due(w, xiAn, rows, pys, r.dmis, r.longest, k, dmi)
        ensures k <= |rows| == |pys| && Made(r.dmis, r.first, dmi, w.given.parse(pys[|rows| - k..]).0, k)
      {
        DueWanted(w, xiAn, rows, pys, r.dmis, r.longest, k, dmi);
        DueShort(w, xiAn, rows, pys, r.dmis, r.longest, k, dmi);
        GrowMakes(w, xiAn, rows, pys, g, n, k, dmi);
      }
      AllMadeIs(w, xiAn, rows, pys, r);
    }
    RowCompleteIs(w, xiAn, rows, pys, r);
  }

  lemma NothingBarred(rows: seq<Row>, xiAn: bool)
    ensures NotStopped(rows, xiAn, 0, MAX_PINYIN_SIZE + 1)
  {
  }

  lemma AllDueIs(w: Words, xiAn: bool, rows: seq<Row>, pys: seq<u8>, r: Growth)
    requires forall d: nat :: r.first <= d < |r.dmis| ==> MatchDue(w, xiAn, rows, pys, r.dmis, r.longest, d)
    ensures AllDue(w, xiAn, rows, pys, r)
  {
    hide MatchDue;
  }

  lemma RowCompleteIs(w: Words, xiAn: bool, rows: seq<Row>, pys: seq<u8>, r: Growth)
    requires LongestOk(w, rows, r) && (|r.dmis| < DMI_POOL_SIZE ==> AllMade(w, xiAn, rows, pys, r))
      && AllDue(w, xiAn, rows, pys, r) && FullOk(w, r)
    requires r.matched <==> AnyGoesOn(w, xiAn, rows, pys, r.longest, MAX_PINYIN_SIZE + 1)
    ensures RowComplete(w, xiAn, rows, pys, r)
  {
    hide AllMade, AllDue, LongestOk, FullOk, Barred;
    if k: nat :| GoesOnAt(w, xiAn, rows, pys, r.longest, k) {
      assert k <= MAX_PINYIN_SIZE + 1;
    }
  }

  lemma DueShort(w: Words, xiAn: bool, rows: seq<Row>, pys: seq<u8>, dmis: seq<Dmi>, longest: nat, k: nat, dmi: int)
    requires Due(w, xiAn, rows, pys, dmis, longest, k, dmi)
    ensures k <= MAX_PINYIN_SIZE + 1
  {
    hide Barred;
  }

  lemma AllMadeIs(w: Words, xiAn: bool, rows: seq<Row>, pys: seq<u8>, r: Growth)
    requires forall k: nat, dmi: int :: dmi < r.first && Due(w, xiAn, rows, pys, r.dmis, r.longest, k, dmi) ==>
               k <= |rows| == |pys| && Made(r.dmis, r.first, dmi, w.given.parse(pys[|rows| - k..]).0, k)
    ensures AllMade(w, xiAn, rows, pys, r)
  {
    hide Due, Made;
  }

  lemma NoneYet(w: Words, rows: seq<Row>, g: Growth)
    requires g.first == |g.dmis| && g.longest == 0 && g.room && !g.hasFull
    ensures Sound(w, rows, g, MAX_PINYIN_SIZE + 1 + 1)
  {
  }

  // ---- Rows that are reached ----

  /** The last k characters are a spelling that has lemmas of its own, and a row with nodes comes before them. */
  ghost predicate Spelt(w: Words, rows: seq<Row>, pys: seq<u8>, k: nat) {
    && |pys| == |rows| && 1 <= k <= |rows| && k <= MAX_PINYIN_SIZE + 1 && rows[|rows| - k].ndNum > 0
    && var id := w.given.parse(pys[|rows| - k..]).0; id != 0 && w.Items([id]) != []
  }

  /** Then some new match leads to lemmas: this one, or one with a longer last spelling. */
  lemma SpeltLeads(w: Words, xiAn: bool, rows: seq<Row>, pys: seq<u8>, r: Growth, k: nat) returns (d: nat)
    requires RowComplete(w, xiAn, rows, pys, r) && |r.dmis| < DMI_POOL_SIZE && Spelt(w, rows, pys, k) && w.given.Sorts()
    ensures r.first <= d < |r.dmis| && Leads(w, rows, r.dmis, d)
  {
    hide Words.Items, Words.SystemMore, Words.UserMore;
    if r.longest > 0 {
      d :| r.first <= d < |r.dmis| && Leads(w, rows, r.dmis, d) && Extent(r.dmis, d) == r.longest;
    } else {
      var id := w.given.parse(pys[|rows| - k..]).0;
      if !w.SystemMore([id]) && !w.UserMore([id]) {
        w.NoItemsBehind([id]);
      }
      assert IdsWith(r.dmis, -1, id) == [id];
      assert Due(w, xiAn, rows, pys, r.dmis, r.longest, k, -1);
      d :| r.first <= d && MatchAt(r.dmis, d, -1, id, k);
      assert PathIds(r.dmis, d) == [id];
    }
  }

  /** A match that leads to lemmas brings nodes to its row. */
  lemma LeadsReaches(w: Words, lex: Lexicon, l: Lat, r: nat, d: nat)
    requires LatOk(lex, l) && r == |l.pys| && DmiIn(l, r, d) && (forall ids :: lex.items(ids) == w.Items(ids))
    requires r < |l.rows| && Leads(w, l.rows[..r], l.dmis, d)
    ensures l.rows[r].ndNum > 0
  {
    hide *;
    RowGives(lex, l, r, d);
    var p := r - l.dmis[d].splLen;
    LeadsGives(w, l.rows[..r], l.dmis, d);
    assert l.rows[..r][p] == l.rows[p];
    CoveredGives(lex, l, r, d);
    HasNode(lex, l, p);
    ItemsAre(w, lex, l, d);
    var m := l.rows[p].ndPos;
    assert Covers(RowNodes(l, r), Offer(l.nodes, m, ItemsOf(lex, l, d)[0], d, r));
    CoverHas(RowNodes(l, r), Offer(l.nodes, m, ItemsOf(lex, l, d)[0], d, r));
    RowLength(l, r);
  }

  lemma RowGives(lex: Lexicon, l: Lat, r: nat, d: nat)
    requires LatOk(lex, l) && r == |l.pys| && DmiIn(l, r, d)
    ensures r < |l.rows| && d < |l.dmis| && l.dmis[d].splLen <= r && NodeEnd(l, r) <= |l.nodes|
      && DmiCovered(lex, l, r, d) && l.rows[r].ndPos + l.rows[r].ndNum <= |l.nodes|
  {
    assert RowOk(lex, l, r);
    assert DmiOk(lex, l, r, d);
    hide RowOk, DmiCovered;
  }

  lemma LeadsGives(w: Words, rows: seq<Row>, dmis: seq<Dmi>, d: nat)
    requires Leads(w, rows, dmis, d)
    ensures d < |dmis| && 0 < dmis[d].splLen <= |rows| && rows[|rows| - dmis[d].splLen].ndNum > 0
      && w.Items(PathIds(dmis, d)) != []
  {
  }

  lemma HasNode(lex: Lexicon, l: Lat, p: nat)
    requires LatOk(lex, l) && p <= |l.pys| && p < |l.rows| && l.rows[p].ndNum > 0
    ensures NodeIn(l, p, l.rows[p].ndPos) && l.rows[p].ndPos < |l.nodes|
  {
    assert RowOk(lex, l, p);
  }

  lemma ItemsAre(w: Words, lex: Lexicon, l: Lat, d: nat)
    requires d < |l.dmis| && forall ids :: lex.items(ids) == w.Items(ids)
    ensures ItemsOf(lex, l, d) == w.Items(PathIds(l.dmis, d))
  {
  }

  lemma CoverHas(s: seq<Node>, o: Node)
    requires Covers(s, o)
    ensures s != []
  {
  }

  lemma RowLength(l: Lat, r: nat)
    requires r < |l.rows| && l.rows[r].ndPos + l.rows[r].ndNum <= |l.nodes|
    ensures |RowNodes(l, r)| == l.rows[r].ndNum
  {
  }
}
