/** The table in which the spellings of the raw dictionary are counted: open addressing over a prime number of slots. */
module SpellingTables {
  import opened Arith
  import opened Bytes
  import opened PrimeStride

  /** A slot; empty with the empty string. */
  datatype Raw = Raw(str: seq<u16>, freq: real)

  /** HM, HNG, NG. */
  const NOT_SUPPORTED: seq<seq<u16>> := [[72, 77], [72, 78, 71], [78, 71]]

  function SumOf(s: seq<u16>): (n: nat) {
    if s == [] then 0 else s[0] as nat + SumOf(s[1..])
  }

  function Hash(p: nat, s: seq<u16>): (h: nat)
    requires p > 0
    ensures h < p
  {
    SumOf(s) % p
  }

  ghost predicate Has(raws: seq<Raw>, s: seq<u16>) {
    exists x :: 0 <= x < |raws| && raws[x].str == s
  }

  function Count(raws: seq<Raw>): (n: nat)
    ensures n <= |raws|
  {
    if raws == [] then 0 else (if raws[0].str != [] then 1 else 0) + Count(raws[1..])
  }

  function SumFreq(raws: seq<Raw>): (f: real) {
    if raws == [] then 0.0 else raws[0].freq + SumFreq(raws[1..])
  }

  /** How often a spelling was counted. */
  function FreqOf(raws: seq<Raw>, s: seq<u16>): (f: real) {
    if raws == [] then 0.0 else (if raws[0].str == s then raws[0].freq else 0.0) + FreqOf(raws[1..], s)
  }

  /** The spelling is at some step of its probe, and no slot before it on the probe is empty. */
  ghost predicate Reachable(raws: seq<Raw>, x: nat)
    requires x < |raws|
  {
    exists k: nat :: AtStep(raws, x, k)
  }

  ghost predicate AtStep(raws: seq<Raw>, x: nat, k: nat)
    requires x < |raws|
  {
    k < |raws| && Probe(|raws|, Hash(|raws|, raws[x].str), k) == x && Taken(raws, Hash(|raws|, raws[x].str), k)
  }

  /** The first k slots of the probe from h are in use. */
  ghost predicate Taken(raws: seq<Raw>, h: nat, k: nat)
    requires |raws| > 0
  {
    forall j: nat :: j < k ==> raws[Probe(|raws|, h, j)].str != []
  }

  /** The invariant: a prime size (or one slot), spellings at most once, each where its probe finds it. */
  ghost predicate Ok(raws: seq<Raw>) {
    && (|raws| == 1 || Prime(|raws|))
    && (forall x, y :: 0 <= x < y < |raws| && raws[x].str != [] ==> raws[x].str != raws[y].str)
    && (forall x :: 0 <= x < |raws| && raws[x].str != [] ==> Reachable(raws, x))
    && (forall x :: 0 <= x < |raws| && raws[x].str == [] ==> raws[x].freq == 0.0)
  }

  // ---- Probing ----

  /** An empty slot on the probe ends the search: the spelling is not in the table. */
  lemma NotBeyond(raws: seq<Raw>, s: seq<u16>, k: nat)
    requires Ok(raws) && s != [] && raws[Probe(|raws|, Hash(|raws|, s), k)].str == []
    requires forall j: nat :: j < k ==> raws[Probe(|raws|, Hash(|raws|, s), j)].str != s
    ensures !Has(raws, s)
  {
    forall x | 0 <= x < |raws| && raws[x].str != [] ensures raws[x].str != s {
      var i := StepOf(raws, x);
      NotAfter(raws, x, i, s, k);
    }
  }

  lemma StepOf(raws: seq<Raw>, x: nat) returns (k: nat)
    requires Ok(raws) && x < |raws| && raws[x].str != []
    ensures AtStep(raws, x, k)
  {
    assert Reachable(raws, x);
    k :| AtStep(raws, x, k);
  }

  lemma NotAfter(raws: seq<Raw>, x: nat, i: nat, s: seq<u16>, k: nat)
    requires x < |raws| && AtStep(raws, x, i) && raws[Probe(|raws|, Hash(|raws|, s), k)].str == []
    ensures raws[x].str == s ==> i <= k
  {
  }

  /** Some slot of the probe from h is empty. */
  ghost predicate Free(raws: seq<Raw>, h: nat)
    requires |raws| > 0
  {
    exists k :: EmptyStep(raws, h, k)
  }

  ghost predicate EmptyStep(raws: seq<Raw>, h: nat, k: nat)
    requires |raws| > 0
  {
    k < |raws| && raws[Probe(|raws|, h, k)].str == []
  }

  /** Once the probe has come round, the spelling is not in the table. */
  lemma AllSeen(raws: seq<Raw>, s: seq<u16>)
    requires Ok(raws) && s != []
    requires forall j: nat :: j < Period(|raws|) ==> raws[Probe(|raws|, Hash(|raws|, s), j)].str != s
    ensures !Has(raws, s)
  {
    forall x | 0 <= x < |raws| && raws[x].str != []
      ensures raws[x].str != s
    {
      var k := StepOf(raws, x);
      WithinPeriod(|raws|, Hash(|raws|, raws[x].str), k);
    }
  }

  /** An empty slot on the probe is there exactly when the table is not full, if the probe comes to all slots; in tables
      of 1, 3 and 41 slots it stays at its origin. */
  lemma FreeExactly(raws: seq<Raw>, h: nat)
    requires Ok(raws) && h < |raws|
    ensures |raws| != 3 && |raws| != 41 ==> (Free(raws, h) <==> Count(raws) < |raws|)
    ensures |raws| == 1 || |raws| == 3 || |raws| == 41 ==> (Free(raws, h) <==> raws[h].str == [])
  {
    hide Ok;
    SizeIs(raws);
    CountFull(raws);
    ProbeZero(|raws|, h);
    if |raws| == 1 || |raws| == 3 || |raws| == 41 {
      assert raws[h].str == [] ==> EmptyStep(raws, h, 0);
      if Free(raws, h) {
        var k: nat :| EmptyStep(raws, h, k);
        WithinPeriod(|raws|, h, k);
      }
    } else if Has(raws, []) {
      var x :| 0 <= x < |raws| && raws[x].str == [];
      var k := ProbeVisitsAll(|raws|, h, x);
      assert EmptyStep(raws, h, k);
    }
  }

  lemma SizeIs(raws: seq<Raw>)
    requires Ok(raws)
    ensures |raws| == 1 || Prime(|raws|)
  {
  }

  // ---- What a change of one slot does ----

  lemma {:induction false} SumsChange(raws: seq<Raw>, x: nat, r: Raw, s: seq<u16>)
    requires x < |raws|
    ensures SumFreq(raws[x := r]) == SumFreq(raws) - raws[x].freq + r.freq
    ensures Count(raws[x := r]) == Count(raws) - (if raws[x].str != [] then 1 else 0) + (if r.str != [] then 1 else 0)
    ensures FreqOf(raws[x := r], s) == FreqOf(raws, s) - (if raws[x].str == s then raws[x].freq else 0.0)
              + (if r.str == s then r.freq else 0.0)
  {
    var t := raws[x := r];
    if x == 0 {
      assert t[1..] == raws[1..];
    } else {
      SumsChange(raws[1..], x - 1, r, s);
      assert t[1..] == raws[1..][x - 1 := r];
    }
  }

  lemma {:induction false} CountFull(raws: seq<Raw>)
    ensures Count(raws) == |raws| <==> !Has(raws, [])
  {
    if raws != [] {
      CountFull(raws[1..]);
      if Has(raws, []) {
        var x :| 0 <= x < |raws| && raws[x].str == [];
        if x > 0 {
          assert raws[1..][x - 1].str == [];
        }
      }
      if Has(raws[1..], []) {
        var x :| 0 <= x < |raws[1..]| && raws[1..][x].str == [];
        assert raws[x + 1].str == [];
      }
    }
  }

  /** Counting a spelling that is there keeps the invariant. */
  lemma OkCounted(raws: seq<Raw>, x: nat, f: real)
    requires Ok(raws) && x < |raws| && raws[x].str != []
    ensures Ok(raws[x := raws[x].(freq := f)])
  {
    var t := raws[x := raws[x].(freq := f)];
    forall y | 0 <= y < |t| && t[y].str != [] ensures Reachable(t, y) {
      assert Reachable(raws, y);
      var k: nat :| AtStep(raws, y, k);
      assert AtStep(t, y, k);
    }
  }

  /** So does a new spelling in the first empty slot of its probe. */
  lemma OkAdded(raws: seq<Raw>, s: seq<u16>, k: nat, f: real)
    requires Ok(raws) && s != [] && !Has(raws, s) && k < |raws| && raws[Probe(|raws|, Hash(|raws|, s), k)].str == []
      && Taken(raws, Hash(|raws|, s), k)
    ensures Ok(raws[Probe(|raws|, Hash(|raws|, s), k) := Raw(s, f)])
  {
    var x := Probe(|raws|, Hash(|raws|, s), k);
    var t := raws[x := Raw(s, f)];
    forall y | 0 <= y < |t| && t[y].str != [] ensures Reachable(t, y) {
      if y == x {
        assert AtStep(t, x, k);
      } else {
        assert Reachable(raws, y);
        var i: nat :| AtStep(raws, y, i);
        assert AtStep(t, y, i);
      }
    }
  }

  // ---- The table ----

  class SpellingTable {
    const raw: array<Raw>
    const spellingSize: nat
    var spellingNum: nat
    var totalFreq: real
    var frozen: bool

    ghost predicate Valid()
      reads this, raw
    {
      Ok(raw[..]) && spellingNum == Count(raw[..]) && forall x :: 0 <= x < raw.Length ==> |raw[x].str| < spellingSize
    }

    /** `init_table`. */
    constructor (pureSplSize: nat, splMaxNum: nat, needScore: bool)
      requires pureSplSize > 0 && splMaxNum > 0
      ensures fresh(raw) && raw.Length >= splMaxNum && (splMaxNum == 1 ==> raw.Length == 1)
      ensures splMaxNum > 1 ==> Prime(raw.Length) && forall p :: splMaxNum <= p < raw.Length ==> !Prime(p)
      ensures Valid()
      ensures spellingNum == 0 && totalFreq == 0.0 == SumFreq(raw[..]) && !frozen
        && forall s :: s != [] ==> !Has(raw[..], s)
    {
      spellingSize := pureSplSize + 1 + (if needScore then 1 else 0);
      var max := GetOddNext(splMaxNum);
      raw := new Raw[max](x => Raw([], 0.0));
      spellingNum := 0;
      totalFreq := 0.0;
      frozen := false;
      new;
      NothingIn(raw[..]);
    }

    /** A string that fits and is not empty. */
    predicate Legal(s: seq<u16>) {
      s != [] && |s| < spellingSize
    }

    /** `get_hash_pos`. */
    method GetHashPos(s: seq<u16>) returns (pos: nat)
      requires raw.Length > 0 && |s| <= spellingSize
      ensures pos == Hash(raw.Length, s)
    {
      var sum: nat := 0;
      var i := 0;
      assert s[0..] == s;
      while i < |s|
        invariant i <= |s| && sum + SumOf(s[i..]) == SumOf(s)
      {
        assert s[i..][0] == s[i] && s[i..][1..] == s[i + 1..];
        sum := sum + s[i] as nat;
        i := i + 1;
      }
      pos := sum % raw.Length;
    }

    /** `put_spelling`: it fails only when the spelling is not supported, or new with no empty slot on its probe, which
        means that the table is full, unless that has 3 or 41 slots. */
    method PutSpelling(s: seq<u16>, freq: real) returns (ok: bool)
      requires Valid() && Legal(s)
      modifies this`spellingNum, this`totalFreq, raw
      ensures Valid() && frozen == old(frozen)
      ensures raw.Length > 0
      ensures s == [72, 77] || s == [72, 78, 71] || s == [78, 71] ==> !ok
      ensures ok <==>
              !frozen && s !in NOT_SUPPORTED && (Has(old(raw[..]), s) || Free(old(raw[..]), Hash(raw.Length, s)))
      ensures raw.Length != 3 && raw.Length != 41 ==>
                (ok <==> !frozen && s !in NOT_SUPPORTED && (Has(old(raw[..]), s) || old(spellingNum) < raw.Length))
      ensures !ok ==> raw[..] == old(raw[..]) && spellingNum == old(spellingNum)
      ensures totalFreq == if frozen || s in NOT_SUPPORTED then old(totalFreq) else old(totalFreq) + freq
      ensures ok ==>
                SumFreq(raw[..]) == old(SumFreq(raw[..])) + freq
                && forall t :: t != [] ==> (Has(raw[..], t) <==> t == s || Has(old(raw[..]), t))
      ensures ok ==>
                forall t :: t != [] ==> FreqOf(raw[..], t) == FreqOf(old(raw[..]), t) + (if t == s then freq else 0.0)
      ensures ok ==> spellingNum == old(spellingNum) + if Has(old(raw[..]), s) then 0 else 1
    {
      hide *;
      hide SpellingTable.Valid, SpellingTable.Legal;
      ValidGives();
      LegalGives(s);
      FreeExactly(raw[..], Hash(raw.Length, s));
      if frozen {
        return false;
      }
      Unsupported(s);
      if s in NOT_SUPPORTED {
        return false;
      }
      totalFreq := totalFreq + freq;
      ghost var was := raw[..];
      var p := raw.Length;
      var hashPos := GetHashPos(s);
      ghost var h, k: nat := hashPos, 0;
      ProbeZero(p, h);
      if raw[hashPos].str == s {
        CountIn(was, hashPos, s, freq);
        raw[hashPos] := raw[hashPos].(freq := raw[hashPos].freq + freq);
        assert raw[..] == was[hashPos := Raw(s, was[hashPos].freq + freq)];
        ValidIs();
        return true;
      }
      var ori := hashPos;
      NoneTaken(was, h);
      while true
        invariant k < Period(p) && hashPos == Probe(p, h, k) < p && raw[..] == was && Taken(was, h, k)
        invariant totalFreq == old(totalFreq) + freq && spellingNum == old(spellingNum)
        invariant forall j: nat :: j < k ==> was[Probe(p, h, j)].str != s
        decreases Period(p) - k
      {
        if raw[hashPos].str == s {
          CountIn(was, hashPos, s, freq);
          raw[hashPos] := raw[hashPos].(freq := raw[hashPos].freq + freq);
          assert raw[..] == was[hashPos := Raw(s, was[hashPos].freq + freq)];
          ValidIs();
          return true;
        }
        if raw[hashPos].str == [] {
          AddIn(was, k, s, freq);
          raw[hashPos] := Raw(s, raw[hashPos].freq + freq);
          spellingNum := spellingNum + 1;
          assert raw[..] == was[hashPos := Raw(s, was[hashPos].freq + freq)];
          ValidIs();
          return true;
        }
        TakenMore(was, h, k);
        ProbeNext(p, h, k);
        hashPos := (hashPos + STRIDE) % p;
        BackAt(was, h, k + 1);
        k := k + 1;
        if ori == hashPos {
          Full(was, s);
          ValidIs();
          return false;
        }
      }
    }

    /** `contain`: exactly for the spellings in the table. */
    method Contain(s: seq<u16>) returns (found: bool)
      requires Valid() && |s| < spellingSize
      ensures found <==> !frozen && s != [] && Has(raw[..], s)
    {
      hide *;
      hide SpellingTable.Valid;
      ValidGives();
      if frozen {
        return false;
      }
      var p := raw.Length;
      ghost var raws := raw[..];
      var hashPos := GetHashPos(s);
      ghost var h, k: nat := hashPos, 0;
      ProbeZero(p, h);
      if raw[hashPos].str == [] {
        if s != [] {
          NotBeyond(raws, s, 0);
        }
        return false;
      }
      if raw[hashPos].str == s {
        Found(raws, hashPos, s);
        return true;
      }
      var ori := hashPos;
      while true
        invariant k < Period(p) && hashPos == Probe(p, h, k) < p
        invariant forall j: nat :: j <= k ==> raws[Probe(p, h, j)].str != s
        decreases Period(p) - k
      {
        ProbeNext(p, h, k);
        hashPos := (hashPos + STRIDE) % p;
        BackAt(raws, h, k + 1);
        if ori == hashPos {
          if s != [] {
            AllSeen(raws, s);
          }
          return false;
        }
        if raw[hashPos].str == [] {
          if s != [] {
            NotBeyond(raws, s, k + 1);
          }
          return false;
        }
        if raw[hashPos].str == s {
          Found(raws, hashPos, s);
          return true;
        }
        k := k + 1;
      }
    }

    lemma ValidGives()
      requires Valid()
      ensures Ok(raw[..]) && spellingNum == Count(raw[..]) && raw.Length > 0
        && forall x :: 0 <= x < raw.Length ==> |raw[x].str| < spellingSize
    {
    }

    lemma ValidIs()
      requires Ok(raw[..]) && spellingNum == Count(raw[..])
        && forall x :: 0 <= x < raw.Length ==> |raw[x].str| < spellingSize
      ensures Valid()
    {
    }

    lemma LegalGives(s: seq<u16>)
      requires Legal(s)
      ensures s != [] && |s| < spellingSize
    {
    }
  }

  lemma Unsupported(s: seq<u16>)
    ensures s in NOT_SUPPORTED <==> s == [72, 77] || s == [72, 78, 71] || s == [78, 71]
  {
  }

  lemma NothingIn(raws: seq<Raw>)
    requires forall x :: 0 <= x < |raws| ==> raws[x] == Raw([], 0.0)
    ensures Count(raws) == 0 && SumFreq(raws) == 0.0
  {
    if raws != [] {
      NothingIn(raws[1..]);
    }
  }

  lemma NoneTaken(raws: seq<Raw>, h: nat)
    requires |raws| > 0
    ensures Taken(raws, h, 0)
  {
  }

  lemma TakenMore(raws: seq<Raw>, h: nat, k: nat)
    requires |raws| > 0 && Taken(raws, h, k) && raws[Probe(|raws|, h, k)].str != []
    ensures Taken(raws, h, k + 1)
  {
  }

  lemma BackAt(raws: seq<Raw>, h: nat, k: nat)
    requires Ok(raws) && 0 < k <= Period(|raws|) && h < |raws|
    ensures Period(|raws|) <= |raws|
    ensures Probe(|raws|, h, k) < |raws| && (Probe(|raws|, h, k) == h <==> k == Period(|raws|))
  {
    BackAtOrigin(|raws|, h, k);
  }

  lemma Found(raws: seq<Raw>, x: nat, s: seq<u16>)
    requires x < |raws| && raws[x].str == s
    ensures Has(raws, s)
  {
  }

  /** The table after one more count of a spelling that is in slot x. */
  lemma CountIn(raws: seq<Raw>, x: nat, s: seq<u16>, freq: real)
    requires Ok(raws) && x < |raws| && s != [] && raws[x].str == s
    ensures var t := raws[x := Raw(s, raws[x].freq + freq)];
            && Ok(t) && Has(raws, s) && Count(t) == Count(raws) && SumFreq(t) == SumFreq(raws) + freq
            && (forall w :: w != [] ==> (Has(t, w) <==> w == s || Has(raws, w)))
            && forall w :: w != [] ==> FreqOf(t, w) == FreqOf(raws, w) + (if w == s then freq else 0.0)
  {
    var t := raws[x := Raw(s, raws[x].freq + freq)];
    OkCounted(raws, x, raws[x].freq + freq);
    hide Ok, SumFreq, Count, FreqOf;
    SumsChange(raws, x, Raw(s, raws[x].freq + freq), s);
    forall w | w != []
      ensures (Has(t, w) <==> w == s || Has(raws, w))
              && FreqOf(t, w) == FreqOf(raws, w) + (if w == s then freq else 0.0)
    {
      SumsChange(raws, x, Raw(s, raws[x].freq + freq), w);
      SameHas(raws, t, w);
    }
  }

  lemma SameHas(raws: seq<Raw>, t: seq<Raw>, w: seq<u16>)
    requires |raws| == |t| && forall y :: 0 <= y < |t| ==> t[y].str == raws[y].str
    ensures Has(t, w) <==> Has(raws, w)
  {
  }

  /** The table after a new spelling was put into the first empty slot of its probe. */
  lemma AddIn(raws: seq<Raw>, k: nat, s: seq<u16>, freq: real)
    requires Ok(raws) && s != [] && k < |raws| && raws[Probe(|raws|, Hash(|raws|, s), k)].str == []
      && Taken(raws, Hash(|raws|, s), k)
    requires forall j: nat :: j < k ==> raws[Probe(|raws|, Hash(|raws|, s), j)].str != s
    ensures var x := Probe(|raws|, Hash(|raws|, s), k); var t := raws[x := Raw(s, raws[x].freq + freq)];
            && Ok(t) && !Has(raws, s) && Count(raws) < |raws| && Count(t) == Count(raws) + 1
               && SumFreq(t) == SumFreq(raws) + freq
            && (forall w :: w != [] ==> (Has(t, w) <==> w == s || Has(raws, w)))
            && forall w :: w != [] ==> FreqOf(t, w) == FreqOf(raws, w) + (if w == s then freq else 0.0)
    ensures Free(raws, Hash(|raws|, s))
  {
    assert EmptyStep(raws, Hash(|raws|, s), k);
    var x := Probe(|raws|, Hash(|raws|, s), k);
    var r := Raw(s, raws[x].freq + freq);
    var t := raws[x := r];
    NotBeyond(raws, s, k);
    OkAdded(raws, s, k, raws[x].freq + freq);
    CountFull(raws);
    assert Has(raws, []);
    EmptyFreq(raws, x);
    hide Ok, SumFreq, Count, FreqOf, Taken, Probe, Hash;
    SumsChange(raws, x, r, s);
    forall w | w != []
      ensures (Has(t, w) <==> w == s || Has(raws, w))
              && FreqOf(t, w) == FreqOf(raws, w) + (if w == s then freq else 0.0)
    {
      SumsChange(raws, x, r, w);
      MoreHas(raws, x, r, w);
    }
  }

  lemma EmptyFreq(raws: seq<Raw>, x: nat)
    requires Ok(raws) && x < |raws| && raws[x].str == []
    ensures raws[x].freq == 0.0
  {
  }

  lemma MoreHas(raws: seq<Raw>, x: nat, r: Raw, w: seq<u16>)
    requires x < |raws| && raws[x].str == [] && w != []
    ensures Has(raws[x := r], w) <==> w == r.str || Has(raws, w)
  {
    var t := raws[x := r];
    if Has(raws, w) {
      var y :| 0 <= y < |raws| && raws[y].str == w;
      assert t[y].str == w;
    }
    if w == r.str {
      assert t[x].str == w;
    }
  }

  /** The probe has come round: none of its slots is empty, and the spelling is not in the table. */
  lemma Full(raws: seq<Raw>, s: seq<u16>)
    requires Ok(raws) && s != [] && Taken(raws, Hash(|raws|, s), Period(|raws|))
    requires forall j: nat :: j < Period(|raws|) ==> raws[Probe(|raws|, Hash(|raws|, s), j)].str != s
    ensures !Free(raws, Hash(|raws|, s)) && !Has(raws, s)
  {
    var h := Hash(|raws|, s);
    AllSeen(raws, s);
    if Free(raws, h) {
      var k: nat :| EmptyStep(raws, h, k);
      WithinPeriod(|raws|, h, k);
    }
  }
}
