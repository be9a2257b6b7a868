/** The spelling of a lemma: every combination of the candidate spellings of its characters is tried until the
    dictionary accepts one. */
module LemmaSpellings {
  import opened Arith
  import opened Bytes
  import opened LemmaTrie
  import opened TrieNodes
  import opened SystemDictionary

  // ---- Mixed radix numbers ----

  ghost predicate Positive(rs: seq<nat>) {
    forall i :: 0 <= i < |rs| ==> rs[i] > 0
  }

  function Product(rs: seq<nat>): (p: nat) {
    if rs == [] then 1 else rs[0] * Product(rs[1..])
  }

  lemma {:induction false} ProductPositive(rs: seq<nat>)
    requires Positive(rs)
    ensures Product(rs) > 0
  {
    if rs != [] {
      ProductPositive(rs[1..]);
      Times(rs[0], Product(rs[1..]));
    }
  }

  lemma Times(a: nat, b: nat)
    requires a > 0 && b > 0
    ensures a * b > 0
  {
  }

  /** The digits of t, the first one varying fastest. */
  function Digits(rs: seq<nat>, t: nat): (ds: seq<nat>)
    requires Positive(rs)
    ensures |ds| == |rs| && forall i :: 0 <= i < |rs| ==> ds[i] < rs[i]
  {
    if rs == [] then [] else [t % rs[0]] + Digits(rs[1..], t / rs[0])
  }

  ghost predicate AreDigits(rs: seq<nat>, ds: seq<nat>) {
    |ds| == |rs| && forall i :: 0 <= i < |rs| ==> ds[i] < rs[i]
  }

  function Value(rs: seq<nat>, ds: seq<nat>): (t: nat)
    requires |ds| == |rs|
  {
    if rs == [] then 0 else ds[0] + rs[0] * Value(rs[1..], ds[1..])
  }

  /** Every combination of digits is that of exactly one number below the product. */
  lemma {:induction false} DigitsOfValue(rs: seq<nat>, ds: seq<nat>)
    requires Positive(rs) && AreDigits(rs, ds)
    ensures Value(rs, ds) < Product(rs) && Digits(rs, Value(rs, ds)) == ds
  {
    if rs != [] {
      DigitsOfValue(rs[1..], ds[1..]);
      var v := Value(rs[1..], ds[1..]);
      Divided(ds[0], rs[0], v);
      Above(rs[0], v, Product(rs[1..]));
      assert [ds[0]] + ds[1..] == ds;
    }
  }

  lemma {:induction false} ValueOfDigits(rs: seq<nat>, t: nat)
    requires Positive(rs) && t < Product(rs)
    ensures Value(rs, Digits(rs, t)) == t
  {
    if rs != [] {
      Quotient(t, rs[0], Product(rs[1..]));
      ValueOfDigits(rs[1..], t / rs[0]);
      assert Digits(rs, t)[1..] == Digits(rs[1..], t / rs[0]);
    }
  }

  lemma Quotient(t: nat, r: nat, p: nat)
    requires r > 0 && t < r * p
    ensures t / r < p
  {
    var q, e := DivMod(t, r);
    Above(r, p, q);
    Above(r, q, p);
  }

  /** The code divides by the product of the radices before: the same digits. */
  lemma {:induction false} DigitAt(rs: seq<nat>, t: nat, i: nat)
    requires Positive(rs) && i < |rs|
    ensures Product(rs[..i]) > 0 && Digits(rs, t)[i] == t / Product(rs[..i]) % rs[i]
  {
    ProductPositive(rs[..i]);
    if i == 0 {
      assert rs[..0] == [];
    } else {
      DigitAt(rs[1..], t / rs[0], i - 1);
      assert rs[..i][1..] == rs[1..][..i - 1] && rs[..i][0] == rs[0];
      ProductPositive(rs[1..][..i - 1]);
      TwoDivisions(t, rs[0], Product(rs[1..][..i - 1]));
    }
  }

  lemma TwoDivisions(t: nat, a: nat, b: nat)
    requires a > 0 && b > 0
    ensures a * b > 0 && t / (a * b) == t / a / b
  {
    Times(a, b);
    var u, s := DivMod(t, a);
    var q, r := DivMod(u, b);
    var c := a * b;
    Above(a, r, b);
    Regrouped(a, b, q, r, s);
    Divided(a * r + s, c, q);
  }

  lemma Regrouped(a: nat, b: nat, q: nat, r: nat, s: nat)
    ensures a * (b * q + r) + s == (a * r + s) + (a * b) * q
  {
    Expand(a, b, q, r);
    assert b * q == q * b;
  }

  lemma Expand(a: nat, b: nat, q: nat, r: nat)
    ensures a * (q * b + r) == a * r + (a * b) * q
  {
    assert a * (q * b + r) == a * (q * b) + a * r;
    assert a * (q * b) == (a * b) * q;
  }

  lemma {:induction false} ProductSnoc(rs: seq<nat>, i: nat)
    requires i < |rs|
    ensures Product(rs[..i + 1]) == Product(rs[..i]) * rs[i]
  {
    if i == 0 {
      assert rs[..1] == [rs[0]] && rs[..0] == [] && rs[..1][1..] == [];
    } else {
      ProductSnoc(rs[1..], i - 1);
      assert rs[..i + 1][1..] == rs[1..][..i] && rs[..i][1..] == rs[1..][..i - 1];
      ThreeTimes(rs[0], Product(rs[1..][..i - 1]), rs[i]);
    }
  }

  lemma ThreeTimes(a: nat, b: nat, c: nat)
    ensures a * (b * c) == (a * b) * c
  {
  }

  // ---- The combinations ----

  function Radices(cands: seq<seq<u16>>): (rs: seq<nat>)
    ensures |rs| == |cands| && forall i :: 0 <= i < |cands| ==> rs[i] == |cands[i]|
  {
    seq<nat>(|cands|, i requires 0 <= i < |cands| => |cands[i]|)
  }

  /** Every character has a candidate. */
  ghost predicate NoneEmpty(cands: seq<seq<u16>>) {
    forall i :: 0 <= i < |cands| ==> cands[i] != []
  }

  /** Combination number t. */
  function Pick(cands: seq<seq<u16>>, t: nat): (s: seq<u16>)
    requires NoneEmpty(cands)
    ensures |s| == |cands|
  {
    var ds := Digits(Radices(cands), t);
    seq(|cands|, i requires 0 <= i < |cands| => cands[i][ds[i]])
  }

  ghost predicate Choice(cands: seq<seq<u16>>, s: seq<u16>) {
    |s| == |cands| && forall i :: 0 <= i < |s| ==> s[i] in cands[i]
  }

  /** The numbers below the product pick exactly the combinations. */
  lemma PicksChoice(cands: seq<seq<u16>>, t: nat)
    requires NoneEmpty(cands)
    ensures Choice(cands, Pick(cands, t))
  {
  }

  lemma ChoicePicked(cands: seq<seq<u16>>, s: seq<u16>) returns (t: nat)
    requires NoneEmpty(cands) && Choice(cands, s)
    ensures t < Product(Radices(cands)) && Pick(cands, t) == s
  {
    var ds := Places(cands, s);
    DigitsOfValue(Radices(cands), ds);
    t := Value(Radices(cands), ds);
    forall i | 0 <= i < |s| ensures Pick(cands, t)[i] == s[i] {
      assert Digits(Radices(cands), t)[i] == ds[i];
    }
  }

  lemma {:induction false} Places(cands: seq<seq<u16>>, s: seq<u16>) returns (ds: seq<nat>)
    requires Choice(cands, s)
    ensures AreDigits(Radices(cands), ds) && forall i :: 0 <= i < |s| ==> ds[i] < |cands[i]| && cands[i][ds[i]] == s[i]
  {
    ds := [];
    while |ds| < |s|
      invariant |ds| <= |s| && forall i :: 0 <= i < |ds| ==> ds[i] < |cands[i]| && cands[i][ds[i]] == s[i]
      decreases |s| - |ds|
    {
      assert s[|ds|] in cands[|ds|];
      var k :| 0 <= k < |cands[|ds|]| && cands[|ds|][k] == s[|ds|];
      ds := ds + [k];
    }
  }

  /** Different numbers have different digits, so no combination of candidates is tried twice. */
  lemma DigitsDiffer(cands: seq<seq<u16>>, t: nat, u: nat)
    requires NoneEmpty(cands) && t < Product(Radices(cands)) && u < Product(Radices(cands)) && t != u
    ensures Digits(Radices(cands), t) != Digits(Radices(cands), u)
  {
    ValueOfDigits(Radices(cands), t);
    ValueOfDigits(Radices(cands), u);
  }

  // ---- get_lemma_splids ----

  /** The candidates of a character: the given full id, or all spellings of the character that go with the given half
      id. */
  function Candidates(word: seq<u16>, argValid: bool, arg: seq<u16>, isFull: u16 -> bool,
    splidsFor: (u16, u16) -> seq<u16>): (cands: seq<seq<u16>>)
    requires |arg| == |word|
    ensures |cands| == |word|
  {
    seq(|word|, i requires 0 <= i < |word| =>
      if argValid && isFull(arg[i]) then [arg[i]] else splidsFor(word[i], if argValid then arg[i] else 0))
  }

  /** A choice takes the given full ids, and for the other characters spellings that they have. */
  lemma ChoiceMeans(word: seq<u16>, argValid: bool, arg: seq<u16>, isFull: u16 -> bool,
    splidsFor: (u16, u16) -> seq<u16>, s: seq<u16>)
    requires |arg| == |word|
    ensures Choice(Candidates(word, argValid, arg, isFull, splidsFor), s) <==>
            |s| == |word|
            && forall i :: 0 <= i < |word| ==>
                 if argValid && isFull(arg[i]) then s[i] == arg[i]
                 else s[i] in splidsFor(word[i], if argValid then arg[i] else 0)
  {
    var cands := Candidates(word, argValid, arg, isFull, splidsFor);
    forall i | 0 <= i < |word|
      ensures cands[i] == if argValid && isFull(arg[i]) then [arg[i]]
                          else splidsFor(word[i], if argValid then arg[i] else 0)
    {
    }
  }

  /** The candidates of the first characters lie in the matrix one behind the other. */
  ghost predicate Laid(cands: seq<seq<u16>>, pos: nat, mtrx: seq<u16>, start: seq<nat>) {
    && pos <= |cands| && |start| == pos + 1 && start[pos] == |mtrx|
    && forall j :: 0 <= j < pos ==> RowAt(mtrx, start[j], cands[j])
  }

  ghost predicate RowAt(mtrx: seq<u16>, at: nat, row: seq<u16>) {
    at + |row| <= |mtrx| && mtrx[at..at + |row|] == row
  }

  ghost predicate Radixed(cands: seq<seq<u16>>, pos: nat, start: seq<nat>) {
    pos <= |cands| && |start| == pos + 1 && forall j :: 0 <= j < pos ==> start[j + 1] == start[j] + |cands[j]|
  }

  function Total(cands: seq<seq<u16>>): (n: nat) {
    if cands == [] then 0 else |cands[0]| + Total(cands[1..])
  }

  /** The matrix of all candidates. */
  method LayOut(word: seq<u16>, argValid: bool, arg: seq<u16>, isFull: u16 -> bool, splidsFor: (u16, u16) -> seq<u16>)
    returns (mtrx: seq<u16>, start: seq<nat>, tryNum: nat)
    requires |arg| == |word|
    ensures var cands := Candidates(word, argValid, arg, isFull, splidsFor);
            Laid(cands, |word|, mtrx, start) && Radixed(cands, |word|, start) && tryNum == Product(Radices(cands))
  {
    ghost var cands := Candidates(word, argValid, arg, isFull, splidsFor);
    mtrx, start, tryNum := [], [0], 1;
    var pos := 0;
    assert Radices(cands)[..0] == [];
    while pos < |word|
      invariant pos <= |word| && Laid(cands, pos, mtrx, start) && Radixed(cands, pos, start)
        && tryNum == Product(Radices(cands)[..pos])
    {
      var cand: seq<u16>;
      if argValid && isFull(arg[pos]) {
        cand := [arg[pos]];
      } else {
        cand := splidsFor(word[pos], if argValid then arg[pos] else 0);
      }
      OneMoreLaid(cands, pos, mtrx, start, cand);
      ProductSnoc(Radices(cands), pos);
      mtrx := mtrx + cand;
      start := start + [start[pos] + |cand|];
      tryNum := tryNum * |cand|;
      pos := pos + 1;
    }
    assert Radices(cands)[..pos] == Radices(cands);
  }

  lemma OneMoreLaid(cands: seq<seq<u16>>, pos: nat, mtrx: seq<u16>, start: seq<nat>, cand: seq<u16>)
    requires Laid(cands, pos, mtrx, start) && Radixed(cands, pos, start) && pos < |cands| && cands[pos] == cand
    ensures Laid(cands, pos + 1, mtrx + cand, start + [start[pos] + |cand|])
      && Radixed(cands, pos + 1, start + [start[pos] + |cand|])
  {
    var s', m' := start + [start[pos] + |cand|], mtrx + cand;
    forall j | 0 <= j < pos + 1 ensures RowAt(m', s'[j], cands[j]) {
      if j < pos {
        assert RowAt(mtrx, start[j], cands[j]);
        assert m'[start[j]..start[j] + |cands[j]|] == mtrx[start[j]..start[j] + |cands[j]|];
      }
    }
  }

  /** One combination: digit after digit. */
  method Combine(mtrx: seq<u16>, start: seq<nat>, tryPos: nat, ghost cands: seq<seq<u16>>) returns (splids: seq<u16>)
    requires NoneEmpty(cands) && Laid(cands, |cands|, mtrx, start) && Radixed(cands, |cands|, start)
    ensures splids == Pick(cands, tryPos)
  {
    hide *;
    splids := [];
    var mod: nat, pos: nat := 1, 0;
    CombineStart(mtrx, start, cands, tryPos);
    while pos + 1 < |start|
      invariant pos <= |cands| && |start| == |cands| + 1 && splids == Pick(cands, tryPos)[..pos]
        && mod == Product(Radices(cands)[..pos])
    {
      CombineStep(mtrx, start, cands, tryPos, pos);
      var radix: nat := start[pos + 1] - start[pos];
      splids := splids + [mtrx[start[pos] + tryPos / mod % radix]];
      mod := mod * radix;
      pos := pos + 1;
    }
  }

  lemma CombineStart(mtrx: seq<u16>, start: seq<nat>, cands: seq<seq<u16>>, t: nat)
    requires NoneEmpty(cands) && Laid(cands, |cands|, mtrx, start)
    ensures |start| == |cands| + 1 && Pick(cands, t)[..0] == [] && Radices(cands)[..0] == [] && Product([]) == 1
    ensures |Pick(cands, t)| == |cands| && Pick(cands, t)[..|cands|] == Pick(cands, t)
  {
  }

  lemma CombineStep(mtrx: seq<u16>, start: seq<nat>, cands: seq<seq<u16>>, t: nat, pos: nat)
    requires NoneEmpty(cands) && Laid(cands, |cands|, mtrx, start) && Radixed(cands, |cands|, start) && pos < |cands|
    ensures var mod := Product(Radices(cands)[..pos]);
            && mod > 0 && |start| == |cands| + 1 && start[pos + 1] > start[pos]
            && Product(Radices(cands)[..pos + 1]) == mod * (start[pos + 1] - start[pos])
            && start[pos] + t / mod % (start[pos + 1] - start[pos]) < |mtrx|
            && Pick(cands, t)[..pos + 1] == Pick(cands, t)[..pos]
                 + [mtrx[start[pos] + t / mod % (start[pos + 1] - start[pos])]]
  {
    hide Product, Digits;
    var rs := Radices(cands);
    assert Positive(rs) && rs[pos] == |cands[pos]| == start[pos + 1] - start[pos];
    DigitAt(rs, t, pos);
    ProductSnoc(rs, pos);
    var k := Digits(rs, t)[pos];
    LaidAt(cands, mtrx, start, pos, k);
    assert Pick(cands, t)[pos] == cands[pos][k];
  }

  lemma LaidAt(cands: seq<seq<u16>>, mtrx: seq<u16>, start: seq<nat>, pos: nat, k: nat)
    requires Laid(cands, |cands|, mtrx, start) && pos < |cands| && k < |cands[pos]|
    ensures start[pos] + k < |mtrx| && mtrx[start[pos] + k] == cands[pos][k]
  {
    assert RowAt(mtrx, start[pos], cands[pos]);
    assert mtrx[start[pos]..start[pos] + |cands[pos]|][k] == mtrx[start[pos] + k];
  }

  /** `get_lemma_splids`: non-zero exactly when the dictionary accepts some combination of candidates for the lemma, and
      then one that it accepts. */
  method GetLemmaSplids(d: DictTrie, id: nat, word: seq<u16>, argValid: bool, arg: seq<u16>, isFull: u16 -> bool,
    splidsFor: (u16, u16) -> seq<u16>)
    returns (len: nat, splids: seq<u16>)
    requires d.Loaded() && |arg| == |word| <= MAX_LEMMA_SIZE
      && NoneEmpty(Candidates(word, argValid, arg, isFull, splidsFor))
    requires Product(Radices(Candidates(word, argValid, arg, isFull, splidsFor))) < 0x1_0000
    requires Total(Candidates(word, argValid, arg, isFull, splidsFor)) <= 5 * MAX_LEMMA_SIZE
    requires word != [] ==>
               forall x ::
                 x in Candidates(word, argValid, arg, isFull, splidsFor)[0] ==>
                   FULL_SPL_ID_START <= x as nat < FULL_SPL_ID_START + |d.trie|
    ensures len == 0 || len == |word| > 0
    ensures len > 0 <==>
              exists s :: Choice(Candidates(word, argValid, arg, isFull, splidsFor), s) && Item(s, id) in Listed(d.trie)
    ensures len > 0 ==>
              Choice(Candidates(word, argValid, arg, isFull, splidsFor), splids) && Item(splids, id) in Listed(d.trie)
    ensures len > 0 ==>
              |splids| == |word|
              && forall i :: 0 <= i < |word| ==>
                   if argValid && isFull(arg[i]) then splids[i] == arg[i]
                   else splids[i] in splidsFor(word[i], if argValid then arg[i] else 0)
  {
    hide *;
    hide DictTrie.Loaded;
    ghost var cands := Candidates(word, argValid, arg, isFull, splidsFor);
    splids := arg;
    var mtrx, start, tryNum := LayOut(word, argValid, arg, isFull, splidsFor);
    var tryPos := 0;
    while tryPos < tryNum
      invariant tryPos <= tryNum && forall t: nat :: t < tryPos ==> Item(Pick(cands, t), id) !in Listed(d.trie)
    {
      splids := Combine(mtrx, start, tryPos, cands);
      PicksChoice(cands, tryPos);
      ChoiceGives(cands, splids);
      var ok := d.TryExtend(splids, id);
      if ok {
        NotEmpty(d.trie, splids, id);
        ChoiceMeans(word, argValid, arg, isFull, splidsFor, splids);
        return |word|, splids;
      }
      tryPos := tryPos + 1;
    }
    forall s | Choice(cands, s) ensures Item(s, id) !in Listed(d.trie) {
      var t := ChoicePicked(cands, s);
    }
    return 0, splids;
  }

  lemma ChoiceGives(cands: seq<seq<u16>>, s: seq<u16>)
    requires Choice(cands, s)
    ensures |s| == |cands| && (s != [] ==> s[0] in cands[0])
  {
  }

  lemma NotEmpty(ts: seq<Trie>, s: seq<u16>, id: nat)
    requires Item(s, id) in Listed(ts)
    ensures s != []
  {
    ListedNonEmpty(ts);
  }
}
