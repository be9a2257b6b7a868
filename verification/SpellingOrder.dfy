/** What the user dictionary asks of the spelling table, the (length, initials) order of its index,
    and the query that `prepare_locate` builds. */
module SpellingOrder {
  import opened Bytes

  const FULL_ID_START: nat := 30

  /** initials[id] is the first letter of `get_spelling_str(id)`; a half id names the full ids
      [halfStart[id], halfStart[id] + halfCount[id]). */
  datatype Spellings = Spellings(initials: seq<u8>, halfStart: seq<u16>, halfCount: seq<u16>) {
    predicate Valid() {
      && |halfStart| == |halfCount| == FULL_ID_START
      && (forall h :: 0 < h < FULL_ID_START ==> halfStart[h] >= FULL_ID_START)
      && forall h, id {:trigger halfStart[h], Initial(id)} ::
           0 < h < FULL_ID_START && halfStart[h] <= id < halfStart[h] as nat + halfCount[h] as nat ==>
             Initial(id) == Initial(h)
    }

    function Initial(id: nat): (c: u8) {
      if id < |initials| then initials[id] else 0
    }

    function RangeStart(id: u16): u16
      requires Valid()
    {
      if 0 < id < FULL_ID_START then halfStart[id] else id
    }

    function RangeCount(id: u16): u16
      requires Valid()
    {
      if 0 < id < FULL_ID_START then halfCount[id] else 1
    }

    function Initials(ids: seq<u16>): (k: seq<u8>)
      ensures |k| == |ids|
    {
      seq(|ids|, i requires 0 <= i < |ids| => Initial(ids[i]))
    }

    predicate InRange(id: u16, asked: u16)
      requires Valid()
    {
      RangeStart(asked) <= id < RangeStart(asked) as nat + RangeCount(asked) as nat
    }

    /** `equal_spell_id`. */
    predicate Matches(ids: seq<u16>, asked: seq<u16>)
      requires Valid()
    {
      |ids| == |asked| && forall i :: 0 <= i < |asked| ==> InRange(ids[i], asked[i])
    }

    /** `is_prefix_spell_id`. */
    predicate Extends(ids: seq<u16>, asked: seq<u16>)
      requires Valid()
    {
      |ids| >= |asked| && forall i :: 0 <= i < |asked| ==> InRange(ids[i], asked[i])
    }

    lemma MatchesKey(ids: seq<u16>, asked: seq<u16>)
      requires Valid() && Matches(ids, asked)
      ensures Initials(ids) == Initials(asked)
    {
      forall i | 0 <= i < |asked| ensures Initial(ids[i]) == Initial(asked[i]) {
        assert InRange(ids[i], asked[i]);
      }
    }

    lemma ExtendsKey(ids: seq<u16>, asked: seq<u16>)
      requires Valid() && Extends(ids, asked)
      ensures |ids| >= |asked| && Initials(asked) <= Initials(ids)
    {
      forall i | 0 <= i < |asked|
        ensures Initial(ids[i]) == Initial(asked[i])
      {
        assert InRange(ids[i], asked[i]);
      }
    }
  }

  // ---- The order: length first, then initials ----

  function CompareFrom(a: seq<u8>, b: seq<u8>, i: nat): (c: int)
    requires |a| == |b| && i <= |a|
    decreases |a| - i
  {
    if i == |a| then 0
    else if a[i] == b[i] then CompareFrom(a, b, i + 1)
    else if a[i] > b[i] then 1 else -1
  }

  function Compare(a: seq<u8>, b: seq<u8>): (c: int) {
    if |a| < |b| then -1 else if |a| > |b| then 1 else CompareFrom(a, b, 0)
  }

  lemma {:induction false} CompareFromFacts(a: seq<u8>, b: seq<u8>, c: seq<u8>, i: nat)
    requires |a| == |b| == |c| && i <= |a|
    ensures CompareFrom(a, b, i) == -CompareFrom(b, a, i)
    ensures CompareFrom(a, b, i) == 0 <==> a[i..] == b[i..]
    ensures CompareFrom(a, b, i) <= 0 && CompareFrom(b, c, i) <= 0 ==> CompareFrom(a, c, i) <= 0
    ensures CompareFrom(a, b, i) < 0 && CompareFrom(b, c, i) <= 0 ==> CompareFrom(a, c, i) < 0
    ensures CompareFrom(a, b, i) <= 0 && CompareFrom(b, c, i) < 0 ==> CompareFrom(a, c, i) < 0
    decreases |a| - i
  {
    if i < |a| {
      CompareFromFacts(a, b, c, i + 1);
      assert a[i..] == [a[i]] + a[i + 1..] && b[i..] == [b[i]] + b[i + 1..];
    }
  }

  /** `Compare` is a total order on keys. */
  lemma CompareOrder(a: seq<u8>, b: seq<u8>, c: seq<u8>)
    ensures Compare(a, b) == -Compare(b, a)
    ensures Compare(a, b) == 0 <==> a == b
    ensures Compare(a, b) <= 0 && Compare(b, c) <= 0 ==> Compare(a, c) <= 0
    ensures Compare(a, b) < 0 && Compare(b, c) <= 0 ==> Compare(a, c) < 0
    ensures Compare(a, b) <= 0 && Compare(b, c) < 0 ==> Compare(a, c) < 0
  {
    if |a| == |b| {
      CompareFromFacts(a, b, if |c| == |a| then c else a, 0);
      assert a[0..] == a && b[0..] == b;
    }
  }

  /** The order, said without the loop: shorter keys come first, and of equal length the one that is less where they
      first differ. */
  lemma CompareMeans(a: seq<u8>, b: seq<u8>)
    ensures Compare(a, b) < 0 <==>
            |a| < |b| || (|a| == |b| && exists i :: 0 <= i < |a| && a[..i] == b[..i] && a[i] < b[i])
  {
    if |a| == |b| {
      DifferFirst(a, b, 0);
    }
  }

  lemma {:induction false} DifferFirst(a: seq<u8>, b: seq<u8>, i: nat)
    requires |a| == |b| && i <= |a| && a[..i] == b[..i]
    ensures CompareFrom(a, b, i) < 0 <==> exists k :: 0 <= k < |a| && a[..k] == b[..k] && a[k] < b[k]
    decreases |a| - i
  {
    forall k | 0 <= k < i
      ensures a[k] == b[k]
    {
      assert a[..i][k] == b[..i][k];
    }
    if i < |a| && a[i] == b[i] {
      assert a[..i + 1] == a[..i] + [a[i]] && b[..i + 1] == b[..i] + [b[i]];
      DifferFirst(a, b, i + 1);
    } else if i < |a| {
      forall k | i < k < |a|
        ensures a[..k] != b[..k]
      {
        assert a[..k][i] == a[i] && b[..k][i] == b[i];
      }
    }
  }

  // ---- The packed signature ----

  const SIGNATURE_WORDS: nat := 2

  function Padded(k: seq<u8>): (p: seq<u8>)
    requires |k| <= 8
    ensures |p| == 8
  {
    k + seq(8 - |k|, _ => 0)
  }

  /** Four initials in each 32-bit word, lowest byte first, zero where the query is shorter. */
  function Signature(k: seq<u8>): (s: seq<u32>)
    requires |k| <= 8
    ensures |s| == SIGNATURE_WORDS
  {
    [BytesWord(Padded(k)[..4]), BytesWord(Padded(k)[4..])]
  }

  /** `(signature[i/4] & (0xff << off)) >> off`. */
  function SignatureByte(s: seq<u32>, i: nat): (c: u8)
    requires |s| == SIGNATURE_WORDS && i < 8
  {
    WordBytes(s[i / 4])[i % 4]
  }

  lemma SignatureReads(k: seq<u8>, i: nat)
    requires i < |k| <= 8
    ensures SignatureByte(Signature(k), i) == k[i]
  {
    ByteRoundTrip(Padded(k)[..4]);
    ByteRoundTrip(Padded(k)[4..]);
  }

  /** Within one length, equal signatures mean equal initials: the caches may key on them. */
  lemma SignatureInjective(a: seq<u8>, b: seq<u8>)
    requires |a| == |b| <= 8 && Signature(a) == Signature(b)
    ensures a == b
  {
    forall i | 0 <= i < |a| ensures a[i] == b[i] {
      SignatureReads(a, i);
      SignatureReads(b, i);
    }
  }
}
