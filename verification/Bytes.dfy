/** Machine integers as the dictionary stores them: bytes, 16-bit and 32-bit unsigned values,
    and the little-endian image of a sequence of 32-bit words. */
module Bytes {

  type u8 = x: nat | x < 0x100
  type u16 = x: nat | x < 0x1_0000
  type u32 = x: nat | x < 0x1_0000_0000

  /** Where two sequences begin alike, their parts are alike. */
  lemma SameSlice<T>(s: seq<T>, t: seq<T>, top: nat, a: nat, b: nat)
    requires a <= b <= top <= |s| && top <= |t| && s[..top] == t[..top]
    ensures s[a..b] == t[a..b]
  {
    forall k | a <= k < b ensures s[k] == t[k] {
      assert s[..top][k] == t[..top][k];
    }
  }

  const WORD_RANGE: nat := 0x1_0000_0000

  function WordBytes(w: u32): (b: seq<u8>)
    ensures |b| == 4
  {
    [w % 0x100, w / 0x100 % 0x100, w / 0x1_0000 % 0x100, w / 0x100_0000]
  }

  function BytesWord(b: seq<u8>): (w: u32)
    requires |b| == 4
  {
    b[0] as nat + 0x100 * (b[1] as nat) + 0x1_0000 * (b[2] as nat) + 0x100_0000 * (b[3] as nat)
  }

  lemma WordRoundTrip(w: u32)
    ensures BytesWord(WordBytes(w)) == w
  {
    assert w / 0x1_0000 == w / 0x100 / 0x100;
    assert w / 0x100_0000 == w / 0x1_0000 / 0x100;
  }

  lemma ByteRoundTrip(b: seq<u8>)
    requires |b| == 4
    ensures WordBytes(BytesWord(b)) == b
  {
    var w, b1: nat, b2: nat, b3: nat := BytesWord(b), b[1], b[2], b[3];
    assert w / 0x100 == b1 + 0x100 * b2 + 0x1_0000 * b3;
    assert w / 0x1_0000 == b2 + 0x100 * b3;
    assert w / 0x100_0000 == b3;
  }

  /** The image that one `write` of a word array leaves in the file. */
  function Encode(ws: seq<u32>): (b: seq<u8>)
    ensures |b| == 4 * |ws|
  {
    if ws == [] then [] else WordBytes(ws[0]) + Encode(ws[1..])
  }

  /** What one `fread` into a word array takes from the file. */
  function Decode(b: seq<u8>): (ws: seq<u32>)
    requires |b| % 4 == 0
    ensures 4 * |ws| == |b|
  {
    if b == [] then [] else [BytesWord(b[..4])] + Decode(b[4..])
  }

  /** Word k is the four bytes from 4 * k on, the lowest first. */
  lemma {:induction false} DecodeAt(b: seq<u8>, k: nat)
    requires |b| % 4 == 0 && 4 * k + 4 <= |b|
    ensures k < |Decode(b)|
      && Decode(b)[k] as nat == b[4 * k] as nat + 0x100 * b[4 * k + 1] as nat + 0x1_0000 * b[4 * k + 2] as nat
                                + 0x100_0000 * b[4 * k + 3] as nat
  {
    hide BytesWord;
    if k > 0 {
      DecodeAt(b[4..], k - 1);
      assert b[4..][4 * (k - 1)] == b[4 * k] && b[4..][4 * (k - 1) + 1] == b[4 * k + 1];
      assert b[4..][4 * (k - 1) + 2] == b[4 * k + 2] && b[4..][4 * (k - 1) + 3] == b[4 * k + 3];
    } else {
      WordOfBytes(b);
    }
  }

  lemma WordOfBytes(b: seq<u8>)
    requires |b| >= 4
    ensures BytesWord(b[..4]) as nat == b[0] as nat + 0x100 * b[1] as nat + 0x1_0000 * b[2] as nat
                                        + 0x100_0000 * b[3] as nat
  {
  }

  lemma {:induction false} EncodeRoundTrip(ws: seq<u32>)
    ensures Decode(Encode(ws)) == ws
  {
    if ws != [] {
      WordRoundTrip(ws[0]);
      EncodeRoundTrip(ws[1..]);
      assert Encode(ws)[..4] == WordBytes(ws[0]);
      assert Encode(ws)[4..] == Encode(ws[1..]);
    }
  }
}
