/** Division with remainder. */
module Arith {
  lemma Distribute(r: nat, a: int, b: int)
    ensures r * (a - b) == r * a - r * b
  {
  }

  lemma Collect(r: nat, a: nat, b: nat)
    ensures r * (a + b) == r * a + r * b
  {
  }

  lemma AtLeast(r: nat, k: nat)
    requires k > 0
    ensures r * k >= r
  {
  }

  lemma Above(r: nat, a: nat, b: nat)
    ensures a < b ==> r * a + r <= r * b
  {
    if a < b {
      Distribute(r, b, a);
      AtLeast(r, b - a);
    }
  }

  /** A remainder below the divisor is the remainder. */
  lemma Divided(d: nat, r: nat, q: nat)
    requires d < r
    ensures (d + r * q) % r == d && (d + r * q) / r == q
  {
    var t := d + r * q;
    var u, e := t / r, t % r;
    assert t == r * u + e && e < r;
    Above(r, u, q);
    Above(r, q, u);
  }

  lemma DivMod(t: nat, a: nat) returns (q: nat, r: nat)
    requires a > 0
    ensures q == t / a && r == t % a && t == a * q + r && r < a
  {
    q, r := t / a, t % a;
  }
}
