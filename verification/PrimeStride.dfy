/** Primes, and the stride by which the spelling table probes its slots. */
module PrimeStride {
  import opened Arith

  const STRIDE: nat := 123

  ghost predicate Divides(d: nat, n: nat) {
    d > 0 && n % d == 0
  }

  ghost predicate Prime(p: nat) {
    p >= 2 && forall d :: 2 <= d < p ==> !Divides(d, p)
  }

  // ---- Divisors ----

  lemma Multiple(d: nat, q: nat)
    requires d > 0
    ensures Divides(d, d * q) && d * q / d == q
  {
    Divided(0, d, q);
  }

  lemma Quotient(d: nat, n: nat) returns (q: nat)
    requires Divides(d, n)
    ensures n == d * q && q == n / d
  {
    var r;
    q, r := DivMod(n, d);
  }

  lemma DividesDifference(d: nat, a: nat, b: nat)
    requires Divides(d, a) && Divides(d, b) && a >= b
    ensures Divides(d, a - b)
  {
    var x := Quotient(d, a);
    var y := Quotient(d, b);
    Above(d, x, y);
    Distribute(d, x, y);
    Multiple(d, x - y);
  }

  lemma DividesTimes(d: nat, a: nat, k: nat)
    requires Divides(d, a)
    ensures Divides(d, a * k)
  {
    var x := Quotient(d, a);
    Associate(d, x, k);
    Multiple(d, x * k);
  }

  lemma Associate(a: nat, b: nat, c: nat)
    ensures (a * b) * c == a * (b * c)
  {
  }

  lemma DividesAtMost(d: nat, n: nat)
    requires Divides(d, n) && n > 0
    ensures d <= n
  {
    var q := Quotient(d, n);
    assert q > 0;
    AtLeast(d, q);
  }

  // ---- The next prime ----

  /** Trial division up to the root finds a divisor if there is one. */
  lemma RootSuffices(n: nat, r: nat)
    requires n >= 2 && n < (r + 1) * (r + 1) && forall d :: 2 <= d <= r ==> !Divides(d, n)
    ensures Prime(n)
  {
    forall d | 2 <= d < n ensures !Divides(d, n) {
      if Divides(d, n) {
        var q := Quotient(d, n);
        CoFactor(n, d, q, r);
      }
    }
  }

  lemma CoFactor(n: nat, d: nat, q: nat, r: nat)
    requires n == d * q && 2 <= d < n && n < (r + 1) * (r + 1)
    ensures (2 <= d <= r && Divides(d, n)) || (2 <= q <= r && Divides(q, n))
  {
    Multiple(d, q);
    BothAbove(d, q, r);
    AtMostOne(d, q);
    if d > r {
      assert n == q * d;
      Multiple(q, d);
    }
  }

  lemma BothAbove(d: nat, q: nat, r: nat)
    ensures d > r && q > r ==> d * q >= (r + 1) * (r + 1)
  {
    if d > r && q > r {
      assert d * q >= d * (r + 1) by {
        Above(d, r + 1, q);
      }
      assert d * (r + 1) == (r + 1) * d;
      Above(r + 1, r + 1, d);
    }
  }

  lemma AtMostOne(d: nat, q: nat)
    ensures q == 0 ==> d * q == 0
    ensures q == 1 ==> d * q == d
  {
  }

  function Factorial(n: nat): (f: nat)
    ensures f > 0
  {
    if n == 0 then 1 else n * Factorial(n - 1)
  }

  lemma {:induction false} FactorialDivided(n: nat, d: nat)
    requires 1 <= d <= n
    ensures Divides(d, Factorial(n))
  {
    if d == n {
      Multiple(n, Factorial(n - 1));
    } else {
      FactorialDivided(n - 1, d);
      DividesTimes(d, Factorial(n - 1), n);
      assert Factorial(n) == Factorial(n - 1) * n;
    }
  }

  /** Every number from 2 on has a prime divisor: its least one. */
  lemma {:induction false} LeastDivisor(n: nat, k: nat) returns (p: nat)
    requires 2 <= k <= n && forall d :: 2 <= d < k ==> !Divides(d, n)
    ensures Prime(p) && Divides(p, n) && p <= n
    decreases n - k
  {
    if n % k == 0 {
      p := k;
      forall d | 2 <= d < k ensures !Divides(d, k) {
        if Divides(d, k) {
          Through(d, k, n);
        }
      }
    } else {
      p := LeastDivisor(n, k + 1);
    }
  }

  lemma Through(d: nat, k: nat, n: nat)
    requires Divides(d, k) && Divides(k, n)
    ensures Divides(d, n)
  {
    var x := Quotient(d, k);
    var y := Quotient(k, n);
    assert n == d * (x * y);
    Multiple(d, x * y);
  }

  /** There is always a further prime. */
  lemma PrimeFrom(n: nat) returns (p: nat)
    ensures Prime(p) && p >= n
  {
    var f := Factorial(n) + 1;
    p := LeastDivisor(f, 2);
    if p < n {
      FactorialDivided(n, p);
      DividesDifference(p, f, Factorial(n));
      DividesAtMost(p, 1);
    }
  }

  /** The integer part of the square root. */
  function Root(n: nat, r: nat): (s: nat)
    requires r * r <= n
    ensures s * s <= n < (s + 1) * (s + 1) && s >= r
    decreases n - r * r
  {
    if (r + 1) * (r + 1) <= n then Root(n, r + 1) else r
  }

  /** `get_odd_next`: the least prime from the value on. */
  method GetOddNext(value: nat) returns (next: nat)
    ensures value >= 2 ==> Prime(next) && next >= value && forall p :: value <= p < next ==> !Prime(p)
    ensures value < 2 ==> next == value
  {
    next := value;
    ghost var bound := PrimeFrom(value);
    while true
      invariant value <= next <= bound && (value < 2 ==> next == value) && forall p :: value <= p < next ==> !Prime(p)
      decreases bound - next
    {
      var nextSqrt := Root(next, 0);
      var isOdd := true;
      var dv := 2;
      while dv < nextSqrt + 1
        invariant 2 <= dv && forall d :: 2 <= d < dv ==> !Divides(d, next)
      {
        if next % dv == 0 {
          isOdd := false;
          break;
        }
        dv := dv + 1;
      }
      if isOdd {
        if next >= 2 {
          RootSuffices(next, nextSqrt);
        }
        return;
      }
      NotPrime(next, dv, nextSqrt);
      next := next + 1;
    }
  }

  lemma NotPrime(n: nat, d: nat, r: nat)
    requires 2 <= d <= r && Divides(d, n) && r * r <= n < (r + 1) * (r + 1)
    ensures !Prime(n) && n >= 2
  {
    AtLeast(r, r);
    Above(r, 1, r);
  }

  // ---- The stride ----

  /** A prime that divides a product of a smaller number with m divides m. */
  lemma {:induction false} Descent(p: nat, a: nat, m: nat)
    requires Prime(p) && 0 < a < p && Divides(p, a * m)
    ensures Divides(p, m)
    decreases a
  {
    if a == 1 {
      assert a * m == m;
    } else {
      var q, r := DivMod(p, a);
      assert !Divides(a, p);
      Multiple(p, m);
      DividesTimes(p, a * m, q);
      Spread(a, q, r, m);
      DividesDifference(p, p * m, (a * m) * q);
      Descent(p, r, m);
    }
  }

  lemma Spread(a: nat, q: nat, r: nat, m: nat)
    ensures (a * q + r) * m == (a * m) * q + r * m && (a * q + r) * m == a * (q * m) + r * m
  {
    assert (a * q + r) * m == (a * q) * m + r * m;
    Associate(a, q, m);
    Associate(a, m, q);
    assert q * m == m * q;
  }

  lemma PrimeInProduct(p: nat, a: nat, m: nat)
    requires Prime(p) && Divides(p, a * m) && !Divides(p, a)
    ensures Divides(p, m)
  {
    var q, r := DivMod(a, p);
    Multiple(p, q * m);
    Spread(p, q, r, m);
    DividesDifference(p, a * m, p * (q * m));
    Descent(p, r, m);
  }

  lemma FactorOf41(a: nat, b: nat)
    requires a * b == 41
    ensures a != 0 && a != 2 && a != 3 && a != 4 && a != 5 && a != 6 && (a == 1 ==> b == 41)
  {
    assert a == 0 ==> a * b == 0;
    assert a == 1 ==> a * b == b;
    assert a == 2 ==> a * b == 2 * b;
    assert a == 3 ==> a * b == 3 * b;
    assert a == 4 ==> a * b == 4 * b;
    assert a == 5 ==> a * b == 5 * b;
    assert a == 6 ==> a * b == 6 * b;
  }

  lemma Only41(p: nat)
    requires p >= 2 && Divides(p, 41)
    ensures p == 41
  {
    var q := Quotient(p, 41);
    FactorOf41(p, q);
    assert q * p == 41;
    FactorOf41(q, p);
    BothAbove(p, q, 6);
  }

  lemma Only3(p: nat)
    requires p >= 2 && Divides(p, 3)
    ensures p == 3
  {
    var q := Quotient(p, 3);
    DividesAtMost(p, 3);
    Twice(p, q);
  }

  lemma Twice(a: nat, b: nat)
    ensures a == 2 ==> a * b == 2 * b
  {
  }

  /** 123 = 3 * 41. */
  lemma StrideCoprime(p: nat)
    requires Prime(p)
    ensures Divides(p, STRIDE) <==> p == 3 || p == 41
  {
    assert STRIDE == 3 * 41 == 41 * 3;
    Multiple(3, 41);
    Multiple(41, 3);
    if Divides(p, STRIDE) {
      if Divides(p, 3) {
        Only3(p);
      } else {
        PrimeInProduct(p, 3, 41);
        Only41(p);
      }
    }
  }

  /** Where the k-th step of the probe from h is. */
  function Probe(p: nat, h: nat, k: nat): (pos: nat)
    requires p > 0
    ensures pos < p
  {
    (h + STRIDE * k) % p
  }

  /** `hash_pos_next`. */
  lemma ProbeNext(p: nat, h: nat, k: nat)
    requires p > 0
    ensures (Probe(p, h, k) + STRIDE) % p == Probe(p, h, k + 1)
  {
    var n := h + STRIDE * k;
    var q, r := DivMod(n, p);
    AddMultiple(p, r + STRIDE, q);
    assert r + STRIDE + p * q == h + STRIDE * (k + 1);
  }

  lemma AddMultiple(p: nat, a: nat, q: nat)
    requires p > 0
    ensures (a + p * q) % p == a % p
  {
    var x, r := DivMod(a, p);
    Collect(p, x, q);
    Divided(r, p, x + q);
  }

  /** Two steps at the same place are a multiple of p apart. */
  lemma SamePlace(p: nat, h: nat, i: nat, j: nat)
    requires p > 0 && i <= j && Probe(p, h, i) == Probe(p, h, j)
    ensures Divides(p, STRIDE * (j - i))
  {
    var a, b := h + STRIDE * i, h + STRIDE * j;
    var x, r := DivMod(a, p);
    var y, t := DivMod(b, p);
    Above(p, y, x);
    Distribute(p, y, x);
    assert STRIDE * (j - i) == p * (y - x);
    Multiple(p, y - x);
  }

  lemma NoReturn(p: nat, h: nat, i: nat, j: nat)
    requires Prime(p) && i < j && !Divides(p, STRIDE)
    ensures Probe(p, h, i) == Probe(p, h, j) ==> p <= j - i
  {
    if Probe(p, h, i) == Probe(p, h, j) {
      SamePlace(p, h, i, j);
      PrimeInProduct(p, STRIDE, j - i);
      DividesAtMost(p, j - i);
    }
  }

  /** In a table of prime size the probe comes to no place twice before it has made as many steps as there are slots,
      exactly when the size is neither 3 nor 41. */
  lemma ProbeIsInjective(p: nat, h: nat)
    requires Prime(p)
    ensures Injective(p, h) <==> p != 3 && p != 41
  {
    StrideCoprime(p);
    if p != 3 && p != 41 {
      forall i: nat, j: nat | i < j < p ensures Probe(p, h, i) != Probe(p, h, j) {
        NoReturn(p, h, i, j);
      }
    } else {
      var q := Quotient(p, STRIDE);
      AddMultiple(p, h, q);
      assert Probe(p, h, 0) == Probe(p, h, 1);
    }
  }

  lemma ProbeReturns(p: nat, h: nat)
    requires p > 0
    ensures Probe(p, h, p) == Probe(p, h, 0)
  {
    AddMultiple(p, h, STRIDE);
    assert h + STRIDE * p == h + p * STRIDE;
  }

  /** After how many steps the probe is at its origin. */
  function Period(p: nat): (n: nat)
    requires p > 0
    ensures 0 < n <= p
  {
    if STRIDE % p == 0 then 1 else p
  }

  lemma StaysAt(p: nat, h: nat, k: nat)
    requires p > 0 && STRIDE % p == 0 && h < p
    ensures Probe(p, h, k) == h
  {
    assert Divides(p, STRIDE);
    var q := Quotient(p, STRIDE);
    assert STRIDE * k == p * (q * k) by {
      Associate(p, q, k);
    }
    Divided(h, p, q * k);
  }

  /** The probe is at its origin again after exactly so many steps. */
  lemma BackAtOrigin(p: nat, h: nat, k: nat)
    requires (p == 1 || Prime(p)) && 0 < k <= Period(p) && h < p
    ensures Probe(p, h, k) == h <==> k == Period(p)
  {
    if STRIDE % p == 0 {
      StaysAt(p, h, k);
    } else {
      ProbeZero(p, h);
      ProbeReturns(p, h);
      NoReturn(p, h, 0, k);
    }
  }

  lemma ProbeZero(p: nat, h: nat)
    requires h < p
    ensures Probe(p, h, 0) == h
  {
    Divided(h, p, 0);
    assert h + p * 0 == h;
  }

  /** Every step is at a place that is reached in the first period. */
  lemma WithinPeriod(p: nat, h: nat, k: nat)
    requires (p == 1 || Prime(p)) && k < p && h < p
    ensures Period(p) == 1 ==> Probe(p, h, k) == Probe(p, h, 0) == h
    ensures p == 1 || p == 3 || p == 41 <==> Period(p) == 1
    ensures p != 1 && p != 3 && p != 41 ==> Period(p) == p
  {
    if p > 1 {
      StrideCoprime(p);
    }
    if STRIDE % p == 0 {
      StaysAt(p, h, k);
      StaysAt(p, h, 0);
    }
  }

  // ---- Every slot is visited ----

  function Visited(p: nat, h: nat, n: nat): (s: set<nat>)
    requires p > 0
    ensures forall x :: x in s <==> exists k: nat :: k < n && Probe(p, h, k) == x
  {
    if n == 0 then {} else Visited(p, h, n - 1) + {Probe(p, h, n - 1)}
  }

  ghost predicate Injective(p: nat, h: nat)
    requires p > 0
  {
    forall i: nat, j: nat :: i < j < p ==> Probe(p, h, i) != Probe(p, h, j)
  }

  lemma NotYet(p: nat, h: nat, n: nat)
    requires 0 < p && n < p && Injective(p, h)
    ensures Probe(p, h, n) !in Visited(p, h, n)
  {
    forall k: nat | k < n ensures Probe(p, h, k) != Probe(p, h, n) {
    }
  }

  lemma VisitedMore(p: nat, h: nat, n: nat)
    requires p > 0
    ensures Visited(p, h, 0) == {} && Visited(p, h, n + 1) == Visited(p, h, n) + {Probe(p, h, n)}
  {
  }

  lemma {:induction false} VisitedSize(p: nat, h: nat, n: nat)
    requires 0 < p && n <= p && Injective(p, h)
    ensures |Visited(p, h, n)| == n
  {
    hide *;
    VisitedMore(p, h, if n > 0 then n - 1 else 0);
    if n > 0 {
      VisitedSize(p, h, n - 1);
      NotYet(p, h, n - 1);
    }
  }

  function Below(p: nat): (s: set<nat>)
    ensures forall x: nat :: x in s <==> x < p
  {
    if p == 0 then {} else Below(p - 1) + {p - 1}
  }

  lemma {:induction false} BelowSize(p: nat)
    ensures |Below(p)| == p
  {
    hide *;
    OneMoreBelow(p);
    if p > 0 {
      BelowSize(p - 1);
      OneMoreElement(Below(p - 1), p - 1);
    }
  }

  lemma OneMoreElement(s: set<nat>, x: nat)
    requires x !in s
    ensures |s + {x}| == |s| + 1
  {
  }

  lemma OneMoreBelow(p: nat)
    ensures p == 0 ==> |Below(p)| == 0
    ensures p > 0 ==> Below(p) == Below(p - 1) + {p - 1} && p - 1 !in Below(p - 1)
  {
  }

  lemma SameSize(a: set<nat>, b: set<nat>)
    requires a <= b && |a| == |b|
    ensures a == b
  {
    assert |b - a| == |b| - |a|;
  }

  /** In p steps the probe comes to every slot. */
  lemma ProbeVisitsAll(p: nat, h: nat, x: nat) returns (k: nat)
    requires Prime(p) && p != 3 && p != 41 && x < p
    ensures k < p && Probe(p, h, k) == x
  {
    ProbeIsInjective(p, h);
    VisitedSize(p, h, p);
    BelowSize(p);
    SameSize(Visited(p, h, p), Below(p));
    assert x in Visited(p, h, p);
    k :| k < p && Probe(p, h, k) == x;
  }
}
