/**
 * The probe sequence of the index table.
 *
 * The table is open-addressed over `size` slots, `size` a power of two, in the
 * manner of CPython's compact dict: the first slot is `hash & mask`, and every
 * further slot is `(5 * i + perturb + 1) & mask`, where `perturb` starts as the
 * (unsigned) hash and is shifted right by PERTURB_SHIFT = 5 bits before each step
 * (a division by 32).
 * For a power-of-two `size`, `x & (size - 1)` is `x % size`, and a size_t
 * wrap-around of `5 * i + perturb + 1` does not change the result because
 * `size` divides 2^64.
 *
 * The module's main result is `ProbeReaches`: the probe sequence of any hash
 * visits every slot, so a probe loop that stops at the first EMPTY slot
 * terminates as soon as the table has one. Once `perturb` has shifted down to
 * zero the sequence is the linear congruential step `i -> 5 * i + 1` modulo
 * `size`, whose period is `size` because the number of steps `d` after which
 * it comes back is divisible by 2^k exactly when 1 + 5 + ... + 5^(d-1) is.
 */
module Probing {

  function Pow2(k: nat): (r: nat)
    ensures r >= 1
  {
    if k == 0 then 1 else 2 * Pow2(k - 1)
  }

  /** `n` is one of 1, 2, 4, 8, ... */
  predicate IsPowerOfTwo(n: int)
    decreases if n > 0 then n else 0
  {
    n == 1 || (n > 1 && n % 2 == 0 && IsPowerOfTwo(n / 2))
  }

  function Log2(n: int): (k: nat)
    requires IsPowerOfTwo(n)
    ensures Pow2(k) == n
    decreases if n > 0 then n else 0
  {
    if n == 1 then 0 else 1 + Log2(n / 2)
  }

  /** `perturb` after `j` right shifts by 5 bits (PERTURB_SHIFT in CPython). */
  function Perturb(h: nat, j: nat): nat
  {
    if j == 0 then h else Perturb(h, j - 1) / 32
  }

  /** The slot visited at step `j` of the probe sequence of hash `h`. */
  function Probe(h: nat, size: nat, j: nat): (slot: nat)
    requires size > 0
    ensures slot < size
  {
    if j == 0 then h % size else (5 * Probe(h, size, j - 1) + Perturb(h, j) + 1) % size
  }

  // ---------------------------------------------------------------------
  // Modular arithmetic

  lemma MulAtLeast(n: nat, m: int)
    requires m >= 1
    ensures n * m >= n
  {
    var k := m - 1;
    assert n * m == n * k + n;
  }

  lemma ModUnique(x: int, n: nat, q: int, r: int)
    requires n > 0 && 0 <= r < n && x == n * q + r
    ensures x % n == r && x / n == q
  {
    var q', r' := x / n, x % n;
    assert x == n * q' + r';
    if q > q' {
      assert n * (q - q') == n * q - n * q';
      MulAtLeast(n, q - q');
    } else if q' > q {
      assert n * (q' - q) == n * q' - n * q;
      MulAtLeast(n, q' - q);
    }
  }

  lemma ModAddMultiple(n: nat, c: int, y: int)
    requires n > 0
    ensures (n * c + y) % n == y % n
  {
    var q, r := y / n, y % n;
    assert n * c + y == n * (c + q) + r;
    ModUnique(n * c + y, n, c + q, r);
  }

  /** Equal residues differ by a multiple of the modulus. */
  lemma ModEqualDiff(x: nat, y: nat, n: nat) returns (q: nat)
    requires n > 0 && x <= y && x % n == y % n
    ensures y - x == n * q
  {
    var qx, qy := x / n, y / n;
    assert x == n * qx + x % n;
    assert y == n * qy + y % n;
    assert y - x == n * qy - n * qx;
    assert y - x == n * (qy - qx);
    if qy < qx {
      assert n * (qx - qy) == n * qx - n * qy;
      MulAtLeast(n, qx - qy);
    }
    q := qy - qx;
  }

  /** Splits `x` into quotient and remainder by a literal divisor. */
  lemma DivMod(x: int, n: nat)
    requires n > 0
    ensures x == n * (x / n) + x % n && 0 <= x % n < n
  {
  }

  // ---------------------------------------------------------------------
  // 2-adic valuation

  /** The exponent of the largest power of two dividing `x`. */
  function V2(x: nat): nat
    requires x > 0
  {
    if x % 2 == 1 then 0 else 1 + V2(x / 2)
  }

  lemma V2Even(x: nat, y: nat)
    requires x > 0 && x == 2 * y
    ensures y > 0 && V2(x) == 1 + V2(y)
  {
    ModUnique(x, 2, y, 0);
  }

  lemma V2Odd(x: nat, y: nat)
    requires x == 2 * y + 1
    ensures V2(x) == 0
  {
    ModUnique(x, 2, y, 1);
  }

  lemma HalveProduct(c: int, b: int)
    ensures (2 * c) * b == 2 * (c * b)
  {
  }

  lemma OddProduct(a: int, c: int, e: int)
    requires a == 2 * c + 1
    ensures a * (2 * e + 1) == 2 * (a * e + c) + 1
  {
  }

  lemma {:induction false} V2Mul(a: nat, b: nat)
    requires a > 0 && b > 0
    ensures a * b > 0 && V2(a * b) == V2(a) + V2(b)
    decreases a + b
  {
    MulAtLeast(a, b);
    var c, e := a / 2, b / 2;
    DivMod(a, 2);
    DivMod(b, 2);
    if a % 2 == 0 {
      HalveProduct(c, b);
      V2Even(a, c);
      V2Even(a * b, c * b);
      V2Mul(c, b);
    } else if b % 2 == 0 {
      HalveProduct(e, a);
      assert a * b == 2 * (e * a);
      V2Even(b, e);
      V2Even(a * b, e * a);
      V2Mul(a, e);
    } else {
      OddProduct(a, c, e);
      V2Odd(a, c);
      V2Odd(b, e);
      V2Odd(a * b, a * e + c);
    }
  }

  lemma {:induction false} V2Pow2(k: nat)
    ensures V2(Pow2(k)) == k
  {
    if k > 0 {
      V2Pow2(k - 1);
      V2Even(Pow2(k), Pow2(k - 1));
    }
  }

  lemma {:induction false} V2Bound(d: nat, k: nat)
    requires d > 0 && V2(d) >= k
    ensures d >= Pow2(k)
  {
    if k > 0 {
      var c := d / 2;
      DivMod(d, 2);
      if d % 2 == 1 {
        V2Odd(d, c);
      } else {
        V2Even(d, c);
        V2Bound(c, k - 1);
      }
    }
  }

  // ---------------------------------------------------------------------
  // The step i -> 5 * i + 1 and its closed form

  function Pow5(d: nat): (r: nat)
    ensures r >= 1
  {
    if d == 0 then 1 else 5 * Pow5(d - 1)
  }

  /** 1 + 5 + ... + 5^(d-1) */
  function GeomSum(d: nat): nat
  {
    if d == 0 then 0 else 5 * GeomSum(d - 1) + 1
  }

  function Step(i: nat, n: nat): nat
    requires n > 0
  {
    (5 * i + 1) % n
  }

  /** `d` applications of `Step`. */
  function Iter(i: nat, n: nat, d: nat): (r: nat)
    requires n > 0 && i < n
    ensures r < n
  {
    if d == 0 then i else Step(Iter(i, n, d - 1), n)
  }

  lemma {:induction false} Pow5Mod4(d: nat)
    ensures Pow5(d) == 4 * (Pow5(d) / 4) + 1
  {
    if d > 0 {
      Pow5Mod4(d - 1);
      var m := Pow5(d - 1) / 4;
      assert Pow5(d) == 4 * (5 * m + 1) + 1;
      ModUnique(Pow5(d), 4, 5 * m + 1, 1);
    }
  }

  lemma Pow5Odd(d: nat)
    ensures Pow5(d) % 2 == 1
  {
    Pow5Mod4(d);
    ModUnique(Pow5(d), 2, 2 * (Pow5(d) / 4), 1);
  }

  lemma {:induction false} Pow5Add(a: nat, d: nat)
    ensures Pow5(a + d) == Pow5(a) * Pow5(d)
  {
    if a > 0 {
      Pow5Add(a - 1, d);
      assert Pow5(a + d) == 5 * Pow5(a - 1 + d);
      assert Pow5(a) * Pow5(d) == 5 * (Pow5(a - 1) * Pow5(d));
    }
  }

  lemma {:induction false} GeomSumAdd(a: nat, d: nat)
    ensures GeomSum(a + d) == GeomSum(a) + Pow5(a) * GeomSum(d)
  {
    if a > 0 {
      GeomSumAdd(a - 1, d);
      assert GeomSum(a + d) == 5 * GeomSum(a - 1 + d) + 1;
      assert Pow5(a) * GeomSum(d) == 5 * (Pow5(a - 1) * GeomSum(d));
    }
  }

  lemma {:induction false} Pow5Geom(d: nat)
    ensures Pow5(d) == 4 * GeomSum(d) + 1
  {
    if d > 0 {
      Pow5Geom(d - 1);
    }
  }

  /** For odd `d`, 1 + 5 + ... + 5^(d-1) is odd. */
  lemma {:induction false} GeomSumOdd(e: nat)
    ensures GeomSum(2 * e + 1) == 2 * (GeomSum(2 * e + 1) / 2) + 1
  {
    if e > 0 {
      GeomSumOdd(e - 1);
      var u := GeomSum(2 * e - 1) / 2;
      assert GeomSum(2 * e + 1) == 25 * GeomSum(2 * e - 1) + 6;
      assert GeomSum(2 * e + 1) == 2 * (25 * u + 15) + 1;
      ModUnique(GeomSum(2 * e + 1), 2, 25 * u + 15, 1);
    }
  }

  lemma V2OnePlusPow5(e: nat)
    ensures V2(1 + Pow5(e)) == 1
  {
    var m := Pow5(e) / 4;
    Pow5Mod4(e);
    V2Even(1 + Pow5(e), 2 * m + 1);
    V2Odd(2 * m + 1, m);
  }

  /** The sum 1 + 5 + ... + 5^(d-1) has exactly as many factors 2 as `d`. */
  lemma {:induction false} V2GeomSum(d: nat)
    requires d > 0
    ensures GeomSum(d) > 0 && V2(GeomSum(d)) == V2(d)
    decreases d
  {
    var e := d / 2;
    DivMod(d, 2);
    if d % 2 == 1 {
      GeomSumOdd(e);
      V2Odd(GeomSum(d), GeomSum(d) / 2);
      V2Odd(d, e);
    } else {
      V2Even(d, e);
      V2GeomSum(e);
      GeomSumAdd(e, e);
      var g, t := GeomSum(e), 1 + Pow5(e);
      assert GeomSum(d) == g * t by {
        assert d == e + e;
        assert GeomSum(d) == g + Pow5(e) * g;
      }
      V2OnePlusPow5(e);
      V2Mul(g, t);
    }
  }

  /** `d` applications of i -> 5 * i + 1, without reduction modulo the size. */
  function Affine(i: nat, d: nat): nat
  {
    if d == 0 then i else 5 * Affine(i, d - 1) + 1
  }

  /** The closed form of `Affine`: 5^d * i + (1 + 5 + ... + 5^(d-1)). */
  lemma {:induction false} AffineClosed(i: nat, d: nat)
    ensures Affine(i, d) == Pow5(d) * i + GeomSum(d)
  {
    if d > 0 {
      AffineClosed(i, d - 1);
      var p := Pow5(d - 1);
      assert Pow5(d) * i == 5 * (p * i);
    }
  }

  lemma StepMod(x: nat, n: nat)
    requires n > 0
    ensures (5 * (x % n) + 1) % n == (5 * x + 1) % n
  {
    var q := x / n;
    assert x == n * q + x % n;
    assert 5 * x + 1 == n * (5 * q) + (5 * (x % n) + 1);
    ModAddMultiple(n, 5 * q, 5 * (x % n) + 1);
  }

  lemma ClosedStep(y: nat, x: nat, n: nat, a: nat)
    requires n > 0 && y == x % n && a == 5 * x + 1
    ensures Step(y, n) == a % n
  {
    StepMod(x, n);
  }

  lemma {:induction false} IterClosedForm(i: nat, n: nat, d: nat)
    requires 0 < n && i < n
    ensures Iter(i, n, d) == Affine(i, d) % n
  {
    if d > 0 {
      IterClosedForm(i, n, d - 1);
      ClosedStep(Iter(i, n, d - 1), Affine(i, d - 1), n, Affine(i, d));
    }
  }

  lemma RingIdentity(p: int, s: int, i: int, g: int)
    ensures (p * (4 * s + 1)) * i + (g + p * s) == (p * i + g) + p * (s * (4 * i + 1))
  {
    assert p * (s * (4 * i + 1)) == p * (4 * (s * i)) + p * s;
    assert (p * (4 * s + 1)) * i == p * (4 * (s * i)) + p * i;
  }

  lemma AffineDiff(i: nat, a: nat, d: nat)
    ensures Affine(i, a + d) == Affine(i, a) + Pow5(a) * (GeomSum(d) * (4 * i + 1))
  {
    var p, s := Pow5(a), GeomSum(d);
    AffineClosed(i, a + d);
    AffineClosed(i, a);
    Pow5Add(a, d);
    GeomSumAdd(a, d);
    Pow5Geom(d);
    assert Affine(i, a + d) == (p * (4 * s + 1)) * i + (GeomSum(a) + p * s);
    RingIdentity(p, s, i, GeomSum(a));
  }

  /**
   * If p * (s * f) is a positive multiple of 2^k with p and f odd, then all the
   * factors 2 are in s, so a d with as many factors 2 as s is at least 2^k.
   */
  lemma OddMultipleBound(p: nat, s: nat, f: nat, d: nat, k: nat, q: nat)
    requires p % 2 == 1 && f % 2 == 1 && s > 0 && d > 0 && V2(s) == V2(d)
    requires p * (s * f) == Pow2(k) * q
    ensures d >= Pow2(k)
  {
    var sf := s * f;
    V2Mul(s, f);
    assert V2(f) == 0;
    var x := p * sf;
    V2Mul(p, sf);
    assert V2(p) == 0;
    assert x > 0 && V2(x) == V2(s);
    var t := Pow2(k);
    PositiveFactor(t, q);
    V2Mul(t, q);
    V2Pow2(k);
    assert V2(x) == V2(t * q) >= k;
    V2Bound(d, k);
  }

  lemma PositiveFactor(t: nat, q: nat)
    requires t * q > 0
    ensures q > 0
  {
    assert t * 0 == 0;
  }

  lemma FourTimesPlusOneOdd(i: nat)
    ensures (4 * i + 1) % 2 == 1
  {
    ModUnique(4 * i + 1, 2, 2 * i, 1);
  }

  /** A positive multiple of 2^k of the form 5^a * (1 + ... + 5^(d-1)) * (4i + 1) has d >= 2^k. */
  lemma MultipleBound(i: nat, k: nat, a: nat, d: nat, q: nat)
    requires d > 0 && Pow5(a) * (GeomSum(d) * (4 * i + 1)) == Pow2(k) * q
    ensures d >= Pow2(k)
  {
    V2GeomSum(d);
    Pow5Odd(a);
    FourTimesPlusOneOdd(i);
    OddMultipleBound(Pow5(a), GeomSum(d), 4 * i + 1, d, k, q);
  }

  lemma NoReturnWithinPeriod(i: nat, k: nat, a: nat, d: nat)
    requires 0 < d < Pow2(k)
    ensures Affine(i, a) % Pow2(k) != Affine(i, a + d) % Pow2(k)
  {
    var t, x, y := Pow2(k), Affine(i, a), Affine(i, a + d);
    if x % t == y % t {
      AffineDiff(i, a, d);
      var p: nat, g: nat := Pow5(a), GeomSum(d) * (4 * i + 1);
      var pg: nat := p * g;
      assert y == x + pg;
      var q := ModEqualDiff(x, y, t);
      MultipleBound(i, k, a, d, q);
      assert false;
    }
  }

  /** Within one period, the step never revisits a slot. */
  lemma IterInjective(i: nat, k: nat, a: nat, b: nat)
    requires i < Pow2(k) && a < b < Pow2(k)
    ensures Iter(i, Pow2(k), a) != Iter(i, Pow2(k), b)
  {
    IterClosedForm(i, Pow2(k), a);
    IterClosedForm(i, Pow2(k), b);
    NoReturnWithinPeriod(i, k, a, b - a);
  }

  function IterImage(i: nat, n: nat, m: nat): set<nat>
    requires 0 < n && i < n
  {
    set d | 0 <= d < m :: Iter(i, n, d)
  }

  lemma {:induction false} IterImageSize(i: nat, k: nat, m: nat)
    requires i < Pow2(k) && m <= Pow2(k)
    ensures |IterImage(i, Pow2(k), m)| == m
  {
    var n := Pow2(k);
    if m > 0 {
      IterImageSize(i, k, m - 1);
      var prev := IterImage(i, n, m - 1);
      assert IterImage(i, n, m) == prev + {Iter(i, n, m - 1)};
      forall d | 0 <= d < m - 1
        ensures Iter(i, n, d) != Iter(i, n, m - 1)
      {
        IterInjective(i, k, d, m - 1);
      }
    }
  }

  /** The set {0, ..., n - 1}. */
  function Below(n: nat): (r: set<nat>)
    ensures forall t: nat :: t in r <==> t < n
    ensures |r| == n
  {
    if n == 0 then {} else Below(n - 1) + {n - 1}
  }

  /** The step i -> 5 * i + 1 modulo 2^k has full period: it reaches every slot. */
  lemma IterReaches(i: nat, k: nat, t: nat) returns (d: nat)
    requires i < Pow2(k) && t < Pow2(k)
    ensures d < Pow2(k) && Iter(i, Pow2(k), d) == t
  {
    var n := Pow2(k);
    var image := IterImage(i, n, n);
    IterImageSize(i, k, n);
    assert image <= Below(n);
    assert |Below(n) - image| == |Below(n)| - |image| == 0;
    assert t in Below(n);
    assert t in image;
    d :| 0 <= d < n && Iter(i, n, d) == t;
  }

  // ---------------------------------------------------------------------
  // The perturbed probe sequence

  lemma {:induction false} PerturbShrinks(h: nat, j: nat)
    ensures Perturb(h, j) <= if j <= h then h - j else 0
  {
    if j > 0 {
      PerturbShrinks(h, j - 1);
    }
  }

  lemma {:induction false} PerturbStaysZero(h: nat, j: nat, d: nat)
    requires Perturb(h, j) == 0
    ensures Perturb(h, j + d) == 0
  {
    if d > 0 {
      PerturbStaysZero(h, j, d - 1);
    }
  }

  lemma {:induction false} ProbeTail(h: nat, size: nat, j: nat, d: nat)
    requires size > 0 && Perturb(h, j) == 0
    ensures Probe(h, size, j + d) == Iter(Probe(h, size, j), size, d)
  {
    if d > 0 {
      ProbeTail(h, size, j, d - 1);
      PerturbStaysZero(h, j, d);
    }
  }

  /** One turn of the probe loop: `perturb` is shifted first, then the next slot is computed from it. */
  lemma ProbeNext(h: nat, size: nat, j: nat)
    requires size > 0
    ensures Perturb(h, j + 1) == Perturb(h, j) / 32
    ensures Probe(h, size, j + 1) == (5 * Probe(h, size, j) + Perturb(h, j) / 32 + 1) % size
  {
  }

  /** Every slot of a power-of-two table lies on the probe sequence of every hash. */
  lemma ProbeReaches(h: nat, size: nat, t: nat) returns (j: nat)
    requires IsPowerOfTwo(size) && t < size
    ensures Probe(h, size, j) == t
  {
    PerturbShrinks(h, h);
    var k := Log2(size);
    var d := IterReaches(Probe(h, size, h), k, t);
    ProbeTail(h, size, h, d);
    j := h + d;
  }
}
