/**
  64-bit division from the 32-bit division of the processor (`lib/arithmetic.c`).
  Machine integers are unbounded integers with their wrap-around written out;
  0x1_0000_0000 is 2 to the 32 and 0x1_0000_0000_0000_0000 is 2 to the 64.
 */
module Arithmetic {
  import opened Wrappers

  function Pow2(n: nat): (p: nat)
    ensures p > 0
  {
    if n == 0 then 1 else 2 * Pow2(n - 1)
  }

  lemma {:induction false} Pow2Add(a: nat, b: nat)
    ensures Pow2(a + b) == Pow2(a) * Pow2(b)
  {
    if b > 0 {
      Pow2Add(a, b - 1);
      assert Pow2(a + b) == 2 * Pow2(a + (b - 1)) && Pow2(b) == 2 * Pow2(b - 1);
      hide Pow2;
      TwoMiddle(Pow2(a), Pow2(b - 1));
      MulAssoc(2, Pow2(a), Pow2(b - 1));
    }
  }

  lemma Pow2Small()
    ensures Pow2(1) == 2 && Pow2(2) == 4 && Pow2(4) == 16
  {
    assert Pow2(1) == 2 * Pow2(0);
    assert Pow2(2) == 2 * Pow2(1);
    Pow2Add(2, 2);
  }

  lemma Pow2Values()
    ensures Pow2(1) == 2 && Pow2(2) == 4 && Pow2(4) == 16 && Pow2(8) == 256 && Pow2(16) == 65536
            && Pow2(32) == 0x1_0000_0000
  {
    hide Pow2;
    Pow2Small();
    Pow2Add(4, 4);
    Pow2Add(8, 8);
    Pow2Add(16, 16);
  }

  // ----- Products and floors -----

  lemma MulMono(a: nat, b: nat, c: nat)
    requires a <= b
    ensures a * c <= b * c
  {
    assert b * c == a * c + (b - a) * c;
  }

  lemma MulLess(a: nat, b: nat, c: nat)
    ensures a * c < b * c ==> a < b
  {
    if b <= a {
      MulMono(b, a, c);
    }
  }

  lemma MulAssoc(a: nat, b: nat, c: nat)
    ensures a * b * c == a * (b * c)
  {
  }

  /** A product under a name, which proofs can keep folded. */
  function Times(a: int, b: int): int { a * b }

  function Div(n: nat, d: nat): nat
    requires d > 0
  {
    n / d
  }

  function Mod(n: nat, d: nat): nat
    requires d > 0
  {
    n % d
  }

  lemma DivMod(n: nat, d: nat)
    requires d > 0
    ensures Div(n, d) == n / d && Mod(n, d) == n % d
  {
  }

  lemma DivBounds(n: nat, d: nat)
    requires d > 0
    ensures Div(n, d) * d <= n < Div(n, d) * d + d
  {
    assert n == d * (n / d) + n % d;
  }

  lemma DivTimes(n: nat, d: nat)
    requires d > 0
    ensures Times(Div(n, d), d) <= n < Times(Div(n, d), d) + d
  {
    hide Div;
    DivBounds(n, d);
  }

  lemma DivUnique(n: nat, d: nat, q: nat)
    requires d > 0 && q * d <= n < q * d + d
    ensures Div(n, d) == q
  {
    hide Div;
    var r := Div(n, d);
    DivBounds(n, d);
    assert (q + 1) * d == q * d + d && (r + 1) * d == r * d + d;
    MulLess(r, q + 1, d);
    MulLess(q, r + 1, d);
  }

  /** Dividing twice is dividing by the product. */
  lemma DivDiv(n: nat, a: nat, b: nat)
    requires a > 0 && b > 0
    ensures a * b > 0 && Div(Div(n, a), b) == Div(n, a * b)
  {
    hide Div;
    var p := Div(n, a);
    DivBounds(n, a);
    var q := Div(p, b);
    DivBounds(p, b);
    DivDivBounds(n, a, b, p, q);
    DivUnique(n, b * a, q);
    assert b * a == a * b;
  }

  lemma DivDivBounds(n: nat, a: nat, b: nat, p: nat, q: nat)
    requires a > 0 && b > 0
    requires p * a <= n < p * a + a && q * b <= p < q * b + b
    ensures b * a > 0 && q * (b * a) <= n < q * (b * a) + b * a
  {
    MulAssoc(q, b, a);
    MulMono(q * b, p, a);
    MulMono(p + 1, q * b + b, a);
    assert (p + 1) * a == p * a + a;
    assert (q * b + b) * a == q * b * a + b * a;
  }

  /** The DIVL instruction: it traps when the quotient does not fit in 32 bits. */
  function Divl(n: nat, d: nat): Option<nat>
    requires n < 0x1_0000_0000_0000_0000 && d < 0x1_0000_0000
  {
    if d == 0 || Div(n, d) >= 0x1_0000_0000 then None else Some(Div(n, d))
  }

  /** A left shift of a 32-bit word by a power of two drops what does not fit. */
  function Shl(x: nat, factor: nat): (r: nat)
    ensures x * factor < 0x1_0000_0000 ==> r == x * factor
  {
    x * factor % 0x1_0000_0000
  }

  /** `x` is `x0` shifted left by `n`. */
  ghost predicate Shifted(x0: nat, n: nat, x: nat) { x == x0 * Pow2(n) }

  /** The number of leading zeros of a nonzero 32-bit word: shifting by it brings the top bit up. */
  method Nlz(x0: nat) returns (n: nat)
    requires 0 < x0 < 0x1_0000_0000
    ensures n <= 31 && 0x8000_0000 <= Times(x0, Pow2(n)) < 0x1_0000_0000
  {
    hide Pow2, Shifted, Shl, Times;
    Pow2Values();
    ShiftedNot(x0);
    var x := x0;
    n := 0;
    if x <= 0x0000_FFFF {
      Shift(x0, n, 16, x, 65536);
      n := n + 16;
      x := Shl(x, 65536);
    }
    if x <= 0x00FF_FFFF {
      Shift(x0, n, 8, x, 256);
      n := n + 8;
      x := Shl(x, 256);
    }
    if x <= 0x0FFF_FFFF {
      Shift(x0, n, 4, x, 16);
      n := n + 4;
      x := Shl(x, 16);
    }
    if x <= 0x3FFF_FFFF {
      Shift(x0, n, 2, x, 4);
      n := n + 2;
      x := Shl(x, 4);
    }
    if x <= 0x7FFF_FFFF {
      Shift(x0, n, 1, x, 2);
      n := n + 1;
      ShiftedIs(x0, n, x * 2);
    } else {
      ShiftedIs(x0, n, x);
    }
  }

  lemma ShiftedNot(x0: nat)
    ensures Shifted(x0, 0, x0)
  {
  }

  lemma ShiftedIs(x0: nat, n: nat, x: nat)
    requires Shifted(x0, n, x)
    ensures x == Times(x0, Pow2(n))
  {
  }

  lemma Shift(x0: nat, n: nat, m: nat, x: nat, factor: nat)
    requires Shifted(x0, n, x) && factor == Pow2(m)
    ensures Shifted(x0, n + m, x * factor)
  {
    hide Pow2;
    Pow2Add(n, m);
    MulAssoc(x0, Pow2(n), Pow2(m));
  }

  // ----- The small divisor -----

  /** Long division by a 32-bit divisor: the high word first, then its remainder with the low word. */
  lemma SmallDivisor(n: nat, d: nat)
    requires n < 0x1_0000_0000_0000_0000 && 0 < d < 0x1_0000_0000
    ensures var n1, n0 := n / 0x1_0000_0000, n % 0x1_0000_0000;
            && 0x1_0000_0000 * Mod(n1, d) + n0 < 0x1_0000_0000_0000_0000
            && Div(0x1_0000_0000 * Mod(n1, d) + n0, d) < 0x1_0000_0000
            && Div(0x1_0000_0000 * Mod(n1, d) + n0, d) + 0x1_0000_0000 * Div(n1, d) == Div(n, d)
  {
    var n1, n0 := n / 0x1_0000_0000, n % 0x1_0000_0000;
    QuotientRemainder(n1, d);
    hide Div, Mod;
    var m := 0x1_0000_0000 * Mod(n1, d) + n0;
    DivBounds(m, d);
    SmallQuotient(n, n1, n0, d, Div(n1, d), Mod(n1, d), Div(m, d));
  }

  lemma SmallQuotient(n: nat, n1: nat, n0: nat, d: nat, t: nat, r: nat, q: nat)
    requires n == 0x1_0000_0000 * n1 + n0 && n0 < 0x1_0000_0000 && 0 < d < 0x1_0000_0000 && n1 == d * t + r && r < d
    requires q * d <= 0x1_0000_0000 * r + n0 < q * d + d
    ensures q < 0x1_0000_0000 && q + 0x1_0000_0000 * t == Div(n, d)
  {
    hide Div;
    SmallBounds(n, n1, n0, d, t, r, q);
    DivUnique(n, d, q + 0x1_0000_0000 * t);
  }

  lemma QuotientRemainder(n: nat, d: nat)
    requires d > 0
    ensures n == d * Div(n, d) + Mod(n, d) && Mod(n, d) < d && Div(n, d) <= n
  {
    MulMono(1, d, n / d);
  }

  lemma SmallBounds(n: nat, n1: nat, n0: nat, d: nat, t: nat, r: nat, q: nat)
    requires n == 0x1_0000_0000 * n1 + n0 && n0 < 0x1_0000_0000 && 0 < d < 0x1_0000_0000 && n1 == d * t + r && r < d
    requires q * d <= 0x1_0000_0000 * r + n0 < q * d + d
    ensures q < 0x1_0000_0000 && (q + 0x1_0000_0000 * t) * d <= n < (q + 0x1_0000_0000 * t) * d + d
  {
    assert 0x1_0000_0000 * r + n0 < 0x1_0000_0000 * d;
    MulLess(q, 0x1_0000_0000, d);
    assert (q + 0x1_0000_0000 * t) * d == q * d + 0x1_0000_0000 * (t * d);
    assert t * d == d * t;
  }

  // ----- The large divisor -----

  /** The estimate is the quotient by the divisor with its low bits cleared. */
  lemma EstimateIs(n: nat, v: nat, s: nat)
    requires v > 0 && s <= 31
    ensures Times(v, Pow2(32 - s)) > 0 && Div(Div(n / 2, v), Pow2(31 - s)) == Div(n, Times(v, Pow2(32 - s)))
  {
    var p := Pow2(31 - s);
    assert Pow2(32 - s) == 2 * p;
    assert n / 2 == Div(n, 2);
    hide Div, Pow2;
    DivDiv(n, 2, v);
    DivDiv(n, 2 * v, p);
    TwoMiddle(v, p);
  }

  lemma TimesPositive(a: nat, b: nat)
    ensures Times(a, b) >= 0
  {
  }

  lemma TwoMiddle(v: nat, p: nat)
    ensures 2 * v * p == v * (2 * p) == 2 * p * v
  {
  }

  /** The cleared divisor is at most `2^k - 1` smaller and has its top bit at position `31 + k`. */
  lemma ClearedDivisor(d: nat, s: nat, v: nat)
    requires 0x1_0000_0000 <= d < 0x1_0000_0000_0000_0000 && s <= 31
    requires 0x8000_0000 <= Times(d / 0x1_0000_0000, Pow2(s)) < 0x1_0000_0000
    requires 0 <= Times(d, Pow2(s)) && v == Div(Times(d, Pow2(s)), 0x1_0000_0000)
    ensures Times(d, Pow2(s)) < 0x1_0000_0000_0000_0000
    ensures 0x8000_0000 <= v < 0x1_0000_0000
    ensures Times(v, Pow2(32 - s)) <= d <= Times(v, Pow2(32 - s)) + Pow2(32 - s) - 1
  {
    var p, k := Pow2(s), Pow2(32 - s);
    Pow2Values();
    Pow2Add(s, 32 - s);
    hide Pow2, Div;
    DivDiv(d * p, p, k);
    DivUnique(d * p, p, d);
    DivBounds(d, k);
    var d1, d0 := d / 0x1_0000_0000, d % 0x1_0000_0000;
    ScaledDivisor(d, d1, d0, p, k);
    DivBounds(d * p, 0x1_0000_0000);
    MulLess(v, 0x1_0000_0000, 0x1_0000_0000);
    MulLess(d1 * p, v + 1, 0x1_0000_0000);
    assert (v + 1) * 0x1_0000_0000 == v * 0x1_0000_0000 + 0x1_0000_0000;
  }

  /** Scaling by `p` keeps a divisor whose scaled top word fits below 2 to the 64. */
  lemma ScaledDivisor(d: nat, d1: nat, d0: nat, p: nat, k: nat)
    requires d == 0x1_0000_0000 * d1 + d0 && d0 < 0x1_0000_0000 && p > 0 && p * k == 0x1_0000_0000
             && d1 * p < 0x1_0000_0000
    ensures d1 * p * 0x1_0000_0000 <= d * p < 0x1_0000_0000_0000_0000
  {
    assert k * p == p * k;
    MulLess(d1, k, p);
    MulMono(d1 + 1, k, p);
    assert (d1 + 1) * p == d1 * p + p;
    assert d * p == 0x1_0000_0000 * (d1 * p) + d0 * p;
    MulMono(d0, 0x1_0000_0000, p);
    MulLess(d0, 0x1_0000_0000, p);
    assert d0 * p + p == (d0 + 1) * p;
    MulMono(d0 + 1, 0x1_0000_0000, p);
  }

  /** The error bound: dividing by the cleared divisor gives the quotient or one more. */
  lemma EstimateBound(n: nat, d: nat, v: nat, k: nat, q: nat, q0: nat)
    requires n < 0x1_0000_0000_0000_0000 && 1 <= k <= 32
    requires 0x8000_0000 <= v && Times(v, Pow2(k)) <= d <= Times(v, Pow2(k)) + Pow2(k) - 1
    requires Times(q, Times(v, Pow2(k))) <= n < Times(q, Times(v, Pow2(k))) + Times(v, Pow2(k))
    requires Times(q0, d) <= n < Times(q0, d) + d
    ensures q == q0 || q == q0 + 1
  {
    var p, D := Pow2(k), v * Pow2(k);
    assert p >= 2 by {
      assert p == 2 * Pow2(k - 1);
    }
    hide Pow2;
    EstimateNotBelow(n, d, D, q, q0);
    ExcessBound(n, d, v, p, q, D);
    EstimateNotAbove(n, d, D, q, q0);
  }

  /** From below: q0 * D <= q0 * d <= n < (q + 1) * D. */
  lemma EstimateNotBelow(n: nat, d: nat, D: nat, q: nat, q0: nat)
    requires D <= d && n < q * D + D && q0 * d <= n
    ensures q0 <= q
  {
    MulMono(D, d, q0);
    assert (q + 1) * D == q * D + D && q0 * D == D * q0 && q0 * d == d * q0;
    MulLess(q0, q + 1, D);
  }

  /** From above: (q - 1) * d <= q * D <= n < (q0 + 1) * d, because q * (d - D) <= d. */
  lemma EstimateNotAbove(n: nat, d: nat, D: nat, q: nat, q0: nat)
    requires D <= d && q * D <= n < q0 * d + d && q * (d - D) <= d
    ensures q <= q0 + 1
  {
    if q > 0 {
      assert (q - 1) * d == q * D + q * (d - D) - d && (q0 + 1) * d == q0 * d + d;
      MulLess(q - 1, q0 + 1, d);
    }
  }

  /** The quotient is small enough that clearing `d - D < p` costs less than one divisor. */
  lemma ExcessBound(n: nat, d: nat, v: nat, p: nat, q: nat, D: nat)
    requires n < 0x1_0000_0000_0000_0000 && p >= 2 && 0x8000_0000 <= v && D == v * p && D <= d <= D + p - 1
             && q * D <= n
    ensures q * (d - D) <= d
  {
    var x := q * p;
    assert q * D == v * x by {
      assert q * (v * p) == v * (q * p);
    }
    MulMono(0x8000_0000, v, x);
    assert x * (0x8000_0000) < 0x1_0000_0000_0000_0000;
    assert x < 2 * 0x1_0000_0000;
    assert q * (d - D) <= q * (p - 1) by {
      MulMono(d - D, p - 1, q);
      assert q * (d - D) == (d - D) * q && q * (p - 1) == (p - 1) * q;
    }
    assert q * (p - 1) == x - q;
    MulMono(0x8000_0000, v, p);
    HalfBound(x, q, p);
  }

  lemma HalfBound(x: nat, q: nat, p: nat)
    requires x == q * p && p >= 2 && x < 2 * 0x1_0000_0000
    ensures x - q <= 0x8000_0000 * p
  {
    if p >= 4 {
      assert 0x8000_0000 * p >= 2 * 0x1_0000_0000;
    } else if p == 2 {
      assert x == 2 * q;
    } else {
      assert x == 3 * q;
    }
  }

  /** The correction picks the right one of the two, and no step of it wraps. */
  lemma Correction(n: nat, d: nat, q: nat)
    requires 0 < d <= n && (q == Div(n, d) || q == Div(n, d) + 1)
    ensures q >= 1 && 0 <= Times(q - 1, d) <= n
    ensures (if n - Times(q - 1, d) < d then q - 1 else q) == Div(n, d)
  {
    hide Div;
    var q0 := Div(n, d);
    DivBounds(n, d);
    MulLess(1, q0 + 1, d);
    assert (q0 + 1) * d == q0 * d + d && (q0 - 1) * d == q0 * d - d;
  }

  /** Half of a 64-bit number divided by a normalised divisor fits in 32 bits: the second DIVL does not trap. */
  lemma DivBelow(h: nat, v: nat)
    requires h < 0x8000_0000_0000_0000 && 0x8000_0000 <= v
    ensures Div(h, v) < 0x1_0000_0000
  {
    hide Div;
    var q := Div(h, v);
    DivBounds(h, v);
    MulMono(0x8000_0000, v, q);
    assert q * v == v * q;
  }

  /** Everything about the large divisor in one place. */
  lemma LargeDivisor(n: nat, d: nat, s: nat)
    requires 0x1_0000_0000 <= d <= n < 0x1_0000_0000_0000_0000 && s <= 31
    requires 0x8000_0000 <= Times(d / 0x1_0000_0000, Pow2(s)) < 0x1_0000_0000
    ensures 0 <= Times(d, Pow2(s)) < 0x1_0000_0000_0000_0000
    ensures var v := Div(Times(d, Pow2(s)), 0x1_0000_0000);
            && 0 < v < 0x1_0000_0000 && Div(n / 2, v) < 0x1_0000_0000
            && var q := Div(Div(n / 2, v), Pow2(31 - s));
            && q >= 1 && 0 <= Times(q - 1, d) <= n
            && (if n - Times(q - 1, d) < d then q - 1 else q) == Div(n, d)
  {
    TimesPositive(d, Pow2(s));
    hide Pow2, Div, Times;
    var v := Div(Times(d, Pow2(s)), 0x1_0000_0000);
    ClearedDivisor(d, s, v);
    DivBelow(n / 2, v);
    EstimateIs(n, v, s);
    LargeQuotient(n, d, v, 32 - s, Div(Div(n / 2, v), Pow2(31 - s)));
  }

  lemma LargeQuotient(n: nat, d: nat, v: nat, k: nat, q: nat)
    requires 0 < d <= n < 0x1_0000_0000_0000_0000 && 1 <= k <= 32
    requires 0x8000_0000 <= v && Times(v, Pow2(k)) <= d <= Times(v, Pow2(k)) + Pow2(k) - 1
    requires Times(v, Pow2(k)) > 0 && q == Div(n, Times(v, Pow2(k)))
    ensures q >= 1 && 0 <= Times(q - 1, d) <= n
    ensures (if n - Times(q - 1, d) < d then q - 1 else q) == Div(n, d)
  {
    hide Pow2, Div, Times;
    DivTimes(n, Times(v, Pow2(k)));
    DivTimes(n, d);
    EstimateBound(n, d, v, k, q, Div(n, d));
    Correction(n, d, q);
  }

  // ----- The routines -----

  /** Arithmetic on unsigned 64-bit numbers. */
  function Wrap64(x: int): (r: nat)
    ensures r < 0x1_0000_0000_0000_0000
    ensures 0 <= x < 0x1_0000_0000_0000_0000 ==> r == x
  {
    x % 0x1_0000_0000_0000_0000
  }

  /** Unsigned division; a zero divisor traps. */
  method Udiv64(n: nat, d: nat) returns (r: Option<nat>)
    requires n < 0x1_0000_0000_0000_0000 && d < 0x1_0000_0000_0000_0000
    ensures r == if d == 0 then None else Some(Div(n, d))
    ensures d > 0 ==> r == Some(n / d)
  {
    hide Pow2, Wrap64, Div, Mod;
    if d > 0 {
      DivMod(n, d);
    }
    if d / 0x1_0000_0000 == 0 {
      if d == 0 {
        return None;
      }
      var n1, n0 := n / 0x1_0000_0000, n % 0x1_0000_0000;
      SmallDivisor(n, d);
      QuotientRemainder(n, d);
      var q := Divl(0x1_0000_0000 * Mod(n1, d) + n0, d);
      r := Some(Wrap64(q.value + 0x1_0000_0000 * Div(n1, d)));
    } else if n < d {
      DivUnique(n, d, 0);
      r := Some(0);
    } else {
      var q := UdivLarge(n, d);
      r := Some(q);
    }
  }

  /** The case of a divisor of more than 32 bits: an estimate and a correction. */
  method UdivLarge(n: nat, d: nat) returns (r: nat)
    requires 0x1_0000_0000 <= d <= n < 0x1_0000_0000_0000_0000
    ensures r == Div(n, d)
  {
    hide Pow2, Wrap64, Div, Times;
    var s := Nlz(d / 0x1_0000_0000);
    LargeDivisor(n, d, s);
    var e := Divl(n / 2, Div(Wrap64(Times(d, Pow2(s))), 0x1_0000_0000));
    var q := Div(e.value, Pow2(31 - s));
    r := if Wrap64(n - Wrap64(Times(q - 1, d))) < d then q - 1 else q;
  }

  /** Unsigned remainder.  The routine returns a 32-bit number. */
  method Umod64(n: nat, d: nat) returns (r: Option<nat>)
    requires n < 0x1_0000_0000_0000_0000 && d < 0x1_0000_0000_0000_0000
    ensures r == if d == 0 then None else Some(Mod(n, d) % 0x1_0000_0000)
    ensures d > 0 ==> r == Some(n % d % 0x1_0000_0000)
  {
    hide Wrap64, Div, Mod;
    var q := Udiv64(n, d);
    if q.None? {
      return None;
    }
    QuotientRemainder(n, d);
    DivMod(n, d);
    r := Some(Wrap64(n - d * q.value) % 0x1_0000_0000);
  }

  /** The remainder routine is right for every dividend exactly when the divisor is at most 2 to the 32. */
  lemma UmodExact(d: nat)
    requires 0 < d < 0x1_0000_0000_0000_0000
    ensures (forall n: nat :: n < 0x1_0000_0000_0000_0000 ==> Mod(n, d) % 0x1_0000_0000 == Mod(n, d)) <==>
            d <= 0x1_0000_0000
  {
    hide Div, Mod;
    if d <= 0x1_0000_0000 {
      forall n: nat | n < 0x1_0000_0000_0000_0000 ensures Mod(n, d) % 0x1_0000_0000 == Mod(n, d) {
        QuotientRemainder(n, d);
      }
    } else {
      BelowDivisor(0x1_0000_0000, d);
    }
  }

  lemma BelowDivisor(n: nat, d: nat)
    requires n < d
    ensures Mod(n, d) == n && Div(n, d) == 0
  {
    hide Div, Mod;
    DivUnique(n, d, 0);
    QuotientRemainder(n, d);
  }

  /** It is wrong, for instance, for 2 to the 32 divided by 2 to the 33. */
  lemma UmodWrong()
    ensures var n, d := 0x1_0000_0000, 0x2_0000_0000;
            Mod(n, d) % 0x1_0000_0000 != Mod(n, d)
  {
    BelowDivisor(0x1_0000_0000, 0x2_0000_0000);
  }

  // ----- Signed numbers -----

  function Abs(x: int): nat { if x < 0 then -x else x }

  /** Division of C: the quotient is rounded toward zero. */
  function TruncDiv(n: int, d: int): int
    requires d != 0
  {
    var q: int := Div(Abs(n), Abs(d));
    if (n < 0) == (d < 0) then q else -q
  }

  function TruncMod(n: int, d: int): int
    requires d != 0
  {
    n - d * TruncDiv(n, d)
  }

  /** The remainder of C has the sign of the dividend and is smaller than the divisor. */
  lemma TruncModBounds(n: int, d: int)
    requires d != 0
    ensures Abs(TruncMod(n, d)) < Abs(d)
    ensures n >= 0 ==> TruncMod(n, d) >= 0
    ensures n <= 0 ==> TruncMod(n, d) <= 0
  {
    hide Div;
    var q := Div(Abs(n), Abs(d));
    DivBounds(Abs(n), Abs(d));
    SignedProduct(d, q);
  }

  lemma SignedProduct(d: int, q: int)
    ensures d >= 0 ==> d * q == q * Abs(d) && d * -q == -(q * Abs(d))
    ensures d < 0 ==> d * q == -(q * Abs(d)) && d * -q == q * Abs(d)
  {
  }

  /** A bit pattern read as a signed number of 64 or 32 bits. */
  function ToInt64(x: int): (r: int)
    ensures IsInt64(x) ==> r == x
    ensures x == 0x8000_0000_0000_0000 ==> r == -0x8000_0000_0000_0000
  {
    var u := x % 0x1_0000_0000_0000_0000;
    if u < 0x8000_0000_0000_0000 then u else u - 0x1_0000_0000_0000_0000
  }

  /** Cutting to 64 bits does not change the low 32. */
  lemma LowWord(x: int)
    ensures ToInt64(x) % 0x1_0000_0000 == x % 0x1_0000_0000
  {
    var q := x / 0x1_0000_0000_0000_0000;
    var t := if ToInt64(x) >= 0 then q else q + 1;
    assert ToInt64(x) == x - 0x1_0000_0000 * (0x1_0000_0000 * t);
    SameLowWord(ToInt64(x), x, 0x1_0000_0000 * t);
  }

  lemma SameLowWord(y: int, x: int, t: int)
    requires y == x - 0x1_0000_0000 * t
    ensures y % 0x1_0000_0000 == x % 0x1_0000_0000
  {
    var a, b := x / 0x1_0000_0000, y / 0x1_0000_0000;
    assert x == 0x1_0000_0000 * a + x % 0x1_0000_0000 && y == 0x1_0000_0000 * b + y % 0x1_0000_0000;
    assert a - t == b;
  }

  function ToInt32(x: int): int {
    var u := x % 0x1_0000_0000;
    if u < 0x8000_0000 then u else u - 0x1_0000_0000
  }

  predicate IsInt64(x: int) { -0x8000_0000_0000_0000 <= x < 0x8000_0000_0000_0000 }

  /** Signed division.  The one quotient that does not fit wraps around. */
  method Sdiv64(n: int, d: int) returns (r: Option<int>)
    requires IsInt64(n) && IsInt64(d)
    ensures r == if d == 0 then None
                 else if n == -0x8000_0000_0000_0000 && d == -1 then Some(n)
                 else Some(TruncDiv(n, d))
  {
    hide Wrap64, Div, ToInt64;
    var nAbs := if n >= 0 then n else Wrap64(-n);
    var dAbs := if d >= 0 then d else Wrap64(-d);
    var q := Udiv64(nAbs, dAbs);
    if q.None? {
      return None;
    }
    QuotientSmall(nAbs, dAbs);
    r := Some(if (n < 0) == (d < 0) then ToInt64(q.value) else ToInt64(-ToInt64(q.value)));
  }

  lemma QuotientSmall(n: nat, d: nat)
    requires d > 0
    ensures Div(n, d) <= n && (d >= 2 ==> 2 * Div(n, d) <= n) && (d == 1 ==> Div(n, d) == n)
  {
    hide Div;
    var q := Div(n, d);
    DivBounds(n, d);
    if d >= 2 {
      MulMono(2, d, q);
      assert q * d == d * q;
    } else {
      assert q * d == q;
    }
  }

  /** Signed remainder.  The routine returns a 32-bit number. */
  method Smod64(n: int, d: int) returns (r: Option<int>)
    requires IsInt64(n) && IsInt64(d)
    ensures r == if d == 0 then None else Some(ToInt32(TruncMod(n, d)))
  {
    hide Div, ToInt64, TruncDiv;
    var q := Sdiv64(n, d);
    if q.None? {
      return None;
    }
    LowestRemainder();
    LowWord(n - d * q.value);
    r := Some(ToInt32(ToInt64(n - d * q.value)));
  }

  lemma LowestRemainder()
    ensures TruncMod(-0x8000_0000_0000_0000, -1) == 0
  {
    hide Div;
    QuotientSmall(0x8000_0000_0000_0000, 1);
  }

  /** The signed remainder routine is right for every dividend exactly when the divisor is within 2 to the 31 of 0. */
  lemma SmodExact(d: int)
    requires IsInt64(d) && d != 0
    ensures (forall n :: IsInt64(n) ==> ToInt32(TruncMod(n, d)) == TruncMod(n, d)) <==> -0x8000_0000 <= d <= 0x8000_0000
  {
    hide TruncMod;
    if -0x8000_0000 <= d <= 0x8000_0000 {
      forall n | IsInt64(n) ensures ToInt32(TruncMod(n, d)) == TruncMod(n, d) {
        TruncModBounds(n, d);
      }
    } else {
      TruncModBelow(0x8000_0000, d);
    }
  }

  lemma TruncModBelow(n: nat, d: int)
    requires n < Abs(d)
    ensures TruncMod(n, d) == n
  {
    BelowDivisor(n, Abs(d));
    hide Div;
    assert TruncDiv(n, d) == 0;
  }

  /** It is wrong, for instance, for 2 to the 31 divided by one more than that: the result is negative. */
  lemma SmodWrong()
    ensures var n, d := 0x8000_0000, 0x8000_0001;
            TruncMod(n, d) == n && ToInt32(TruncMod(n, d)) == -n
  {
    TruncModBelow(0x8000_0000, 0x8000_0001);
  }
}
