// The finite doubles without their signs, and what rounding to the nearest of
// them does and does not preserve.

module Doubles {
  import opened PrintfField

  const MANTISSAS := 0x20_0000_0000_0000
  const HALF_MANTISSAS := 0x10_0000_0000_0000

  /** `m` halved `k` times. */
  predicate IsFraction(x: real, m: nat, k: nat) {
    m < MANTISSAS && k <= 1074 && Times(x, Power(2, k)) == m as real
  }

  /** `m` doubled `k` times. */
  predicate IsMultiple(x: real, m: nat, k: nat) {
    m < MANTISSAS && k <= 971 && x == (m * Power(2, k)) as real
  }

  ghost predicate IsDouble(x: real) {
    exists m: nat, k: nat :: IsFraction(x, m, k) || IsMultiple(x, m, k)
  }

  function Distance(x: real, y: real): real {
    if x < y then y - x else x - y
  }

  /** What an operation may yield whose exact result is `y`; of two equally near either. */
  ghost predicate IsNearest(s: real, y: real) {
    IsDouble(s) && forall t | IsDouble(t) :: Distance(s, y) <= Distance(t, y)
  }

  function Times(x: real, q: nat): (y: real)
    ensures x >= 0.0 ==> y >= 0.0
  {
    x * q as real
  }

  // ----- Whole numbers and halves -----

  lemma WholeIsDouble(n: nat)
    requires n < MANTISSAS
    ensures IsDouble(n as real)
  {
    assert Power(2, 0) == 1;
    assert IsMultiple(n as real, n, 0);
  }

  lemma HalfIsDouble(n: nat)
    requires n < HALF_MANTISSAS
    ensures IsDouble(n as real + 0.5)
  {
    assert Power(2, 1) == 2 * Power(2, 0) == 2;
    assert IsFraction(n as real + 0.5, 2 * n + 1, 1);
  }

  /** A double is its own nearest. */
  lemma ExactIsNearest(s: real, y: real)
    requires IsDouble(y) && IsNearest(s, y)
    ensures s == y
  {
    assert Distance(s, y) <= Distance(y, y);
  }

  /** Rounding never passes a double. */
  lemma NeverPasses(s: real, y: real, t: real)
    requires IsNearest(s, y) && IsDouble(t)
    ensures y <= t ==> s <= t
    ensures t <= y ==> t <= s
  {
    assert Distance(s, y) <= Distance(t, y);
  }

  lemma {:induction false} TwoPositive(k: nat)
    ensures Power(2, k) > 0
  {
    if k > 0 {
      TwoPositive(k - 1);
    }
  }

  lemma {:induction false} TwoAdds(a: nat, b: nat)
    ensures Power(2, a + b) == Power(2, a) * Power(2, b)
  {
    if a > 0 {
      TwoAdds(a - 1, b);
      TwiceProduct(Power(2, a - 1), Power(2, b));
    }
  }

  lemma TwiceProduct(a: nat, b: nat)
    ensures 2 * (a * b) == 2 * a * b
  {
  }

  // ----- The part behind the point -----

  lemma WholeRest(n: nat, x: real)
    requires x == n as real
    ensures x.Floor == n && IsDouble(x - x.Floor as real) && Times(x - x.Floor as real, MANTISSAS) == 0.0
  {
    WholeIsDouble(0);
  }

  lemma RestOfFraction(x: real, m: nat, p: nat)
    requires x >= 0.0 && p > 0 && Times(x, p) == m as real
    ensures var i, d := x.Floor, x - x.Floor as real;
            i * p <= m && m - i * p < p && Times(d, p) == (m - i * p) as real
  {
    var i, d := x.Floor, x - x.Floor as real;
    TimesParts(i, d, p);
    TimesBelow(d, p);
  }

  lemma TimesParts(i: nat, d: real, p: nat)
    ensures Times(i as real + d, p) == (i * p) as real + Times(d, p)
  {
    assert i as real * p as real == (i * p) as real;
  }

  lemma TimesBelow(d: real, p: nat)
    requires 0.0 <= d < 1.0 && p > 0
    ensures 0.0 <= Times(d, p) < p as real
  {
  }

  lemma TimesTwice(x: real, a: nat, b: nat)
    ensures Times(x, a * b) == Times(Times(x, a), b)
  {
    assert (a * b) as real == a as real * b as real;
  }

  lemma TimesNat(n: nat, b: nat)
    ensures Times(n as real, b) == (n * b) as real
  {
  }

  /** The part of a double behind its point is a double, and not the last before one. */
  lemma RestIsDouble(x: real)
    requires IsDouble(x) && x >= 0.0
    ensures var d := x - x.Floor as real;
            IsDouble(d) && Times(d, MANTISSAS) <= (MANTISSAS - 1) as real
  {
    var m: nat, k: nat :| IsFraction(x, m, k) || IsMultiple(x, m, k);
    hide Power, Times;
    if IsMultiple(x, m, k) {
      WholeRest(m * Power(2, k), x);
    } else {
      var p, d := Power(2, k), x - x.Floor as real;
      TwoPositive(k);
      RestOfFraction(x, m, p);
      var r: nat := m - x.Floor * p;
      assert r <= m by { ProductPositive(x.Floor, p); }
      assert IsFraction(d, r, k);
      RestBelow(d, r, k);
    }
  }

  lemma ProductPositive(a: nat, b: nat)
    ensures a * b >= 0
  {
  }

  lemma MantissaPower()
    ensures Power(2, 53) == MANTISSAS
  {
    assert Power(2, 3) == 8 && Power(2, 5) == 4 * Power(2, 3);
    TwoAdds(5, 5);
    TwoAdds(10, 10);
    TwoAdds(20, 20);
    TwoAdds(40, 10);
    TwoAdds(50, 3);
  }

  lemma HalfPower()
    ensures Power(2, 52) == HALF_MANTISSAS && Power(2, 53) == MANTISSAS
  {
    MantissaPower();
    assert Power(2, 53) == 2 * Power(2, 52);
  }

  lemma RestBelow(d: real, r: nat, k: nat)
    requires IsFraction(d, r, k) && r < Power(2, k)
    ensures Times(d, MANTISSAS) <= (MANTISSAS - 1) as real
  {
    MantissaPower();
    hide Power, Times;
    var p := Power(2, k);
    if k <= 53 {
      var c := Power(2, 53 - k);
      TwoAdds(k, 53 - k);
      TwoPositive(53 - k);
      TimesTwice(d, p, c);
      TimesNat(r, c);
      OneLess(r, p, c);
    } else {
      var c := Power(2, k - 53);
      TwoAdds(53, k - 53);
      TwoPositive(k - 53);
      TimesTwice(d, MANTISSAS, c);
      TimesGrows(Times(d, MANTISSAS), c, r as real);
    }
  }

  lemma OneLess(r: nat, p: nat, c: nat)
    requires r < p && c > 0
    ensures r * c <= p * c - 1
  {
    MulMonotone(r + 1, p, c, c);
  }

  lemma TimesGrows(y: real, c: nat, z: real)
    requires Times(y, c) == z && c > 0 && z >= 0.0
    ensures y <= z
  {
  }

  // ----- The spacing of doubles -----

  lemma GridOfMultiple(t: real, m: nat, k: nat, g: nat)
    requires IsMultiple(t, m, k)
    ensures Times(t, g) == (m * Power(2, k) * g) as real
  {
    hide Power, Times;
    TimesNat(m * Power(2, k), g);
  }

  lemma GridOfFraction(t: real, m: nat, k: nat, c: nat)
    requires IsFraction(t, m, k)
    ensures Times(t, Power(2, k) * c) == (m * c) as real
  {
    hide Power, Times;
    TimesTwice(t, Power(2, k), c);
    TimesNat(m, c);
  }

  /** From 2^j on, doubles are whole multiples of 2^(j - 52). */
  lemma OnGrid(t: real, j: nat) returns (n: nat)
    requires IsDouble(t) && j <= 52 && t >= Power(2, j) as real
    ensures Times(t, Power(2, 52 - j)) == n as real
  {
    hide Power, Times, IsFraction, IsMultiple;
    var m: nat, k: nat :| IsFraction(t, m, k) || IsMultiple(t, m, k);
    if IsMultiple(t, m, k) {
      GridOfMultiple(t, m, k, Power(2, 52 - j));
      n := m * Power(2, k) * Power(2, 52 - j);
    } else {
      FewHalves(t, m, k, j);
      TwoAdds(k, 52 - j - k);
      GridOfFraction(t, m, k, Power(2, 52 - j - k));
      n := m * Power(2, 52 - j - k);
    }
  }

  lemma FewHalves(t: real, m: nat, k: nat, j: nat)
    requires IsFraction(t, m, k) && t >= Power(2, j) as real
    ensures j + k <= 52
  {
    MantissaPower();
    hide Power, Times;
    TimesMonotone(Power(2, j) as real, t, Power(2, k));
    TimesNat(Power(2, j), Power(2, k));
    TwoAdds(j, k);
    if j + k >= 53 {
      TwoMonotone(53, j + k);
    }
  }

  lemma TimesMonotone(a: real, b: real, q: nat)
    requires a <= b
    ensures Times(a, q) <= Times(b, q)
  {
    assert Times(b - a, q) >= 0.0;
    TimesMinus(b, a, q);
    hide Times;
  }

  lemma TwoMonotone(a: nat, b: nat)
    requires a <= b
    ensures Power(2, a) <= Power(2, b)
  {
    TwoAdds(a, b - a);
    TwoPositive(b - a);
    hide Power;
    MulMonotone(Power(2, a), Power(2, a), 1, Power(2, b - a));
  }

  lemma PowerIsDouble(j: nat)
    requires j <= 52
    ensures IsDouble(Power(2, j) as real)
  {
    MantissaPower();
    TwoAdds(j, 53 - j);
    TwoAdds(1, 52 - j);
    TwoPositive(52 - j);
    assert Power(2, 1) == 2 * Power(2, 0) == 2;
    hide Power, IsDouble;
    Halved(Power(2, j), Power(2, 53 - j), Power(2, 52 - j));
    WholeIsDouble(Power(2, j));
  }

  lemma Halved(a: nat, b: nat, c: nat)
    requires a * b == MANTISSAS && b == 2 * c && c > 0
    ensures a < MANTISSAS
  {
    MulMonotone(a, a, 2, b);
  }

  lemma StepUp(s: real, t: real, g: nat, m: nat, n: nat)
    requires Times(s, g) == m as real && Times(t, g) == n as real && s < t && g > 0
    ensures Times(t - s, g) >= 1.0
  {
    hide Times;
    TimesMinus(t, s, g);
    TimesStrict(s, t, g);
    assert m < n;
  }

  /** Two different points of a grid are a whole step apart. */
  lemma StepApart(s: real, t: real, g: nat, m: nat, n: nat)
    requires Times(s, g) == m as real && Times(t, g) == n as real && s != t && g > 0
    ensures Times(Distance(s, t), g) >= 1.0
  {
    hide Times;
    if s < t {
      StepUp(s, t, g, m, n);
    } else {
      StepUp(t, s, g, n, m);
    }
  }

  lemma TimesMinus(a: real, b: real, g: nat)
    ensures Times(a - b, g) == Times(a, g) - Times(b, g)
  {
  }

  lemma TimesStrict(a: real, b: real, g: nat)
    requires a < b && g > 0
    ensures Times(a, g) < Times(b, g)
  {
  }

  /** Less than half a step away from the one, more than half a step away from the other. */
  lemma Nearer(s: real, t: real, y: real, g: nat)
    requires g > 0 && Times(Distance(s, t), g) >= 1.0 && Times(Distance(s, y), g) < 0.5
    ensures Distance(s, y) < Distance(t, y)
  {
    if Distance(t, y) <= Distance(s, y) {
      TimesMonotone(Distance(t, y), Distance(s, y), g);
      TimesMonotone(Distance(s, t), Distance(s, y) + Distance(t, y), g);
      TimesPlus(Distance(s, y), Distance(t, y), g);
    }
  }

  lemma TimesPlus(a: real, b: real, g: nat)
    ensures Times(a + b, g) == Times(a, g) + Times(b, g)
  {
  }

  lemma NearerThan(s: real, y: real, j: nat, t: real)
    requires j <= 52 && IsDouble(s) && s >= Power(2, j) as real && y >= Power(2, j) as real
    requires Times(Distance(s, y), Power(2, 52 - j)) < 0.5 && IsDouble(t) && t != s
    ensures Distance(s, y) < Distance(t, y)
  {
    hide IsDouble, Power, Times, Distance;
    var g, low := Power(2, 52 - j), Power(2, j) as real;
    TwoPositive(52 - j);
    PowerIsDouble(j);
    var m := OnGrid(s, j);
    if t >= low {
      var n := OnGrid(t, j);
      StepApart(s, t, g, m, n);
      Nearer(s, t, y, g);
    } else {
      if s != low {
        var n := OnGrid(low, j);
        StepApart(s, low, g, m, n);
        Nearer(s, low, y, g);
      }
      Beyond(t, low, y);
    }
  }

  lemma Beyond(t: real, low: real, y: real)
    requires t < low <= y
    ensures Distance(low, y) < Distance(t, y)
  {
  }

  /** A double less than half a step away is what a product is rounded to, and nothing else is. */
  lemma GridNearest(s: real, y: real, j: nat)
    requires j <= 52 && IsDouble(s) && s >= Power(2, j) as real && y >= Power(2, j) as real
    requires Times(Distance(s, y), Power(2, 52 - j)) < 0.5
    ensures forall t :: IsNearest(t, y) <==> t == s
  {
    hide IsDouble, Power, Times, Distance;
    forall t | IsDouble(t) ensures Distance(s, y) <= Distance(t, y) {
      if t != s {
        NearerThan(s, y, j, t);
      }
    }
    forall t | IsNearest(t, y) ensures t == s {
      if t != s {
        NearerThan(s, y, j, t);
      }
    }
  }

  lemma FractionSmall(t: real, m: nat, k: nat)
    requires IsFraction(t, m, k)
    ensures t < MANTISSAS as real
  {
    TwoPositive(k);
    hide Power, Times;
    TimesGrows(t, Power(2, k), m as real);
  }

  lemma ManyDoublings(m: nat, k: nat, j: nat)
    requires m < MANTISSAS && 0 < j && m * Power(2, k) >= Power(2, 52 + j)
    ensures k >= j
  {
    hide Power;
    if k < j {
      MantissaPower();
      TwoAdds(53, k);
      TwoPositive(k);
      TwoMonotone(53 + k, 52 + j);
      MulMonotone(m + 1, MANTISSAS, Power(2, k), Power(2, k));
      OneMoreTimes(m, Power(2, k));
    }
  }

  /** From 2^(52 + j) on, doubles are whole multiples of 2^j. */
  lemma OnCoarseGrid(t: real, j: nat) returns (n: nat)
    requires IsDouble(t) && 0 < j && t >= Power(2, 52 + j) as real
    ensures t == (n * Power(2, j)) as real
  {
    hide Power, IsFraction;
    var m: nat, k: nat :| IsFraction(t, m, k) || IsMultiple(t, m, k);
    MantissaPower();
    TwoMonotone(53, 52 + j);
    if IsFraction(t, m, k) {
      FractionSmall(t, m, k);
    }
    ManyDoublings(m, k, j);
    TwoAdds(k - j, j);
    n := m * Power(2, k - j);
    Regrouped(m, Power(2, k - j), Power(2, j));
  }

  lemma OneMoreTimes(m: nat, c: nat)
    ensures (m + 1) * c == m * c + c
  {
  }

  lemma Regrouped(a: nat, b: nat, c: nat)
    ensures a * (b * c) == a * b * c
  {
  }

  lemma CoarseApart(m: nat, n: nat, g: nat)
    requires m < n
    ensures n * g - m * g >= g
  {
    MulMonotone(m + 1, n, g, g);
    OneMoreTimes(m, g);
  }

  lemma NearerThanCoarse(s: real, y: real, j: nat, t: real)
    requires 0 < j && IsDouble(s) && s >= Power(2, 52 + j) as real && y >= Power(2, 52 + j) as real
    requires 2.0 * Distance(s, y) < Power(2, j) as real && IsDouble(t) && t != s && t >= Power(2, 52 + j) as real
    ensures Distance(s, y) < Distance(t, y)
  {
    var m := OnCoarseGrid(s, j);
    var n := OnCoarseGrid(t, j);
    hide Power;
    if m < n {
      CoarseApart(m, n, Power(2, j));
    } else if n < m {
      CoarseApart(n, m, Power(2, j));
    }
  }

  lemma BigPowerIsDouble(j: nat)
    requires j <= 900
    ensures IsDouble(Power(2, 52 + j) as real)
  {
    HalfPower();
    TwoAdds(52, j);
    hide Power;
    assert IsMultiple(Power(2, 52 + j) as real, HALF_MANTISSAS, j);
  }

  /** The same where the steps are longer than one. */
  lemma CoarseNearest(s: real, y: real, j: nat)
    requires 0 < j <= 900 && IsDouble(s) && s >= Power(2, 52 + j) as real && y >= Power(2, 52 + j) as real
    requires 2.0 * Distance(s, y) < Power(2, j) as real
    ensures forall t :: IsNearest(t, y) <==> t == s
  {
    BigPowerIsDouble(j);
    hide IsDouble, Power, Distance;
    var low := Power(2, 52 + j) as real;
    forall t | IsDouble(t) && t != s ensures Distance(s, y) < Distance(t, y) {
      if t >= low {
        NearerThanCoarse(s, y, j, t);
      } else {
        Beyond(t, low, y);
        if s != low {
          NearerThanCoarse(s, y, j, low);
        }
      }
    }
    assert forall t | IsNearest(t, y) :: t == s;
  }

  // ----- Products with a power of ten -----

  /** The power of two below. */
  function Log2(q: nat): nat {
    if q < 2 then 0 else 1 + Log2(q / 2)
  }

  lemma {:induction false} Binade(q: nat)
    requires q > 0
    ensures Power(2, Log2(q)) <= q < 2 * Power(2, Log2(q))
  {
    if q >= 2 {
      Binade(q / 2);
    }
  }

  lemma {:induction false} NotByFive(k: nat)
    ensures Power(2, k) % 5 != 0
  {
    if k > 0 {
      NotByFive(k - 1);
    }
  }

  lemma ByFive(p: nat)
    requires p > 0
    ensures Power(10, p) % 5 == 0
  {
    assert Power(10, p) == 5 * (2 * Power(10, p - 1));
  }

  /** A number just below one, times `q`, cannot be rounded up to `q` if there is a double closer below `q`. */
  lemma NotUp(q: nat, t: real, d: real, s: real)
    requires q > 0 && IsDouble(t) && t < q as real && Times(q as real - t, HALF_MANTISSAS) < q as real
    requires d >= 0.0 && Times(d, MANTISSAS) <= (MANTISSAS - 1) as real && IsNearest(s, Times(d, q))
    ensures s < q as real
  {
    var y := Times(d, q);
    assert Distance(s, y) <= Distance(t, y);
    RoomAbove(q, d);
  }

  lemma RoomAbove(q: nat, d: real)
    requires q > 0 && Times(d, MANTISSAS) <= (MANTISSAS - 1) as real
    ensures Times(q as real - Times(d, q), MANTISSAS) >= q as real
  {
    assert d <= 1.0 - 1.0 / MANTISSAS as real;
    TimesMonotone(d, 1.0 - 1.0 / MANTISSAS as real, q);
  }

  /** The double below a number that is no power of two. */
  lemma JustBelow(q: nat, k: nat) returns (t: real)
    requires k <= 52 && Power(2, k) < q < 2 * Power(2, k)
    ensures IsDouble(t) && t < q as real && Times(q as real - t, HALF_MANTISSAS) < q as real
  {
    var c := Power(2, 52 - k);
    TwoPositive(52 - k);
    HalfPower();
    TwoAdds(k, 52 - k);
    t := q as real - 1.0 / c as real;
    hide Power, Times;
    BelowMantissas(q, Power(2, k), c);
    Reciprocal(q, t, c, Power(2, k));
    assert IsFraction(t, q * c - 1, 52 - k);
  }

  lemma BelowMantissas(q: nat, a: nat, c: nat)
    requires a * c == HALF_MANTISSAS && q < 2 * a && c > 0 && q > 0
    ensures 0 <= q * c - 1 < MANTISSAS
  {
    MulMonotone(1, q, 1, c);
    MulMonotone(q, 2 * a, c, c);
    TwiceProduct(a, c);
  }

  lemma Reciprocal(q: nat, t: real, c: nat, a: nat)
    requires c > 0 && t == q as real - 1.0 / c as real && a * c == HALF_MANTISSAS
    ensures Times(t, c) == (q * c - 1) as real && t < q as real
    ensures Times(q as real - t, HALF_MANTISSAS) == a as real
  {
    var r := 1.0 / c as real;
    OverUnder(c);
    TimesMinus(q as real, r, c);
    TimesNat(q, c);
    TimesTwice(r, c, a);
    hide Times;
    TimesNat(1, a);
  }

  lemma OverUnder(c: nat)
    requires c > 0
    ensures Times(1.0 / c as real, c) == 1.0 && 1.0 / c as real > 0.0
  {
  }

  lemma NoPowerOfTwo(p: nat, k: nat)
    requires p > 0
    ensures Power(10, p) != Power(2, k)
  {
    ByFive(p);
    NotByFive(k);
  }

  lemma UpToFifteen(p: nat)
    requires p <= 15
    ensures Power(10, p) < HALF_MANTISSAS
  {
    assert Power(10, 5) == 100000;
    assert Power(10, 10) == 100000 * Power(10, 5);
    assert Power(10, 15) == 100000 * Power(10, 10);
    TenMonotone(p, 15);
  }

  lemma {:induction false} TenMonotone(a: nat, b: nat)
    requires a <= b
    ensures Power(10, a) <= Power(10, b)
  {
    if a < b {
      TenMonotone(a, b - 1);
    }
  }

  lemma LogSmall(q: nat)
    requires 0 < q < HALF_MANTISSAS
    ensures Log2(q) <= 52
  {
    Binade(q);
    HalfPower();
    if Log2(q) > 52 {
      TwoMonotone(52, Log2(q));
    }
  }

  /** The double below a power of ten. */
  lemma Predecessor(p: nat) returns (t: real)
    requires 0 < p <= 17
    ensures var q := Power(10, p);
            q > 0 && IsDouble(t) && t < q as real && Times(q as real - t, HALF_MANTISSAS) < q as real
  {
    if p <= 15 {
      var q := Power(10, p);
      TenMonotone(0, p);
      assert Power(10, 0) == 1;
      UpToFifteen(p);
      Binade(q);
      LogSmall(q);
      NoPowerOfTwo(p, Log2(q));
      hide Power, Times, IsDouble;
      t := JustBelow(q, Log2(q));
    } else {
      UpToFifteen(15);
      LastPowers();
      t := if p == 16 then 9999999999999998.0 else 99999999999999984.0;
      assert Power(2, 1) == 2 && Power(2, 4) == 16;
      assert p == 16 ==> IsMultiple(t, 4999999999999999, 1);
      assert p == 17 ==> IsMultiple(t, 6249999999999999, 4);
    }
  }

  lemma LastPowers()
    ensures Power(10, 16) == 10000000000000000 && Power(10, 17) == 100000000000000000
  {
    assert Power(10, 5) == 100000;
    assert Power(10, 10) == 100000 * Power(10, 5);
    assert Power(10, 15) == 100000 * Power(10, 10);
  }

  /** What the part behind the point is multiplied to stays below the power of ten. */
  lemma ProductBelow(x: real, p: nat, s: real)
    requires IsDouble(x) && x >= 0.0 && 0 < p <= 17
    requires IsNearest(s, Times(x - x.Floor as real, Power(10, p)))
    ensures 0.0 <= s < Power(10, p) as real
  {
    hide Power, Times, IsDouble, IsNearest;
    var d := x - x.Floor as real;
    RestIsDouble(x);
    var t := Predecessor(p);
    NotUp(Power(10, p), t, d, s);
    WholeIsDouble(0);
    NeverPasses(s, Times(d, Power(10, p)), 0.0);
  }
}
