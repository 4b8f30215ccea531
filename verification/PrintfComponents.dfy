// Breaking a double up into an integral and a fractional part: how the product
// with the power of ten, itself rounded, is rounded once more.

module PrintfComponents {
  import opened Doubles
  import opened PrintfField
  import opened PrintfWriter
  import opened PrintfDecimal
  import opened Common

  const MAX_SUPPORTED_PRECISION := 17

  datatype Components = Components(integral: nat, fractional: nat, negative: bool)

  // ----- The nearest integer -----

  /** The nearest integer; of two equally near, the even one. */
  function RoundHalfEven(y: real): (n: nat)
    requires y >= 0.0
  {
    var n := y.Floor;
    if y - n as real > 0.5 || (y - n as real == 0.5 && n % 2 == 1) then n + 1 else n
  }

  /** No more than one half away, and even if it is one half. */
  predicate IsNearestEven(n: int, y: real) {
    && n as real - 0.5 <= y <= n as real + 0.5
    && (y == n as real - 0.5 || y == n as real + 0.5 ==> n % 2 == 0)
  }

  lemma NearestEven(y: real, n: int)
    requires y >= 0.0
    ensures n == RoundHalfEven(y) <==> IsNearestEven(n, y)
  {
    var f := y.Floor;
    var d := y - f as real;
    assert 0.0 <= d < 1.0;
    if IsNearestEven(n, y) {
      assert f as real - 1.0 < n as real < f as real + 2.0;
      assert n == f || n == f + 1;
    }
  }

  lemma ShiftEven(n: nat, y: real)
    requires y >= 0.0 && n % 2 == 0
    ensures RoundHalfEven(n as real + y) == n + RoundHalfEven(y)
  {
    assert (n as real + y).Floor == n + y.Floor;
  }

  // ----- The parts -----

  /** What is behind the point, in units of the last of `precision` places. */
  function Rest(x: real, precision: nat): (y: real)
    ensures x >= 0.0 ==> y >= 0.0
  {
    Times(x - x.Floor as real, Power(10, precision))
  }

  /** What the multiplication of that part by the power of ten may have yielded. */
  ghost predicate IsProduct(s: real, x: real, precision: nat) {
    IsNearest(s, Rest(x, precision))
  }

  predicate Tie(s: real) {
    s - s.Floor as real == 0.5
  }

  /** The product rounded: a tie goes up from an odd number, and from zero. */
  function Rounded(s: real): nat
    requires s >= 0.0
  {
    if Tie(s) && s.Floor == 0 then 1 else RoundHalfEven(s)
  }

  /** The parts of a number without its sign, of which `s` is the product: a tie is not carried over. */
  function Split(x: real, s: real, negative: bool, precision: nat): Components
    requires x >= 0.0 && s >= 0.0
  {
    if precision == 0 then Components(RoundHalfEven(x), if Tie(x) then 1 else 0, negative)
    else if Rounded(s) == Power(10, precision) && !Tie(s) then Components(x.Floor + 1, 0, negative)
    else Components(x.Floor, Rounded(s), negative)
  }

  lemma RoundedBelow(s: real, q: nat)
    requires 0.0 <= s < q as real
    ensures s.Floor < q && Rounded(s) <= q && (Rounded(s) == q ==> s.Floor == q - 1)
  {
  }

  lemma PowerEven(n: nat)
    requires n > 0
    ensures Power(10, n) % 2 == 0 && Power(10, n) >= 10
  {
    PowerPositive(n - 1);
  }

  /** The parts as one number of units; too many for the places exactly at a tie behind nines. */
  lemma SplitUnits(x: real, s: real, negative: bool, precision: nat)
    requires x >= 0.0 && precision > 0 && 0.0 <= s < Power(10, precision) as real
    ensures var c, q := Split(x, s, negative, precision), Power(10, precision);
            && c.integral * q + c.fractional == x.Floor * q + Rounded(s)
            && (c.fractional < q <==> !(Tie(s) && s.Floor == q - 1))
            && c.fractional <= q && (c.fractional == q ==> c.integral == x.Floor) && c.integral >= x.Floor
  {
    hide Power;
    PowerEven(precision);
    RoundedBelow(s, Power(10, precision));
    OneMoreUnit(x.Floor, Power(10, precision));
  }

  lemma OneMoreUnit(i: nat, q: nat)
    ensures (i + 1) * q == i * q + q
  {
  }

  // ----- The code -----

  lemma UnitPower(x: real)
    ensures Power(10, 0) == 1 && Rest(x, 0) == x - x.Floor as real
  {
  }

  /** Without places the product is what was multiplied. */
  lemma WholeProduct(x: real, s: real)
    requires x >= 0.0 && IsDouble(x) && IsProduct(s, x, 0)
    ensures s == x - x.Floor as real
  {
    UnitPower(x);
    RestIsDouble(x);
    ExactIsNearest(s, Rest(x, 0));
  }

  lemma ProductInRange(x: real, s: real, precision: nat)
    requires x >= 0.0 && IsDouble(x) && IsProduct(s, x, precision) && 0 < precision <= MAX_SUPPORTED_PRECISION
    ensures 0.0 <= s < Power(10, precision) as real
  {
    ProductBelow(x, precision, s);
  }

  /** `get_components` up to the case of no places; `product` is what its multiplication yields. */
  method RoundFraction(absNumber: real, precision: nat, product: real) returns (integral: nat, fractional: nat)
    requires absNumber >= 0.0 && 0.0 <= product && (precision > 0 ==> product < Power(10, precision) as real)
    requires precision == 0 ==> product == absNumber - absNumber.Floor as real
    ensures precision > 0 ==>
              Components(integral, fractional, false) == Split(absNumber, product, false, precision)
    ensures precision == 0 ==>
              && integral == absNumber.Floor + (if product > 0.5 then 1 else 0)
              && fractional == (if product == 0.5 then 1 else 0)
  {
    hide Power;
    if precision > 0 {
      PowerEven(precision);
    } else {
      UnitPower(absNumber);
    }
    integral := absNumber.Floor;
    var remainder := product;
    fractional := remainder.Floor;
    remainder := remainder - fractional as real;
    if remainder > 0.5 {
      fractional := fractional + 1;
      if fractional as real >= Power(10, precision) as real {
        fractional := 0;
        integral := integral + 1;
      }
    } else if remainder == 0.5 {
      if fractional == 0 || fractional % 2 == 1 {
        fractional := fractional + 1;
      }
    }
  }

  /** `get_components`; the subtractions in it are exact, and `product` is what its multiplication yields. */
  method GetComponents(number: real, sign: bool, precision: nat, product: real) returns (c: Components)
    requires precision <= MAX_SUPPORTED_PRECISION && (if sign then number <= 0.0 else number >= 0.0)
    requires var x := if sign then -number else number; IsDouble(x) && IsProduct(product, x, precision)
    ensures product >= 0.0 && c == Split(if sign then -number else number, product, sign, precision)
  {
    hide IsDouble, IsProduct, Power, Split, RoundHalfEven;
    var absNumber := if sign then -number else number;
    if precision > 0 {
      ProductInRange(absNumber, product, precision);
    } else {
      WholeProduct(absNumber, product);
    }
    var integral, fractional := RoundFraction(absNumber, precision, product);
    if precision == 0 {
      var remainder := absNumber - integral as real;
      if (!(remainder < 0.5) || remainder > 0.5) && integral % 2 == 1 {
        integral := integral + 1;
      }
      WholeSplit(absNumber, product, sign);
    } else {
      SignUnread(absNumber, product, sign, precision);
    }
    c := Components(integral, fractional, sign);
  }

  lemma SignUnread(x: real, s: real, negative: bool, precision: nat)
    requires x >= 0.0 && s >= 0.0
    ensures Split(x, s, negative, precision) == Split(x, s, false, precision).(negative := negative)
  {
  }

  lemma WholeSplit(x: real, s: real, negative: bool)
    requires x >= 0.0 && s >= 0.0
    ensures var n, d := x.Floor, x - x.Floor as real;
            Split(x, s, negative, 0)
            == Components(if d > 0.5 || (d == 0.5 && n % 2 == 1) then n + 1 else n, if d == 0.5 then 1 else 0, negative)
  {
  }

  // ----- What is printed -----

  /** Digits before and after a point stand for `units` in the last of `precision` places. */
  predicate Denotes(whole: string, fraction: string, units: nat, precision: nat) {
    (Denoted(whole, 10) * Power(10, |fraction|) + Denoted(fraction, 10)) * Power(10, precision)
    == units * Power(10, |fraction|)
  }

  /** The numeral of some parts, with `tail` zeros of the caller behind it, stands for `units`. */
  predicate Prints(c: Components, precision: nat, flags: Flags, adapt: bool, tail: nat, units: nat) {
    Denotes(Whole(c.integral, c.fractional, precision, flags, adapt, tail),
            Behind(c.fractional, precision, flags, adapt, tail), units, precision)
  }

  /** Zeros of the caller have a point before them, or only zeros. */
  predicate Harmless(c: Components, precision: nat, flags: Flags, adapt: bool, tail: nat) {
    tail == 0 || Shown(c.fractional, precision, flags, adapt) || c.integral == 0
  }

  lemma PreservesDenotes(whole: string, fraction: string, integral: nat, fractional: nat, precision: nat)
    ensures Preserves(whole, fraction, integral, fractional, precision)
       <==> Denotes(whole, fraction, integral * Power(10, precision) + fractional, precision)
  {
  }

  lemma OneDenoted(whole: string, fraction: string, a: nat, b: nat, precision: nat)
    requires Denotes(whole, fraction, a, precision) && Denotes(whole, fraction, b, precision)
    ensures a == b
  {
    PowerPositive(|fraction|);
    Cancelled(a, b, Power(10, |fraction|));
  }

  lemma Cancelled(a: nat, b: nat, p: nat)
    requires p > 0 && a * p == b * p
    ensures a == b
  {
  }

  lemma {:induction false} PowerModThree(n: nat)
    ensures Power(10, n) % 3 == 1
  {
    if n > 0 {
      PowerModThree(n - 1);
      TenModThree(Power(10, n - 1));
    }
  }

  lemma TenModThree(p: nat)
    requires p % 3 == 1
    ensures 10 * p % 3 == 1
  {
  }

  /** Ten tenths, in whatever form, are never nine. */
  lemma NotOneLess(i: nat, l: nat, d: nat, q: nat)
    requires q % 3 == 1 && d % 3 == 1
    ensures (i * l + d) * q != (i * q + q - 1) * l
  {
    ExpandFirst(i, l, d, q);
    ExpandSecond(i, l, q);
    ModThree(d, q, (q - 1) / 3 * l);
  }

  lemma ExpandFirst(i: nat, l: nat, d: nat, q: nat)
    ensures (i * l + d) * q == i * q * l + d * q
  {
    assert (i * l + d) * q == i * l * q + d * q;
    assert i * l * q == i * q * l;
  }

  lemma ExpandSecond(i: nat, l: nat, q: nat)
    requires q % 3 == 1
    ensures (i * q + q - 1) * l == i * q * l + 3 * ((q - 1) / 3 * l)
  {
    var n := (q - 1) / 3;
    assert q - 1 == 3 * n;
    assert (i * q + 3 * n) * l == i * q * l + 3 * n * l;
    assert 3 * n * l == 3 * (n * l);
  }

  lemma ModThree(d: nat, q: nat, n: nat)
    requires q % 3 == 1 && d % 3 == 1
    ensures d * q != 3 * n
  {
    var a, b := d / 3, q / 3;
    assert d * q == 3 * (3 * (a * b) + a + b) + 1;
  }

  lemma StrippedModThree(g: nat, k: nat, f: nat)
    requires g * Power(10, k) == f && f % 3 == 1
    ensures g % 3 == 1
  {
    PowerModThree(k);
    var a, b := g / 3, Power(10, k) / 3;
    assert g * Power(10, k) == 3 * (3 * (a * b) + a + (g % 3) * b) + g % 3;
  }

  lemma BehindIs(f: nat, precision: nat, flags: Flags, adapt: bool, tail: nat)
    requires precision > 0 && f > 0
    ensures var (g, m) := ShownDigits(f, precision, flags, adapt);
            Shown(f, precision, flags, adapt) && Behind(f, precision, flags, adapt, tail) == FracText(g, m) + Fill('0', tail)
  {
    hide FracText, Stripped, Fill;
  }

  lemma DigitsModThree(f: nat, precision: U32, flags: Flags, adapt: bool)
    requires f > 0 && f % 3 == 1
    ensures var (g, m) := ShownDigits(f, precision, flags, adapt); m <= 0xFFFF_FFFF && g % 3 == 1
  {
    var (g, m) := ShownDigits(f, precision, flags, adapt);
    StrippedValue(f, precision);
    assert Power(10, 0) == 1;
    hide Power, Stripped;
    StrippedModThree(g, precision - m, f);
  }

  /** The digits that are shown of a fraction that is a power of ten. */
  lemma TenDigits(precision: U32, flags: Flags, adapt: bool, tail: nat)
    requires precision > 0
    ensures Power(10, precision) > 0 && Shown(Power(10, precision), precision, flags, adapt)
    ensures Denoted(Behind(Power(10, precision), precision, flags, adapt, tail), 10) % 3 == 1
  {
    hide *;
    var f := Power(10, precision);
    var (g, m) := ShownDigits(f, precision, flags, adapt);
    PowerPositive(precision);
    PowerModThree(precision);
    BehindIs(f, precision, flags, adapt, tail);
    DigitsModThree(f, precision, flags, adapt);
    FracTextDenotes(g, m);
    DenotedZeros(FracText(g, m), tail);
    PowerModThree(tail);
    ModProduct(g, Power(10, tail));
  }

  lemma ModProduct(a: nat, b: nat)
    requires a % 3 == 1 && b % 3 == 1
    ensures a * b % 3 == 1
  {
    assert a * b == 3 * (3 * (a / 3 * (b / 3)) + a / 3 + b / 3) + 1;
  }

  lemma IntegralShown(c: Components, precision: nat, flags: Flags, adapt: bool, tail: nat)
    requires Shown(c.fractional, precision, flags, adapt)
    ensures Denoted(Whole(c.integral, c.fractional, precision, flags, adapt, tail), 10) == c.integral
  {
    hide Denoted, IntText, Shown;
    IntTextDenotes(c.integral);
    assert IntText(c.integral) + "" == IntText(c.integral);
  }

  /** A fraction of ten tenths does not stand for nine. */
  lemma NinesNotPrinted(c: Components, precision: U32, flags: Flags, adapt: bool, tail: nat)
    requires precision > 0 && c.fractional == Power(10, precision)
    ensures c.integral * Power(10, precision) + c.fractional >= 1
    ensures !Prints(c, precision, flags, adapt, tail, c.integral * Power(10, precision) + c.fractional - 1)
  {
    hide Power, Denoted, Whole, Behind, Shown;
    TenDigits(precision, flags, adapt, tail);
    IntegralShown(c, precision, flags, adapt, tail);
    PowerModThree(precision);
    var behind := Behind(c.fractional, precision, flags, adapt, tail);
    NotOneLess(c.integral, Power(10, |behind|), Denoted(behind, 10), Power(10, precision));
  }

  lemma NothingShown(c: Components, precision: nat, flags: Flags, adapt: bool, tail: nat)
    requires precision > 0 && !Shown(c.fractional, precision, flags, adapt)
    ensures c.fractional == 0 && Behind(c.fractional, precision, flags, adapt, tail) == ""
    ensures Denoted(Whole(c.integral, c.fractional, precision, flags, adapt, tail), 10) == c.integral * Power(10, tail)
  {
    hide Denoted, IntText;
    IntTextDenotes(c.integral);
    DenotedZeros(IntText(c.integral), tail);
  }

  /** Zeros that multiply the numeral take it beyond anything the parts are near. */
  lemma ZerosNotPrinted(c: Components, precision: nat, flags: Flags, adapt: bool, tail: nat, units: nat)
    requires precision > 0 && !Harmless(c, precision, flags, adapt, tail) && units <= (c.integral + 1) * Power(10, precision)
    ensures !Prints(c, precision, flags, adapt, tail, units)
  {
    hide Denoted, Whole, Behind, Shown, Denotes, Power;
    NothingShown(c, precision, flags, adapt, tail);
    WholeAlone(Whole(c.integral, c.fractional, precision, flags, adapt, tail), units, precision);
    TenTimes(tail);
    PowerPositive(precision);
    TooFar(c.integral, Power(10, tail), Power(10, precision), units);
  }

  lemma WholeAlone(whole: string, units: nat, precision: nat)
    ensures Denotes(whole, "", units, precision) <==> Denoted(whole, 10) * Power(10, precision) == units
  {
    assert Denoted("", 10) == 0 && Power(10, |""|) == 1;
    hide Denoted, Power;
  }

  lemma TenTimes(n: nat)
    requires n > 0
    ensures Power(10, n) >= 10
  {
    PowerPositive(n - 1);
  }

  lemma TooFar(i: nat, t: nat, q: nat, units: nat)
    requires i > 0 && t >= 10 && q >= 1 && units <= (i + 1) * q
    ensures i * t * q != units
  {
    MulMonotone(i, i, 10, t);
    MulMonotone(i + 2, i * t, q, q);
    assert (i + 2) * q == (i + 1) * q + q;
  }

  /** The numeral stands for its parts exactly if they fit the places and the zeros behind do no harm. */
  lemma PartsPrinted(c: Components, precision: U32, flags: Flags, adapt: bool, tail: nat)
    ensures Prints(c, precision, flags, adapt, tail, c.integral * Power(10, precision) + Relevant(c.fractional, precision))
       <==> && (precision == 0 || c.fractional < Power(10, precision))
            && Harmless(c, precision, flags, adapt, tail)
  {
    hide Power, Whole, Behind, Shown, Preserves, Denotes, Relevant;
    DecimalValueIff(c.integral, c.fractional, precision, flags, adapt, tail);
    PreservesDenotes(Whole(c.integral, c.fractional, precision, flags, adapt, tail),
                     Behind(c.fractional, precision, flags, adapt, tail),
                     c.integral, Relevant(c.fractional, precision), precision);
  }

  lemma OneNumber(c: Components, precision: nat, flags: Flags, adapt: bool, tail: nat, a: nat, b: nat)
    requires Prints(c, precision, flags, adapt, tail, a) && Prints(c, precision, flags, adapt, tail, b)
    ensures a == b
  {
    hide Whole, Behind, Denotes;
    OneDenoted(Whole(c.integral, c.fractional, precision, flags, adapt, tail),
               Behind(c.fractional, precision, flags, adapt, tail), a, b, precision);
  }

  lemma RelevantIs(f: nat, precision: nat)
    ensures Relevant(f, precision) == if precision == 0 then 0 else f
  {
  }

  /** Which units the numeral stands for: those of the parts, or none that are near. */
  lemma PrintsIff(c: Components, precision: U32, flags: Flags, adapt: bool, tail: nat, units: nat)
    requires precision > 0 && c.fractional <= Power(10, precision) && units <= (c.integral + 1) * Power(10, precision)
    requires var u := c.integral * Power(10, precision) + c.fractional;
             c.fractional == Power(10, precision) ==> units == u || units + 1 == u
    ensures Prints(c, precision, flags, adapt, tail, units)
       <==> && c.fractional < Power(10, precision) && Harmless(c, precision, flags, adapt, tail)
            && units == c.integral * Power(10, precision) + c.fractional
  {
    hide *;
    var q := Power(10, precision);
    RelevantIs(c.fractional, precision);
    PartsPrinted(c, precision, flags, adapt, tail);
    if c.fractional == q {
      NinesNotPrinted(c, precision, flags, adapt, tail);
    } else if !Harmless(c, precision, flags, adapt, tail) {
      ZerosNotPrinted(c, precision, flags, adapt, tail, units);
    } else if Prints(c, precision, flags, adapt, tail, units) {
      OneNumber(c, precision, flags, adapt, tail, units, c.integral * q + c.fractional);
    }
  }

  // ----- Rounding and printing -----

  /** The product is half way between two integers, with nothing or nines only before the half: ties that go wrong. */
  predicate LostTie(s: real, precision: nat) {
    Tie(s) && (s.Floor == 0 || s.Floor == Power(10, precision) - 1)
  }

  lemma UnitsNear(i: nat, r: nat, j: nat, q: nat)
    requires r <= q && i <= j
    ensures 0 <= i * q && i * q + r <= (j + 1) * q
  {
    MulMonotone(i, j, q, q);
    OneMoreUnit(j, q);
  }

  /** The integral part and `r` units behind the point. */
  function Units(x: real, precision: nat, r: nat): nat
    requires x >= 0.0
  {
    UnitsNear(x.Floor, 0, x.Floor, Power(10, precision));
    x.Floor * Power(10, precision) + r
  }

  /**
   * What is printed of a number whose product is `s`: its integral part and the product rounded half to even, exactly
   * if the product is none of those ties and the zeros behind do no harm.
   */
  lemma RoundedIff(x: real, s: real, negative: bool, precision: nat, flags: Flags, adapt: bool, tail: nat)
    requires x >= 0.0 && 0 < precision <= MAX_SUPPORTED_PRECISION && 0.0 <= s < Power(10, precision) as real
    ensures var c := Split(x, s, negative, precision);
            && (Prints(c, precision, flags, adapt, tail, Units(x, precision, RoundHalfEven(s)))
                <==> !LostTie(s, precision) && Harmless(c, precision, flags, adapt, tail))
  {
    hide Split, Power, RoundHalfEven, Tie, Prints, Harmless;
    assert Units(x, precision, RoundHalfEven(s)) == x.Floor * Power(10, precision) + RoundHalfEven(s);
    var c, q, i := Split(x, s, negative, precision), Power(10, precision), x.Floor;
    PowerEven(precision);
    SplitUnits(x, s, negative, precision);
    RoundBounds(s, q);
    UnitsNear(i, RoundHalfEven(s), c.integral, q);
    PrintsIff(c, precision, flags, adapt, tail, i * q + RoundHalfEven(s));
  }

  lemma RoundBounds(s: real, q: nat)
    requires 0.0 <= s < q as real && q % 2 == 0
    ensures RoundHalfEven(s) <= q
    ensures Rounded(s) == RoundHalfEven(s) + if Tie(s) && s.Floor == 0 then 1 else 0
    ensures Tie(s) && s.Floor == q - 1 ==> RoundHalfEven(s) == q
    ensures Tie(s) ==> s.Floor <= RoundHalfEven(s) <= s.Floor + 1
  {
  }

  /** The rounding of a product to a double changes the rounding to an integer only if it makes or moves a tie. */
  lemma RoundedTwice(s: real, y: real)
    requires 0.0 <= y < HALF_MANTISSAS as real && IsNearest(s, y)
    ensures s >= 0.0 && (!Tie(s) ==> RoundHalfEven(s) == RoundHalfEven(y))
    ensures Tie(s) && y != s ==> RoundHalfEven(y) == if y > s then s.Floor + 1 else s.Floor
  {
    var n: nat := y.Floor;
    HalfIsDouble(n);
    WholeIsDouble(n);
    WholeIsDouble(n + 1);
    hide IsNearest, IsDouble;
    NeverPasses(s, y, n as real);
    NeverPasses(s, y, n as real + 0.5);
    NeverPasses(s, y, n as real + 1.0);
  }

  /** From 2^52 on a product is a whole number. */
  lemma WholeFrom(s: real, y: real)
    requires y >= HALF_MANTISSAS as real && IsNearest(s, y)
    ensures s >= 0.0 && s == s.Floor as real
  {
    hide IsNearest, IsDouble, Power, Times;
    WholeIsDouble(HALF_MANTISSAS);
    NeverPasses(s, y, HALF_MANTISSAS as real);
    HalfPower();
    NearestIsDouble(s, y);
    var n := OnGrid(s, 52);
    NoPower(s);
    assert s == n as real;
  }

  lemma NearestIsDouble(s: real, y: real)
    requires IsNearest(s, y)
    ensures IsDouble(s)
  {
  }

  lemma NoPower(s: real)
    ensures Times(s, Power(2, 52 - 52)) == s && Times(s, Power(10, 0)) == s
  {
    assert Power(2, 52 - 52) == 1 && Power(10, 0) == 1;
  }

  /**
   * When rounding the product `s` in place of the exact `y` still leads to the nearest: below 2^52 if `s` is no tie, or
   * a tie that goes to the side of it that `y` is on and is not lost.
   */
  predicate KeepsRounding(s: real, y: real, precision: nat)
    requires y >= 0.0
  {
    if y >= HALF_MANTISSAS as real then s == RoundHalfEven(y) as real
    else Tie(s) ==>
      && s.Floor != Power(10, precision) - 1
      && if y == s then s.Floor != 0 else (y > s <==> s.Floor == 0 || s.Floor % 2 == 1)
  }

  lemma KeepsIff(s: real, y: real, precision: nat)
    requires y >= 0.0 && IsNearest(s, y) && 0 < precision && s < Power(10, precision) as real
    ensures s >= 0.0
    ensures KeepsRounding(s, y, precision)
       <==> !(Tie(s) && s.Floor == Power(10, precision) - 1) && Rounded(s) == RoundHalfEven(y)
    ensures RoundHalfEven(y) == s.Floor || RoundHalfEven(y) == s.Floor + 1 || !Tie(s)
  {
    hide Power, IsNearest;
    if y >= HALF_MANTISSAS as real {
      WholeFrom(s, y);
    } else {
      RoundedTwice(s, y);
    }
  }

  lemma NearestUnits(x: real, precision: nat)
    requires x >= 0.0 && precision > 0
    ensures RoundHalfEven(Times(x, Power(10, precision)))
            == x.Floor * Power(10, precision) + RoundHalfEven(Rest(x, precision))
  {
    var i, q := x.Floor, Power(10, precision);
    PowerEven(precision);
    EvenProduct(i, q);
    TimesParts(i, x - i as real, q);
    ShiftEven(i * q, Rest(x, precision));
  }

  lemma EvenProduct(i: nat, q: nat)
    requires q % 2 == 0
    ensures i * q % 2 == 0 && i * q >= 0
  {
    assert i * q == 2 * (i * (q / 2));
  }

  lemma RestBelowPower(x: real, precision: nat)
    requires x >= 0.0 && precision > 0
    ensures RoundHalfEven(Rest(x, precision)) <= Power(10, precision)
  {
    PowerEven(precision);
    TimesBelow(x - x.Floor as real, Power(10, precision));
  }

  /**
   * The decimal of that many places nearest to a double, the even one of two, is what is printed exactly if rounding
   * the product keeps to it and the zeros behind do no harm.
   */
  lemma NearestIff(x: real, s: real, negative: bool, precision: nat, flags: Flags, adapt: bool, tail: nat)
    requires IsDouble(x) && x >= 0.0 && precision <= MAX_SUPPORTED_PRECISION && IsProduct(s, x, precision)
    ensures s >= 0.0
    ensures var y := Times(x, Power(10, precision)); IsNearestEven(RoundHalfEven(y), y)
    ensures var c := Split(x, s, negative, precision);
            && (Prints(c, precision, flags, adapt, tail, RoundHalfEven(Times(x, Power(10, precision))))
                <==> && (precision > 0 ==> KeepsRounding(s, Rest(x, precision), precision))
                     && Harmless(c, precision, flags, adapt, tail))
  {
    NearestEven(Times(x, Power(10, precision)), RoundHalfEven(Times(x, Power(10, precision))));
    if precision == 0 {
      WholeProduct(x, s);
      WholePrinted(x, s, negative, flags, adapt, tail);
    } else {
      hide *;
      ProductInRange(x, s, precision);
      PlacesPrinted(x, s, negative, precision, flags, adapt, tail);
    }
  }

  lemma WholePrinted(x: real, s: real, negative: bool, flags: Flags, adapt: bool, tail: nat)
    requires x >= 0.0 && s >= 0.0
    ensures var c := Split(x, s, negative, 0);
            && (Prints(c, 0, flags, adapt, tail, RoundHalfEven(Times(x, Power(10, 0)))) <==> Harmless(c, 0, flags, adapt, tail))
  {
    hide Prints, Harmless, Times, Power, RoundHalfEven, Split, Relevant;
    var c := Split(x, s, negative, 0);
    NoPower(x);
    WholeParts(x, s, negative);
    PartsPrinted(c, 0, flags, adapt, tail);
  }

  lemma WholeParts(x: real, s: real, negative: bool)
    requires x >= 0.0 && s >= 0.0
    ensures var c := Split(x, s, negative, 0); c.integral * Power(10, 0) + Relevant(c.fractional, 0) == RoundHalfEven(x)
  {
    hide RoundHalfEven, Tie;
    assert Power(10, 0) == 1;
  }

  lemma PlacesPrinted(x: real, s: real, negative: bool, precision: nat, flags: Flags, adapt: bool, tail: nat)
    requires x >= 0.0 && 0 < precision <= MAX_SUPPORTED_PRECISION && IsProduct(s, x, precision)
    requires 0.0 <= s < Power(10, precision) as real
    ensures var c := Split(x, s, negative, precision);
            && (Prints(c, precision, flags, adapt, tail, RoundHalfEven(Times(x, Power(10, precision))))
                <==> KeepsRounding(s, Rest(x, precision), precision) && Harmless(c, precision, flags, adapt, tail))
  {
    hide Split, Power, RoundHalfEven, Rounded, Tie, Prints, Harmless, KeepsRounding, IsNearest, Times, Rest;
    var c, q, i, y := Split(x, s, negative, precision), Power(10, precision), x.Floor, Rest(x, precision);
    var r := RoundHalfEven(y);
    PowerEven(precision);
    SplitUnits(x, s, negative, precision);
    NearestUnits(x, precision);
    KeepsIff(s, y, precision);
    RoundBounds(s, q);
    RestBelowPower(x, precision);
    UnitsNear(i, r, c.integral, q);
    LostNines(x, s, negative, precision);
    PrintsIff(c, precision, flags, adapt, tail, i * q + r);
  }

  lemma LostNines(x: real, s: real, negative: bool, precision: nat)
    requires x >= 0.0 && precision > 0 && 0.0 <= s < Power(10, precision) as real
    ensures var c, q := Split(x, s, negative, precision), Power(10, precision);
            c.fractional == q ==> Tie(s) && s.Floor == q - 1
  {
    hide Split, Power, Rounded, Tie;
    SplitUnits(x, s, negative, precision);
  }

  // ----- Inputs -----

  /** The double nearest to 0.95. */
  const NINETY_FIVE := 4278419646001971.0 / 4503599627370496.0

  /** The double nearest to 0.15. */
  const FIFTEEN := 5404319552844595.0 / 36028797018963968.0

  /** The double nearest to 0.3. */
  const THREE_TENTHS := 5404319552844595.0 / 18014398509481984.0

  lemma HighPowers()
    ensures Power(2, 52) == HALF_MANTISSAS && Power(2, 49) == 0x2_0000_0000_0000
    ensures Power(2, 54) == 18014398509481984 && Power(2, 55) == 36028797018963968
    ensures Power(2, 0) == 1 && Power(2, 2) == 4 && Power(2, 3) == 8
  {
    HalfPower();
    TwoAdds(49, 3);
    TwoAdds(52, 2);
    TwoAdds(52, 3);
    assert Power(2, 3) == 2 * Power(2, 2);
  }

  lemma InputsAreDoubles()
    ensures IsDouble(NINETY_FIVE) && IsDouble(FIFTEEN) && IsDouble(THREE_TENTHS)
    ensures 0.0 <= FIFTEEN < THREE_TENTHS < NINETY_FIVE < 1.0
  {
    HighPowers();
    assert IsFraction(NINETY_FIVE, 4278419646001971, 52);
    assert IsFraction(FIFTEEN, 5404319552844595, 55);
    assert IsFraction(THREE_TENTHS, 5404319552844595, 54);
  }

  /** %.1f of 0.95: the tenfold becomes a tie behind a nine, and the parts are 0 and ten tenths. */
  lemma NineTie(s: real)
    requires IsProduct(s, NINETY_FIVE, 1)
    ensures s == 9.5 && Split(NINETY_FIVE, s, false, 1) == Components(0, 10, false)
  {
    InputsAreDoubles();
    HighPowers();
    HalfIsDouble(9);
    assert Power(10, 1) == 10 && NINETY_FIVE.Floor == 0;
    GridNearest(9.5, Rest(NINETY_FIVE, 1), 3);
  }

  /** %.1f of 0.15: the tenfold becomes a tie and goes up, though the number is below it. */
  lemma FifteenTie(s: real)
    requires IsProduct(s, FIFTEEN, 1)
    ensures s == 1.5 && Split(FIFTEEN, s, false, 1) == Components(0, 2, false)
    ensures RoundHalfEven(Times(FIFTEEN, Power(10, 1))) == 1
  {
    InputsAreDoubles();
    HighPowers();
    HalfIsDouble(1);
    assert Power(10, 1) == 10 && FIFTEEN.Floor == 0;
    GridNearest(1.5, Rest(FIFTEEN, 1), 0);
  }

  /** %.17f of 0.3: so large a product is rounded to a multiple of four. */
  lemma ThreeTenths(s: real)
    requires IsProduct(s, THREE_TENTHS, 17)
    ensures s == 30000000000000000.0 && Split(THREE_TENTHS, s, false, 17) == Components(0, 30000000000000000, false)
    ensures RoundHalfEven(Times(THREE_TENTHS, Power(10, 17))) == 29999999999999999
  {
    InputsAreDoubles();
    HighPowers();
    LastPowers();
    assert THREE_TENTHS.Floor == 0;
    assert IsMultiple(30000000000000000.0, 7500000000000000, 2);
    CoarseNearest(30000000000000000.0, Rest(THREE_TENTHS, 17), 2);
  }

  // ----- Printing -----

  /** `print_decimal_number` */
  method PrintDecimalNumber(w: Writer, number: real, sign: bool, precision: U32, width: U32, flags: Flags, adapt: bool,
                            buf: array<char>, len: nat, product: real)
    requires w.Valid() && buf.Length == BUFFER_SIZE && len <= BUFFER_SIZE && buf != w.buffer
    requires precision <= MAX_SUPPORTED_PRECISION && (if sign then number <= 0.0 else number >= 0.0)
    requires var x := if sign then -number else number; IsDouble(x) && IsProduct(product, x, precision)
    modifies w, w.buffer, buf
    ensures w.Valid() && product >= 0.0
    ensures var c := Split(if sign then -number else number, product, sign, precision);
            var text := DecimalText(c.integral, c.fractional, precision, flags, adapt, Reversed(old(buf[..len])));
            w.stream == old(w.stream)
                        + Emitted(DecimalBuffer(text, sign, width, flags), SignedWidth(sign, width, flags), flags)
  {
    hide w.Valid, Split, DecimalText, DecimalBuffer, Emitted, SignedWidth, IsDouble, IsProduct;
    var c := GetComponents(number, sign, precision, product);
    SignKept(if sign then -number else number, product, sign, precision);
    PrintBrokenUpDecimal(w, c.integral, c.fractional, c.negative, precision, width, flags, adapt, buf, len);
  }

  lemma SignKept(x: real, s: real, negative: bool, precision: nat)
    requires x >= 0.0 && s >= 0.0
    ensures Split(x, s, negative, precision).negative == negative
  {
  }
}
