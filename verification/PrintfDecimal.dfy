// Fixed decimal notation: the two integers a number was broken up into become
// a numeral, with the digits after the point cut down for %g.

module PrintfDecimal {
  import opened Common
  import opened PrintfField
  import opened PrintfWriter

  // ----- The numeral -----

  /** At least one digit. */
  function IntText(v: nat): (s: string)
    ensures s != ""
  {
    DigitsDenote(v, 10, false);
    if v == 0 then "0" else Reversed(Digits(v, 10, false))
  }

  /** The digits of a fraction, with as many zeros before them as the count of places still says. */
  function FracText(f: nat, n: int): string {
    var ds := IntText(f);
    Fill('0', Wrapped(n - |ds|)) + ds
  }

  /** Trailing zeros of a fraction taken off, each of them counted as a place less. */
  function Stripped(f: nat, n: int): (nat, int)
    decreases f
  {
    if f > 0 && f % 10 == 0 then Stripped(f / 10, n - 1) else (f, n)
  }

  /** A fraction is shown, or at least the point. */
  predicate Shown(fractional: nat, precision: nat, flags: Flags, adapt: bool) {
    if precision != 0 then fractional > 0 || !adapt || flags.hash else flags.hash
  }

  /** The digits that are shown, and how many places are counted for them. */
  function ShownDigits(fractional: nat, precision: nat, flags: Flags, adapt: bool): (nat, int) {
    if adapt && !flags.hash then Stripped(fractional, precision) else (fractional, precision)
  }

  function Fraction(fractional: nat, precision: nat, flags: Flags, adapt: bool): string {
    if precision == 0 || !Shown(fractional, precision, flags, adapt) then ""
    else FracText(ShownDigits(fractional, precision, flags, adapt).0, ShownDigits(fractional, precision, flags, adapt).1)
  }

  /** The numeral; `tail` is what the caller already put behind it. */
  function DecimalText(integral: nat, fractional: nat, precision: nat, flags: Flags, adapt: bool, tail: string): string {
    IntText(integral)
    + (if Shown(fractional, precision, flags, adapt) then "." else "")
    + Fraction(fractional, precision, flags, adapt) + tail
  }

  /** Sign, zeros up to the width if asked for, numeral. */
  function DecimalBody(text: string, negative: bool, width: nat, flags: Flags): string {
    var sign := Sign(negative, flags);
    sign + Fill('0', if flags.zeropad && !flags.left then width - |sign| - |text| else 0) + text
  }

  // ----- What the numeral denotes -----

  /** The digits before and after the point stand for integral + fractional / 10^precision. */
  predicate Preserves(whole: string, fraction: string, integral: nat, fractional: nat, precision: nat) {
    (Denoted(whole, 10) * Power(10, |fraction|) + Denoted(fraction, 10)) * Power(10, precision)
    == (integral * Power(10, precision) + fractional) * Power(10, |fraction|)
  }

  lemma DenotedZeros(s: string, k: nat)
    ensures Denoted(s + Fill('0', k), 10) == Denoted(s, 10) * Power(10, k)
  {
    if k == 0 {
      assert s + Fill('0', 0) == s;
    } else {
      assert s + Fill('0', k) == (s + Fill('0', k - 1)) + ['0'];
      DenotedStep(s + Fill('0', k - 1), '0', 10);
      DenotedZeros(s, k - 1);
      TimesTen(Denoted(s, 10), Power(10, k - 1));
    }
  }

  lemma TimesTen(a: nat, p: nat)
    ensures a * p * 10 == a * (10 * p)
  {
  }

  lemma {:induction false} LeadingZeros(n: nat, s: string)
    ensures Denoted(Fill('0', n) + s, 10) == Denoted(s, 10)
  {
    if s == "" {
      assert Fill('0', n) + s == "" + Fill('0', n);
      DenotedZeros("", n);
    } else {
      var init := s[..|s| - 1];
      LeadingZeros(n, init);
      assert Fill('0', n) + s == (Fill('0', n) + init) + [s[|s| - 1]];
      DenotedStep(Fill('0', n) + init, s[|s| - 1], 10);
    }
  }

  lemma IntTextDenotes(v: nat)
    ensures Denoted(IntText(v), 10) == v
  {
    DigitsDenote(v, 10, false);
    if v == 0 {
      DenotedStep("", '0', 10);
    }
  }

  lemma {:induction false} FewDigits(f: nat, n: nat)
    requires |Digits(f, 10, false)| <= n
    ensures f < Power(10, n)
  {
    if f == 0 {
      PowerPositive(n);
    } else {
      FewDigits(f / 10, n - 1);
    }
  }

  /** A value has at most `n` digits exactly if it is below 10^n. */
  lemma IntTextLength(f: nat, n: nat)
    requires n > 0
    ensures f < Power(10, n) <==> |IntText(f)| <= n
  {
    PowerPositive(n);
    if f < Power(10, n) {
      DigitsCount(f, 10, false, n);
    }
    if |Digits(f, 10, false)| <= n {
      FewDigits(f, n);
    }
  }

  /** The value is always right; the number of digits is, exactly if the value has no more digits than places. */
  lemma FracTextDenotes(f: nat, n: int)
    requires n <= 0xFFFF_FFFF
    ensures Denoted(FracText(f, n), 10) == f
    ensures |FracText(f, n)| >= n
    ensures |FracText(f, n)| == n <==> n > 0 && f < Power(10, n)
  {
    hide Power, IntText, Denoted;
    var ds := IntText(f);
    IntTextDenotes(f);
    if n > 0 {
      IntTextLength(f, n);
    }
    LeadingZeros(Wrapped(n - |ds|), ds);
  }

  /** Only zeros are dropped, and all that there are; the fraction still fits its places exactly if it did before. */
  lemma {:induction false} StrippedValue(f: nat, n: int)
    requires f > 0
    ensures var (g, m) := Stripped(f, n);
            && m <= n && g > 0 && g % 10 != 0 && g * Power(10, n - m) == f
            && (n > 0 && f < Power(10, n) <==> m > 0 && g < Power(10, m))
    decreases f
  {
    if f % 10 == 0 {
      StrippedValue(f / 10, n - 1);
      var (g, m) := Stripped(f / 10, n - 1);
      assert Power(10, n - m) == 10 * Power(10, n - 1 - m);
      TimesTen(g, Power(10, n - 1 - m));
      assert n > 0 ==> Power(10, n) == 10 * Power(10, n - 1);
      assert n == 1 ==> Power(10, n - 1) == 1;
    }
  }

  lemma TenTimes(p: nat, q: nat)
    ensures 10 * (p * q) == (10 * p) * q
  {
  }

  lemma {:induction false} PowerAdds(a: nat, b: nat)
    ensures Power(10, a + b) == Power(10, a) * Power(10, b)
  {
    if a > 0 {
      PowerAdds(a - 1, b);
      assert Power(10, a) == 10 * Power(10, a - 1) && Power(10, a + b) == 10 * Power(10, a - 1 + b);
      hide Power;
      TenTimes(Power(10, a - 1), Power(10, b));
    } else {
      assert Power(10, 0) == 1;
    }
  }

  lemma {:induction false} PowerStrict(a: nat, b: nat)
    requires a < b
    ensures Power(10, a) < Power(10, b)
  {
    if a == 0 {
      PowerPositive(b - 1);
    } else {
      PowerStrict(a - 1, b - 1);
    }
  }

  lemma Cancel(i: nat, f: nat, g: nat, p: nat, q: nat, k: nat, l: nat)
    requires g > 0 && q > 0 && g * k == f && k * l == p
    ensures (i * l + g) * q == (i * q + f) * l <==> q == p
  {
    var x := i * l * q;
    assert (i * l + g) * q == x + g * q;
    assert (i * q + f) * l == x + g * k * l;
    assert g * k * l == g * p;
    if q < p {
      MulMonotone(1, g, 1, p - q);
      assert g * (p - q) == g * p - g * q;
    } else if p < q {
      MulMonotone(1, g, 1, q - p);
      assert g * (q - p) == g * q - g * p;
    }
  }

  /** Digits with `k` zeros taken off have the value of the fraction exactly if there are `k` places less of them. */
  lemma ShorterFraction(whole: string, fraction: string, integral: nat, fractional: nat, precision: nat, g: nat, k: nat)
    requires Denoted(whole, 10) == integral && Denoted(fraction, 10) == g > 0 && g * Power(10, k) == fractional
    ensures Preserves(whole, fraction, integral, fractional, precision) <==> k + |fraction| == precision
  {
    var l := |fraction|;
    PowerAdds(k, l);
    PowerPositive(precision);
    Cancel(integral, fractional, g, Power(10, k + l), Power(10, precision), Power(10, k), Power(10, l));
    if precision < k + l {
      PowerStrict(precision, k + l);
    } else if k + l < precision {
      PowerStrict(k + l, precision);
    }
  }

  lemma ZeroFraction(whole: string, fraction: string, integral: nat, precision: nat)
    requires Denoted(whole, 10) == integral && Denoted(fraction, 10) == 0
    ensures Preserves(whole, fraction, integral, 0, precision)
  {
    Swap(integral, Power(10, |fraction|), Power(10, precision));
  }

  lemma Swap(i: nat, l: nat, p: nat)
    ensures (i * l + 0) * p == (i * p + 0) * l
  {
  }

  /** More zeros behind a fraction change nothing. */
  lemma LongerFraction(whole: string, fraction: string, integral: nat, fractional: nat, precision: nat, tail: nat)
    ensures Preserves(whole, fraction + Fill('0', tail), integral, fractional, precision)
       <==> Preserves(whole, fraction, integral, fractional, precision)
  {
    DenotedZeros(fraction, tail);
    PowerAdds(|fraction|, tail);
    PowerPositive(tail);
    ScaleBoth(Denoted(whole, 10), Power(10, |fraction|), Denoted(fraction, 10), Power(10, precision),
              integral * Power(10, precision) + fractional, Power(10, tail));
  }

  lemma ScaleBoth(w: nat, p: nat, f: nat, q: nat, v: nat, t: nat)
    requires t > 0
    ensures (w * (p * t) + f * t) * q == v * (p * t) <==> (w * p + f) * q == v * p
  {
    var x, y := (w * p + f) * q, v * p;
    assert (w * (p * t) + f * t) * q == x * t by {
      assert w * (p * t) + f * t == (w * p + f) * t;
      assert (w * p + f) * t * q == (w * p + f) * q * t;
    }
    assert v * (p * t) == y * t;
    if x < y {
      MulMonotone(1, y - x, 1, t);
      assert (y - x) * t == y * t - x * t;
    } else if y < x {
      MulMonotone(1, x - y, 1, t);
      assert (x - y) * t == x * t - y * t;
    }
  }

  /** Zeros behind a numeral without a point multiply it. */
  lemma NoFraction(integral: nat, precision: nat, tail: nat)
    ensures Preserves(IntText(integral) + Fill('0', tail), "", integral, 0, precision) <==> tail == 0 || integral == 0
  {
    IntTextDenotes(integral);
    DenotedZeros(IntText(integral), tail);
    PowerPositive(precision);
    var p, t := Power(10, precision), Power(10, tail);
    if tail > 0 {
      PowerPositive(tail - 1);
    }
    MulCancels(integral, p, t);
  }

  lemma {:induction false} PowerPositive(n: nat)
    ensures Power(10, n) >= 1
  {
    if n > 0 {
      PowerPositive(n - 1);
    }
  }

  lemma MulCancels(i: nat, p: nat, t: nat)
    requires p >= 1 && t >= 1
    ensures (i * t + 0) * p == (i * p + 0) * 1 <==> t == 1 || i == 0
    ensures (i * t * 1 + 0) * p == (i * t + 0) * p
  {
    if t > 1 && i > 0 {
      assert i * t >= i * 2;
      MulMonotone(i * 2, i * t, p, p);
    }
  }

  /** With a precision of zero the numeral is of the integral part alone. */
  function Relevant(fractional: nat, precision: nat): nat {
    if precision == 0 then 0 else fractional
  }

  /** The numeral before and behind its point; zeros of the caller belong to whatever they follow. */
  function Whole(integral: nat, fractional: nat, precision: nat, flags: Flags, adapt: bool, tail: nat): string {
    IntText(integral) + if Shown(fractional, precision, flags, adapt) then "" else Fill('0', tail)
  }

  function Behind(fractional: nat, precision: nat, flags: Flags, adapt: bool, tail: nat): string {
    if Shown(fractional, precision, flags, adapt)
    then Fraction(fractional, precision, flags, adapt) + Fill('0', tail) else ""
  }

  lemma DecimalTextParts(integral: nat, fractional: nat, precision: nat, flags: Flags, adapt: bool, tail: nat)
    ensures DecimalText(integral, fractional, precision, flags, adapt, Fill('0', tail))
            == Whole(integral, fractional, precision, flags, adapt, tail)
               + (if Shown(fractional, precision, flags, adapt) then "." else "")
               + Behind(fractional, precision, flags, adapt, tail)
  {
    hide IntText, Fraction, Shown;
    var whole, zeros, fraction := IntText(integral), Fill('0', tail), Fraction(fractional, precision, flags, adapt);
    assert whole + "." + fraction + zeros == (whole + "") + "." + (fraction + zeros);
    NoneShown(fractional, precision, flags, adapt);
    assert whole + "" + "" + zeros == (whole + zeros) + "" + "";
  }

  lemma NoneShown(fractional: nat, precision: nat, flags: Flags, adapt: bool)
    ensures !Shown(fractional, precision, flags, adapt) ==> Fraction(fractional, precision, flags, adapt) == ""
  {
  }

  /**
   * The numeral stands for integral + fractional / 10^precision exactly when the fraction has no more digits than
   * the precision, and the caller put no zeros behind the numeral, or a point is shown, or the integral part is
   * zero. A precision of zero leaves the fraction out of account.
   */
  lemma DecimalValueIff(integral: nat, fractional: nat, precision: U32, flags: Flags, adapt: bool, tail: nat)
    ensures Preserves(Whole(integral, fractional, precision, flags, adapt, tail),
                      Behind(fractional, precision, flags, adapt, tail),
                      integral, Relevant(fractional, precision), precision)
       <==> && (precision == 0 || fractional < Power(10, precision))
            && (tail == 0 || Shown(fractional, precision, flags, adapt) || integral == 0)
  {
    var fraction := Fraction(fractional, precision, flags, adapt);
    IntTextDenotes(integral);
    assert Denoted("", 10) == 0 && IntText(integral) + "" == IntText(integral);
    PowerPositive(precision);
    assert precision == 0 ==> fraction == "";
    assert !Shown(fractional, precision, flags, adapt) ==> Relevant(fractional, precision) == 0;
    assert !Shown(fractional, precision, flags, adapt) && precision > 0 ==> fractional == 0;
    hide IntText, Fraction, Shown, Preserves, Power, Denoted, Fill;
    if !Shown(fractional, precision, flags, adapt) {
      NoFraction(integral, precision, tail);
    } else {
      LongerFraction(IntText(integral), fraction, integral, Relevant(fractional, precision), precision, tail);
      if precision == 0 {
        ZeroFraction(IntText(integral), "", integral, 0);
      } else {
        ShownValue(integral, fractional, precision, flags, adapt);
      }
    }
  }

  lemma DigitsShown(fractional: nat, precision: U32, flags: Flags, adapt: bool)
    requires precision > 0 && Shown(fractional, precision, flags, adapt)
    ensures var (g, m) := ShownDigits(fractional, precision, flags, adapt);
            && Fraction(fractional, precision, flags, adapt) == FracText(g, m)
            && m <= precision && g * Power(10, precision - m) == fractional && (g == 0 ==> fractional == 0 && m == precision)
            && (g > 0 && fractional > 0 ==>
                  (fractional < Power(10, precision) <==> m > 0 && g < Power(10, m)))
            && (fractional == 0 ==> g == 0) && Power(10, precision) > 0
  {
    assert Power(10, 0) == 1;
    PowerPositive(precision);
    if fractional > 0 {
      StrippedValue(fractional, precision);
    }
    hide FracText, Power;
  }

  lemma ShownValue(integral: nat, fractional: nat, precision: U32, flags: Flags, adapt: bool)
    requires precision > 0 && Shown(fractional, precision, flags, adapt)
    ensures var fraction := Fraction(fractional, precision, flags, adapt);
            Preserves(IntText(integral), fraction, integral, fractional, precision)
            <==> fractional < Power(10, precision)
  {
    hide FracText, Stripped, Preserves, IntText, Fraction, Shown, ShownDigits, Power, Denoted;
    var fraction := Fraction(fractional, precision, flags, adapt);
    var (g, m) := ShownDigits(fractional, precision, flags, adapt);
    DigitsShown(fractional, precision, flags, adapt);
    IntTextDenotes(integral);
    FracTextDenotes(g, m);
    if g == 0 {
      ZeroFraction(IntText(integral), fraction, integral, precision);
    } else {
      ShorterFraction(IntText(integral), fraction, integral, fractional, precision, g, precision - m);
    }
  }

  /**
   * As long as the fraction has no more digits than the precision, %f shows exactly that many, and %g none that is
   * zero at the end.
   */
  lemma ShownFraction(fractional: nat, precision: U32, flags: Flags, adapt: bool)
    requires 0 < precision && fractional < Power(10, precision) && Shown(fractional, precision, flags, adapt)
    ensures var fraction := Fraction(fractional, precision, flags, adapt);
            && (!adapt || flags.hash ==> |fraction| == precision)
            && (adapt && !flags.hash ==> 0 < |fraction| <= precision && fraction[|fraction| - 1] != '0')
  {
    var (g, m) := ShownDigits(fractional, precision, flags, adapt);
    if adapt && !flags.hash {
      StrippedValue(fractional, precision);
      LastDigit(g, m);
    }
    hide FracText, Stripped, Power;
    FracTextDenotes(g, m);
  }

  lemma LastDigit(g: nat, m: int)
    requires g % 10 != 0
    ensures FracText(g, m) != "" && FracText(g, m)[|FracText(g, m)| - 1] != '0'
  {
    var c := DigitChar(g % 10, false);
    assert IntText(g) == Reversed([c] + Digits(g / 10, 10, false));
    hide IntText, Digits;
    RevAppend([c], Digits(g / 10, 10, false));
    assert Reversed([c]) == [c];
  }

  /** With %.20g the caller puts three zeros behind the 1 that 1.0 comes out as. */
  lemma TrailingZerosMultiply()
    ensures DecimalText(1, 0, 16, Flags(false, false, false, false, false, false, true, false), true, Fill('0', 3)) == "1000"
  {
    assert Digits(1, 10, false) == "1";
    assert Reversed("1") == "1";
    assert Fill('0', 3) == "000";
  }

  // ----- The engine -----

  /** The low 32 characters of the body, whatever the width and the flags. */
  function DecimalBuffer(text: string, negative: bool, width: nat, flags: Flags): string {
    Take(Reversed(DecimalBody(text, negative, width, flags)), BUFFER_SIZE)
  }

  lemma TakePut(buf: string, whole: string, c: char)
    requires buf == Take(whole, BUFFER_SIZE)
    ensures Put(buf, c) == Take(whole + [c], BUFFER_SIZE)
  {
  }

  lemma TakeMore(a: string, b: string)
    requires |a| >= BUFFER_SIZE
    ensures Take(a + b, BUFFER_SIZE) == Take(a, BUFFER_SIZE)
  {
    assert (a + b)[..BUFFER_SIZE] == a[..BUFFER_SIZE];
  }

  lemma WrappedTwice(c: int, n: int)
    ensures Wrapped(Wrapped(c) - n) == Wrapped(c - n)
  {
    var q := c / 0x1_0000_0000;
    assert c == Wrapped(c) + 0x1_0000_0000 * q;
    assert c - n == (Wrapped(c) - n) + 0x1_0000_0000 * q;
  }

  /** The digits of a value, least significant first; one zero for zero. */
  function Reverse10(v: nat): string {
    if v == 0 then "0" else Digits(v, 10, false)
  }

  lemma ReverseStep(v: nat)
    ensures Reverse10(v) == ['0' + (v % 10) as char] + if v / 10 == 0 then "" else Reverse10(v / 10)
  {
    assert DigitChar(v % 10, false) == '0' + (v % 10) as char;
    assert v > 0 ==> Digits(v, 10, false) == [DigitChar(v % 10, false)] + Digits(v / 10, 10, false);
  }

  /** The digits of a value behind what is in the buffer, as far as there is room; each takes one off the count. */
  method PutNumber(buf: array<char>, len0: nat, v0: nat, count0: U32, ghost whole: string) returns (len: nat, count: U32)
    requires buf.Length == BUFFER_SIZE && len0 <= BUFFER_SIZE && buf[..len0] == Take(whole, BUFFER_SIZE)
    modifies buf
    ensures len <= BUFFER_SIZE && buf[..len] == Take(whole + Reverse10(v0), BUFFER_SIZE)
    ensures len < BUFFER_SIZE ==> count == Wrapped(count0 - |Reverse10(v0)|)
  {
    hide Reverse10, Take, Wrapped;
    var v := v0;
    len, count := len0, count0;
    ghost var done, rest := whole, Reverse10(v0);
    TakeFull(whole, len0);
    while len < BUFFER_SIZE
      invariant 0 <= len <= BUFFER_SIZE && 0 <= v && rest == Reverse10(v)
      invariant done + rest == whole + Reverse10(v0) && buf[..len] == Take(done, BUFFER_SIZE)
      invariant len < BUFFER_SIZE ==> len == |done| && Wrapped(count - |rest|) == Wrapped(count0 - |Reverse10(v0)|)
      invariant len == BUFFER_SIZE ==> |done| >= BUFFER_SIZE
    {
      WrappedTwice(count - 1, |rest| - 1);
      count := Wrapped(count - 1);
      ReverseStep(v);
      var c := '0' + (v % 10) as char;
      TakePut(buf[..len], done, c);
      buf[len] := c;
      assert buf[..len + 1] == buf[..len] + [c];
      len := len + 1;
      done, rest := done + [c], rest[1..];
      v := v / 10;
      TakeFull(done, len);
      if v == 0 {
        assert rest == "" && done == whole + Reverse10(v0);
        WrappedOnce(count);
        return;
      }
    }
    TakeMore(done, rest);
  }

  lemma WrappedOnce(count: U32)
    ensures Wrapped(count) == Wrapped(count - 0) == count
  {
  }

  lemma TakeFull(s: string, n: nat)
    requires n == |Take(s, BUFFER_SIZE)|
    ensures n < BUFFER_SIZE ==> n == |s|
    ensures n == BUFFER_SIZE ==> |s| >= BUFFER_SIZE
  {
  }

  /** As many zeros as are still counted, as far as there is room. */
  method PutZeros(buf: array<char>, len0: nat, n0: U32, ghost whole: string) returns (len: nat)
    requires buf.Length == BUFFER_SIZE && len0 <= BUFFER_SIZE && buf[..len0] == Take(whole, BUFFER_SIZE)
    modifies buf
    ensures len <= BUFFER_SIZE && buf[..len] == Take(whole + Fill('0', n0), BUFFER_SIZE)
  {
    hide Take;
    len := len0;
    var n: U32 := n0;
    ghost var done := whole;
    assert whole + Fill('0', 0) == whole;
    TakeFull(whole, len0);
    while len < BUFFER_SIZE && n > 0
      invariant len0 <= len <= BUFFER_SIZE && n <= n0
      invariant done == whole + Fill('0', n0 - n) && buf[..len] == Take(done, BUFFER_SIZE)
      invariant len == BUFFER_SIZE ==> |done| >= BUFFER_SIZE
    {
      TakePut(buf[..len], done, '0');
      buf[len] := '0';
      assert buf[..len + 1] == buf[..len] + ['0'];
      assert Fill('0', n0 - n) + ['0'] == Fill('0', n0 - (n - 1));
      len := len + 1;
      n := n - 1;
      done := done + ['0'];
      TakeFull(done, len);
    }
    if n > 0 {
      TakeMore(done, Fill('0', n));
      assert done + Fill('0', n) == whole + Fill('0', n0);
    }
  }

  /** "%g/%G mandates we skip the trailing 0 digits" */
  method SkipZeros(fractional0: nat, count0: U32) returns (fractional: nat, count: U32)
    requires 0 < fractional0
    ensures fractional == Stripped(fractional0, count0).0 > 0 && count == Wrapped(Stripped(fractional0, count0).1)
  {
    fractional, count := fractional0, count0;
    ghost var n: int := count0;
    while true
      invariant 0 < fractional && count == Wrapped(n) && Stripped(fractional, n) == Stripped(fractional0, count0)
      decreases fractional
    {
      var digit := fractional % 10;
      if digit != 0 {
        break;
      }
      count := Wrapped(count - 1);
      n := n - 1;
      fractional := fractional / 10;
    }
  }

  lemma FractionReversed(f: nat, n: int)
    ensures Reversed(FracText(f, n)) == Reverse10(f) + Fill('0', Wrapped(n - |Reverse10(f)|))
    ensures FracText(f, Wrapped(n)) == FracText(f, n)
  {
    var ds := IntText(f);
    assert Reversed(ds) == Reverse10(f) by {
      RevTwice(Digits(f, 10, false));
      assert Reversed("0") == "0";
    }
    hide Digits, Reverse10, IntText, Wrapped;
    WrappedTwice(n, |ds|);
    var zeros := Wrapped(n - |ds|);
    RevAppend(Fill('0', zeros), ds);
    FillReversed('0', zeros);
  }

  lemma IntReversed(v: nat)
    ensures Reversed(IntText(v)) == Reverse10(v)
  {
    RevTwice(Digits(v, 10, false));
  }

  /** The digits of the fraction and "add extra 0s". */
  method PutFractionDigits(buf: array<char>, len0: nat, fractional: nat, count0: U32, ghost whole: string)
    returns (len: nat)
    requires buf.Length == BUFFER_SIZE && len0 <= BUFFER_SIZE && buf[..len0] == Take(whole, BUFFER_SIZE)
    modifies buf
    ensures len <= BUFFER_SIZE && buf[..len] == Take(whole + Reversed(FracText(fractional, count0)), BUFFER_SIZE)
  {
    hide Take, Reverse10, FracText, Reversed, Fill, Wrapped;
    var count;
    len, count := PutNumber(buf, len0, fractional, count0, whole);
    ghost var digits := whole + Reverse10(fractional);
    TakeFull(digits, len);
    ghost var zeros := Wrapped(count0 - |Reverse10(fractional)|);
    if len == BUFFER_SIZE {
      TakeMore(digits, Fill('0', count));
      TakeMore(digits, Fill('0', zeros));
    }
    len := PutZeros(buf, len, count, digits);
    FractionReversed(fractional, count0);
    assert digits + Fill('0', zeros) == whole + Reversed(FracText(fractional, count0));
  }

  /** The fractional part of the function, point included. */
  method PutFraction(buf: array<char>, len0: nat, fractional0: nat, precision: U32, flags: Flags, adapt: bool)
    returns (len: nat)
    requires buf.Length == BUFFER_SIZE && len0 <= BUFFER_SIZE
    modifies buf
    ensures len <= BUFFER_SIZE
    ensures buf[..len] == Take(old(buf[..len0]) + Reversed(PointAndFraction(fractional0, precision, flags, adapt)), BUFFER_SIZE)
  {
    ghost var whole := buf[..len0];
    TakeAll(whole);
    hide Take, FracText, Reversed, Wrapped;
    len := len0;
    if precision != 0 {
      var count, fractional := precision, fractional0;
      if adapt && !flags.hash {
        if fractional > 0 {
          fractional, count := SkipZeros(fractional, count);
        }
      }
      if fractional > 0 || !adapt || flags.hash {
        len := PutFractionDigits(buf, len, fractional, count, whole);
        ghost var fraction := FracText(fractional, count);
        FractionReversed(fractional, ShownDigits(fractional0, precision, flags, adapt).1);
        WrappedOnce(precision);
        assert fraction == Fraction(fractional0, precision, flags, adapt);
        TakePut(buf[..len], whole + Reversed(fraction), '.');
        len := PutChar(buf, len, '.');
        PointBefore(whole, fraction);
      } else {
        NothingBefore(whole);
      }
    } else if flags.hash {
      TakePut(buf[..len], whole, '.');
      len := PutChar(buf, len, '.');
      PointBefore(whole, "");
    } else {
      NothingBefore(whole);
    }
  }

  function PointAndFraction(fractional: nat, precision: nat, flags: Flags, adapt: bool): string {
    (if Shown(fractional, precision, flags, adapt) then "." else "") + Fraction(fractional, precision, flags, adapt)
  }

  lemma TakeAll(s: string)
    ensures |s| <= BUFFER_SIZE ==> Take(s, BUFFER_SIZE) == s
  {
  }

  lemma PointBefore(whole: string, fraction: string)
    ensures whole + Reversed("." + fraction) == whole + Reversed(fraction) + ['.']
    ensures whole + Reversed("." + "") == whole + ['.']
  {
    RevAppend(".", fraction);
    assert Reversed(".") == ".";
    assert "." + "" == ".";
  }

  lemma NothingBefore(whole: string)
    ensures whole + Reversed("" + "") == whole
  {
  }

  /** "Write the integer part", "pad leading zeros" and the sign. */
  method PutWhole(buf: array<char>, len0: nat, integral: nat, negative: bool, width0: U32, flags: Flags,
                  ghost behind: string)
    returns (len: nat, width: U32)
    requires buf.Length == BUFFER_SIZE && len0 <= BUFFER_SIZE && buf[..len0] == Take(Reversed(behind), BUFFER_SIZE)
    modifies buf
    ensures len <= BUFFER_SIZE && width == SignedWidth(negative, width0, flags)
    ensures buf[..len] == DecimalBuffer(IntText(integral) + behind, negative, width0, flags)
  {
    hide Take, Reversed, Reverse10, Fill, Sign, Signed;
    width := width0;
    var count;
    len, count := PutNumber(buf, len0, integral, 0, Reversed(behind));
    ghost var text := IntText(integral) + behind;
    RevAppend(IntText(integral), behind);
    IntReversed(integral);
    assert buf[..len] == Take(Reversed(text), BUFFER_SIZE);
    ghost var zeros := 0;
    if !flags.left && flags.zeropad {
      if width > 0 && (negative || flags.plus || flags.space) {
        width := width - 1;
      }
      PadMore(text, width);
      len := PadZeros(buf, len, width);
      zeros := width - |text|;
    } else {
      NoZeros(text);
    }
    ghost var padded := Fill('0', zeros) + text;
    assert buf[..len] == Take(Reversed(padded), BUFFER_SIZE);
    SignedTake(padded, negative, flags);
    len := AddSign(buf, len, negative, flags);
    WholeBody(text, negative, width0, flags, zeros);
  }

  lemma NoZeros(text: string)
    ensures Fill('0', 0) + text == text
  {
  }

  lemma PadMore(text: string, width: nat)
    ensures PadTo(Take(Reversed(text), BUFFER_SIZE), width) == Take(Reversed(Fill('0', width - |text|) + text), BUFFER_SIZE)
  {
    RevAppend(Fill('0', width - |text|), text);
    FillReversed('0', width - |text|);
    if |text| >= BUFFER_SIZE {
      TakeMore(Reversed(text), Fill('0', width - |text|));
    } else {
      PadTake(Reversed(text), width);
    }
  }

  lemma WholeBody(text: string, negative: bool, width: nat, flags: Flags, zeros: int)
    requires zeros == if !flags.left && flags.zeropad then SignedWidth(negative, width, flags) - |text| else 0
    ensures DecimalBuffer(text, negative, width, flags)
         == Take(Reversed(Sign(negative, flags) + (Fill('0', zeros) + text)), BUFFER_SIZE)
  {
    var sign := Sign(negative, flags);
    var n := if flags.zeropad && !flags.left then width - |sign| - |text| else 0;
    assert Fill('0', n) == Fill('0', zeros);
    assert sign + Fill('0', n) + text == sign + (Fill('0', zeros) + text);
  }

  lemma DecimalTextOf(integral: nat, fractional: nat, precision: U32, flags: Flags, adapt: bool, tail: string)
    ensures DecimalText(integral, fractional, precision, flags, adapt, tail)
         == IntText(integral) + (PointAndFraction(fractional, precision, flags, adapt) + tail)
  {
  }

  /** `print_broken_up_decimal` */
  method PrintBrokenUpDecimal(w: Writer, integral: nat, fractional: nat, negative: bool, precision: U32, width0: U32,
                              flags: Flags, adapt: bool, buf: array<char>, len0: nat)
    requires w.Valid() && buf.Length == BUFFER_SIZE && len0 <= BUFFER_SIZE && buf != w.buffer
    modifies w, w.buffer, buf
    ensures w.Valid()
    ensures var text := DecimalText(integral, fractional, precision, flags, adapt, Reversed(old(buf[..len0])));
            w.stream == old(w.stream) + Emitted(DecimalBuffer(text, negative, width0, flags),
                                                SignedWidth(negative, width0, flags), flags)
  {
    hide w.Valid, Take, Reversed, Emitted, DecimalBuffer, SignedWidth, Fraction, Shown, DecimalText, PointAndFraction;
    ghost var tail := Reversed(buf[..len0]);
    RevTwice(buf[..len0]);
    var len := PutFraction(buf, len0, fractional, precision, flags, adapt);
    ghost var point := PointAndFraction(fractional, precision, flags, adapt);
    RevAppend(point, tail);
    var width: U32;
    len, width := PutWhole(buf, len, integral, negative, width0, flags, point + tail);
    ghost var text := DecimalText(integral, fractional, precision, flags, adapt, tail);
    DecimalTextOf(integral, fractional, precision, flags, adapt, tail);
    w.OutRev(buf, len, width, flags);
  }

  // ----- A fraction with too many digits -----

  /** Taking zeros off takes off places, too. */
  lemma {:induction false} StrippedDigits(f: nat, n: int)
    requires f > 0
    ensures var (g, m) := Stripped(f, n); g > 0 && |Digits(g, 10, false)| - m == |Digits(f, 10, false)| - n
    decreases f
  {
    if f % 10 == 0 {
      StrippedDigits(f / 10, n - 1);
    }
  }

  lemma PlacesLeft(f: nat, n: nat)
    requires Power(10, n) <= f < 0x8000_0000_0000_0000 && f > 0 && n > 0
    ensures -22 <= n - |IntText(f)| < 0
    ensures var (g, m) := Stripped(f, n); g > 0 && m - |IntText(g)| == n - |IntText(f)|
  {
    WordDigits(f, 10, false);
    IntTextLength(f, n);
    StrippedDigits(f, n);
    hide Digits, Stripped, Power;
  }

  /** The count of places wraps, and zeros fill what is left of the buffer: no point, integral part or sign is left. */
  lemma TooManyDigits(integral: nat, fractional: nat, precision: U32, negative: bool, width: nat, flags: Flags,
                      adapt: bool, tail: string)
    requires 0 < precision && Power(10, precision) <= fractional < 0x8000_0000_0000_0000
    ensures var text := DecimalText(integral, fractional, precision, flags, adapt, tail);
            var digits := IntText(ShownDigits(fractional, precision, flags, adapt).0);
            DecimalBuffer(text, negative, width, flags) == Take(Reversed(Fill('0', BUFFER_SIZE) + digits + tail), BUFFER_SIZE)
  {
    hide IntText, Fraction, Shown, ShownDigits, Power, Sign, Take;
    var digits := IntText(ShownDigits(fractional, precision, flags, adapt).0);
    var zeros := WrappedFraction(fractional, precision, flags, adapt);
    var text := DecimalText(integral, fractional, precision, flags, adapt, tail);
    var padding := Fill('0', if flags.zeropad && !flags.left then width - |Sign(negative, flags)| - |text| else 0);
    hide DecimalText;
    LowZeros(Sign(negative, flags), padding, IntText(integral), zeros, digits, tail);
  }

  lemma WrappedFraction(fractional: nat, precision: U32, flags: Flags, adapt: bool) returns (zeros: nat)
    requires 0 < precision && Power(10, precision) <= fractional < 0x8000_0000_0000_0000
    ensures zeros >= BUFFER_SIZE && Shown(fractional, precision, flags, adapt)
    ensures Fraction(fractional, precision, flags, adapt)
            == Fill('0', zeros) + IntText(ShownDigits(fractional, precision, flags, adapt).0)
  {
    var (g, m) := ShownDigits(fractional, precision, flags, adapt);
    PowerPositive(precision);
    PlacesLeft(fractional, precision);
    zeros := Wrapped(m - |IntText(g)|);
    hide IntText, Power, Stripped;
  }

  lemma LowZeros(sign: string, padding: string, whole: string, zeros: nat, digits: string, tail: string)
    requires zeros >= BUFFER_SIZE
    ensures Take(Reversed(sign + padding + (whole + "." + (Fill('0', zeros) + digits) + tail)), BUFFER_SIZE)
            == Take(Reversed(Fill('0', BUFFER_SIZE) + digits + tail), BUFFER_SIZE)
  {
    var extra, low := Fill('0', zeros - BUFFER_SIZE), Fill('0', BUFFER_SIZE);
    assert Fill('0', zeros) == extra + low;
    assert sign + padding + (whole + "." + (Fill('0', zeros) + digits) + tail)
        == (sign + padding + whole + "." + extra) + (low + digits + tail);
    LowPart(sign + padding + whole + "." + extra, low + digits + tail);
  }

  lemma LowPart(a: string, b: string)
    requires |b| >= BUFFER_SIZE
    ensures Take(Reversed(a + b), BUFFER_SIZE) == Take(Reversed(b), BUFFER_SIZE)
  {
    RevAppend(a, b);
    TakeMore(Reversed(b), Reversed(a));
  }

  /** A tie that the caller rounds up without carrying: 0.95 with one place arrives as 0 and 10 tenths. */
  lemma RoundedTie()
    ensures var flags := Flags(false, false, false, false, false, false, true, false);
            var text := DecimalText(0, 10, 1, flags, false, "");
            Emitted(DecimalBuffer(text, false, 0, flags), 0, flags) == Fill('0', 30) + "10"
  {
    var flags := Flags(false, false, false, false, false, false, true, false);
    assert Power(10, 1) == 10;
    TenAsText();
    TooManyDigits(0, 10, 1, false, 0, flags, false, "");
    hide DecimalText, DecimalBuffer, IntText, Power;
    var whole := Fill('0', BUFFER_SIZE) + "10" + "";
    assert Reversed(Take(Reversed(whole), BUFFER_SIZE)) == Fill('0', 30) + "10";
  }

  lemma TenAsText()
    ensures IntText(10) == "10"
  {
    assert Digits(1, 10, false) == "1";
    assert Digits(10, 10, false) == "01";
    assert Reversed("01") == "10";
  }

  // ----- When the field comes out whole -----

  /** The field is sign, numeral and padding in full exactly when they fit the buffer, or only a space is lost. */
  lemma DecimalExactIff(integral: nat, fractional: nat, precision: nat, negative: bool, width: nat, flags: Flags,
                        adapt: bool, tail: nat)
    ensures var text := DecimalText(integral, fractional, precision, flags, adapt, Fill('0', tail));
            var body := DecimalBody(text, negative, width, flags);
            Emitted(DecimalBuffer(text, negative, width, flags), SignedWidth(negative, width, flags), flags)
            == Justified(body, width, flags.left)
            <==> |body| <= BUFFER_SIZE
                 || (|body| == BUFFER_SIZE + 1 && Sign(negative, flags) == " " && !flags.left && width > BUFFER_SIZE
                     && !flags.zeropad)
  {
    var text := DecimalText(integral, fractional, precision, flags, adapt, Fill('0', tail));
    NoSpaceInText(integral, fractional, precision, flags, adapt, tail);
    hide DecimalText;
    var body := DecimalBody(text, negative, width, flags);
    if Unpadded(flags) {
      assert body == Sign(negative, flags) + text by {
        assert Sign(negative, flags) + "" + text == Sign(negative, flags) + text;
      }
      if |body| <= BUFFER_SIZE {
        FitsUnpadded(body, width, flags);
      } else {
        LeadText(Sign(negative, flags), text);
        OverflowUnpadded(body, width, flags, Sign(negative, flags));
      }
    } else {
      assert |body| >= width;
      PaddedWhole(body, width, flags);
    }
  }

  lemma PaddedWhole(body: string, width: nat, flags: Flags)
    requires !Unpadded(flags) && |body| >= width
    ensures Reversed(Take(Reversed(body), BUFFER_SIZE)) == body <==> |body| <= BUFFER_SIZE
    ensures forall w: nat, buf: string {:trigger Emitted(buf, w, flags)} :: Emitted(buf, w, flags) == Reversed(buf)
    ensures Justified(body, width, flags.left) == body
  {
    RevTwice(body);
    assert "" + body == body;
    forall w: nat, buf: string ensures Emitted(buf, w, flags) == Reversed(buf) {
      assert "" + Reversed(buf) + "" == Reversed(buf);
    }
  }

  lemma LeadText(lead: string, text: string)
    requires |lead| <= 1 && ' ' !in text
    ensures lead <= lead + text && forall i :: |lead| <= i < |lead + text| ==> (lead + text)[i] != ' '
  {
    forall i | |lead| <= i < |lead + text| ensures (lead + text)[i] != ' ' {
      assert (lead + text)[i] == text[i - |lead|];
    }
  }

  lemma NoSpaceInText(integral: nat, fractional: nat, precision: nat, flags: Flags, adapt: bool, tail: nat)
    ensures ' ' !in DecimalText(integral, fractional, precision, flags, adapt, Fill('0', tail))
  {
    var (g, m) := ShownDigits(fractional, precision, flags, adapt);
    NoSpaceInFraction(g, m);
    NoSpaceInDigits(integral, 10, false);
    assert ' ' !in IntText(integral);
    hide ShownDigits, FracText, IntText;
  }

  lemma NoSpaceInFraction(f: nat, n: int)
    ensures ' ' !in FracText(f, n)
  {
    NoSpaceInDigits(f, 10, false);
    hide Digits;
  }
}
