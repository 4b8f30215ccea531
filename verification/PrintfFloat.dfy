// Floating-point conversions: what is no number, what is too large, and the
// precision the digits are limited to.

module PrintfFloat {
  import opened Common
  import opened Doubles
  import opened PrintfComponents
  import opened PrintfDecimal
  import opened PrintfField
  import opened PrintfWriter

  const DEFAULT_PRECISION := 6
  const NOTATION_THRESHOLD := 1000000000.0

  /** A `double`. `product(p)` is what multiplying the part behind its point by 10^p yields. */
  datatype Float =
    | NotANumber
    | Infinite(negative: bool)
    | Finite(magnitude: real, negative: bool, product: nat -> real)

  ghost predicate IsFloat(v: Float) {
    v.Finite? ==>
      && v.magnitude >= 0.0 && IsDouble(v.magnitude)
      && forall p: nat | p <= MAX_SUPPORTED_PRECISION :: IsProduct(v.product(p), v.magnitude, p)
  }

  type Double = v: Float | IsFloat(v) witness NotANumber

  /** What exponential notation puts out, for a conversion, precision, width, flags and a number of zeros behind. */
  type Exponential = (char, nat, nat, Flags, nat) -> string

  // ----- The precision -----

  /** What is left of a precision when its last digits are put out as zeros, of which there is room for 32. */
  function Limited(precision: nat): nat {
    if precision <= MAX_SUPPORTED_PRECISION then precision
    else if precision <= MAX_SUPPORTED_PRECISION + BUFFER_SIZE then MAX_SUPPORTED_PRECISION
    else precision - BUFFER_SIZE
  }

  /** The table of powers has an entry for what is left exactly if at most 49 digits were asked for. */
  lemma LimitedIff(precision: nat)
    ensures Limited(precision) <= MAX_SUPPORTED_PRECISION <==> precision <= 49
  {
  }

  method LimitPrecision(buf: array<char>, precision0: nat) returns (len: nat, precision: nat)
    requires buf.Length == BUFFER_SIZE
    modifies buf
    ensures precision == Limited(precision0) && len == precision0 - precision <= BUFFER_SIZE
    ensures buf[..len] == Fill('0', precision0 - precision)
  {
    len, precision := 0, precision0;
    while len < BUFFER_SIZE && precision > MAX_SUPPORTED_PRECISION
      invariant len <= BUFFER_SIZE && len + precision == precision0
      invariant precision0 > MAX_SUPPORTED_PRECISION ==> precision >= MAX_SUPPORTED_PRECISION
      invariant precision0 <= MAX_SUPPORTED_PRECISION ==> len == 0
      invariant forall i :: 0 <= i < len ==> buf[i] == '0'
    {
      buf[len] := '0';
      len := len + 1;
      precision := precision - 1;
    }
  }

  /** The digits behind the point %g asks for, once the decimal exponent is known. */
  function Adapted(precision: nat, exp10: int): nat {
    var required := if precision == 0 then 1 else precision;
    var digits := if -4 <= exp10 < required then precision - 1 - exp10 else precision - 1;
    if digits > 0 then digits else 0
  }

  /** They are more than the table of powers has an entry for exactly with up to three zeros behind the point. */
  lemma AdaptedIff(precision: nat, exp10: int)
    requires precision <= MAX_SUPPORTED_PRECISION
    ensures Adapted(precision, exp10) > MAX_SUPPORTED_PRECISION <==> -4 <= exp10 && precision > 18 + exp10
  {
  }

  // ----- The field -----

  predicate IsFixed(c: char) {
    c == 'f' || c == 'F'
  }

  /** A number in fixed notation; not defined where the table of powers would be left. */
  function FixedText(v: Double, precision0: nat, width: nat, flags: Flags): Option<string>
    requires v.Finite?
  {
    var precision := Limited(precision0);
    if precision > MAX_SUPPORTED_PRECISION then None
    else
      ProductPositive(v, precision);
      var c := Split(v.magnitude, v.product(precision), v.negative, precision);
      var text := DecimalText(c.integral, c.fractional, precision, flags, false, Fill('0', precision0 - precision));
      Some(Emitted(DecimalBuffer(text, v.negative, width, flags), SignedWidth(v.negative, width, flags), flags))
  }

  lemma MagnitudePositive(v: Double)
    requires v.Finite?
    ensures v.magnitude >= 0.0
  {
    assert IsFloat(v);
  }

  lemma ProductPositive(v: Double, precision: nat)
    requires v.Finite? && precision <= MAX_SUPPORTED_PRECISION
    ensures v.product(precision) >= 0.0
  {
    hide IsDouble, IsProduct;
    assert IsProduct(v.product(precision), v.magnitude, precision);
    if precision == 0 {
      WholeProduct(v.magnitude, v.product(0));
    } else {
      ProductInRange(v.magnitude, v.product(precision), precision);
    }
  }

  /** Whether a precision was written makes no difference to the digits. */
  lemma FixedAlike(v: Double, precision: nat, width: nat, flags: Flags)
    requires v.Finite?
    ensures FixedText(v, precision, width, flags) == FixedText(v, precision, width, flags.(precision := true))
    ensures precision <= MAX_SUPPORTED_PRECISION ==> FixedText(v, precision, width, flags).Some?
  {
    hide IsDouble, IsProduct, Split, IntText, FracText, Take;
    if Limited(precision) <= MAX_SUPPORTED_PRECISION {
      ProductPositive(v, Limited(precision));
    }
  }

  function RealText(v: Double, exponential: Exponential, c: char, precision0: nat, width: nat, flags: Flags): Option<string> {
    match v
    case NotANumber => Some(Emitted("nan", width, flags))
    case Infinite(negative) =>
      Some(Emitted(if negative then "fni-" else if flags.plus then "fni+" else "fni", width, flags))
    case Finite(magnitude, _, _) =>
      if IsFixed(c) && magnitude > NOTATION_THRESHOLD then Some(exponential(c, precision0, width, flags, 0))
      else
        var precision := if flags.precision then precision0 else DEFAULT_PRECISION;
        if IsFixed(c) then FixedText(v, precision, width, flags)
        else Some(exponential(c, Limited(precision), width, flags, precision - Limited(precision)))
  }

  /** %f shows the nearest decimal of up to 17 places, with zeros for the rest, exactly if the product keeps to it. */
  lemma FixedNearestIff(v: Double, precision0: nat, flags: Flags)
    requires v.Finite? && precision0 <= 49
    ensures var precision := Limited(precision0);
            && precision <= MAX_SUPPORTED_PRECISION && v.product(precision) >= 0.0
            && (Prints(Split(v.magnitude, v.product(precision), v.negative, precision), precision, flags, false,
                       precision0 - precision, RoundHalfEven(Times(v.magnitude, Power(10, precision))))
                <==> (precision > 0 ==>
                        KeepsRounding(v.product(precision), Rest(v.magnitude, precision), precision)))
  {
    hide IsDouble, IsProduct, Split, Prints, KeepsRounding, RoundHalfEven, Times, Rest, Power;
    var precision := Limited(precision0);
    assert IsProduct(v.product(precision), v.magnitude, precision);
    NearestIff(v.magnitude, v.product(precision), v.negative, precision, flags, false, precision0 - precision);
  }

  /** `print_floating_point` */
  method PrintFloatingPoint(w: Writer, v: Double, exponential: Exponential, c: char, precision0: nat, width: U32, flags: Flags)
    requires w.Valid() && RealText(v, exponential, c, precision0, width, flags).Some?
    modifies w, w.buffer
    ensures w.Valid() && w.stream == old(w.stream) + RealText(v, exponential, c, precision0, width, flags).value
  {
    hide w.Valid, Emitted, IsFloat, FixedText;
    match v {
      case NotANumber =>
        PutReversed(w, "nan", width, flags);
      case Infinite(negative) =>
        PutReversed(w, if negative then "fni-" else if flags.plus then "fni+" else "fni", width, flags);
      case Finite(magnitude, _, _) =>
        if IsFixed(c) && magnitude > NOTATION_THRESHOLD {
          PutString(w, exponential(c, precision0, width, flags, 0));
        } else {
          var precision := precision0;
          if !flags.precision {
            precision := DEFAULT_PRECISION;
          }
          PrintFinite(w, v, exponential, c, precision, width, flags);
        }
    }
  }

  /** From "limit precision" on. */
  method PrintFinite(w: Writer, v: Double, exponential: Exponential, c: char, precision0: nat, width: U32, flags: Flags)
    requires w.Valid() && v.Finite? && (IsFixed(c) ==> FixedText(v, precision0, width, flags).Some?)
    modifies w, w.buffer
    ensures w.Valid()
    ensures w.stream == old(w.stream)
                        + if IsFixed(c) then FixedText(v, precision0, width, flags).value
                          else exponential(c, Limited(precision0), width, flags, precision0 - Limited(precision0))
  {
    hide w.Valid, Emitted, IsDouble, IsProduct, Split, DecimalText, DecimalBuffer, SignedWidth, Limited, Fill;
    var buf := new char[BUFFER_SIZE];
    var len, precision := LimitPrecision(buf, precision0);
    if IsFixed(c) {
      FillReversed('0', precision0 - precision);
      assert IsProduct(v.product(precision), v.magnitude, precision);
      PrintDecimalNumber(w, if v.negative then -v.magnitude else v.magnitude, v.negative, precision, width, flags, false,
                         buf, len, v.product(precision));
    } else {
      PutString(w, exponential(c, precision, width, flags, len));
    }
  }
}
