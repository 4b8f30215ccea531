// The rest of a call of printf as text: characters, texts, pointers and
// floating-point numbers, and one directive after the other.

module PrintfCall {
  import opened PrintfField
  import opened PrintfDecimal
  import opened PrintfComponents
  import opened PrintfFloat
  import opened PrintfFormat
  import opened PrintfStandard
  import opened PrintfDirective
  import opened Doubles
  import opened Common

  // ----- Characters, texts, pointers -----

  /** What the engine has read of a directive that is not an integer's. */
  function OtherScan(d: Directive, arg: Arg): Scan {
    Scan(EngineFlags(d), WidthOf(d), PrecisionOf(d), LengthOf(d.length), [d.c], [arg])
  }

  /** A directive and its argument, taken through the engine. */
  lemma OtherRendered(d: Directive, arg: Arg)
    requires Readable(d) && Converted(OtherScan(d, arg)).Some?
    ensures Rendered("%" + DirectiveText(d), AmountArgs(d.width) + (PrecisionArgs(d.precision) + [arg]))
         == Converted(OtherScan(d, arg))
  {
    var scan := OtherScan(d, arg);
    assert scan == Scan(EngineFlags(d), WidthOf(d), PrecisionOf(d), LengthOf(d.length), [d.c], [arg]) && |scan.rest| == 1;
    hide *;
    TextBefore(d, "");
    DirectiveReadBack(d, [arg], "");
    OneDirective(DirectiveText(d), AmountArgs(d.width) + (PrecisionArgs(d.precision) + [arg]), scan);
  }

  lemma TextConverted(d: Directive, s: string)
    requires d.c == 's'
    ensures Converted(OtherScan(d, Text(s)))
         == Some(Padded(Cut(s, if d.precision.None? then None else Some(PrecisionOf(d))), LeftOf(d), WidthOf(d)))
  {
    hide AmountValue, LengthOf;
  }

  lemma BlankText(s: string, left: bool, width: nat)
    ensures Padded("", left, width) == Padded(s, left, width) <==> |s| <= width && forall i :: 0 <= i < |s| ==> s[i] == ' '
  {
    var a, b := Padded("", left, width), Padded(s, left, width);
    assert a == Fill(' ', width);
    if a == b {
      var at := if left then 0 else width - |s|;
      forall i | 0 <= i < |s| ensures s[i] == ' ' {
        assert b[at + i] == s[i];
      }
    }
    if |s| <= width && forall i :: 0 <= i < |s| ==> s[i] == ' ' {
      assert b == a;
    }
  }

  /**
   * `%s` shows as many characters as the precision allows, all of them without one. A negative precision from an
   * argument shows none, where the standard takes it as omitted: that is the same only for blanks within the width.
   */
  lemma TextDirective(d: Directive, s: string)
    requires Readable(d) && d.c == 's'
    ensures Rendered("%" + DirectiveText(d), AmountArgs(d.width) + (PrecisionArgs(d.precision) + [Text(s)])).Some?
    ensures Rendered("%" + DirectiveText(d), AmountArgs(d.width) + (PrecisionArgs(d.precision) + [Text(s)]))
         == Some(Padded(Cut(s, GivenPrecision(d)), LeftOf(d), WidthOf(d)))
        <==> (NegativePrecision(d) ==> |s| <= WidthOf(d) && forall i :: 0 <= i < |s| ==> s[i] == ' ')
  {
    hide EngineFlags, WidthOf, PrecisionOf, LeftOf, AmountValue, LengthOf, Converted, Rendered, DirectiveText, Readable,
      AmountArgs, PrecisionArgs, Padded, OtherScan;
    TextConverted(d, s);
    OtherRendered(d, Text(s));
    BlankText(s, LeftOf(d), WidthOf(d));
    OmittedPrecision(d);
  }

  lemma OmittedPrecision(d: Directive)
    ensures NegativePrecision(d) ==> PrecisionOf(d) == 0
    ensures d.precision.None? ==> !NegativePrecision(d)
  {
  }

  lemma EmittedBackwards(s: string, width: nat, flags: Flags)
    ensures Emitted(s, width, flags) == Padded(Reversed(s), flags.left, if flags.left || !flags.zeropad then width else 0)
  {
    var spaces := Fill(' ', width - |s|);
    assert spaces + Reversed(s) + "" == spaces + Reversed(s) && "" + Reversed(s) + spaces == Reversed(s) + spaces;
    assert "" + Reversed(s) + "" == "" + Reversed(s);
  }

  lemma NullConverted(d: Directive)
    requires d.c == 's'
    ensures Converted(OtherScan(d, NullText))
         == Some(Padded("(null)", LeftOf(d), if LeftOf(d) || '0' !in d.flags then WidthOf(d) else 0))
  {
    hide AmountValue, LengthOf;
    EmittedBackwards(")llun(", WidthOf(d), EngineFlags(d));
    hide Emitted, Padded;
    assert Reversed(")llun(") == "(null)";
  }

  /** A missing text shows as (null), with spaces up to the width unless `0` is asked for without `-`. */
  lemma NullDirective(d: Directive)
    requires Readable(d) && d.c == 's'
    ensures Rendered("%" + DirectiveText(d), AmountArgs(d.width) + (PrecisionArgs(d.precision) + [NullText]))
         == Some(Padded("(null)", LeftOf(d), if LeftOf(d) || '0' !in d.flags then WidthOf(d) else 0))
  {
    hide *;
    NullConverted(d);
    OtherRendered(d, NullText);
  }

  lemma ByteIs(value: int, v: int)
    requires IsValue(value, v, "hh", 'u')
    ensures 0 <= value < 256 && v % 0x100 == value
  {
    Residue(v, value, 0x100);
  }

  lemma CharConverted(d: Directive, v: int, value: int)
    requires d.c == 'c' && IsValue(value, v, "hh", 'u')
    ensures 0 <= value < 256
    ensures Converted(OtherScan(d, Number(v))) == Some(Padded([value as char], LeftOf(d), WidthOf(d)))
  {
    hide IsValue, AmountValue, LengthOf, PrecisionOf, WidthOf;
    ByteIs(value, v);
  }

  /** `%c` shows the low eight bits of its argument as a character. */
  lemma CharDirective(d: Directive, v: int, value: int)
    requires Readable(d) && d.c == 'c' && IsValue(value, v, "hh", 'u')
    ensures 0 <= value < 256
    ensures Rendered("%" + DirectiveText(d), AmountArgs(d.width) + (PrecisionArgs(d.precision) + [Number(v)]))
         == Some(Padded([value as char], LeftOf(d), WidthOf(d)))
  {
    hide *;
    CharConverted(d, v, value);
    OtherRendered(d, Number(v));
  }

  lemma PointerFits(value: nat, f: Flags)
    requires 0 < value < 0x1_0000_0000 && f == Flags(true, f.left, false, false, true, false, false, false)
    ensures Fits(value, false, BASE_HEX, 0, 10, f)
  {
    ReversedDigits(value, BASE_HEX, 0, f);
    hide Precise, ScratchDigits;
  }

  lemma PointerFlagFacts(value: nat, f: Flags)
    requires f == Flags(true, f.left, false, false, true, false, false, false)
    ensures Carries(f, "#0", 'x', f.left, None) && IsStandardInteger('x') && BaseOf('x') == BASE_HEX
    ensures OrZero(None) == 0 && Absolute(value) == value
    ensures value < 0x1_0000_0000 ==> Prepared(value, false, BASE_HEX, 0, f)
  {
  }

  lemma PointerField(value: nat, f: Flags, hash: bool)
    requires 0 < value < 0x1_0000_0000 && f == Flags(true, f.left, false, false, true, false, false, false)
    ensures IntegerField(value, false, BASE_HEX, 0, 10, f.(hash := hash, pointer := true))
         == FieldText(value, 'x', "#0", f.left, 10, None)
  {
    hide *;
    PointerFlagFacts(value, f);
    PointerIsHash(value, 10, f.(hash := hash));
    PointerFits(value, f);
    FieldExactIff(value, false, BASE_HEX, 0, 10, f);
    FieldIs(value, 'x', "#0", f.left, 10, None, f);
  }

  lemma AddressIs(value: int, v: int)
    requires IsValue(value, v, "l", 'x')
    ensures 0 <= value < 0x1_0000_0000 && v % 0x1_0000_0000 == value
  {
  }

  lemma PointerEngine(d: Directive)
    requires d.c == 'p' && d.precision.None? && '+' !in d.flags && ' ' !in d.flags
    ensures PointerFlags(EngineFlags(d)) == Flags(true, LeftOf(d), false, false, '#' in d.flags, false, false, true)
    ensures PrecisionOf(d) == 0 && !IsIntegerConversion(d.c) && !IsRealConversion(d.c)
  {
    hide AmountValue;
  }

  lemma PointerScan(d: Directive, v: int, value: int)
    requires d.c == 'p' && d.precision.None? && '+' !in d.flags && ' ' !in d.flags && IsValue(value, v, "l", 'x')
    ensures 0 <= value < 0x1_0000_0000
    ensures var f := Flags(true, LeftOf(d), false, false, '#' in d.flags, false, false, true);
            Converted(OtherScan(d, Number(v)))
            == Some(if value == 0 then Emitted(")lin(", 10, f) else IntegerField(value, false, BASE_HEX, 0, 10, f))
  {
    AddressIs(value, v);
    PointerEngine(d);
    hide IsValue, AmountValue, LengthOf, IntegerField, Emitted, PointerFlags, EngineFlags, LeftOf, WidthOf, PrecisionOf,
      IsIntegerConversion, IsRealConversion;
  }

  lemma PointerConverted(d: Directive, v: int, value: int)
    requires d.c == 'p' && d.precision.None? && '+' !in d.flags && ' ' !in d.flags && IsValue(value, v, "l", 'x')
    ensures Converted(OtherScan(d, Number(v)))
         == Some(if value == 0 then Padded("(nil)", LeftOf(d), if LeftOf(d) then 10 else 0)
                 else FieldText(value, 'x', "#0", LeftOf(d), 10, None))
  {
    hide *;
    PointerScan(d, v, value);
    assert Reversed(")lin(") == "(nil)";
    EmittedBackwards(")lin(", 10, Flags(true, LeftOf(d), false, false, '#' in d.flags, false, false, true));
    if value > 0 {
      PointerField(value, Flags(true, LeftOf(d), false, false, true, false, false, false), '#' in d.flags);
    }
  }

  /** A pointer shows like `%#010x`, whatever width is written; a null one as (nil). */
  lemma PointerDirective(d: Directive, v: int, value: int)
    requires Readable(d) && d.c == 'p' && d.precision.None? && '+' !in d.flags && ' ' !in d.flags
    requires IsValue(value, v, "l", 'x')
    ensures Rendered("%" + DirectiveText(d), AmountArgs(d.width) + (PrecisionArgs(d.precision) + [Number(v)]))
         == Some(if value == 0 then Padded("(nil)", LeftOf(d), if LeftOf(d) then 10 else 0)
                 else FieldText(value, 'x', "#0", LeftOf(d), 10, None))
  {
    PointerConverted(d, v, value);
    OtherRendered(d, Number(v));
    hide *;
  }

  lemma RealConverted(d: Directive, v: Double, exponential: Exponential)
    requires d.c == 'f' || d.c == 'F' || d.c == 'e' || d.c == 'E' || d.c == 'g' || d.c == 'G'
    ensures Converted(OtherScan(d, Real(v, exponential)))
         == RealText(v, exponential, d.c, PrecisionOf(d), WidthOf(d), EngineFlags(d))
  {
    hide AmountValue, LengthOf, RealText;
  }

  lemma SpecialConverted(d: Directive, v: Double, exponential: Exponential)
    requires !v.Finite?
    ensures var word := if v.NotANumber? then "nan" else if v.negative then "-inf" else if '+' in d.flags then "+inf" else "inf";
            RealText(v, exponential, d.c, PrecisionOf(d), WidthOf(d), EngineFlags(d))
            == Some(Padded(word, LeftOf(d), if LeftOf(d) || '0' !in d.flags then WidthOf(d) else 0))
  {
    hide AmountValue, Emitted, Padded;
    assert Reversed("nan") == "nan" && Reversed("fni-") == "-inf" && Reversed("fni+") == "+inf" && Reversed("fni") == "inf";
    var engine := EngineFlags(d);
    EmittedBackwards("nan", WidthOf(d), engine);
    EmittedBackwards("fni-", WidthOf(d), engine);
    EmittedBackwards("fni+", WidthOf(d), engine);
    EmittedBackwards("fni", WidthOf(d), engine);
  }

  /** What is no finite number shows as a word, with spaces like a missing text. */
  lemma SpecialDirective(d: Directive, v: Double, exponential: Exponential)
    requires Readable(d) && !v.Finite?
    requires d.c == 'f' || d.c == 'F' || d.c == 'e' || d.c == 'E' || d.c == 'g' || d.c == 'G'
    ensures var word := if v.NotANumber? then "nan" else if v.negative then "-inf" else if '+' in d.flags then "+inf" else "inf";
            Rendered("%" + DirectiveText(d), AmountArgs(d.width) + (PrecisionArgs(d.precision) + [Real(v, exponential)]))
            == Some(Padded(word, LeftOf(d), if LeftOf(d) || '0' !in d.flags then WidthOf(d) else 0))
  {
    hide *;
    RealConverted(d, v, exponential);
    SpecialConverted(d, v, exponential);
    OtherRendered(d, Real(v, exponential));
  }

  lemma SixRead(d: Directive, six: Directive)
    requires d.precision.None? && six == d.(precision := Some(Written("6")))
    ensures PrecisionOf(d) == 0 && PrecisionOf(six) == 6 && WidthOf(d) == WidthOf(six) && !EngineFlags(d).precision
    ensures EngineFlags(six) == EngineFlags(d).(precision := true)
    ensures Readable(d) ==> Readable(six)
    ensures PrecisionArgs(six.precision) == [] && PrecisionArgs(d.precision) == []
  {
    assert Denoted("6", 10) == 6 by {
      assert "6"[..0] == "";
    }
  }

  lemma SixConverted(v: Double, exponential: Exponential, c: char, width: nat, flags: Flags)
    requires (c == 'f' || c == 'F') && v.Finite? && v.magnitude <= 1000000000.0 && !flags.precision
    ensures RealText(v, exponential, c, 0, width, flags) == RealText(v, exponential, c, 6, width, flags.(precision := true))
    ensures RealText(v, exponential, c, 0, width, flags).Some?
  {
    FixedAlike(v, 6, width, flags);
    hide FixedText, IsFloat;
  }

  /** Without a precision, a finite number of up to 10^9 in fixed notation shows as with one of six. */
  lemma SixDigits(d: Directive, v: Double, exponential: Exponential)
    requires Readable(d) && (d.c == 'f' || d.c == 'F') && d.precision.None? && v.Finite? && v.magnitude <= 1000000000.0
    ensures Rendered("%" + DirectiveText(d), AmountArgs(d.width) + ([] + [Real(v, exponential)])).Some?
    ensures Rendered("%" + DirectiveText(d), AmountArgs(d.width) + ([] + [Real(v, exponential)]))
         == Rendered("%" + DirectiveText(d.(precision := Some(Written("6")))),
                     AmountArgs(d.width) + ([] + [Real(v, exponential)]))
  {
    hide *;
    var six := d.(precision := Some(Written("6")));
    SixRead(d, six);
    SixConverted(v, exponential, d.c, WidthOf(d), EngineFlags(d));
    RealConverted(d, v, exponential);
    RealConverted(six, v, exponential);
    OtherRendered(d, Real(v, exponential));
    OtherRendered(six, Real(v, exponential));
  }

  /** A larger one is left to exponential notation. */
  lemma LargeDirective(d: Directive, v: Double, exponential: Exponential)
    requires Readable(d) && (d.c == 'f' || d.c == 'F') && v.Finite? && v.magnitude > 1000000000.0
    ensures Rendered("%" + DirectiveText(d), AmountArgs(d.width) + (PrecisionArgs(d.precision) + [Real(v, exponential)]))
         == Some(exponential(d.c, PrecisionOf(d), WidthOf(d), EngineFlags(d), 0))
  {
    RealConverted(d, v, exponential);
    LargeConverted(d, v, exponential);
    hide *;
    OtherRendered(d, Real(v, exponential));
  }

  lemma LargeConverted(d: Directive, v: Double, exponential: Exponential)
    requires (d.c == 'f' || d.c == 'F') && v.Finite? && v.magnitude > 1000000000.0
    ensures RealText(v, exponential, d.c, PrecisionOf(d), WidthOf(d), EngineFlags(d))
         == Some(exponential(d.c, PrecisionOf(d), WidthOf(d), EngineFlags(d), 0))
  {
    hide EngineFlags, WidthOf, PrecisionOf, FixedText, IsFloat;
  }

  // ----- Numbers in fixed notation -----

  /** The digits behind the point that are asked for, six if nothing is said, and how many of them are computed. */
  function PlacesOf(d: Directive): nat {
    if d.precision.None? then 6 else PrecisionOf(d)
  }

  function ComputedPlaces(places: nat): nat {
    if places <= 17 then places else 17
  }

  lemma RealBodyIs(d: Directive, negative: bool, numeral: string)
    ensures DecimalBody(numeral, negative, WidthOf(d), EngineFlags(d))
         == RealBody(numeral, negative, d.flags, LeftOf(d), WidthOf(d))
    ensures Sign(negative, EngineFlags(d)) == SignText(if negative then -1 else 1, 'd', d.flags)
    ensures Justified(RealBody(numeral, negative, d.flags, LeftOf(d), WidthOf(d)), WidthOf(d), EngineFlags(d).left)
         == Padded(RealBody(numeral, negative, d.flags, LeftOf(d), WidthOf(d)), LeftOf(d), WidthOf(d))
    ensures EngineFlags(d).left == LeftOf(d) && EngineFlags(d).zeropad == ('0' in d.flags)
    ensures EngineFlags(d).hash == ('#' in d.flags)
  {
    hide AmountValue;
  }

  lemma FractionLength(c: Components, q: nat, flags: Flags, tail: nat)
    requires q <= 17 && (q == 0 ==> tail == 0)
    ensures q == 0 || c.fractional < Power(10, q) ==> |Behind(c.fractional, q, flags, false, tail)| == q + tail
  {
    hide IntText, FracText, ShownDigits, Power;
    if q > 0 && c.fractional < Power(10, q) {
      ShownFraction(c.fractional, q, flags, false);
    }
  }

  /** The two sides of the point. */
  lemma Sides(c: Components, places: nat, flags: Flags) returns (whole: string, fraction: string)
    requires places <= 49
    ensures var q := ComputedPlaces(places);
            && DecimalText(c.integral, c.fractional, q, flags, false, Fill('0', places - q))
               == whole + (if places > 0 || flags.hash then "." else "") + fraction
            && whole == Whole(c.integral, c.fractional, q, flags, false, places - q)
            && fraction == Behind(c.fractional, q, flags, false, places - q)
    ensures places == 0 || c.fractional < Power(10, ComputedPlaces(places)) ==> |fraction| == places
  {
    hide DecimalText, Whole, Behind, IntText, Power;
    var q := ComputedPlaces(places);
    DecimalTextParts(c.integral, c.fractional, q, flags, false, places - q);
    FractionLength(c, q, flags, places - q);
    whole := Whole(c.integral, c.fractional, q, flags, false, places - q);
    fraction := Behind(c.fractional, q, flags, false, places - q);
  }

  lemma SidesDigits(c: Components, q: nat, flags: Flags, tail: nat)
    ensures AllDigits(Whole(c.integral, c.fractional, q, flags, false, tail))
    ensures AllDigits(Behind(c.fractional, q, flags, false, tail))
  {
    hide IntText;
    DecimalDigits(c.integral);
    DecimalDigits(c.fractional);
  }

  lemma DecimalDigits(n: nat)
    ensures AllDigits(IntText(n))
  {
    SpelledDenotes(n, 0);
    SpelledDigits(n, 10, false, "0123456789");
  }

  lemma FixedConverted(v: Double, exponential: Exponential, c: char, precision: nat, width: nat, flags: Flags, places: nat)
    requires (c == 'f' || c == 'F') && v.Finite? && v.magnitude <= 1000000000.0
    requires places <= 49 && places == if flags.precision then precision else 6
    ensures var q := ComputedPlaces(places);
            && q <= MAX_SUPPORTED_PRECISION && q == Limited(places) && v.product(q) >= 0.0 && v.magnitude >= 0.0
            && var c' := Split(v.magnitude, v.product(q), v.negative, q);
               var text := DecimalText(c'.integral, c'.fractional, q, flags, false, Fill('0', places - q));
               RealText(v, exponential, c, precision, width, flags)
               == Some(Emitted(DecimalBuffer(text, v.negative, width, flags), SignedWidth(v.negative, width, flags), flags))
  {
    hide IsFloat, Split, DecimalText, DecimalBuffer, Emitted, SignedWidth;
    PrintfFloat.ProductPositive(v, ComputedPlaces(places));
    MagnitudePositive(v);
  }

  /** When the field of a numeral comes out whole: the body fits 32 characters, or only a space among spaces is lost. */
  predicate RealConforms(d: Directive, numeral: string, negative: bool) {
    var body := RealBody(numeral, negative, d.flags, LeftOf(d), WidthOf(d));
    || |body| <= 32
    || (|body| == 33 && SignText(if negative then -1 else 1, 'd', d.flags) == " " && !LeftOf(d) && WidthOf(d) > 32
        && '0' !in d.flags)
  }

  lemma FixedField(d: Directive, c: Components, negative: bool, q: nat, tail: nat)
    ensures var text := DecimalText(c.integral, c.fractional, q, EngineFlags(d), false, Fill('0', tail));
            Emitted(DecimalBuffer(text, negative, WidthOf(d), EngineFlags(d)),
                    SignedWidth(negative, WidthOf(d), EngineFlags(d)), EngineFlags(d))
            == Padded(RealBody(text, negative, d.flags, LeftOf(d), WidthOf(d)), LeftOf(d), WidthOf(d))
            <==> RealConforms(d, text, negative)
  {
    var text := DecimalText(c.integral, c.fractional, q, EngineFlags(d), false, Fill('0', tail));
    hide DecimalText, DecimalBuffer, Emitted, SignedWidth, EngineFlags, WidthOf, LeftOf, DecimalBody, RealBody, Justified,
      Padded, Sign, SignText;
    RealBodyIs(d, negative, text);
    DecimalExactIff(c.integral, c.fractional, q, negative, WidthOf(d), EngineFlags(d), false, tail);
  }

  /**
   * Any f or F directive of up to 49 places, for any number of up to 10^9: the call puts out a numeral, with sign and
   * padding as the flags ask for, exactly when it conforms. The digits stand for the decimal of up to 17 places that
   * is nearest to the number, the even one of two, exactly when rounding the product keeps to it. A negative precision
   * from an argument asks for none, where the standard takes it as omitted.
   */
  lemma FixedDirective(d: Directive, v: Double, exponential: Exponential) returns (whole: string, fraction: string)
    requires Readable(d) && (d.c == 'f' || d.c == 'F') && PlacesOf(d) <= 49 && v.Finite? && v.magnitude <= 1000000000.0
    ensures var numeral := whole + (if PlacesOf(d) > 0 || '#' in d.flags then "." else "") + fraction;
            var call := Rendered("%" + DirectiveText(d),
                                 AmountArgs(d.width) + (PrecisionArgs(d.precision) + [Real(v, exponential)]));
            && call.Some?
            && (call == Some(Padded(RealBody(numeral, v.negative, d.flags, LeftOf(d), WidthOf(d)), LeftOf(d), WidthOf(d)))
                <==> RealConforms(d, numeral, v.negative))
    ensures var q := ComputedPlaces(PlacesOf(d));
            && v.product(q) >= 0.0
            && (Denotes(whole, fraction, RoundHalfEven(Times(v.magnitude, Power(10, q))), q)
                <==> (q > 0 ==> KeepsRounding(v.product(q), Rest(v.magnitude, q), q)))
            && (q == 0 || !(Tie(v.product(q)) && v.product(q).Floor == Power(10, q) - 1) ==> |fraction| == PlacesOf(d))
    ensures AllDigits(whole) && AllDigits(fraction)
  {
    hide *;
    var places, flags := PlacesOf(d), EngineFlags(d);
    var q := ComputedPlaces(places);
    FixedPlaces(d);
    RealConverted(d, v, exponential);
    FixedConverted(v, exponential, d.c, PrecisionOf(d), WidthOf(d), flags, places);
    OtherRendered(d, Real(v, exponential));
    var c := Split(v.magnitude, v.product(q), v.negative, q);
    whole, fraction := Sides(c, places, flags);
    PlacesShown(v, q);
    SidesDigits(c, q, flags, places - q);
    RealBodyIs(d, v.negative, "");
    FixedField(d, c, v.negative, q, places - q);
    FixedNearestIff(v, places, flags);
    PrintsIs(c, q, flags, places - q, RoundHalfEven(Times(v.magnitude, Power(10, q))));
  }

  /** The fraction has as many digits as there are places but at a tie behind nines. */
  lemma PlacesShown(v: Double, q: nat)
    requires v.Finite? && q <= 17 && v.product(q) >= 0.0 && v.magnitude >= 0.0
    ensures q > 0 && !(Tie(v.product(q)) && v.product(q).Floor == Power(10, q) - 1) ==>
              Split(v.magnitude, v.product(q), v.negative, q).fractional < Power(10, q)
  {
    hide IsDouble, IsProduct, Split, Power, Tie, Rest, Rounded;
    assert IsProduct(v.product(q), v.magnitude, q);
    if q > 0 {
      ProductInRange(v.magnitude, v.product(q), q);
      SplitUnits(v.magnitude, v.product(q), v.negative, q);
    }
  }

  lemma FixedPlaces(d: Directive)
    ensures PlacesOf(d) == if EngineFlags(d).precision then PrecisionOf(d) else 6
    ensures ComputedPlaces(PlacesOf(d)) <= PlacesOf(d) && ComputedPlaces(PlacesOf(d)) <= 17
    ensures ComputedPlaces(PlacesOf(d)) == 0 ==> PlacesOf(d) == 0
  {
    hide AmountValue;
  }

  lemma PrintsIs(c: Components, q: nat, flags: Flags, tail: nat, units: nat)
    ensures Prints(c, q, flags, false, tail, units)
       <==> Denotes(Whole(c.integral, c.fractional, q, flags, false, tail), Behind(c.fractional, q, flags, false, tail),
                    units, q)
  {
  }

  // ----- The whole format -----

  /** Text without a percent sign stands for itself. */
  lemma {:induction false} PlainText(s: string, format: string, args: seq<Arg>)
    requires '%' !in s && '\0' !in s
    ensures Rendered(format, args).Some? ==> Rendered(s + format, args) == Some(s + Rendered(format, args).value)
    ensures Rendered(format, args).None? ==> Rendered(s + format, args).None?
  {
    if s == "" {
      assert "" + format == format;
      assert Rendered(format, args).Some? ==> "" + Rendered(format, args).value == Rendered(format, args).value;
    } else {
      assert s[0] in s && (s + format)[1..] == s[1..] + format;
      PlainText(s[1..], format, args);
      if Rendered(format, args).Some? {
        var text := Rendered(format, args).value;
        assert s + text == [s[0]] + (s[1..] + text);
      }
    }
  }

  lemma RenderedBefore(text: string, args: seq<Arg>, scan: Scan)
    requires SpecRead(text, args) == Some(scan) && scan.rest != "" && Converted(scan).Some?
    requires Rendered(scan.rest[1..], ArgsLeft(scan)).Some?
    ensures Rendered("%" + text, args) == Some(Converted(scan).value + Rendered(scan.rest[1..], ArgsLeft(scan)).value)
  {
    hide SpecRead, Converted, ArgsLeft;
    assert ("%" + text)[1..] == text;
  }

  lemma PercentRead(format: string, args: seq<Arg>)
    ensures var scan := Scan(NO_FLAGS, 0, 0, NoLength, "%" + format, args);
            && SpecRead("%" + format, args) == Some(scan) && Converted(scan) == Some("%") && ArgsLeft(scan) == args
            && scan.rest != "" && scan.rest[1..] == format
  {
    hide RealText, IntegerField;
  }

  /** Two percent signs stand for one. */
  lemma PercentSign(format: string, args: seq<Arg>)
    requires Rendered(format, args).Some?
    ensures Rendered("%%" + format, args) == Some("%" + Rendered(format, args).value)
  {
    hide *;
    PercentRead(format, args);
    var scan := Scan(NO_FLAGS, 0, 0, NoLength, "%" + format, args);
    RenderedBefore("%" + format, args, scan);
    assert "%" + ("%" + format) == "%%" + format;
  }

  lemma OneScan(scan: Scan, rest: string, args: seq<Arg>)
    requires |scan.rest| == 1 && IsConversion(scan.rest[0]) && |scan.args| == 1
    ensures var more := scan.(rest := scan.rest + rest, args := scan.args + args);
            Converted(more) == Converted(scan) && ArgsLeft(more) == args && more.rest[1..] == rest && more.rest != ""
  {
    hide IntegerField, Emitted, Justified, ValueOf, IntegerFlags, RealText;
  }

  lemma RenderedDirective(text: string, args: seq<Arg>, scan: Scan)
    requires SpecRead(text, args) == Some(scan) && Rendered("%" + text, args).Some?
    ensures Converted(scan).Some?
  {
    hide SpecRead, Converted;
    assert ("%" + text)[1..] == text;
  }

  /** Directives are taken one after the other, each with its own arguments. */
  lemma OneByOne(d: Directive, arg: Arg, format: string, args: seq<Arg>)
    requires var own := AmountArgs(d.width) + (PrecisionArgs(d.precision) + [arg]);
             Readable(d) && Rendered("%" + DirectiveText(d), own).Some? && Rendered(format, args).Some?
    ensures var own := AmountArgs(d.width) + (PrecisionArgs(d.precision) + [arg]);
            Rendered("%" + (DirectiveText(d) + format), own + args)
            == Some(Rendered("%" + DirectiveText(d), own).value + Rendered(format, args).value)
  {
    hide *;
    var own := AmountArgs(d.width) + (PrecisionArgs(d.precision) + [arg]);
    var scan := OtherScan(d, arg);
    OtherScanIs(d, arg);
    TextBefore(d, "");
    DirectiveReadBack(d, [arg], "");
    RenderedDirective(DirectiveText(d), own, scan);
    OtherRendered(d, arg);
    OneScan(scan, format, args);
    DirectiveReadBack(d, [arg] + args, format);
    assert own + args == AmountArgs(d.width) + (PrecisionArgs(d.precision) + ([arg] + args));
    RenderedBefore(DirectiveText(d) + format, own + args, scan.(rest := scan.rest + format, args := scan.args + args));
  }

  lemma OtherScanIs(d: Directive, arg: Arg)
    requires Readable(d)
    ensures OtherScan(d, arg) == Scan(EngineFlags(d), WidthOf(d), PrecisionOf(d), LengthOf(d.length), [d.c], [arg])
    ensures IsConversion(d.c)
  {
  }
}
