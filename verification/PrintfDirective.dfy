// Integer directives as text: whatever flags, width, precision and length are
// written, the engine puts out the field ISO/IEC 9899:2011 section 7.21.6.1
// asks for, exactly when it fits the scratch buffer.

module PrintfDirective {
  import opened PrintfField
  import opened PrintfFormat
  import opened PrintfStandard
  import opened Common

  predicate AllDigits(s: string) {
    forall i :: 0 <= i < |s| ==> '0' <= s[i] <= '9'
  }

  predicate AllFlags(s: string) {
    forall i :: 0 <= i < |s| ==> s[i] == '0' || s[i] == '-' || s[i] == '+' || s[i] == ' ' || s[i] == '#'
  }

  /** The flags named somewhere in `fs`. */
  function FlagsNamed(fs: string, f: Flags): Flags {
    f.(zeropad := f.zeropad || '0' in fs, left := f.left || '-' in fs, plus := f.plus || '+' in fs,
       space := f.space || ' ' in fs, hash := f.hash || '#' in fs)
  }

  /** Flags in any order and number. */
  lemma {:induction false} FlagsReadBack(fs: string, t: string, f: Flags)
    requires AllFlags(fs) && !IsFlag(Cur(t))
    ensures FlagsRead(fs + t, f) == (FlagsNamed(fs, f), t)
  {
    if fs == "" {
      assert fs + t == t;
    } else {
      assert (fs + t)[1..] == fs[1..] + t;
      assert AllFlags(fs[1..]);
      FlagsReadBack(fs[1..], t, WithFlag(f, fs[0]));
      FlagsStep(fs, f);
      assert FlagsRead(fs + t, f) == FlagsRead(fs[1..] + t, WithFlag(f, fs[0]));
    }
  }

  lemma FlagsStep(fs: string, f: Flags)
    requires fs != "" && IsFlag(fs[0])
    ensures FlagsNamed(fs[1..], WithFlag(f, fs[0])) == FlagsNamed(fs, f)
  {
    assert fs == [fs[0]] + fs[1..];
    assert forall c :: c in fs <==> c == fs[0] || c in fs[1..];
  }

  function Folded(s: string, n: nat): nat {
    if s == "" then n else (Folded(s[..|s| - 1], n) * 10 + DigitValue(s[|s| - 1])) % 0x1_0000_0000
  }

  lemma {:induction false} FoldedFirst(s: string, n: nat)
    requires s != ""
    ensures Folded(s, n) == Folded(s[1..], (n * 10 + DigitValue(s[0])) % 0x1_0000_0000)
  {
    if |s| == 1 {
      assert s[..0] == "" && s[1..] == "";
    } else {
      var init := s[..|s| - 1];
      FoldedFirst(init, n);
      assert init[1..] == s[1..][..|s[1..]| - 1];
    }
  }

  lemma {:induction false} NumberReadBack(s: string, t: string, n: nat)
    requires AllDigits(s) && !IsDigit(Cur(t))
    ensures NumberRead(s + t, n) == (Folded(s, n), t)
  {
    if s == "" {
      assert s + t == t;
    } else {
      assert (s + t)[1..] == s[1..] + t;
      assert AllDigits(s[1..]);
      FoldedFirst(s, n);
      NumberReadBack(s[1..], t, (n * 10 + (s[0] as int - '0' as int)) % 0x1_0000_0000);
    }
  }

  lemma ModStep(a: nat, d: nat)
    ensures (a % 0x1_0000_0000 * 10 + d) % 0x1_0000_0000 == (a * 10 + d) % 0x1_0000_0000
  {
    var q := a / 0x1_0000_0000;
    assert a * 10 + d == a % 0x1_0000_0000 * 10 + d + 0x1_0000_0000 * (q * 10);
  }

  /** A digit string reads as its value, reduced to 32 bits. */
  lemma {:induction false} FoldedValue(s: string)
    ensures Folded(s, 0) == Denoted(s, 10) % 0x1_0000_0000
  {
    if s != "" {
      FoldedValue(s[..|s| - 1]);
      ModStep(Denoted(s[..|s| - 1], 10), DigitValue(s[|s| - 1]));
    }
  }

  // ----- A directive and its text -----

  /** A width or precision: digits in the format, or a star and the argument that goes with it. */
  datatype Amount = Written(digits: string) | Star(arg: int)

  /** A width of no digits is no width. */
  datatype Directive = Directive(flags: string, width: Amount, precision: Option<Amount>, length: string, c: char)

  function AmountText(a: Amount): string {
    match a
    case Written(digits) => digits
    case Star(_) => "*"
  }

  function AmountArgs(a: Amount): seq<Arg> {
    match a
    case Written(_) => []
    case Star(arg) => [Number(arg)]
  }

  /** The amount as the `int` or number it is. */
  function AmountValue(a: Amount): int {
    match a
    case Written(digits) => Denoted(digits, 10) % 0x1_0000_0000
    case Star(arg) => AsSigned(arg, 0x8000_0000)
  }

  function PrecisionText(ps: Option<Amount>): string {
    if ps.None? then "" else "." + AmountText(ps.value)
  }

  function PrecisionArgs(ps: Option<Amount>): seq<Arg> {
    if ps.None? then [] else AmountArgs(ps.value)
  }

  /** The text behind the percent sign. */
  function DirectiveText(d: Directive): string {
    d.flags + (AmountText(d.width) + (PrecisionText(d.precision) + (d.length + [d.c])))
  }

  function DirectiveArgs(d: Directive, v: int): seq<Arg> {
    AmountArgs(d.width) + (PrecisionArgs(d.precision) + [Number(v)])
  }

  predicate IsStandardInteger(c: char) {
    c == 'd' || c == 'i' || c == 'u' || c == 'o' || c == 'x' || c == 'X'
  }

  predicate IsLength(ls: string) {
    ls == "" || ls == "hh" || ls == "h" || ls == "l" || ls == "ll" || ls == "j" || ls == "z" || ls == "t"
  }

  function LengthOf(ls: string): Length {
    if ls == "hh" then Char else if ls == "h" then Short
    else if ls == "ll" || ls == "j" then LongLong
    else if ls == "l" || ls == "z" || ls == "t" then Long
    else NoLength
  }

  predicate IsAmount(a: Amount) {
    a.Written? ==> AllDigits(a.digits)
  }

  /** An integer, floating-point, character, text or pointer conversion. */
  predicate IsConversion(c: char) {
    || IsStandardInteger(c) || c == 'c' || c == 's' || c == 'p'
    || c == 'f' || c == 'F' || c == 'e' || c == 'E' || c == 'g' || c == 'G'
  }

  /** A width starts with no zero: that would be a flag. */
  predicate Readable(d: Directive) {
    && AllFlags(d.flags) && IsAmount(d.width) && (d.width.Written? && d.width.digits != "" ==> d.width.digits[0] != '0')
    && (d.precision.Some? ==> IsAmount(d.precision.value))
    && IsLength(d.length) && IsConversion(d.c)
  }

  predicate WellFormed(d: Directive) {
    Readable(d) && IsStandardInteger(d.c)
  }

  // ----- What the standard makes of it -----

  /** A negative width is a `-` flag and a width. */
  function WidthOf(d: Directive): nat {
    Magnitude(AmountValue(d.width))
  }

  predicate NegativePrecision(d: Directive) {
    d.precision.Some? && AmountValue(d.precision.value) < 0
  }

  function PrecisionOf(d: Directive): nat {
    if d.precision.None? || NegativePrecision(d) then 0 else AmountValue(d.precision.value)
  }

  /** A negative precision is taken as if it were omitted. */
  function StandardFlags(d: Directive): Flags {
    var f := FlagsNamed(d.flags, NO_FLAGS);
    f.(left := f.left || AmountValue(d.width) < 0, precision := d.precision.Some? && !NegativePrecision(d))
  }

  /** The engine takes it as a precision of zero. */
  function EngineFlags(d: Directive): Flags {
    StandardFlags(d).(precision := d.precision.Some?)
  }

  // ----- Reading it back -----

  lemma LengthReadBack(scan: Scan, ls: string, t: string)
    requires scan.rest == ls + t && IsLength(ls) && t != "" && IsConversion(t[0]) && scan.length == NoLength
    ensures LengthRead(scan) == scan.(length := LengthOf(ls), rest := t)
  {
    if ls == "" {
      assert scan.rest == t;
    } else if |ls| == 1 {
      assert scan.rest[1..] == t;
    } else {
      assert scan.rest[1] == ls[1] && scan.rest[2..] == t;
    }
  }

  /** Neither a flag nor a digit nor anything else that belongs further left. */
  predicate Further(t: string) {
    !IsDigit(Cur(t)) && Cur(t) != '*' && !IsFlag(Cur(t))
  }

  lemma AmountAhead(a: Amount, t: string)
    requires IsAmount(a) && !IsDigit(Cur(t))
    ensures a.Star? ==> Cur(AmountText(a) + t) == '*' && (AmountText(a) + t)[1..] == t
    ensures a.Written? && a.digits != "" ==> IsDigit(Cur(AmountText(a) + t))
    ensures a.Written? && a.digits == "" ==> AmountText(a) + t == t
    ensures a.Written? ==> NumberRead(AmountText(a) + t, 0) == (AmountValue(a), t)
  {
    match a {
      case Star(_) =>
        assert ("*" + t)[1..] == t;
      case Written(digits) =>
        NumberReadBack(digits, t, 0);
        FoldedValue(digits);
        if digits == "" {
          assert digits + t == t;
        } else {
          assert Cur(digits + t) == digits[0];
        }
    }
  }

  lemma PrecisionWritten(scan: Scan, digits: string, t: string)
    requires scan.rest == "." + (digits + t) && AllDigits(digits) && scan.precision == 0
    requires Further(t)
    ensures PrecisionRead(scan)
         == Some(scan.(flags := scan.flags.(precision := true), precision := AmountValue(Written(digits)), rest := t))
  {
    AmountAhead(Written(digits), t);
    hide NumberRead, Denoted;
    assert scan.rest[1..] == digits + t;
    if digits == "" {
      assert AmountValue(Written(digits)) == 0 by { NothingWritten(); }
    }
  }

  lemma NothingWritten()
    ensures AmountValue(Written("")) == 0
  {
  }

  lemma PrecisionStarred(scan: Scan, arg: int, t: string, args: seq<Arg>)
    requires scan.rest == "." + ("*" + t) && scan.args == [Number(arg)] + args
    ensures var p := AmountValue(Star(arg));
            PrecisionRead(scan)
            == Some(scan.(flags := scan.flags.(precision := true), precision := if p < 0 then 0 else p, rest := t,
                          args := args))
  {
    hide NumberRead, AsSigned;
    assert scan.rest[1..] == "*" + t && ("*" + t)[1..] == t;
    assert scan.args[0] == Number(arg) && scan.args[1..] == args;
  }

  lemma PrecisionReadBack(scan: Scan, ps: Option<Amount>, t: string, args: seq<Arg>)
    requires scan.rest == PrecisionText(ps) + t && scan.args == PrecisionArgs(ps) + args
    requires scan.precision == 0 && !scan.flags.precision
    requires Further(t) && Cur(t) != '.' && (ps.Some? ==> IsAmount(ps.value))
    ensures var p := if ps.None? || AmountValue(ps.value) < 0 then 0 else AmountValue(ps.value);
            PrecisionRead(scan)
            == Some(scan.(flags := scan.flags.(precision := ps.Some?), precision := p, rest := t, args := args))
  {
    match ps {
      case None =>
        assert scan.rest == t && scan.args == args;
      case Some(Written(digits)) =>
        hide PrecisionRead, AmountValue, Further;
        assert scan.rest == "." + (digits + t) && scan.args == args;
        PrecisionWritten(scan, digits, t);
        WrittenPositive(digits);
      case Some(Star(arg)) =>
        hide PrecisionRead, AmountValue, Further;
        assert scan.rest == "." + ("*" + t);
        PrecisionStarred(scan, arg, t, args);
    }
  }

  lemma WrittenPositive(digits: string)
    ensures AmountValue(Written(digits)) >= 0
  {
  }

  lemma WidthReadBack(scan: Scan, a: Amount, t: string, args: seq<Arg>)
    requires scan.rest == AmountText(a) + t && scan.args == AmountArgs(a) + args && scan.width == 0
    requires IsAmount(a) && Further(t)
    ensures WidthRead(scan)
         == Some(scan.(flags := scan.flags.(left := scan.flags.left || AmountValue(a) < 0),
                       width := Magnitude(AmountValue(a)), rest := t, args := args))
  {
    AmountAhead(a, t);
    assert a.Star? ==> scan.args[0] == Number(a.arg) && scan.args[1..] == args;
    assert a.Written? ==> scan.args == args && AmountValue(a) >= 0;
    assert a.Written? && a.digits == "" ==> AmountValue(a) == 0;
    hide NumberRead, AmountText, Denoted;
  }

  lemma NextCharacters(d: Directive, rest: string)
    requires Readable(d)
    ensures var behind := d.length + ([d.c] + rest);
            var t := PrecisionText(d.precision) + behind;
            Further(behind) && Cur(behind) != '.' && Further(t) && !IsFlag(Cur(AmountText(d.width) + t))
  {
  }

  /** What the engine reads off the text of a directive, whatever comes behind it. */
  lemma DirectiveReadBack(d: Directive, args: seq<Arg>, rest: string)
    requires Readable(d)
    ensures SpecRead(DirectiveText(d) + rest, AmountArgs(d.width) + (PrecisionArgs(d.precision) + args))
         == Some(Scan(EngineFlags(d), WidthOf(d), PrecisionOf(d), LengthOf(d.length), [d.c] + rest, args))
  {
    hide FlagsRead, WidthRead, PrecisionRead, LengthRead, AmountValue, AmountText, PrecisionText,
      AmountArgs, PrecisionArgs, LengthOf, DirectiveText;
    var last := d.length + ([d.c] + rest);
    var t := PrecisionText(d.precision) + last;
    var flags := FlagsNamed(d.flags, NO_FLAGS);
    var behind := PrecisionArgs(d.precision) + args;
    var scan := Scan(flags, 0, 0, NoLength, AmountText(d.width) + t, AmountArgs(d.width) + behind);
    var wide := Scan(flags.(left := flags.left || AmountValue(d.width) < 0), WidthOf(d), 0, NoLength, t, behind);
    var precise := Scan(EngineFlags(d), WidthOf(d), PrecisionOf(d), NoLength, last, args);
    TextBefore(d, rest);
    NextCharacters(d, rest);
    FlagsReadBack(d.flags, AmountText(d.width) + t, NO_FLAGS);
    WidthReadBack(scan, d.width, t, behind);
    PrecisionReadBack(wide, d.precision, last, args);
    LengthReadBack(precise, d.length, [d.c] + rest);
  }

  lemma TextBefore(d: Directive, rest: string)
    ensures DirectiveText(d) + rest
         == d.flags + (AmountText(d.width) + (PrecisionText(d.precision) + (d.length + ([d.c] + rest))))
    ensures DirectiveText(d) + "" == DirectiveText(d) && [d.c] + "" == [d.c]
  {
    hide AmountText, PrecisionText;
  }

  // ----- Converting it -----

  lemma IntegerPrepared(flags: Flags, precision: nat, length: Length, c: char, v: int)
    requires IsStandardInteger(c) && (!flags.precision ==> precision == 0) && !flags.pointer
    ensures var value := ValueOf(v, c, length);
            Prepared(Magnitude(value), value < 0, BaseOf(c), precision, IntegerFlags(flags, c))
  {
    assert -HalfRange(length) <= AsSigned(v, HalfRange(length)) < HalfRange(length);
    assert 0 <= v % (2 * HalfRange(length)) < 2 * HalfRange(length);
  }

  lemma NumeralOmitted(mag: nat, base: nat, flags: Flags)
    requires 2 <= base <= 16 && !flags.precision
    ensures var s, e := Numeral(mag, base, 0, flags), Numeral(mag, base, 0, flags.(precision := true, zeropad := false));
            if mag != 0 || (base == BASE_OCTAL && flags.hash) then s == e else s == "0" && e == ""
  {
    DigitsDenote(mag, base, flags.uppercase);
    hide Digits, Denoted;
    if mag == 0 {
      assert Fill('0', 1) + "" == "0";
    }
  }

  lemma ZeroFillShows(lead: string, numeral: string, zeros: int, width: nat, left: bool)
    requires lead == " " || (lead != "" ==> lead[0] != ' ')
    requires zeros > 0 ==> !left && zeros == width - |lead| - |numeral|
    ensures Justified(lead + Fill('0', 0) + numeral, width, left)
         == Justified(lead + Fill('0', zeros) + numeral, width, left)
        <==> zeros <= 0
  {
    if zeros > 0 {
      var filled := Justified(lead + Fill('0', zeros) + numeral, width, left);
      var spaced := Justified(lead + Fill('0', 0) + numeral, width, left);
      var at := if lead == " " then 1 else 0;
      assert spaced[at] == ' ' && filled[at] != ' ';
    } else {
      assert Fill('0', zeros) == Fill('0', 0);
    }
  }

  lemma MissingZeroShows(sign: string, zeros: int, width: nat, left: bool)
    requires |sign| <= 1 && (sign != "" ==> sign[0] != '0')
    ensures Justified(sign + Fill('0', 0), width, left) != Justified(sign + Fill('0', zeros) + "0", width, left)
  {
    var shown := Justified(sign + Fill('0', zeros) + "0", width, left);
    var missing := Justified(sign + Fill('0', 0), width, left);
    if |shown| == |missing| {
      var at := if left then |sign| else width - 1;
      assert shown[at] == '0' && missing[at] != '0';
    }
  }

  lemma LeadFacts(mag: nat, negative: bool, base: nat, width: nat, flags: Flags)
    requires Prepared(mag, negative, base, 0, flags) && !flags.precision
    ensures var engine := flags.(precision := true, zeropad := false);
            var sign := Sign(negative, flags);
            var lead := sign + Prefix(mag, base, flags);
            var n, m := Numeral(mag, base, 0, flags), Numeral(mag, base, 0, engine);
            var zeros := if flags.zeropad && !flags.left then width - |lead| - |n| else 0;
            && |sign| <= 1 && (sign != "" ==> sign[0] != '0') && (mag == 0 ==> lead == sign)
            && (lead == " " || (lead != "" ==> lead[0] != ' '))
            && StandardField(mag, negative, base, 0, width, flags)
               == Justified(lead + Fill('0', zeros) + n, width, flags.left)
            && StandardField(mag, negative, base, 0, width, engine) == Justified(lead + Fill('0', 0) + m, width, flags.left)
            && |Body(mag, negative, base, 0, width, engine)| == |lead| + |m| && 8 <= base <= 16
  {
    hide Numeral, Justified;
    assert Sign(negative, flags) + "" == Sign(negative, flags);
  }

  /** A precision of zero in place of an omitted one shows in a zero value and in zero padding. */
  lemma NegativePrecisionIff(mag: nat, negative: bool, base: nat, width: nat, flags: Flags)
    requires Prepared(mag, negative, base, 0, flags) && !flags.precision
    ensures var engine := flags.(precision := true, zeropad := false);
            StandardField(mag, negative, base, 0, width, engine) == StandardField(mag, negative, base, 0, width, flags)
            <==> && (mag != 0 || (base == BASE_OCTAL && flags.hash))
                 && (!flags.zeropad || flags.left || width <= |Body(mag, negative, base, 0, width, engine)|)
  {
    hide *;
    LeadFacts(mag, negative, base, width, flags);
    var sign := Sign(negative, flags);
    var lead := sign + Prefix(mag, base, flags);
    var n := Numeral(mag, base, 0, flags);
    var zeros := if flags.zeropad && !flags.left then width - |lead| - |n| else 0;
    NumeralOmitted(mag, base, flags);
    if mag != 0 || (base == BASE_OCTAL && flags.hash) {
      ZeroFillShows(lead, n, zeros, width, flags.left);
    } else {
      MissingZeroShows(sign, zeros, width, flags.left);
      assert sign + Fill('0', 0) + "" == sign + Fill('0', 0);
    }
  }

  /** When the engine's field is the standard's, in the engine's words. */
  predicate Agrees(d: Directive, v: int)
    requires IsStandardInteger(d.c)
  {
    var value := ValueOf(v, d.c, LengthOf(d.length));
    var mag, neg, base := Magnitude(value), value < 0, BaseOf(d.c);
    var flags := IntegerFlags(StandardFlags(d), d.c);
    if NegativePrecision(d) then
      && (mag != 0 || (base == BASE_OCTAL && flags.hash))
      && (!flags.zeropad || flags.left
          || WidthOf(d) <= |Body(mag, neg, base, 0, WidthOf(d), IntegerFlags(EngineFlags(d), d.c))|)
    else
      || Fits(mag, neg, base, PrecisionOf(d), WidthOf(d), flags)
      || LostSpace(mag, neg, base, PrecisionOf(d), WidthOf(d), flags)
  }

  lemma ScanConverts(flags: Flags, width: nat, precision: nat, length: Length, c: char, v: int)
    requires IsStandardInteger(c) && (!flags.precision ==> precision == 0) && !flags.pointer
    ensures var scan := Scan(flags, width, precision, length, [c], [Number(v)]);
            var value := ValueOf(v, c, length);
            var mag, neg, f := Magnitude(value), value < 0, IntegerFlags(flags, c);
            && Converted(scan).Some?
            && (Converted(scan) == Some(StandardField(mag, neg, BaseOf(c), precision, width, f))
                <==> Fits(mag, neg, BaseOf(c), precision, width, f)
                     || LostSpace(mag, neg, BaseOf(c), precision, width, f))
  {
    ConvertedInteger(flags, width, precision, length, c, v);
    hide *;
    IntegerPrepared(flags, precision, length, c, v);
    var value := ValueOf(v, c, length);
    FieldExactIff(Magnitude(value), value < 0, BaseOf(c), precision, width, IntegerFlags(flags, c));
  }

  lemma ConvertedInteger(flags: Flags, width: nat, precision: nat, length: Length, c: char, v: int)
    requires IsStandardInteger(c)
    ensures var value := ValueOf(v, c, length);
            8 <= BaseOf(c) <= 16 &&
            Converted(Scan(flags, width, precision, length, [c], [Number(v)]))
            == Some(IntegerField(Magnitude(value), value < 0, BaseOf(c), precision, width, IntegerFlags(flags, c)))
  {
    hide IntegerField, ValueOf, IntegerFlags, Magnitude;
  }

  lemma OneDirective(text: string, args: seq<Arg>, scan: Scan)
    requires SpecRead(text, args) == Some(scan) && |scan.rest| == 1 && Converted(scan).Some?
    ensures Rendered("%" + text, args) == Converted(scan)
  {
    hide SpecRead, Converted;
    assert ("%" + text)[1..] == text;
    var field := Converted(scan).value;
    assert Rendered("", ArgsLeft(scan)) == Some("");
    assert scan.rest[1..] == "" && field + "" == field;
  }

  /** What the engine has read by the time it comes to the conversion. */
  function ScanOf(d: Directive, v: int): Scan {
    Scan(EngineFlags(d), WidthOf(d), PrecisionOf(d), LengthOf(d.length), [d.c], [Number(v)])
  }

  lemma DirectiveArgsAre(d: Directive, v: int)
    requires WellFormed(d)
    ensures Readable(d) && IsStandardInteger(d.c)
    ensures DirectiveArgs(d, v) == AmountArgs(d.width) + (PrecisionArgs(d.precision) + [Number(v)])
    ensures ScanOf(d, v) == Scan(EngineFlags(d), WidthOf(d), PrecisionOf(d), LengthOf(d.length), [d.c], [Number(v)])
    ensures |ScanOf(d, v).rest| == 1
  {
  }

  lemma FlagFacts(d: Directive)
    requires IsStandardInteger(d.c)
    ensures var standard, engine := StandardFlags(d), EngineFlags(d);
            var f, e := IntegerFlags(standard, d.c), IntegerFlags(engine, d.c);
            && !standard.pointer && !engine.pointer && 8 <= BaseOf(d.c) <= 16
            && (!standard.precision ==> PrecisionOf(d) == 0) && (!engine.precision ==> PrecisionOf(d) == 0)
            && (if NegativePrecision(d) then
                  !f.precision && PrecisionOf(d) == 0 && e.precision && e == f.(precision := true, zeropad := false)
                else e == f)
  {
    hide AmountValue;
  }

  /** At most 22 digits, a zero for octal, and a prefix or a sign. */
  lemma NoPrecisionFits(mag: nat, negative: bool, base: nat, width: nat, flags: Flags)
    requires Prepared(mag, negative, base, 0, flags) && flags.precision
    ensures Fits(mag, negative, base, 0, width, flags)
  {
    ReversedDigits(mag, base, 0, flags);
    hide Precise, ScratchDigits;
    assert |Reversed(Precise(mag, base, 0, flags))| == |ScratchDigits(mag, base, flags)| + 0;
  }

  // ----- The engine's words and the standard's -----

  lemma AlphabetIs(c: char)
    requires IsStandardInteger(c)
    ensures 2 <= BaseOf(c) <= 16 && |Alphabet(c)| == BaseOf(c)
    ensures forall d: nat | d < BaseOf(c) :: Alphabet(c)[d] == DigitChar(d, c == 'X')
  {
  }

  lemma {:induction false} SpelledDigits(n: nat, base: nat, uppercase: bool, a: string)
    requires 2 <= base <= 16 && |a| == base && forall d: nat | d < base :: a[d] == DigitChar(d, uppercase)
    ensures Reversed(Digits(n, base, uppercase)) == Spelled(n, a)
  {
    if n > 0 {
      DivMod(n, base);
      QuotientSmaller(n, n / base, base, n % base);
      SpelledDigits(n / base, base, uppercase, a);
      LastDigit(n, n / base, n % base, base, uppercase, a);
    }
  }

  lemma LastDigit(n: nat, q: nat, r: nat, base: nat, uppercase: bool, a: string)
    requires 2 <= base <= 16 && |a| == base && r < base && a[r] == DigitChar(r, uppercase)
    requires n > 0 && q == n / base && r == n % base
    ensures Reversed(Digits(n, base, uppercase)) == Reversed(Digits(q, base, uppercase)) + [a[r]]
    ensures Spelled(n, a) == Spelled(q, a) + [a[r]]
  {
    RevAppend([a[r]], Digits(q, base, uppercase));
    hide DigitChar;
  }

  /** The engine's flags say what the characters of the directive do. */
  predicate Carries(f: Flags, fs: string, c: char, left: bool, precision: Option<nat>) {
    f == Flags('0' in fs && precision.None?, left, '+' in fs && (c == 'd' || c == 'i'), ' ' in fs && (c == 'd' || c == 'i'),
               '#' in fs && (c == 'o' || c == 'x' || c == 'X'), c == 'X', precision.Some?, false)
  }

  function OrZero(precision: Option<nat>): nat {
    if precision.Some? then precision.value else 0
  }

  lemma NumberIs(value: int, c: char, fs: string, left: bool, precision: Option<nat>, f: Flags)
    requires IsStandardInteger(c) && Carries(f, fs, c, left, precision)
    ensures 2 <= BaseOf(c) <= 16
    ensures Numeral(Absolute(value), BaseOf(c), OrZero(precision), f) == NumberText(value, c, fs, precision)
  {
    AlphabetIs(c);
    SpelledDigits(Absolute(value), BaseOf(c), c == 'X', Alphabet(c));
    hide Alphabet, Digits, Spelled, Absolute;
  }

  lemma LeadIs(value: int, c: char, fs: string, left: bool, precision: Option<nat>, f: Flags)
    requires IsStandardInteger(c) && Carries(f, fs, c, left, precision) && (value < 0 ==> c == 'd' || c == 'i')
    ensures Sign(value < 0, f) == SignText(value, c, fs)
    ensures Sign(value < 0, f) + Prefix(Absolute(value), BaseOf(c), f) == LeadText(value, c, fs)
  {
  }

  /** The two definitions of the standard's field are one. */
  lemma FieldIs(value: int, c: char, fs: string, left: bool, width: nat, precision: Option<nat>, f: Flags)
    requires IsStandardInteger(c) && Carries(f, fs, c, left, precision) && (value < 0 ==> c == 'd' || c == 'i')
    ensures 2 <= BaseOf(c) <= 16
    ensures Body(Absolute(value), value < 0, BaseOf(c), OrZero(precision), width, f)
         == BodyText(value, c, fs, left, width, precision)
    ensures StandardField(Absolute(value), value < 0, BaseOf(c), OrZero(precision), width, f)
         == FieldText(value, c, fs, left, width, precision)
  {
    NumberIs(value, c, fs, left, precision, f);
    LeadIs(value, c, fs, left, precision, f);
    hide Numeral, NumberText, LeadText, Sign, Prefix, Absolute, BaseOf, IsStandardInteger;
  }

  lemma NoMultiple(a: nat, r: nat, m: nat, t: int)
    requires a < m && r < m && r - a == m * t
    ensures a == r
  {
    if t >= 1 {
      MulMonotone(m, m, 1, t);
    } else if t <= -1 {
      MulMonotone(m, m, 1, -t);
    }
  }

  lemma Quotient(x: int, m: nat)
    requires m > 0
    ensures x == m * (x / m) + x % m
  {
  }

  lemma Residue(x: int, r: nat, m: nat)
    requires r < m && (r - x) % m == 0
    ensures x % m == r
  {
    Quotient(r - x, m);
    Quotient(x, m);
    var k, q := (r - x) / m, x / m;
    assert m * (k + q) == m * k + m * q;
    NoMultiple(x % m, r, m, k + q);
  }

  lemma SignedIs(value: int, v: int, half: int)
    requires half > 0 && (value - v) % (2 * half) == 0 && -half <= value < half
    ensures AsSigned(v, half) == value
  {
    assert (value + half) - (v + half) == value - v;
    Residue(v + half, value + half, 2 * half);
  }

  /** The value of the argument is what the engine takes it for. */
  lemma ValueIs(value: int, v: int, length: string, c: char)
    requires IsValue(value, v, length, c) && IsLength(length)
    ensures ValueOf(v, c, LengthOf(length)) == value
  {
    var half := HalfRange(LengthOf(length));
    assert TwoTo(Bits(length)) == 2 * half && half > 0;
    hide HalfRange, TwoTo, AsSigned, IsLength, LengthOf, Bits;
    if c == 'd' || c == 'i' {
      SignedIs(value, v, half);
    } else {
      Residue(v, value, 2 * half);
    }
  }

  lemma {:induction false} ZerosAmount(zeros: nat)
    ensures Denoted(Fill('0', zeros), 10) == 0
  {
    if zeros > 0 {
      assert Fill('0', zeros)[..zeros - 1] == Fill('0', zeros - 1);
      ZerosAmount(zeros - 1);
    }
  }

  lemma DecimalStep(s: string, front: string, d: nat)
    requires d < 10
    ensures var c := "0123456789"[d]; Denoted(s + (front + [c]), 10) == Denoted(s + front, 10) * 10 + d
    ensures AllDigits(front) ==> AllDigits(front + ["0123456789"[d]])
  {
    DecimalDigit(d);
    hide DigitValue, Denoted;
    var c := "0123456789"[d];
    DenotedStep(s + front, c, 10);
    assert s + (front + [c]) == s + front + [c];
  }

  lemma DecimalDigit(d: nat)
    requires d < 10
    ensures DigitValue("0123456789"[d]) == d && '0' <= "0123456789"[d] <= '9'
  {
  }

  lemma {:induction false} SpelledDenotes(n: nat, zeros: nat)
    ensures Denoted(Fill('0', zeros) + Spelled(n, "0123456789"), 10) == n
    ensures AllDigits(Spelled(n, "0123456789"))
  {
    var s := Fill('0', zeros);
    if n == 0 {
      ZerosAmount(zeros);
      assert s + "" == s;
    } else {
      SpelledDenotes(n / 10, zeros);
      DecimalStep(s, Spelled(n / 10, "0123456789"), n % 10);
      hide Denoted, AllDigits, Fill;
      assert |"0123456789"| == 10;
    }
  }

  /**
   * A width or precision written as a decimal numeral, with any zeros before it, is that number in 32 bits; one from
   * an argument is the argument as an `int`.
   */
  lemma AmountsRead(n: nat, zeros: nat, arg: int, value: int)
    requires IsValue(value, arg, "", 'd')
    ensures AmountValue(Written(Fill('0', zeros) + Spelled(n, "0123456789"))) == n % 0x1_0000_0000
    ensures IsAmount(Written(Fill('0', zeros) + Spelled(n, "0123456789")))
    ensures AmountValue(Star(arg)) == value
  {
    SpelledDenotes(n, zeros);
    hide Denoted, Spelled;
  }

  lemma DirectiveConverts(d: Directive, v: int)
    requires IsStandardInteger(d.c)
    ensures var value := ValueOf(v, d.c, LengthOf(d.length));
            var flags := IntegerFlags(StandardFlags(d), d.c);
            && 8 <= BaseOf(d.c) <= 16 && Converted(ScanOf(d, v)).Some?
            && (Converted(ScanOf(d, v))
                == Some(StandardField(Magnitude(value), value < 0, BaseOf(d.c), PrecisionOf(d), WidthOf(d), flags))
                <==> Agrees(d, v))
  {
    var width, precision, length := WidthOf(d), PrecisionOf(d), LengthOf(d.length);
    var value := ValueOf(v, d.c, length);
    var mag, neg, base := Magnitude(value), value < 0, BaseOf(d.c);
    var flags, engine := IntegerFlags(StandardFlags(d), d.c), IntegerFlags(EngineFlags(d), d.c);
    hide WidthOf, PrecisionOf, LengthOf, ValueOf, Magnitude, BaseOf, IntegerFlags, StandardFlags, EngineFlags,
      Converted, StandardField, Fits, LostSpace, Prepared, NegativePrecision, Body, IsStandardInteger;
    FlagFacts(d);
    ScanConverts(EngineFlags(d), width, precision, length, d.c, v);
    if NegativePrecision(d) {
      IntegerPrepared(StandardFlags(d), 0, length, d.c, v);
      IntegerPrepared(EngineFlags(d), 0, length, d.c, v);
      NoPrecisionFits(mag, neg, base, width, engine);
      NegativePrecisionIff(mag, neg, base, width, flags);
    }
  }

  /** A `-` flag, or the one a negative width stands for. */
  predicate LeftOf(d: Directive) {
    '-' in d.flags || AmountValue(d.width) < 0
  }

  /** A negative precision is as good as none. */
  function GivenPrecision(d: Directive): Option<nat> {
    if d.precision.None? || NegativePrecision(d) then None else Some(PrecisionOf(d))
  }

  /**
   * When the engine puts out the field of the standard: the body fits 32 characters, or only a space among spaces is
   * lost. A negative precision is taken for zero, which shows in a zero value and in zero padding.
   */
  predicate Conforms(d: Directive, value: int) {
    var left, width := LeftOf(d), WidthOf(d);
    if NegativePrecision(d) then
      && (value != 0 || (d.c == 'o' && '#' in d.flags))
      && ('0' !in d.flags || left || width <= |BodyText(value, d.c, d.flags, left, width, Some(0))|)
    else
      var body := BodyText(value, d.c, d.flags, left, width, GivenPrecision(d));
      || |body| <= 32
      || (|body| == 33 && SignText(value, d.c, d.flags) == " " && !left && width > 32
          && ('0' !in d.flags || d.precision.Some?))
  }

  lemma FlagsCarry(d: Directive)
    requires IsStandardInteger(d.c)
    ensures Carries(IntegerFlags(StandardFlags(d), d.c), d.flags, d.c, LeftOf(d), GivenPrecision(d))
    ensures OrZero(GivenPrecision(d)) == PrecisionOf(d)
    ensures NegativePrecision(d) ==> Carries(IntegerFlags(EngineFlags(d), d.c), d.flags, d.c, LeftOf(d), Some(0))
  {
    hide AmountValue;
  }

  lemma StandardIs(d: Directive, v: int, value: int)
    requires WellFormed(d) && IsValue(value, v, d.length, d.c)
    ensures var f := IntegerFlags(StandardFlags(d), d.c);
            && 8 <= BaseOf(d.c) <= 16
            && StandardField(Magnitude(ValueOf(v, d.c, LengthOf(d.length))), ValueOf(v, d.c, LengthOf(d.length)) < 0,
                             BaseOf(d.c), PrecisionOf(d), WidthOf(d), f)
               == FieldText(value, d.c, d.flags, LeftOf(d), WidthOf(d), GivenPrecision(d))
    ensures Agrees(d, v) <==> Conforms(d, value)
  {
    hide IntegerFlags, StandardFlags, EngineFlags, Body, BodyText, StandardField, FieldText, SignText, LeadText, Sign,
      Prefix, AmountValue, LeftOf, WidthOf, PrecisionOf, NegativePrecision, ValueOf, TwoTo, Bits, IsLength;
    ValueIs(value, v, d.length, d.c);
    FlagsCarry(d);
    var f, e := IntegerFlags(StandardFlags(d), d.c), IntegerFlags(EngineFlags(d), d.c);
    FieldIs(value, d.c, d.flags, LeftOf(d), WidthOf(d), GivenPrecision(d), f);
    LeadIs(value, d.c, d.flags, LeftOf(d), GivenPrecision(d), f);
    if NegativePrecision(d) {
      FieldIs(value, d.c, d.flags, LeftOf(d), WidthOf(d), Some(0), e);
    }
  }

  /**
   * Any d, i, u, o, x or X directive with any flags, width, precision and length, for any argument: the call puts out
   * the standard's field of the argument's value in the type the length selects, exactly when it conforms.
   */
  lemma IntegerDirective(d: Directive, v: int, value: int)
    requires WellFormed(d) && IsValue(value, v, d.length, d.c)
    ensures Rendered("%" + DirectiveText(d), DirectiveArgs(d, v)).Some?
    ensures Rendered("%" + DirectiveText(d), DirectiveArgs(d, v))
         == Some(FieldText(value, d.c, d.flags, LeftOf(d), WidthOf(d), GivenPrecision(d)))
        <==> Conforms(d, value)
  {
    hide *;
    DirectiveArgsAre(d, v);
    TextBefore(d, "");
    DirectiveReadBack(d, [Number(v)], "");
    DirectiveConverts(d, v);
    OneDirective(DirectiveText(d), DirectiveArgs(d, v), ScanOf(d, v));
    StandardIs(d, v, value);
  }

  lemma NegativePrecisionRead(flags: Flags)
    requires flags == NO_FLAGS.(precision := true)
    ensures SpecRead(".*d", [Number(-1), Number(0)]) == Some(Scan(flags, 0, 0, NoLength, "d", [Number(0)]))
  {
    assert AsSigned(-1, 0x8000_0000) == -1;
    assert ".*d"[1..] == "*d" && "*d"[1..] == "d";
    assert [Number(-1), Number(0)][1..] == [Number(0)];
  }

  lemma NothingPut(flags: Flags)
    requires flags == NO_FLAGS.(precision := true)
    ensures IntegerField(0, false, BASE_DECIMAL, 0, 0, flags) == ""
  {
    assert Finished("", false, BASE_DECIMAL, 0, 0, flags) == "";
  }

  lemma ZeroConverted(flags: Flags)
    requires flags == NO_FLAGS.(precision := true)
    ensures Converted(Scan(flags, 0, 0, NoLength, "d", [Number(0)])) == Some("")
  {
    hide *;
    ZeroFacts(flags);
    ConvertedInteger(flags, 0, 0, NoLength, 'd', 0);
    NothingPut(flags);
  }

  lemma ZeroFacts(flags: Flags)
    requires flags == NO_FLAGS.(precision := true)
    ensures IsStandardInteger('d') && BaseOf('d') == BASE_DECIMAL && IntegerFlags(flags, 'd') == flags
    ensures ValueOf(0, 'd', NoLength) == 0 && Magnitude(0) == 0
  {
  }

  /** `%.*d` of zero with a precision of -1 puts out nothing, where the standard asks for "0". */
  lemma NegativePrecisionLosesZero()
    ensures Rendered("%.*d", [Number(-1), Number(0)]) == Some("")
    ensures StandardField(0, false, BASE_DECIMAL, 0, 0, NO_FLAGS) == "0"
  {
    hide Rendered, SpecRead, Converted;
    var flags := NO_FLAGS.(precision := true);
    NegativePrecisionRead(flags);
    ZeroConverted(flags);
    OneDirective(".*d", [Number(-1), Number(0)], Scan(flags, 0, 0, NoLength, "d", [Number(0)]));
    assert "%" + ".*d" == "%.*d";
  }
}
