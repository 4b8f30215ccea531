// One integer conversion of printf: the field ISO/IEC 9899:2011 section
// 7.21.6.1 asks for, the 32-character scratch buffer the engine builds it in,
// and exactly when the two agree.

module PrintfField {
  import opened Common

  const BUFFER_SIZE := 32
  const BASE_BINARY := 2
  const BASE_OCTAL := 8
  const BASE_DECIMAL := 10
  const BASE_HEX := 16

  datatype Flags = Flags(zeropad: bool, left: bool, plus: bool, space: bool, hash: bool, uppercase: bool,
                         precision: bool, pointer: bool)

  // ----- Text -----

  lemma RevAppend(a: string, b: string)
    ensures Reversed(a + b) == Reversed(b) + Reversed(a)
  {
  }

  lemma RevTwice(a: string)
    ensures Reversed(Reversed(a)) == a
  {
  }

  /** The first `n` characters, or all. */
  function Take(s: string, n: nat): (r: string)
    ensures |r| == if |s| < n then |s| else n
  {
    if |s| <= n then s else s[..n]
  }

  // ----- Digits -----

  function DigitChar(d: nat, uppercase: bool): char
    requires d < 16
  {
    if d < 10 then '0' + d as char
    else (if uppercase then 'A' else 'a') + (d - 10) as char
  }

  function DigitValue(c: char): nat {
    if '0' <= c <= '9' then c as int - '0' as int
    else if 'a' <= c <= 'f' then c as int - 'a' as int + 10
    else if 'A' <= c <= 'F' then c as int - 'A' as int + 10
    else 0
  }

  /** The digits of a number, least significant first; none for zero. */
  function Digits(v: nat, base: nat, uppercase: bool): string
    requires 2 <= base <= 16
  {
    if v == 0 then "" else [DigitChar(v % base, uppercase)] + Digits(v / base, base, uppercase)
  }

  /** What a numeral, most significant digit first, stands for. */
  function Denoted(s: string, base: nat): nat {
    if s == "" then 0 else Denoted(s[..|s| - 1], base) * base + DigitValue(s[|s| - 1])
  }

  lemma DigitOf(d: nat, uppercase: bool)
    requires d < 16
    ensures DigitValue(DigitChar(d, uppercase)) == d && (DigitChar(d, uppercase) == '0' <==> d == 0)
  {
  }

  lemma DivMod(v: nat, b: nat)
    requires b >= 2
    ensures v / b * b + v % b == v && v % b < b
  {
  }

  lemma QuotientSmaller(v: nat, q: nat, b: nat, r: nat)
    requires b >= 2 && q * b + r == v
    ensures v > 0 ==> q < v
    ensures q == 0 ==> r == v
  {
    MulMonotone(q, q, 2, b);
  }

  lemma DenotedStep(s: string, c: char, base: nat)
    ensures Denoted(s + [c], base) == Denoted(s, base) * base + DigitValue(c)
  {
    assert (s + [c])[..|s|] == s;
  }

  /** The digits stand for the number, and the leading one is not zero. */
  lemma {:induction false} DigitsDenote(v: nat, base: nat, uppercase: bool)
    requires 2 <= base <= 16
    ensures var s := Reversed(Digits(v, base, uppercase)); Denoted(s, base) == v && (s != "" ==> s[0] != '0')
    ensures v > 0 <==> Digits(v, base, uppercase) != ""
  {
    if v > 0 {
      DivMod(v, base);
      QuotientSmaller(v, v / base, base, v % base);
      DigitsDenote(v / base, base, uppercase);
      DigitsStep(v, v / base, v % base, base, uppercase);
    }
  }

  lemma DigitsStep(v: nat, q: nat, r: nat, base: nat, uppercase: bool)
    requires 2 <= base <= 16 && r < base && q * base + r == v > 0 && (q == 0 ==> r == v)
    requires Digits(v, base, uppercase) == [DigitChar(r, uppercase)] + Digits(q, base, uppercase)
    requires var s := Reversed(Digits(q, base, uppercase)); Denoted(s, base) == q && (s != "" ==> s[0] != '0')
    requires q > 0 <==> Digits(q, base, uppercase) != ""
    ensures var s := Reversed(Digits(v, base, uppercase)); Denoted(s, base) == v && (s != "" ==> s[0] != '0')
  {
    var rest, c := Digits(q, base, uppercase), DigitChar(r, uppercase);
    DigitOf(r, uppercase);
    hide Digits, DigitChar, DigitValue, Denoted;
    RevAppend([c], rest);
    assert Reversed([c]) == [c];
    DenotedStep(Reversed(rest), c, base);
    assert rest != "" ==> (Reversed(rest) + [c])[0] == Reversed(rest)[0];
  }

  function Power(b: nat, n: nat): nat {
    if n == 0 then 1 else b * Power(b, n - 1)
  }

  lemma {:induction false} DigitsCount(v: nat, base: nat, uppercase: bool, n: nat)
    requires 2 <= base <= 16 && v < Power(base, n)
    ensures |Digits(v, base, uppercase)| <= n
    decreases n
  {
    if v > 0 {
      assert n > 0;
      DivLess(v, base, Power(base, n - 1));
      hide Power;
      DigitsCount(v / base, base, uppercase, n - 1);
    }
  }

  lemma DivLess(v: nat, b: nat, p: nat)
    requires b >= 2 && v < b * p
    ensures v / b < p
  {
    DivMod(v, b);
    var q, r := v / b, v % b;
    assert q * b + r < p * b;
    if q >= p {
      MulMonotone(p, q, b, b);
    }
  }

  lemma MulMonotone(a: nat, b: nat, c: nat, d: nat)
    requires a <= b && c <= d
    ensures a * c <= b * d
  {
    assert a * c <= b * c;
    assert b * c <= b * d;
  }

  lemma {:induction false} PowerMonotone(b: nat, c: nat, n: nat)
    requires b <= c
    ensures Power(b, n) <= Power(c, n)
  {
    if n > 0 {
      PowerMonotone(b, c, n - 1);
      MulMonotone(b, c, Power(b, n - 1), Power(c, n - 1));
    }
  }

  /** No 64-bit value has more than 22 digits in base 8 or above. */
  lemma WordDigits(v: nat, base: nat, uppercase: bool)
    requires v < 0x1_0000_0000_0000_0000 && 8 <= base <= 16
    ensures |Digits(v, base, uppercase)| <= 22
  {
    assert Power(8, 22) == 0x4_0000_0000_0000_0000 by {
      assert Power(8, 4) == 0x1000;
      assert Power(8, 8) == 0x100_0000;
      assert Power(8, 12) == 0x10_0000_0000;
      assert Power(8, 16) == 0x1_0000_0000_0000;
      assert Power(8, 20) == 0x1000_0000_0000_0000;
    }
    PowerMonotone(8, base, 22);
    DigitsCount(v, base, uppercase, 22);
  }

  // ----- What the standard asks for -----

  /** The digits with at least as many of them as the precision says; an omitted precision counts as 1. */
  function Precise(mag: nat, base: nat, precision: nat, flags: Flags): string
    requires 2 <= base <= 16
  {
    var ds := Reversed(Digits(mag, base, flags.uppercase));
    var least := if flags.precision then precision else 1;
    Fill('0', least - |ds|) + ds
  }

  /** For octal, `#` makes the first digit a zero. */
  function Numeral(mag: nat, base: nat, precision: nat, flags: Flags): string
    requires 2 <= base <= 16
  {
    var s := Precise(mag, base, precision, flags);
    if flags.hash && base == BASE_OCTAL && (s == "" || s[0] != '0') then "0" + s else s
  }

  /** For hexadecimal, `#` puts 0x or 0X before a nonzero value. */
  function Prefix(mag: nat, base: nat, flags: Flags): string {
    if flags.hash && base == BASE_HEX && mag != 0 then (if flags.uppercase then "0X" else "0x") else ""
  }

  function Sign(negative: bool, flags: Flags): string {
    if negative then "-" else if flags.plus then "+" else if flags.space then " " else ""
  }

  /** Sign, prefix and digits, zeros filled in between up to the field width if that is asked for. */
  function Body(mag: nat, negative: bool, base: nat, precision: nat, width: nat, flags: Flags): string
    requires 2 <= base <= 16
  {
    var numeral := Numeral(mag, base, precision, flags);
    var lead := Sign(negative, flags) + Prefix(mag, base, flags);
    var zeros := if flags.zeropad && !flags.left && !flags.precision then width - |lead| - |numeral| else 0;
    lead + Fill('0', zeros) + numeral
  }

  /** The body with the spaces that bring it to the field width. */
  function Justified(body: string, width: nat, left: bool): string {
    if left then body + Fill(' ', width - |body|) else Fill(' ', width - |body|) + body
  }

  function StandardField(mag: nat, negative: bool, base: nat, precision: nat, width: nat, flags: Flags): string
    requires 2 <= base <= 16
  {
    Justified(Body(mag, negative, base, precision, width, flags), width, flags.left)
  }

  // ----- What the engine builds -----

  /** One character more, as long as there is room; a full buffer drops it. */
  function Put(buf: string, c: char): string {
    if |buf| < BUFFER_SIZE then buf + [c] else buf
  }

  /** Zeros up to a length of `n`, or as many as there is room for. */
  function PadTo(buf: string, n: nat): string {
    buf + Fill('0', (if n < BUFFER_SIZE then n else BUFFER_SIZE) - |buf|)
  }

  /** What `print_integer` leaves in the scratch buffer, digits reversed. */
  function ScratchDigits(mag: nat, base: nat, flags: Flags): string
    requires 2 <= base <= 16
  {
    if mag > 0 then Take(Digits(mag, base, flags.uppercase), BUFFER_SIZE)
    else if flags.precision then "" else "0"
  }

  /** The alternative form is dropped for zero, except where octal still owes a digit. */
  function KeptHash(mag: nat, base: nat, flags: Flags): bool {
    flags.hash && (mag > 0 || (flags.precision && base != BASE_HEX))
  }

  function SignedWidth(negative: bool, width: nat, flags: Flags): nat {
    if !flags.left && width > 0 && flags.zeropad && (negative || flags.plus || flags.space) then width - 1 else width
  }

  function ZeroPadded(buf: string, negative: bool, precision: nat, width: nat, flags: Flags): string {
    PadTo(if !flags.left && flags.zeropad then PadTo(buf, SignedWidth(negative, width, flags)) else buf, precision)
  }

  /** Padding is taken back where the prefix will need the room. */
  function TakenBack(buf: string, unpadded: nat, base: nat, precision: nat, width: nat, flags: Flags): string {
    if !flags.precision && |buf| > 0 && (|buf| == precision || |buf| == width) then
      var one := if unpadded < |buf| then buf[..|buf| - 1] else buf;
      if base == BASE_HEX && unpadded < |one| then one[..|one| - 1] else one
    else buf
  }

  function Prefixed(buf: string, base: nat, flags: Flags): string {
    var b := if base == BASE_HEX then Put(buf, if flags.uppercase then 'X' else 'x')
             else if base == BASE_BINARY then Put(buf, 'b')
             else buf;
    Put(b, '0')
  }

  function Signed(buf: string, negative: bool, flags: Flags): string {
    if negative then Put(buf, '-')
    else if flags.plus then Put(buf, '+')
    else if flags.space then Put(buf, ' ')
    else buf
  }

  /** `print_integer_finalization` up to its output. */
  function Finished(buf: string, negative: bool, base: nat, precision: nat, width: nat, flags: Flags): string {
    var padded := ZeroPadded(buf, negative, precision, width, flags);
    var hash := flags.hash && !(base == BASE_OCTAL && |padded| > |buf|);
    var alternative :=
      if hash || flags.pointer then
        Prefixed(TakenBack(padded, |buf|, base, precision, SignedWidth(negative, width, flags), flags), base, flags)
      else padded;
    Signed(alternative, negative, flags)
  }

  /** `out_rev_` */
  function Emitted(buf: string, width: nat, flags: Flags): string {
    (if !flags.left && !flags.zeropad then Fill(' ', width - |buf|) else "")
    + Reversed(buf)
    + (if flags.left then Fill(' ', width - |buf|) else "")
  }

  function IntegerField(mag: nat, negative: bool, base: nat, precision: nat, width: nat, flags: Flags): string
    requires 2 <= base <= 16
  {
    var f := flags.(hash := KeptHash(mag, base, flags));
    Emitted(Finished(ScratchDigits(mag, base, flags), negative, base, precision, width, f),
            SignedWidth(negative, width, flags), f)
  }

  // ----- When they agree -----

  /** What the engine has made of the flags by the time it prints a d, i, u, o, x or X conversion. */
  predicate Prepared(mag: nat, negative: bool, base: nat, precision: nat, flags: Flags) {
    && mag < 0x1_0000_0000_0000_0000
    && (base == BASE_OCTAL || base == BASE_DECIMAL || base == BASE_HEX)
    && !flags.pointer
    && (flags.hash ==> base != BASE_DECIMAL)
    && (negative || flags.plus || flags.space ==> base == BASE_DECIMAL)
    && (flags.precision ==> !flags.zeropad)
    && (!flags.precision ==> precision == 0)
  }

  predicate Fits(mag: nat, negative: bool, base: nat, precision: nat, width: nat, flags: Flags)
    requires 2 <= base <= 16
  {
    |Body(mag, negative, base, precision, width, flags)| <= BUFFER_SIZE
  }

  /** The one overflow that cannot be seen: the sign that is lost is a space, and a padding space takes its place. */
  predicate LostSpace(mag: nat, negative: bool, base: nat, precision: nat, width: nat, flags: Flags)
    requires 2 <= base <= 16
  {
    && |Body(mag, negative, base, precision, width, flags)| == BUFFER_SIZE + 1
    && Sign(negative, flags) == " " && !flags.left && width > BUFFER_SIZE && !flags.zeropad
  }

  // ----- Without zero padding the buffer holds the low 32 characters of the body -----

  predicate Unpadded(flags: Flags) {
    flags.left || !flags.zeropad
  }

  lemma PutTake(s: string, c: char)
    ensures Put(Take(s, BUFFER_SIZE), c) == Take(s + [c], BUFFER_SIZE)
  {
  }

  lemma PadTake(s: string, n: nat)
    requires |s| <= BUFFER_SIZE
    ensures PadTo(s, n) == Take(s + Fill('0', n - |s|), BUFFER_SIZE)
  {
    if n > BUFFER_SIZE {
      assert s + Fill('0', BUFFER_SIZE - |s|) == (s + Fill('0', n - |s|))[..BUFFER_SIZE];
    }
  }

  lemma FillReversed(c: char, n: int)
    ensures Reversed(Fill(c, n)) == Fill(c, n)
  {
  }

  /** The digits of at most 22 characters, or the single 0 a zero gets when no precision is given. */
  lemma ReversedDigits(mag: nat, base: nat, precision: nat, flags: Flags)
    requires mag < 0x1_0000_0000_0000_0000 && 8 <= base <= 16 && (!flags.precision ==> precision == 0)
    ensures var s := Precise(mag, base, precision, flags);
            var buf := ScratchDigits(mag, base, flags);
            && |buf| <= 22 && Reversed(s) == buf + Fill('0', precision - |buf|)
            && (s != "" ==> (s[0] == '0' <==> mag == 0 || |s| > |buf|))
            && (|buf| == 0 <==> mag == 0 && flags.precision)
  {
    WordDigits(mag, base, flags.uppercase);
    DigitsDenote(mag, base, flags.uppercase);
    var ds := Digits(mag, base, flags.uppercase);
    hide Digits, Denoted;
    assert Take(ds, BUFFER_SIZE) == ds;
    hide Take;
    ZerosBefore(ds, if flags.precision then precision else 1);
    if mag == 0 {
      assert Fill('0', 1) == "0";
      assert !flags.precision ==> Fill('0', 0 - 1) == "" && "" + Fill('0', 1) == "0" + "";
    } else {
      assert !flags.precision ==> Fill('0', 1 - |ds|) == Fill('0', 0 - |ds|);
    }
  }

  lemma ZerosBefore(ds: string, least: nat)
    requires ds != "" ==> Reversed(ds)[0] != '0'
    ensures var s := Fill('0', least - |ds|) + Reversed(ds);
            && Reversed(s) == ds + Fill('0', least - |ds|)
            && (s != "" ==> (s[0] == '0' <==> ds == "" || |s| > |ds|))
  {
    RevTwice(ds);
    RevAppend(Fill('0', least - |ds|), Reversed(ds));
    FillReversed('0', least - |ds|);
  }

  lemma NumeralReversed(mag: nat, negative: bool, base: nat, precision: nat, width: nat, flags: Flags)
    requires Prepared(mag, negative, base, precision, flags) && Unpadded(flags)
    ensures var s := Precise(mag, base, precision, flags);
            var buf := ScratchDigits(mag, base, flags);
            var padded := ZeroPadded(buf, negative, precision, width, flags);
            padded == Take(Reversed(s), BUFFER_SIZE) && (|padded| > |buf| <==> |s| > |buf|)
  {
    ReversedDigits(mag, base, precision, flags);
    hide Precise, ScratchDigits;
    PadTake(ScratchDigits(mag, base, flags), precision);
  }

  lemma PrefixedTake(s: string, base: nat, flags: Flags)
    requires base == BASE_OCTAL || base == BASE_HEX
    ensures var x := if base == BASE_HEX then (if flags.uppercase then "0X" else "0x") else "0";
            Prefixed(Take(Reversed(s), BUFFER_SIZE), base, flags) == Take(Reversed(x + s), BUFFER_SIZE)
  {
    var x := if flags.uppercase then 'X' else 'x';
    PutTake(Reversed(s), x);
    PutTake(Reversed(s) + [x], '0');
    PutTake(Reversed(s), '0');
    assert Reversed("0" + s) == Reversed(s) + ['0'];
    assert Reversed(['0', x] + s) == Reversed(s) + [x] + ['0'];
  }

  lemma SignedTake(s: string, negative: bool, flags: Flags)
    ensures Signed(Take(Reversed(s), BUFFER_SIZE), negative, flags) == Take(Reversed(Sign(negative, flags) + s), BUFFER_SIZE)
  {
    var c := if negative then '-' else if flags.plus then '+' else ' ';
    PutTake(Reversed(s), c);
    assert Reversed([c] + s) == Reversed(s) + [c];
    assert "" + s == s;
  }

  lemma BodyUnpadded(mag: nat, negative: bool, base: nat, precision: nat, width: nat, flags: Flags)
    requires 2 <= base <= 16 && Unpadded(flags)
    ensures Body(mag, negative, base, precision, width, flags)
            == Sign(negative, flags) + (Prefix(mag, base, flags) + Numeral(mag, base, precision, flags))
  {
    hide Sign, Prefix, Numeral;
    var sign, prefix, numeral := Sign(negative, flags), Prefix(mag, base, flags), Numeral(mag, base, precision, flags);
    assert sign + prefix + "" + numeral == sign + (prefix + numeral);
  }

  /** Without zero padding: the low 32 characters of the body, whatever they are. */
  lemma FinishedUnpadded(mag: nat, negative: bool, base: nat, precision: nat, width: nat, flags: Flags)
    requires Prepared(mag, negative, base, precision, flags) && Unpadded(flags)
    ensures Finished(ScratchDigits(mag, base, flags), negative, base, precision, width,
                     flags.(hash := KeptHash(mag, base, flags)))
            == Take(Reversed(Body(mag, negative, base, precision, width, flags)), BUFFER_SIZE)
  {
    var s, buf := Precise(mag, base, precision, flags), ScratchDigits(mag, base, flags);
    var padded := ZeroPadded(buf, negative, precision, width, flags);
    NumeralReversed(mag, negative, base, precision, width, flags);
    ReversedDigits(mag, base, precision, flags);
    var f := flags.(hash := KeptHash(mag, base, flags));
    assert ZeroPadded(buf, negative, precision, width, f) == padded;
    var tail := Prefix(mag, base, flags) + Numeral(mag, base, precision, flags);
    BodyUnpadded(mag, negative, base, precision, width, flags);
    hide Body;
    assert Finished(buf, negative, base, precision, width, f) == Signed(Take(Reversed(tail), BUFFER_SIZE), negative, f) by {
      hide Precise, ScratchDigits, ZeroPadded, Take;
      assert TakenBack(padded, |buf|, base, precision, SignedWidth(negative, width, f), f) == padded;
      if base != BASE_DECIMAL {
        PrefixedTake(s, base, f);
      }
      hide Prefixed, Signed, TakenBack;
      assert tail == if f.hash && !(base == BASE_OCTAL && |padded| > |buf|)
                     then (if base == BASE_HEX then (if flags.uppercase then "0X" else "0x") else "0") + s else s;
    }
    SignedTake(tail, negative, f);
  }

  // ----- With zero padding -----

  lemma FinishedShort(buf: string, negative: bool, base: nat, precision: nat, width: nat, flags: Flags)
    requires |buf| <= BUFFER_SIZE
    ensures |Finished(buf, negative, base, precision, width, flags)| <= BUFFER_SIZE
  {
    var padded := ZeroPadded(buf, negative, precision, width, flags);
    assert |padded| <= BUFFER_SIZE;
    PrefixShort(padded, |buf|, base, precision, SignedWidth(negative, width, flags), flags);
    hide ZeroPadded, Prefixed, TakenBack, SignedWidth, Fill;
  }

  lemma PrefixShort(padded: string, unpadded: nat, base: nat, precision: nat, width: nat, flags: Flags)
    requires |padded| <= BUFFER_SIZE
    ensures |Prefixed(TakenBack(padded, unpadded, base, precision, width, flags), base, flags)| <= BUFFER_SIZE
  {
    assert |TakenBack(padded, unpadded, base, precision, width, flags)| <= BUFFER_SIZE;
    hide TakenBack;
  }

  lemma PadToFull(buf: string, n: nat)
    requires n <= BUFFER_SIZE
    ensures PadTo(buf, n) == buf + Fill('0', n - |buf|) && PadTo(buf, 0) == buf
  {
  }

  lemma PaddedWidth(negative: bool, width: nat, flags: Flags)
    ensures SignedWidth(negative, width, flags) <= width
  {
  }

  /** Digits, or the zero, filled up with zeros on their left. */
  lemma PaddedReversed(mag: nat, negative: bool, base: nat, width: nat, flags: Flags)
    requires Prepared(mag, negative, base, 0, flags) && !Unpadded(flags) && width <= BUFFER_SIZE
    ensures var numeral := Precise(mag, base, 0, flags);
            var w := SignedWidth(negative, width, flags);
            && 1 <= |numeral| == |ScratchDigits(mag, base, flags)| <= 22
            && ZeroPadded(ScratchDigits(mag, base, flags), negative, 0, width, flags) == Reversed(Fill('0', w - |numeral|) + numeral)
            && (numeral[0] == '0' <==> mag == 0)
  {
    PaddedWidth(negative, width, flags);
    hide Precise, ScratchDigits, SignedWidth, PadTo, Reversed;
    var numeral, buf := Precise(mag, base, 0, flags), ScratchDigits(mag, base, flags);
    var w := SignedWidth(negative, width, flags);
    ReversedDigits(mag, base, 0, flags);
    PadToFull(buf, w);
    PadToFull(PadTo(buf, w), 0);
    assert Fill('0', 0 - |buf|) == "";
    assert buf + "" == buf == Reversed(numeral);
    RevAppend(Fill('0', w - |numeral|), numeral);
    FillReversed('0', w - |numeral|);
  }

  lemma Dropped(n: nat, s: string)
    requires n > 0
    ensures var r := Reversed(Fill('0', n) + s); r[..|r| - 1] == Reversed(Fill('0', n - 1) + s)
  {
  }

  lemma BodyPadded(mag: nat, negative: bool, base: nat, width: nat, flags: Flags)
    requires Prepared(mag, negative, base, 0, flags) && !Unpadded(flags)
    requires var s := Precise(mag, base, 0, flags); s != "" && (s[0] == '0' <==> mag == 0)
    ensures var s := Precise(mag, base, 0, flags);
            var hash := KeptHash(mag, base, flags);
            var sign := Sign(negative, flags);
            var whole := (if hash then "0" else "") + s;
            var x := if !hash then "" else if flags.uppercase then "0X" else "0x";
            && (base == BASE_DECIMAL ==>
                  Body(mag, negative, base, 0, width, flags) == sign + Fill('0', width - |sign| - |s|) + s)
            && (base == BASE_OCTAL ==> Body(mag, negative, base, 0, width, flags) == Fill('0', width - |whole|) + whole)
            && (base == BASE_HEX ==>
                  Body(mag, negative, base, 0, width, flags) == x + Fill('0', width - |x| - |s|) + s)
  {
    hide Precise;
    var sign := Sign(negative, flags);
    assert sign + "" == sign;
  }

  lemma PreparedFacts(mag: nat, negative: bool, base: nat, width: nat, flags: Flags)
    requires Prepared(mag, negative, base, 0, flags) && !Unpadded(flags)
    ensures var f := flags.(hash := KeptHash(mag, base, flags));
            var buf := ScratchDigits(mag, base, flags);
            && !Unpadded(f) && !f.pointer && !f.precision && (f.hash ==> base != BASE_DECIMAL)
            && (base == BASE_OCTAL || base == BASE_DECIMAL || base == BASE_HEX)
            && SignedWidth(negative, width, f) == SignedWidth(negative, width, flags)
            && Sign(negative, f) == Sign(negative, flags)
            && ZeroPadded(buf, negative, 0, width, f) == ZeroPadded(buf, negative, 0, width, flags)
            && (base != BASE_DECIMAL ==>
                  !f.plus && !f.space && !negative && SignedWidth(negative, width, flags) == width)
  {
    hide ScratchDigits, PadTo;
  }

  /** The three bases one by one: what padding is taken back is what the prefix and the sign take up. */
  lemma FinishedPadded(mag: nat, negative: bool, base: nat, width: nat, flags: Flags)
    requires 8 <= base <= 16
    requires Prepared(mag, negative, base, 0, flags) && !Unpadded(flags) && width <= BUFFER_SIZE
    ensures Finished(ScratchDigits(mag, base, flags), negative, base, 0, width, flags.(hash := KeptHash(mag, base, flags)))
            == Reversed(Body(mag, negative, base, 0, width, flags))
  {
    hide *;
    var buf, numeral := ScratchDigits(mag, base, flags), Precise(mag, base, 0, flags);
    var f := flags.(hash := KeptHash(mag, base, flags));
    PaddedReversed(mag, negative, base, width, flags);
    BodyPadded(mag, negative, base, width, flags);
    PreparedFacts(mag, negative, base, width, flags);
    if base == BASE_DECIMAL {
      DecimalPadded(buf, negative, width, f, numeral);
    } else if base == BASE_OCTAL {
      OctalPadded(buf, width, f, numeral);
    } else {
      HexPadded(buf, width, f, numeral);
    }
  }

  lemma DecimalPadded(buf: string, negative: bool, width: nat, f: Flags, numeral: string)
    requires !Unpadded(f) && !f.hash && !f.pointer && width <= BUFFER_SIZE && 1 <= |numeral| == |buf| <= 22
    requires ZeroPadded(buf, negative, 0, width, f)
          == Reversed(Fill('0', SignedWidth(negative, width, f) - |numeral|) + numeral)
    ensures var sign := Sign(negative, f);
            Finished(buf, negative, BASE_DECIMAL, 0, width, f)
            == Reversed(sign + Fill('0', width - |sign| - |numeral|) + numeral)
  {
    hide ZeroPadded, Reversed, TakenBack, Prefixed;
    var s := Fill('0', SignedWidth(negative, width, f) - |numeral|) + numeral;
    assert Take(Reversed(s), BUFFER_SIZE) == Reversed(s);
    SignedTake(s, negative, f);
    var sign := Sign(negative, f);
    assert sign + s == sign + Fill('0', width - |sign| - |numeral|) + numeral;
    assert Take(Reversed(sign + s), BUFFER_SIZE) == Reversed(sign + s);
  }

  /** Neither sign nor prefix. */
  lemma PlainFinished(buf: string, base: nat, width: nat, f: Flags)
    requires !f.pointer && !f.plus && !f.space
    requires f.hash ==> base == BASE_OCTAL && |ZeroPadded(buf, false, 0, width, f)| > |buf|
    ensures Finished(buf, false, base, 0, width, f) == ZeroPadded(buf, false, 0, width, f)
  {
    hide ZeroPadded, TakenBack, Prefixed;
  }

  lemma OctalFinished(buf: string, width: nat, f: Flags, padded: string)
    requires f.hash && !f.plus && !f.space && ZeroPadded(buf, false, 0, width, f) == padded && |padded| == |buf|
    ensures Finished(buf, false, BASE_OCTAL, 0, width, f) == Prefixed(padded, BASE_OCTAL, f)
  {
    hide ZeroPadded, Prefixed;
  }

  lemma OctalPadded(buf: string, width: nat, f: Flags, numeral: string)
    requires !Unpadded(f) && !f.pointer && !f.plus && !f.space && !f.precision && width <= BUFFER_SIZE
    requires 1 <= |numeral| == |buf| <= 22
    requires ZeroPadded(buf, false, 0, width, f) == Reversed(Fill('0', width - |numeral|) + numeral)
    ensures var whole := (if f.hash then "0" else "") + numeral;
            Finished(buf, false, BASE_OCTAL, 0, width, f) == Reversed(Fill('0', width - |whole|) + whole)
  {
    hide ZeroPadded, Finished, Prefixed, Reversed;
    var n := width - |numeral|;
    if !f.hash {
      PlainFinished(buf, BASE_OCTAL, width, f);
      assert "" + numeral == numeral;
    } else if n > 0 {
      PlainFinished(buf, BASE_OCTAL, width, f);
      assert Fill('0', n) == Fill('0', n - 1) + "0";
      assert Fill('0', n - 1) + ("0" + numeral) == Fill('0', n) + numeral;
    } else {
      assert Fill('0', n) + numeral == numeral && Fill('0', n - 1) + ("0" + numeral) == "0" + numeral;
      OctalFinished(buf, width, f, Reversed(numeral));
      PrefixedTake(numeral, BASE_OCTAL, f);
      assert Take(Reversed(numeral), BUFFER_SIZE) == Reversed(numeral);
      assert Take(Reversed("0" + numeral), BUFFER_SIZE) == Reversed("0" + numeral);
    }
  }

  lemma HexFinished(buf: string, width: nat, f: Flags, padded: string, taken: string)
    requires f.hash && !f.plus && !f.space
    requires ZeroPadded(buf, false, 0, width, f) == padded && TakenBack(padded, |buf|, BASE_HEX, 0, width, f) == taken
    ensures Finished(buf, false, BASE_HEX, 0, width, f) == Prefixed(taken, BASE_HEX, f)
  {
    hide ZeroPadded, TakenBack, Prefixed;
  }

  /** Two padding zeros, if there are two, make room for the prefix. */
  lemma HexTaken(padded: string, n: int, f: Flags, numeral: string, width: nat)
    requires !f.precision && 1 <= |numeral| <= 22 && n == width - |numeral| && width <= BUFFER_SIZE
    requires padded == Reversed(Fill('0', n) + numeral)
    ensures TakenBack(padded, |numeral|, BASE_HEX, 0, width, f) == Reversed(Fill('0', n - 2) + numeral)
  {
    if n >= 1 {
      Dropped(n, numeral);
      assert n == 1 ==> Fill('0', n - 1) == Fill('0', n - 2);
    }
    if n >= 2 {
      Dropped(n - 1, numeral);
    }
    assert n < 1 ==> Fill('0', n) == Fill('0', n - 2);
  }

  lemma HexPrefixed(n: int, f: Flags, numeral: string)
    requires |Fill('0', n) + numeral| + 2 <= BUFFER_SIZE
    ensures var x := if f.uppercase then "0X" else "0x";
            Prefixed(Reversed(Fill('0', n) + numeral), BASE_HEX, f) == Reversed(x + Fill('0', n) + numeral)
  {
    var t := Fill('0', n) + numeral;
    var x := if f.uppercase then "0X" else "0x";
    assert x + t == x + Fill('0', n) + numeral;
    PrefixedTake(t, BASE_HEX, f);
  }

  lemma HexPadded(buf: string, width: nat, f: Flags, numeral: string)
    requires !Unpadded(f) && !f.pointer && !f.plus && !f.space && !f.precision && width <= BUFFER_SIZE
    requires 1 <= |numeral| == |buf| <= 22
    requires ZeroPadded(buf, false, 0, width, f) == Reversed(Fill('0', width - |numeral|) + numeral)
    ensures var x := if !f.hash then "" else if f.uppercase then "0X" else "0x";
            Finished(buf, false, BASE_HEX, 0, width, f) == Reversed(x + Fill('0', width - |x| - |numeral|) + numeral)
  {
    hide ZeroPadded, Finished, Reversed, Prefixed, TakenBack;
    var n := width - |numeral|;
    var padded := Reversed(Fill('0', n) + numeral);
    if !f.hash {
      PlainFinished(buf, BASE_HEX, width, f);
      assert "" + Fill('0', n) + numeral == Fill('0', n) + numeral;
    } else {
      HexTaken(padded, n, f, numeral, width);
      HexPrefixed(n - 2, f, numeral);
      HexFinished(buf, width, f, padded, Reversed(Fill('0', n - 2) + numeral));
    }
  }

  // ----- The exact condition -----

  lemma FitsUnpadded(body: string, width: nat, flags: Flags)
    requires |body| <= BUFFER_SIZE && Unpadded(flags)
    ensures Emitted(Take(Reversed(body), BUFFER_SIZE), width, flags) == Justified(body, width, flags.left)
  {
    assert Take(Reversed(body), BUFFER_SIZE) == Reversed(body);
    hide Take;
    RevTwice(body);
    var s := Fill(' ', width - |body|);
    assert s + body + "" == s + body;
    assert "" + body + s == body + s;
  }

  lemma EmittedEnd(body: string, width: nat, flags: Flags)
    requires |body| > BUFFER_SIZE && Unpadded(flags)
    ensures var kept := body[|body| - BUFFER_SIZE..];
            Emitted(Take(Reversed(body), BUFFER_SIZE), width, flags) == Justified(kept, width, flags.left)
  {
    var kept, spaces := body[|body| - BUFFER_SIZE..], Fill(' ', width - BUFFER_SIZE);
    assert Reversed(Take(Reversed(body), BUFFER_SIZE)) == kept;
    assert |Take(Reversed(body), BUFFER_SIZE)| == BUFFER_SIZE;
    hide Take, Reversed, Fill;
    assert spaces + kept + "" == spaces + kept && "" + kept + spaces == kept + spaces;
  }

  lemma LostAtLeft(body: string, kept: string, width: nat, lead: string)
    requires |body| > BUFFER_SIZE == |kept| && kept == body[|body| - BUFFER_SIZE..]
    requires |lead| <= 1 && (forall i :: |lead| <= i < |body| ==> body[i] != ' ')
    ensures Justified(kept, width, true) != Justified(body, width, true)
  {
    var e, j := Justified(kept, width, true), Justified(body, width, true);
    if |e| == |j| {
      assert e[BUFFER_SIZE] == ' ' && j[BUFFER_SIZE] == body[BUFFER_SIZE];
    }
  }

  lemma LostAtRight(body: string, kept: string, width: nat, lead: string)
    requires |body| > BUFFER_SIZE == |kept| && kept == body[|body| - BUFFER_SIZE..]
    requires lead <= body && |lead| <= 1 && (forall i :: |lead| <= i < |body| ==> body[i] != ' ')
    ensures Justified(kept, width, false) == Justified(body, width, false)
        <==> |body| == BUFFER_SIZE + 1 && lead == " " && width > BUFFER_SIZE
  {
    var n := |body|;
    var e, j := Justified(kept, width, false), Justified(body, width, false);
    if width < n {
      assert |j| == n && |e| < n;
    } else if n > BUFFER_SIZE + 1 {
      assert e[width - BUFFER_SIZE - 1] == ' ' && j[width - BUFFER_SIZE - 1] == body[n - BUFFER_SIZE - 1];
    } else {
      assert e[width - n] == ' ' && j[width - n] == body[0];
      if lead == " " {
        assert body == " " + kept;
        assert Fill(' ', width - BUFFER_SIZE) == Fill(' ', width - n) + " ";
        assert Fill(' ', width - n) + " " + kept == Fill(' ', width - n) + (" " + kept);
      }
    }
  }

  /** A body that does not fit loses characters at its front; it shows unless all that is lost is a space among spaces. */
  lemma OverflowUnpadded(body: string, width: nat, flags: Flags, lead: string)
    requires |body| > BUFFER_SIZE && Unpadded(flags)
    requires lead <= body && |lead| <= 1 && (forall i :: |lead| <= i < |body| ==> body[i] != ' ')
    ensures Emitted(Take(Reversed(body), BUFFER_SIZE), width, flags) == Justified(body, width, flags.left)
        <==> |body| == BUFFER_SIZE + 1 && lead == " " && !flags.left && width > BUFFER_SIZE
  {
    hide Emitted, Justified, Take, Reversed, Unpadded;
    var kept := body[|body| - BUFFER_SIZE..];
    EmittedEnd(body, width, flags);
    if flags.left {
      LostAtLeft(body, kept, width, lead);
    } else {
      LostAtRight(body, kept, width, lead);
    }
  }

  lemma NoSpaceInNumeral(mag: nat, base: nat, precision: nat, flags: Flags)
    requires 2 <= base <= 16
    ensures forall c | c in Prefix(mag, base, flags) + Numeral(mag, base, precision, flags) :: c != ' '
  {
    NoSpaceInDigits(mag, base, flags.uppercase);
  }

  lemma {:induction false} NoSpaceInDigits(v: nat, base: nat, uppercase: bool)
    requires 2 <= base <= 16
    ensures ' ' !in Digits(v, base, uppercase)
  {
    if v > 0 {
      DivMod(v, base);
      QuotientSmaller(v, v / base, base, v % base);
      NoSpaceInDigits(v / base, base, uppercase);
    }
  }

  lemma OverflowFacts(mag: nat, negative: bool, base: nat, precision: nat, width: nat, flags: Flags)
    requires 2 <= base <= 16 && Unpadded(flags)
    ensures var body := Body(mag, negative, base, precision, width, flags);
            var lead := Sign(negative, flags);
            lead <= body && |lead| <= 1 && (forall i :: |lead| <= i < |body| ==> body[i] != ' ')
  {
    assert |Sign(negative, flags)| <= 1;
    hide *;
    BodyUnpadded(mag, negative, base, precision, width, flags);
    NoSpaceInNumeral(mag, base, precision, flags);
    LeadAndTail(Sign(negative, flags), Prefix(mag, base, flags) + Numeral(mag, base, precision, flags));
  }

  lemma LeadAndTail(lead: string, tail: string)
    requires |lead| <= 1 && forall c | c in tail :: c != ' '
    ensures var body := lead + tail; lead <= body && forall i :: |lead| <= i < |body| ==> body[i] != ' '
  {
    forall i | |lead| <= i < |lead + tail| ensures (lead + tail)[i] != ' ' {
      assert (lead + tail)[i] == tail[i - |lead|] && tail[i - |lead|] in tail;
    }
  }

  lemma BodyWide(mag: nat, negative: bool, base: nat, width: nat, flags: Flags)
    requires Prepared(mag, negative, base, 0, flags) && !Unpadded(flags)
    ensures var body := Body(mag, negative, base, 0, width, flags);
            |body| >= width && (width <= BUFFER_SIZE ==> |body| <= BUFFER_SIZE)
  {
    ReversedDigits(mag, base, 0, flags);
    hide Precise, ScratchDigits;
    assert |Precise(mag, base, 0, flags)| <= 22 by {
      assert |Reversed(Precise(mag, base, 0, flags))| == |ScratchDigits(mag, base, flags)| + 0;
    }
  }

  lemma PaddedAgree(mag: nat, negative: bool, base: nat, width: nat, flags: Flags)
    requires Prepared(mag, negative, base, 0, flags) && !Unpadded(flags)
    ensures var body := Body(mag, negative, base, 0, width, flags);
            var done := Finished(ScratchDigits(mag, base, flags), negative, base, 0, width,
                                 flags.(hash := KeptHash(mag, base, flags)));
            Emitted(done, SignedWidth(negative, width, flags), flags) == Justified(body, width, flags.left)
            <==> |body| <= BUFFER_SIZE
  {
    hide Finished, Body, ScratchDigits, Precise, KeptHash, Reversed;
    var body := Body(mag, negative, base, 0, width, flags);
    var buf, f := ScratchDigits(mag, base, flags), flags.(hash := KeptHash(mag, base, flags));
    BodyWide(mag, negative, base, width, flags);
    if width <= BUFFER_SIZE {
      FinishedPadded(mag, negative, base, width, flags);
      RevTwice(body);
      assert "" + body + "" == body;
    } else {
      ReversedDigits(mag, base, 0, flags);
      FinishedShort(buf, negative, base, 0, width, f);
    }
  }

  /** The engine's field is the standard's exactly when the body fits the scratch buffer, or only a space is lost. */
  lemma FieldExactIff(mag: nat, negative: bool, base: nat, precision: nat, width: nat, flags: Flags)
    requires Prepared(mag, negative, base, precision, flags)
    ensures IntegerField(mag, negative, base, precision, width, flags)
            == StandardField(mag, negative, base, precision, width, flags)
        <==> Fits(mag, negative, base, precision, width, flags) || LostSpace(mag, negative, base, precision, width, flags)
  {
    var f := flags.(hash := KeptHash(mag, base, flags));
    var body := Body(mag, negative, base, precision, width, flags);
    var buf := ScratchDigits(mag, base, flags);
    var w := SignedWidth(negative, width, flags);
    var done := Finished(buf, negative, base, precision, width, f);
    assert IntegerField(mag, negative, base, precision, width, flags) == Emitted(done, w, flags);
    if Unpadded(flags) {
      assert w == width;
      FinishedUnpadded(mag, negative, base, precision, width, flags);
      if |body| <= BUFFER_SIZE {
        FitsUnpadded(body, width, flags);
      } else {
        OverflowFacts(mag, negative, base, precision, width, flags);
        OverflowUnpadded(body, width, flags, Sign(negative, flags));
      }
    } else {
      PaddedAgree(mag, negative, base, width, flags);
    }
  }

  /** A pointer is finished like a number with `#`. */
  lemma PointerIsHash(mag: nat, width: nat, flags: Flags)
    requires mag > 0
    ensures IntegerField(mag, false, BASE_HEX, 0, width, flags.(pointer := true))
         == IntegerField(mag, false, BASE_HEX, 0, width, flags.(hash := true, pointer := false))
  {
    hide Digits, Take, PadTo, Put;
  }

  /** A precision of 33 already loses a digit. */
  lemma TooPrecise()
    ensures var flags := Flags(false, false, false, false, false, false, true, false);
            IntegerField(1, false, BASE_DECIMAL, 33, 0, flags) != StandardField(1, false, BASE_DECIMAL, 33, 0, flags)
  {
    var flags := Flags(false, false, false, false, false, false, true, false);
    FieldExactIff(1, false, BASE_DECIMAL, 33, 0, flags);
    assert Digits(1, BASE_DECIMAL, false) == "1";
  }
}
