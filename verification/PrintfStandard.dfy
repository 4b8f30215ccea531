// What ISO/IEC 9899:2011 section 7.21.6.1 asks of the integer conversions,
// read off the characters of the directive: a definition of its own, against
// which the engine is measured.

module PrintfStandard {
  import opened Common

  /** The digits of a conversion, in the order of their values. */
  function Alphabet(c: char): (a: string)
    ensures |a| >= 2
  {
    match c
    case 'o' => "01234567"
    case 'x' => "0123456789abcdef"
    case 'X' => "0123456789ABCDEF"
    case _ => "0123456789"
  }

  /** A number in the digits of an alphabet, as many of them as its size; none for zero. */
  function Spelled(n: nat, a: string): string
    requires |a| >= 2
  {
    if n == 0 then "" else Spelled(n / |a|, a) + [a[n % |a|]]
  }

  /** How many bits the type of the argument has, by its length modifier. */
  function Bits(length: string): nat {
    if length == "hh" then 8 else if length == "h" then 16 else if length == "ll" || length == "j" then 64 else 32
  }

  function TwoTo(bits: nat): nat {
    if bits == 8 then 0x100 else if bits == 16 then 0x1_0000
    else if bits == 32 then 0x1_0000_0000 else 0x1_0000_0000_0000_0000
  }

  /** `value` is the argument `v` in the type the conversion and its length modifier select. */
  predicate IsValue(value: int, v: int, length: string, c: char) {
    var all: int := TwoTo(Bits(length));
    && (value - v) % all == 0
    && if c == 'd' || c == 'i' then -all <= 2 * value < all else 0 <= value < all
  }

  function Absolute(value: int): nat {
    if value < 0 then -value else value
  }

  /** Only the signed conversions have a sign: a minus, or what the flags ask for. */
  function SignText(value: int, c: char, flags: string): string {
    if c != 'd' && c != 'i' then ""
    else if value < 0 then "-" else if '+' in flags then "+" else if ' ' in flags then " " else ""
  }

  /** The digits, at least as many as the precision says, which is one if it is missing; `#` gives octal a first zero. */
  function NumberText(value: int, c: char, flags: string, precision: Option<nat>): string {
    var digits := Spelled(Absolute(value), Alphabet(c));
    var s := Fill('0', (if precision.Some? then precision.value else 1) - |digits|) + digits;
    if c == 'o' && '#' in flags && (s == "" || s[0] != '0') then "0" + s else s
  }

  /** Sign, or 0x before a hexadecimal number other than zero if there is a `#`. */
  function LeadText(value: int, c: char, flags: string): string {
    SignText(value, c, flags) + if (c == 'x' || c == 'X') && '#' in flags && value != 0 then ['0', c] else ""
  }

  /** Sign, prefix and digits, with zeros between them up to the width if `0` asks for it and nothing overrides it. */
  function BodyText(value: int, c: char, flags: string, left: bool, width: nat, precision: Option<nat>): string {
    var lead, number := LeadText(value, c, flags), NumberText(value, c, flags, precision);
    lead + (if '0' in flags && !left && precision.None? then Fill('0', width - |lead| - |number|) else "") + number
  }

  /** Spaces up to the width, behind the text if `left` asks for that. */
  function Padded(s: string, left: bool, width: nat): string {
    if left then s + Fill(' ', width - |s|) else Fill(' ', width - |s|) + s
  }

  /** A numeral with its sign, and zeros between them up to the width if `0` asks for it. */
  function RealBody(numeral: string, negative: bool, flags: string, left: bool, width: nat): string {
    var sign := SignText(if negative then -1 else 1, 'd', flags);
    sign + (if '0' in flags && !left then Fill('0', width - |sign| - |numeral|) else "") + numeral
  }

  /** As many characters of a text as the precision allows. */
  function Cut(s: string, precision: Option<nat>): string {
    if precision.Some? && precision.value < |s| then s[..precision.value] else s
  }

  function FieldText(value: int, c: char, flags: string, left: bool, width: nat, precision: Option<nat>): string {
    Padded(BodyText(value, c, flags, left, width, precision), left, width)
  }
}
