// The format engine of printf: directives read off the format, arguments
// taken one after the other, and the whole call against a bounded buffer.

module PrintfFormat {
  import opened PrintfField
  import opened PrintfFloat
  import opened PrintfWriter
  import opened Common

  /**
   * The arguments of a call. A floating-point argument comes with what its printer puts out where it goes over to
   * exponential notation.
   */
  datatype Arg =
    | Number(v: int)
    | Text(s: string)
    | NullText
    | Real(value: Double, exponential: Exponential)

  datatype Length = NoLength | Char | Short | Long | LongLong

  /** A conversion specification up to its last character, and what comes behind it. */
  datatype Scan = Scan(flags: Flags, width: nat, precision: nat, length: Length, rest: string, args: seq<Arg>)

  const NO_FLAGS := Flags(false, false, false, false, false, false, false, false)

  /** `*format` */
  function Cur(s: string): char {
    if s == "" then '\0' else s[0]
  }

  // ----- Reading a specification -----

  predicate IsFlag(c: char) {
    c == '0' || c == '-' || c == '+' || c == ' ' || c == '#'
  }

  function WithFlag(f: Flags, c: char): Flags {
    match c
    case '0' => f.(zeropad := true)
    case '-' => f.(left := true)
    case '+' => f.(plus := true)
    case ' ' => f.(space := true)
    case '#' => f.(hash := true)
    case _ => f
  }

  function FlagsRead(s: string, f: Flags): (Flags, string) {
    if IsFlag(Cur(s)) then FlagsRead(s[1..], WithFlag(f, s[0])) else (f, s)
  }

  predicate IsDigit(c: char) {
    '0' <= c <= '9'
  }

  /** `atoi_`, in 32 bits */
  function NumberRead(s: string, n: nat): (nat, string) {
    if IsDigit(Cur(s)) then NumberRead(s[1..], (n * 10 + (s[0] as int - '0' as int)) % 0x1_0000_0000) else (n, s)
  }

  /** An `int` as it was passed. */
  function AsSigned(v: int, half: int): int
    requires half > 0
  {
    (v + half) % (2 * half) - half
  }

  function HalfRange(length: Length): int {
    match length
    case Char => 0x80
    case Short => 0x8000
    case LongLong => 0x8000_0000_0000_0000
    case _ => 0x8000_0000
  }

  function TakeInt(args: seq<Arg>): Option<int> {
    if args != [] && args[0].Number? then Some(AsSigned(args[0].v, 0x8000_0000)) else None
  }

  function WidthRead(scan: Scan): Option<Scan> {
    if IsDigit(Cur(scan.rest)) then
      var (n, rest) := NumberRead(scan.rest, 0);
      Some(scan.(width := n, rest := rest))
    else if Cur(scan.rest) == '*' then
      match TakeInt(scan.args)
      case None => None
      case Some(w) =>
        var flags := if w < 0 then scan.flags.(left := true) else scan.flags;
        Some(scan.(flags := flags, width := if w < 0 then -w else w, rest := scan.rest[1..], args := scan.args[1..]))
    else Some(scan)
  }

  function PrecisionRead(scan0: Scan): Option<Scan> {
    if Cur(scan0.rest) != '.' then Some(scan0)
    else
      var scan := scan0.(flags := scan0.flags.(precision := true), rest := scan0.rest[1..]);
      if IsDigit(Cur(scan.rest)) then
        var (n, rest) := NumberRead(scan.rest, 0);
        Some(scan.(precision := n, rest := rest))
      else if Cur(scan.rest) == '*' then
        match TakeInt(scan.args)
        case None => None
        case Some(p) =>
          Some(scan.(precision := if p > 0 then p else 0, rest := scan.rest[1..], args := scan.args[1..]))
      else Some(scan)
  }

  /** On a target where `long`, `size_t` and pointers have 32 bits and `intmax_t` has 64. */
  function LengthRead(scan: Scan): Scan {
    var s := scan.rest;
    match Cur(s)
    case 'l' => if Cur(s[1..]) == 'l' then scan.(length := LongLong, rest := s[2..]) else scan.(length := Long, rest := s[1..])
    case 'h' => if Cur(s[1..]) == 'h' then scan.(length := Char, rest := s[2..]) else scan.(length := Short, rest := s[1..])
    case 't' => scan.(length := Long, rest := s[1..])
    case 'j' => scan.(length := LongLong, rest := s[1..])
    case 'z' => scan.(length := Long, rest := s[1..])
    case _ => scan
  }

  function SpecRead(s: string, args: seq<Arg>): Option<Scan> {
    var (flags, rest) := FlagsRead(s, NO_FLAGS);
    match WidthRead(Scan(flags, 0, 0, NoLength, rest, args))
    case None => None
    case Some(scan) =>
      match PrecisionRead(scan)
      case None => None
      case Some(scan) => Some(LengthRead(scan))
  }

  // ----- Converting -----

  function BaseOf(c: char): nat {
    match c
    case 'x' => BASE_HEX
    case 'X' => BASE_HEX
    case 'o' => BASE_OCTAL
    case 'b' => BASE_BINARY
    case _ => BASE_DECIMAL
  }

  predicate IsSignedConversion(c: char) {
    c == 'd' || c == 'i'
  }

  predicate IsIntegerConversion(c: char) {
    IsSignedConversion(c) || c == 'u' || c == 'x' || c == 'X' || c == 'o' || c == 'b'
  }

  predicate IsRealConversion(c: char) {
    c == 'f' || c == 'F' || c == 'e' || c == 'E' || c == 'g' || c == 'G'
  }

  /** The flags that are dropped or added for a conversion. */
  function IntegerFlags(flags: Flags, c: char): Flags {
    flags.(hash := flags.hash && BaseOf(c) != BASE_DECIMAL,
           uppercase := flags.uppercase || c == 'X',
           plus := flags.plus && IsSignedConversion(c),
           space := flags.space && IsSignedConversion(c),
           zeropad := flags.zeropad && !flags.precision)
  }

  /** The value a conversion works on: its argument in the width of its type. */
  function ValueOf(v: int, c: char, length: Length): int {
    if IsSignedConversion(c) then AsSigned(v, HalfRange(length)) else v % (2 * HalfRange(length))
  }

  function Magnitude(v: int): nat {
    if v < 0 then -v else v
  }

  /** `%s`: at most as many characters as the precision says, with spaces up to the width. */
  function TextField(s: string, scan: Scan): string {
    Justified(if scan.flags.precision then Take(s, scan.precision) else s, scan.width, scan.flags.left)
  }

  function PointerFlags(flags: Flags): Flags {
    flags.(zeropad := true, pointer := true)
  }

  const POINTER_WIDTH := 10

  /** What one specification puts out; nothing if the argument is missing or of the wrong kind. */
  function Converted(scan: Scan): Option<string> {
    var c := Cur(scan.rest);
    var flags := scan.flags;
    if c == '\0' then None
    else if c == '%' then Some("%")
    else if !(IsIntegerConversion(c) || IsRealConversion(c) || c == 'c' || c == 's' || c == 'p') then Some([c])
    else if scan.args == [] then None
    else
      match scan.args[0]
      case Number(v) =>
        if IsIntegerConversion(c) then
          var value := ValueOf(v, c, scan.length);
          Some(IntegerField(Magnitude(value), value < 0, BaseOf(c), scan.precision, scan.width, IntegerFlags(flags, c)))
        else if c == 'c' then Some(Justified([(v % 0x100) as char], scan.width, flags.left))
        else if c == 'p' then
          var value := v % 0x1_0000_0000;
          Some(if value == 0 then Emitted(")lin(", POINTER_WIDTH, PointerFlags(flags))
               else IntegerField(value, false, BASE_HEX, scan.precision, POINTER_WIDTH, PointerFlags(flags)))
        else None
      case Text(s) => if c == 's' then Some(TextField(s, scan)) else None
      case NullText => if c == 's' then Some(Emitted(")llun(", scan.width, flags)) else None
      case Real(value, exponential) =>
        if IsRealConversion(c) then RealText(value, exponential, c, scan.precision, scan.width, flags) else None
  }

  function ArgsLeft(scan: Scan): seq<Arg> {
    var c := Cur(scan.rest);
    if (IsIntegerConversion(c) || IsRealConversion(c) || c == 'c' || c == 's' || c == 'p') && scan.args != []
    then scan.args[1..] else scan.args
  }

  // ----- The whole output -----

  function Join(a: string, b: Option<string>): Option<string> {
    if b.None? then None else Some(a + b.value)
  }

  lemma {:induction false} FlagsShrink(s: string, f: Flags)
    ensures |FlagsRead(s, f).1| <= |s|
  {
    if IsFlag(Cur(s)) {
      FlagsShrink(s[1..], WithFlag(f, s[0]));
    }
  }

  lemma {:induction false} NumberShrinks(s: string, n: nat)
    ensures |NumberRead(s, n).1| <= |s|
  {
    if IsDigit(Cur(s)) {
      NumberShrinks(s[1..], (n * 10 + (s[0] as int - '0' as int)) % 0x1_0000_0000);
    }
  }

  lemma SpecShrinks(s: string, args: seq<Arg>)
    ensures SpecRead(s, args).Some? ==> |SpecRead(s, args).value.rest| <= |s|
  {
    hide FlagsRead, NumberRead, LengthRead, TakeInt;
    var (flags, rest) := FlagsRead(s, NO_FLAGS);
    FlagsShrink(s, NO_FLAGS);
    NumberShrinks(rest, 0);
    var scan := WidthRead(Scan(flags, 0, 0, NoLength, rest, args));
    hide WidthRead;
    if scan.Some? && Cur(scan.value.rest) == '.' {
      NumberShrinks(scan.value.rest[1..], 0);
    }
    if scan.Some? && PrecisionRead(scan.value).Some? {
      LengthShrinks(PrecisionRead(scan.value).value);
    }
  }

  lemma LengthShrinks(scan: Scan)
    ensures |LengthRead(scan).rest| <= |scan.rest|
  {
  }

  /** Everything a call puts out, whatever becomes of it; nothing where the call has no defined meaning. */
  function Rendered(format: string, args: seq<Arg>): Option<string>
    decreases |format|
  {
    if Cur(format) == '\0' then Some("")
    else if format[0] != '%' then Join([format[0]], Rendered(format[1..], args))
    else
      match SpecRead(format[1..], args)
      case None => None
      case Some(scan) =>
        SpecShrinks(format[1..], args);
        match Converted(scan)
        case None => None
        case Some(field) => Join(field, Rendered(scan.rest[1..], ArgsLeft(scan)))
  }

  // ----- The engine -----

  /** "evaluate flags" */
  method ReadFlags(format0: string) returns (flags: Flags, format: string)
    ensures (flags, format) == FlagsRead(format0, NO_FLAGS)
  {
    flags, format := NO_FLAGS, format0;
    var n := true;
    while n
      invariant FlagsRead(format, flags) == FlagsRead(format0, NO_FLAGS)
      invariant !n ==> !IsFlag(Cur(format))
      decreases n, |format|
    {
      match Cur(format) {
        case '0' => flags := flags.(zeropad := true); format := format[1..];
        case '-' => flags := flags.(left := true); format := format[1..];
        case '+' => flags := flags.(plus := true); format := format[1..];
        case ' ' => flags := flags.(space := true); format := format[1..];
        case '#' => flags := flags.(hash := true); format := format[1..];
        case _ => n := false;
      }
    }
  }

  /** `atoi_` */
  method Atoi(str0: string) returns (i: U32, str: string)
    ensures (i, str) == NumberRead(str0, 0)
  {
    i, str := 0, str0;
    while IsDigit(Cur(str))
      invariant NumberRead(str, i) == NumberRead(str0, 0)
      decreases |str|
    {
      i := (i * 10 + (str[0] as int - '0' as int)) % 0x1_0000_0000;
      str := str[1..];
    }
  }

  /** Flags, width, precision and length of one specification. */
  method ReadSpec(format0: string, va0: seq<Arg>) returns (scan: Scan)
    requires SpecRead(format0, va0).Some?
    ensures scan == SpecRead(format0, va0).value && scan.width <= SIZE_MAX
  {
    hide FlagsRead, NumberRead;
    var flags, format := ReadFlags(format0);
    var va, width, precision := va0, 0, 0;
    if IsDigit(Cur(format)) {
      width, format := Atoi(format);
    } else if Cur(format) == '*' {
      var w := AsSigned(va[0].v, 0x8000_0000);
      va := va[1..];
      if w < 0 {
        flags := flags.(left := true);
        width := -w;
      } else {
        width := w;
      }
      format := format[1..];
    }
    if Cur(format) == '.' {
      flags := flags.(precision := true);
      format := format[1..];
      if IsDigit(Cur(format)) {
        precision, format := Atoi(format);
      } else if Cur(format) == '*' {
        var p := AsSigned(va[0].v, 0x8000_0000);
        va := va[1..];
        precision := if p > 0 then p else 0;
        format := format[1..];
      }
    }
    scan := LengthRead(Scan(flags, width, precision, NoLength, format, va));
  }

  /** "convert the integer" */
  method ConvertInteger(w: Writer, scan: Scan)
    requires w.Valid() && scan.width <= SIZE_MAX && IsIntegerConversion(Cur(scan.rest)) && scan.args != [] && scan.args[0].Number?
    modifies w, w.buffer
    ensures w.Valid() && w.stream == old(w.stream) + Converted(scan).value
  {
    hide IntegerField, w.Valid, IntegerFlags, BaseOf;
    var c := scan.rest[0];
    var base, flags := BaseAndFlags(c, scan.flags);
    if c == 'i' || c == 'd' {
      var value := AsSigned(scan.args[0].v, HalfRange(scan.length));
      PrintInteger(w, if value > 0 then value else -value, value < 0, base, scan.precision, scan.width, flags);
    } else {
      var value := scan.args[0].v % (2 * HalfRange(scan.length));
      PrintInteger(w, value, false, base, scan.precision, scan.width, flags);
    }
  }

  /** "set the base" */
  method SetBase(c: char, flags0: Flags) returns (base: nat, flags: Flags)
    requires IsIntegerConversion(c)
    ensures base == BaseOf(c) && 2 <= base <= 16
    ensures flags == flags0.(hash := flags0.hash && base != BASE_DECIMAL)
  {
    flags := flags0;
    if c == 'x' || c == 'X' {
      base := BASE_HEX;
    } else if c == 'o' {
      base := BASE_OCTAL;
    } else if c == 'b' {
      base := BASE_BINARY;
    } else {
      base := BASE_DECIMAL;
      flags := flags.(hash := false);
    }
  }

  /** "no plus or space flag for u, x, X, o, b" and "ignore '0' flag when precision is given" */
  method DropFlags(c: char, flags0: Flags) returns (flags: Flags)
    ensures flags == flags0.(plus := flags0.plus && IsSignedConversion(c), space := flags0.space && IsSignedConversion(c),
                             zeropad := flags0.zeropad && !flags0.precision)
  {
    flags := flags0;
    if c != 'i' && c != 'd' {
      flags := flags.(plus := false, space := false);
    }
    if flags.precision {
      flags := flags.(zeropad := false);
    }
  }

  /** Everything before "convert the integer". */
  method BaseAndFlags(c: char, flags0: Flags) returns (base: nat, flags: Flags)
    requires IsIntegerConversion(c)
    ensures base == BaseOf(c) && 2 <= base <= 16 && flags == IntegerFlags(flags0, c)
  {
    hide BaseOf, IsSignedConversion;
    base, flags := SetBase(c, flags0);
    if c == 'X' {
      flags := flags.(uppercase := true);
    }
    flags := DropFlags(c, flags);
  }

  /** A character or a piece of text with spaces on one side. */
  method PutText(w: Writer, s: string, width: nat, left: bool)
    requires w.Valid()
    modifies w, w.buffer
    ensures w.Valid() && w.stream == old(w.stream) + Justified(s, width, left)
  {
    hide w.Valid;
    ghost var before := w.stream;
    if !left {
      w.OutSpaces(|s|, width);
    }
    PutString(w, s);
    if left {
      w.OutSpaces(|s|, width);
    }
    assert w.stream == before + Justified(s, width, left);
  }

  /** "evaluate specifier" */
  method Convert(w: Writer, scan: Scan)
    requires w.Valid() && Converted(scan).Some? && scan.width <= SIZE_MAX
    modifies w, w.buffer
    ensures w.Valid() && w.stream == old(w.stream) + Converted(scan).value
  {
    hide w.Valid, Justified, Emitted, IntegerField, Take, IntegerFlags, ValueOf, RealText;
    var c := Cur(scan.rest);
    if IsIntegerConversion(c) {
      ConvertInteger(w, scan);
    } else if IsRealConversion(c) {
      PrintFloatingPoint(w, scan.args[0].value, scan.args[0].exponential, c, scan.precision, scan.width, scan.flags);
    } else if c == 'c' {
      PutText(w, [(scan.args[0].v % 0x100) as char], scan.width, scan.flags.left);
    } else if c == 's' {
      if scan.args[0].NullText? {
        PutReversed(w, ")llun(", scan.width, scan.flags);
      } else {
        var s := scan.args[0].s;
        PutText(w, if scan.flags.precision then Take(s, scan.precision) else s, scan.width, scan.flags.left);
      }
    } else if c == 'p' {
      var flags, value := PointerFlags(scan.flags), scan.args[0].v % 0x1_0000_0000;
      if value == 0 {
        PutReversed(w, ")lin(", POINTER_WIDTH, flags);
      } else {
        PrintInteger(w, value, false, BASE_HEX, scan.precision, POINTER_WIDTH, flags);
      }
    } else {
      w.Out(c);
    }
  }

  lemma RenderedStep(format: string, args: seq<Arg>)
    requires Cur(format) != '\0' && Rendered(format, args).Some?
    ensures if format[0] != '%'
            then Rendered(format[1..], args).Some?
                 && Rendered(format, args).value == [format[0]] + Rendered(format[1..], args).value
            else
              && SpecRead(format[1..], args).Some?
              && var scan := SpecRead(format[1..], args).value;
                 && |scan.rest| <= |format| - 1 && Converted(scan).Some? && scan.rest != ""
                 && Rendered(scan.rest[1..], ArgsLeft(scan)).Some?
                 && Rendered(format, args).value == Converted(scan).value + Rendered(scan.rest[1..], ArgsLeft(scan)).value
  {
    hide SpecRead;
    if format[0] == '%' {
      SpecShrinks(format[1..], args);
    }
  }

  /** The loop of `__vsnprintf`. */
  method Put(w: Writer, format0: string, va0: seq<Arg>)
    requires w.Valid() && Rendered(format0, va0).Some?
    modifies w, w.buffer
    ensures w.Valid() && w.stream == old(w.stream) + Rendered(format0, va0).value
  {
    hide w.Valid, Rendered, SpecRead, Converted, ArgsLeft;
    var format, va := format0, va0;
    ghost var whole := w.stream + Rendered(format0, va0).value;
    while Cur(format) != '\0'
      invariant w.Valid() && Rendered(format, va).Some? && w.stream + Rendered(format, va).value == whole
      decreases |format|
    {
      RenderedStep(format, va);
      if format[0] != '%' {
        w.Out(format[0]);
        format := format[1..];
        continue;
      }
      var scan := ReadSpec(format[1..], va);
      Convert(w, scan);
      format, va := scan.rest[1..], ArgsLeft(scan);
    }
    RenderedNothing(format, va);
  }

  lemma RenderedNothing(format: string, args: seq<Arg>)
    requires Cur(format) == '\0'
    ensures Rendered(format, args) == Some("")
  {
  }

  lemma CountCast(n: nat)
    ensures AsSigned(Wrapped(n), 0x8000_0000) == AsSigned(n, 0x8000_0000)
  {
  }

  /**
   * `__vsnprintf`: what is put out and how much depends on the format and the arguments alone, not on the sink or
   * the room there is; a buffer with room gets the part that fits and a NUL, one without is left alone. Past 2^32
   * characters the count starts over, and with it the places in the buffer.
   */
  method Vsnprintf(out0: Sink, buffer: array?<char>, maxlen: U32, format: string, va: seq<Arg>, console: string)
    returns (ret: int, shown: string)
    requires Rendered(format, va).Some? && out0 != Discard
    requires out0 == Buffer && buffer != null ==> maxlen <= buffer.Length
    modifies if buffer == null then {} else {buffer}
    ensures ret == AsSigned(|Rendered(format, va).value|, 0x8000_0000)
    ensures out0 == Console ==> shown == console + Rendered(format, va).value
    ensures out0 == Buffer ==> shown == console
    ensures buffer != null ==>
              var text := Rendered(format, va).value;
              buffer[..] == if out0 != Buffer then old(buffer[..])
                            else if |text| <= SIZE_MAX then Terminated(old(buffer[..]), text, maxlen)
                            else Ended(old(buffer[..]), text, maxlen)
  {
    hide Rendered, Written, Ended, Terminated, Take, AsSigned;
    var out := if buffer == null && out0 != Console then Discard else out0;
    var room: array<char>;
    if buffer == null {
      room := new char[0];
    } else {
      room := buffer;
    }
    var w := new Writer(out, room, maxlen, console);
    ghost var initial, text := room[..], Rendered(format, va).value;
    Put(w, format, va);
    assert w.stream == text;
    if out != Console {
      w.Terminate();
    }
    if out == Buffer && |text| <= SIZE_MAX {
      EndedOnce(initial, text, maxlen);
    }
    CountCast(|text|);
    ret, shown := AsSigned(w.idx, 0x8000_0000), w.console;
  }
}
