// The output side of printf: every character goes through one routine that
// writes to a bounded buffer, to the console or nowhere; and the integer
// conversions built on it.

module PrintfWriter {
  import opened Common
  import opened PrintfField

  const SIZE_MAX := 0xFFFF_FFFF

  /** `size_t` and `unsigned int` */
  type U32 = x: int | 0 <= x <= SIZE_MAX

  /** A count as the 32 bits that are left of it. */
  function Wrapped(n: int): U32 {
    n % 0x1_0000_0000
  }

  datatype Sink = Buffer | Console | Discard

  /** The first `maxlen` characters of `stream` over what was there before. */
  function Overlaid(initial: string, stream: string, maxlen: nat): string
    requires maxlen <= |initial|
  {
    var kept := Take(stream, maxlen);
    kept + initial[|kept|..]
  }

  /** The first `maxlen - 1` characters of `text` and a NUL over what was there before. */
  function Terminated(initial: string, text: string, maxlen: nat): string
    requires maxlen <= |initial|
  {
    if maxlen == 0 then initial
    else
      var kept := Take(text, maxlen - 1);
      kept + ['\0'] + initial[|kept| + 1..]
  }

  lemma Overwritten(initial: string, stream: string, maxlen: nat, at: nat)
    requires 0 < maxlen <= |initial| && at == if |stream| < maxlen then |stream| else maxlen - 1
    ensures Overlaid(initial, stream, maxlen)[at := '\0'] == Terminated(initial, stream, maxlen)
  {
    assert Take(stream, maxlen)[..at] == Take(stream, maxlen - 1);
  }

  /** What `stream` leaves in a buffer: a character goes where the 32-bit count of those before it points, if there is room. */
  function Written(initial: string, stream: string, maxlen: nat): (s: string)
    requires maxlen <= |initial|
    ensures |s| == |initial|
  {
    if stream == "" then initial
    else
      var n := |stream| - 1;
      var s := Written(initial, stream[..n], maxlen);
      if Wrapped(n) < maxlen then s[Wrapped(n) := stream[n]] else s
  }

  /** `Written` and a NUL behind it, or in the last place. */
  function Ended(initial: string, text: string, maxlen: nat): string
    requires maxlen <= |initial|
  {
    var s := Written(initial, text, maxlen);
    if maxlen == 0 then s
    else s[(if Wrapped(|text|) < maxlen then Wrapped(|text|) else maxlen - 1) := '\0']
  }

  lemma OverlaidStep(initial: string, stream: string, c: char, maxlen: nat)
    requires maxlen <= |initial|
    ensures var s := Overlaid(initial, stream, maxlen);
            && |s| == |initial|
            && Overlaid(initial, stream + [c], maxlen) == if |stream| < maxlen then s[|stream| := c] else s
  {
    var before, kept := Take(stream, maxlen), Take(stream + [c], maxlen);
    if |stream| < maxlen {
      assert before == stream && kept == stream + [c];
      assert (stream + initial[|stream|..])[|stream| := c] == kept + initial[|stream| + 1..];
    } else {
      assert kept == before;
    }
  }

  lemma {:induction false} WrittenOnce(initial: string, stream: string, maxlen: nat)
    requires maxlen <= |initial| && |stream| <= SIZE_MAX + 1
    ensures Written(initial, stream, maxlen) == Overlaid(initial, stream, maxlen)
  {
    hide Overlaid;
    if stream == "" {
      OverlaidNothing(initial, maxlen);
    } else {
      var n := |stream| - 1;
      assert stream == stream[..n] + [stream[n]];
      WrittenOnce(initial, stream[..n], maxlen);
      OverlaidStep(initial, stream[..n], stream[n], maxlen);
    }
  }

  lemma OverlaidNothing(initial: string, maxlen: nat)
    requires maxlen <= |initial|
    ensures Overlaid(initial, "", maxlen) == initial
  {
    assert "" + initial[0..] == initial;
  }

  lemma TerminatedAt(initial: string, text: string, maxlen: nat)
    requires maxlen <= |initial|
    ensures var s, n := Terminated(initial, text, maxlen), if |text| < maxlen then |text| else maxlen - 1;
            && |s| == |initial|
            && forall i :: 0 <= i < |s| ==> s[i] == if i < n then text[i] else if i == n then '\0' else initial[i]
  {
  }

  /** As long as the count does not start over, a buffer gets the part of the text that fits, and a NUL. */
  lemma EndedOnce(initial: string, text: string, maxlen: nat)
    requires maxlen <= |initial| && |text| <= SIZE_MAX
    ensures Ended(initial, text, maxlen) == Terminated(initial, text, maxlen)
    ensures var s, n := Ended(initial, text, maxlen), if |text| < maxlen then |text| else maxlen - 1;
            && |s| == |initial|
            && forall i :: 0 <= i < |s| ==> s[i] == if i < n then text[i] else if i == n then '\0' else initial[i]
  {
    hide Written, Overlaid, Terminated, Take;
    TerminatedAt(initial, text, maxlen);
    WrittenOnce(initial, text, maxlen);
    if maxlen == 0 {
      NothingFits(initial, text);
    } else {
      Overwritten(initial, text, maxlen, if |text| < maxlen then |text| else maxlen - 1);
    }
  }

  lemma NothingFits(initial: string, text: string)
    ensures Overlaid(initial, text, 0) == initial == Terminated(initial, text, 0)
  {
    assert "" + initial == initial;
  }

  lemma WrittenStep(initial: string, stream: string, c: char, maxlen: nat)
    requires maxlen <= |initial|
    ensures var s, at := Written(initial, stream, maxlen), Wrapped(|stream|);
            Written(initial, stream + [c], maxlen) == if at < maxlen then s[at := c] else s
  {
    assert (stream + [c])[..|stream|] == stream;
  }

  lemma Counted(stream: string, c: char)
    ensures Wrapped(Wrapped(|stream|) + 1) == Wrapped(|stream + [c]|)
  {
  }

  lemma Advanced(from: nat, n: U32)
    ensures Wrapped(Wrapped(from + n) - Wrapped(from)) == n
  {
  }

  class Writer {
    const sink: Sink
    const buffer: array<char>
    const maxlen: nat
    var console: string
    var idx: U32
    ghost var stream: string        // every character put out so far, kept or not
    ghost const initial: string     // the buffer at the start
    ghost const shown: string       // the console at the start

    ghost predicate Valid()
      reads this, buffer
    {
      && idx == Wrapped(|stream|)
      && |initial| == buffer.Length
      && (sink == Buffer ==> maxlen <= buffer.Length)
      && buffer[..] == (if sink == Buffer then Written(initial, stream, maxlen) else initial)
      && console == (if sink == Console then shown + stream else shown)
    }

    constructor (sink: Sink, buffer: array<char>, maxlen: nat, console: string)
      requires sink == Buffer ==> maxlen <= buffer.Length
      ensures Valid() && stream == "" && initial == buffer[..] && shown == console
      ensures this.sink == sink && this.buffer == buffer && this.maxlen == maxlen
    {
      this.sink, this.buffer, this.maxlen, this.console := sink, buffer, maxlen, console;
      idx, stream, initial, shown := 0, "", buffer[..], console;
    }

    /** One character to the sink, whichever of the three output routines it is, and the count goes on. */
    method Out(c: char)
      requires Valid()
      modifies this, buffer
      ensures Valid() && stream == old(stream) + [c]
    {
      hide Written, Wrapped;
      match sink {
        case Buffer =>
          WrittenStep(initial, stream, c, maxlen);
          if idx < maxlen {
            ghost var before := buffer[..];
            buffer[idx] := c;
            assert buffer[..] == before[idx := c];
          }
        case Console =>
          console := console + [c];
        case Discard =>
      }
      Counted(stream, c);
      stream := stream + [c];
      idx := Wrapped(idx + 1);
    }

    /** The terminating NUL: at the end, or in the last place there is; nowhere if there is none. */
    method Terminate()
      requires Valid() && maxlen <= SIZE_MAX
      modifies buffer
      ensures sink != Buffer ==> buffer[..] == old(buffer[..])
      ensures sink == Buffer ==> buffer[..] == Ended(initial, stream, maxlen)
    {
      var at := if idx < maxlen then idx else if maxlen == 0 then SIZE_MAX else maxlen - 1;
      if sink == Buffer && at < maxlen {
        ghost var before := buffer[..];
        buffer[at] := '\0';
        assert buffer[..] == before[at := '\0'];
      }
    }

    /** A run of padding. */
    method OutSpaces(from: nat, to: nat)
      requires Valid()
      modifies this, buffer
      ensures Valid() && stream == old(stream) + Fill(' ', to - from)
    {
      hide Valid;
      var i := from;
      ghost var before := stream;
      assert before + Fill(' ', 0) == before;
      while i < to
        invariant Valid() && from <= i && (from <= to ==> i <= to) && (from > to ==> i == from)
        invariant stream == before + Fill(' ', i - from)
      {
        Out(' ');
        assert Fill(' ', i - from) + " " == Fill(' ', i + 1 - from);
        i := i + 1;
      }
      assert from > to ==> Fill(' ', to - from) == Fill(' ', 0);
    }

    /** `out_rev_`: the scratch buffer backwards, with spaces up to the width on one side. */
    method OutRev(buf: array<char>, len0: U32, width: U32, flags: Flags)
      requires Valid() && len0 <= buf.Length && buf != buffer
      modifies this, buffer
      ensures Valid() && stream == old(stream) + Emitted(buf[..len0], width, flags)
    {
      var startIdx := idx;
      assert startIdx == Wrapped(|stream|);
      hide Valid;
      ghost var before, text := stream, buf[..len0];
      ghost var lead := if !flags.left && !flags.zeropad then Fill(' ', width - len0) else "";
      if !flags.left && !flags.zeropad {
        OutSpaces(len0, width);
      }
      assert stream == before + lead;
      OutReversed(buf, len0);
      if flags.left {
        assert lead == "" && stream == before + Reversed(text);
        OutRest(startIdx, width, before, text);
      }
      ghost var trail := if flags.left then Fill(' ', width - len0) else "";
      assert stream == before + (lead + Reversed(text) + trail);
    }

    /** "reverse string" */
    method OutReversed(buf: array<char>, len0: nat)
      requires Valid() && len0 <= buf.Length && buf != buffer
      modifies this, buffer
      ensures Valid() && stream == old(stream) + Reversed(buf[..len0])
    {
      hide Valid;
      ghost var text := buf[..len0];
      var len := len0;
      while len > 0
        invariant Valid() && 0 <= len <= len0
        invariant stream == old(stream) + Reversed(text)[..len0 - len]
      {
        len := len - 1;
        Out(buf[len]);
        assert Reversed(text)[..len0 - len] == Reversed(text)[..len0 - len - 1] + [text[len]];
      }
    }

    /** The spaces behind it, counted by how far the count has come. */
    method OutRest(startIdx: U32, width: U32, ghost before: string, ghost text: string)
      requires Valid() && startIdx == Wrapped(|before|) && stream == before + Reversed(text) && |text| <= SIZE_MAX
      modifies this, buffer
      ensures Valid() && stream == old(stream) + Fill(' ', width - |text|)
    {
      ghost var start, put := stream, |text|;
      assert start + Fill(' ', 0) == start;
      Advanced(|before|, put);
      while Wrapped(idx - startIdx) < width
        invariant Valid() && |text| <= put <= SIZE_MAX && |stream| == |before| + put
        invariant Wrapped(idx - startIdx) == put
        invariant stream == start + Fill(' ', put - |text|)
        invariant |text| <= width ==> put <= width
        invariant |text| >= width ==> put == |text|
        decreases width - put
      {
        assert Fill(' ', put - |text|) + " " == Fill(' ', put + 1 - |text|);
        Out(' ');
        put := put + 1;
        Advanced(|before|, put);
      }
    }

    /** `print_integer_finalization`: zeros, prefix and sign behind the reversed digits, then out with it. */
    method PrintIntegerFinalization(buf: array<char>, len0: nat, negative: bool, base: nat, precision: nat,
                                    width0: U32, flags0: Flags)
      requires Valid() && buf.Length == BUFFER_SIZE && len0 <= BUFFER_SIZE && buf != buffer
      modifies this, buffer, buf
      ensures Valid()
      ensures stream == old(stream) + Emitted(Finished(old(buf[..len0]), negative, base, precision, width0, flags0),
                                              SignedWidth(negative, width0, flags0), flags0)
    {
      hide Valid, Finished, Emitted, SignedWidth;
      var len, width, flags := FinishBuffer(buf, len0, negative, base, precision, width0, flags0);
      OutRev(buf, len, width, flags);
      EmittedFlags(buf[..len], width, flags, flags0);
    }
  }

  /** Everything before the output: the buffer, the width and the flags as `out_rev_` gets them. */
  method FinishBuffer(buf: array<char>, len0: nat, negative: bool, base: nat, precision: nat, width0: U32, flags0: Flags)
    returns (len: U32, width: U32, flags: Flags)
    requires buf.Length == BUFFER_SIZE && len0 <= BUFFER_SIZE
    modifies buf
    ensures len <= BUFFER_SIZE
    ensures buf[..len] == Finished(old(buf[..len0]), negative, base, precision, width0, flags0)
    ensures width == SignedWidth(negative, width0, flags0)
    ensures flags.left == flags0.left && flags.zeropad == flags0.zeropad
  {
    hide Finished, PadTo, Prefixed, TakenBack, Signed;
    ghost var text := buf[..len0];
    flags := flags0;
    len, width := PadBuffer(buf, len0, negative, precision, width0, flags);
    ghost var padded := buf[..len];
    if base == BASE_OCTAL && len > len0 {
      flags := flags.(hash := false);
    }
    if flags.hash || flags.pointer {
      len := AddPrefix(buf, len, len0, base, precision, width, flags);
    }
    len := AddSign(buf, len, negative, flags);
    FinishedSteps(text, negative, base, precision, width0, flags0);
    HashUnread(padded, len0, negative, base, precision, width, flags0, flags.hash);
  }

  /** "Pad with leading zeros". */
  method PadBuffer(buf: array<char>, len0: nat, negative: bool, precision: nat, width0: U32, flags: Flags)
    returns (len: nat, width: U32)
    requires buf.Length == BUFFER_SIZE && len0 <= BUFFER_SIZE
    modifies buf
    ensures len <= BUFFER_SIZE && width == SignedWidth(negative, width0, flags)
    ensures buf[..len] == ZeroPadded(old(buf[..len0]), negative, precision, width0, flags)
  {
    hide PadTo;
    len, width := len0, width0;
    if !flags.left {
      if width > 0 && flags.zeropad && (negative || flags.plus || flags.space) {
        width := width - 1;
      }
      if flags.zeropad {
        len := PadZeros(buf, len, width);
      }
    }
    len := PadZeros(buf, len, precision);
  }

  lemma HashUnread(padded: string, n: nat, negative: bool, base: nat, precision: nat, width: nat, flags: Flags, hash: bool)
    ensures var f := flags.(hash := hash);
            && Prefixed(TakenBack(padded, n, base, precision, width, f), base, f)
               == Prefixed(TakenBack(padded, n, base, precision, width, flags), base, flags)
            && forall s :: Signed(s, negative, f) == Signed(s, negative, flags)
  {
  }

  lemma EmittedFlags(buf: string, width: nat, a: Flags, b: Flags)
    requires a.left == b.left && a.zeropad == b.zeropad
    ensures Emitted(buf, width, a) == Emitted(buf, width, b)
  {
  }

  lemma FinishedSteps(buf: string, negative: bool, base: nat, precision: nat, width: nat, flags: Flags)
    ensures var padded := ZeroPadded(buf, negative, precision, width, flags);
            var hash := flags.hash && !(base == BASE_OCTAL && |padded| > |buf|);
            var w := SignedWidth(negative, width, flags);
            Finished(buf, negative, base, precision, width, flags)
            == Signed(if hash || flags.pointer then Prefixed(TakenBack(padded, |buf|, base, precision, w, flags), base, flags)
                      else padded, negative, flags)
  {
    hide ZeroPadded, Signed, Prefixed, TakenBack;
  }

  method PadZeros(buf: array<char>, len0: nat, n: nat) returns (len: nat)
    requires buf.Length == BUFFER_SIZE && len0 <= BUFFER_SIZE
    modifies buf
    ensures len <= BUFFER_SIZE && buf[..len] == PadTo(old(buf[..len0]), n)
  {
    len := len0;
    while len < n && len < BUFFER_SIZE
      invariant len0 <= len <= BUFFER_SIZE && (len > len0 ==> len <= n)
      invariant buf[..len] == old(buf[..len0]) + Fill('0', len - len0)
    {
      buf[len] := '0';
      assert Fill('0', len - len0) + "0" == Fill('0', len + 1 - len0);
      len := len + 1;
    }
  }

  method PutChar(buf: array<char>, len0: nat, c: char) returns (len: nat)
    requires buf.Length == BUFFER_SIZE && len0 <= BUFFER_SIZE
    modifies buf
    ensures len <= BUFFER_SIZE && buf[..len] == Put(old(buf[..len0]), c)
  {
    len := len0;
    if len < BUFFER_SIZE {
      buf[len] := c;
      len := len + 1;
    }
  }

  /** The "handle hash" part. */
  method AddPrefix(buf: array<char>, len0: nat, unpaddedLen: nat, base: nat, precision: nat, width: nat, flags: Flags)
    returns (len: nat)
    requires buf.Length == BUFFER_SIZE && len0 <= BUFFER_SIZE
    modifies buf
    ensures len <= BUFFER_SIZE
    ensures buf[..len] == Prefixed(TakenBack(old(buf[..len0]), unpaddedLen, base, precision, width, flags), base, flags)
  {
    len := len0;
    ghost var text := buf[..len0];
    if !flags.precision && len > 0 && (len == precision || len == width) {
      if unpaddedLen < len {
        len := len - 1;
      }
      if len > 0 && base == BASE_HEX {
        if unpaddedLen < len {
          len := len - 1;
        }
      }
    }
    assert buf[..len] == TakenBack(text, unpaddedLen, base, precision, width, flags);
    hide TakenBack;
    if base == BASE_HEX && !flags.uppercase {
      len := PutChar(buf, len, 'x');
    } else if base == BASE_HEX && flags.uppercase {
      len := PutChar(buf, len, 'X');
    } else if base == BASE_BINARY {
      len := PutChar(buf, len, 'b');
    }
    len := PutChar(buf, len, '0');
  }

  method AddSign(buf: array<char>, len0: nat, negative: bool, flags: Flags) returns (len: nat)
    requires buf.Length == BUFFER_SIZE && len0 <= BUFFER_SIZE
    modifies buf
    ensures len <= BUFFER_SIZE && buf[..len] == Signed(old(buf[..len0]), negative, flags)
  {
    len := len0;
    if negative {
      len := PutChar(buf, len, '-');
    } else if flags.plus {
      len := PutChar(buf, len, '+');
    } else if flags.space {
      len := PutChar(buf, len, ' ');
    }
  }

  lemma DigitsTaken(done: string, value: nat, whole: string, base: nat, uppercase: bool)
    requires 2 <= base <= 16 && |done| <= BUFFER_SIZE && done + Digits(value, base, uppercase) == whole
    requires value == 0 || |done| == BUFFER_SIZE
    ensures done == Take(whole, BUFFER_SIZE)
  {
    hide Digits;
    assert value == 0 ==> Digits(value, base, uppercase) == "" by {
      DigitsDenote(value, base, uppercase);
    }
  }

  lemma DigitsOnce(value: nat, base: nat, uppercase: bool)
    requires 2 <= base <= 16 && value > 0
    ensures Digits(value, base, uppercase) == [DigitChar(value % base, uppercase)] + Digits(value / base, base, uppercase)
    ensures value / base < value
  {
    DivMod(value, base);
    QuotientSmaller(value, value / base, base, value % base);
  }

  /** The digit loop of `print_integer`. */
  method PutDigits(buf: array<char>, value0: nat, base: nat, flags: Flags) returns (len: nat)
    requires buf.Length == BUFFER_SIZE && 2 <= base <= 16 && value0 > 0
    modifies buf
    ensures len <= BUFFER_SIZE && buf[..len] == Take(Digits(value0, base, flags.uppercase), BUFFER_SIZE)
  {
    hide Digits, DigitChar, Take;
    var value: nat := value0;
    len := 0;
    ghost var whole := Digits(value0, base, flags.uppercase);
    assert buf[..0] + whole == whole;
    while value > 0 && len < BUFFER_SIZE
      invariant 0 <= len <= BUFFER_SIZE
      invariant buf[..len] + Digits(value, base, flags.uppercase) == whole
      decreases value
    {
      DigitsOnce(value, base, flags.uppercase);
      var digit := value % base;
      buf[len] := DigitChar(digit, flags.uppercase);
      assert buf[..len + 1] == buf[..len] + [buf[len]];
      len := len + 1;
      value := value / base;
    }
    DigitsTaken(buf[..len], value, whole, base, flags.uppercase);
  }

  /** `print_integer` */
  method PrintInteger(w: Writer, value: nat, negative: bool, base: nat, precision: nat, width: U32, flags0: Flags)
    requires w.Valid() && 2 <= base <= 16
    modifies w, w.buffer
    ensures w.Valid() && w.stream == old(w.stream) + IntegerField(value, negative, base, precision, width, flags0)
  {
    hide Finished, Emitted, ScratchDigits, KeptHash, SignedWidth, w.Valid;
    var buf := new char[BUFFER_SIZE];
    var len, flags := PutValue(buf, value, base, flags0);
    w.PrintIntegerFinalization(buf, len, negative, base, precision, width, flags);
    HashNoWidth(negative, width, flags0, flags);
  }

  lemma HashNoWidth(negative: bool, width: nat, flags: Flags, f: Flags)
    requires f == flags.(hash := f.hash)
    ensures SignedWidth(negative, width, f) == SignedWidth(negative, width, flags)
  {
  }

  /** The first half of `print_integer`: the digits, and whether the alternative form still matters. */
  method PutValue(buf: array<char>, value: nat, base: nat, flags0: Flags) returns (len: nat, flags: Flags)
    requires buf.Length == BUFFER_SIZE && 2 <= base <= 16
    modifies buf
    ensures len <= BUFFER_SIZE && buf[..len] == ScratchDigits(value, base, flags0)
    ensures flags == flags0.(hash := KeptHash(value, base, flags0))
  {
    hide Digits, Take;
    len, flags := 0, flags0;
    if value == 0 {
      if !flags.precision {
        buf[0] := '0';
        len := 1;
        flags := flags.(hash := false);
      } else if base == BASE_HEX {
        flags := flags.(hash := false);
      }
    } else {
      len := PutDigits(buf, value, base, flags);
    }
  }

  // ----- Strings -----

  method PutString(w: Writer, s: string)
    requires w.Valid()
    modifies w, w.buffer
    ensures w.Valid() && w.stream == old(w.stream) + s
  {
    hide w.Valid;
    var p := 0;
    while p < |s|
      invariant w.Valid() && 0 <= p <= |s| && w.stream == old(w.stream) + s[..p]
    {
      w.Out(s[p]);
      p := p + 1;
    }
  }

  /** A string literal from the scratch side: `out_rev_` of a constant. */
  method PutReversed(w: Writer, s: string, width: U32, flags: Flags)
    requires w.Valid() && |s| <= SIZE_MAX
    modifies w, w.buffer
    ensures w.Valid() && w.stream == old(w.stream) + Emitted(s, width, flags)
  {
    hide w.Valid, Emitted;
    var buf := new char[|s|](i requires 0 <= i < |s| => s[i]);
    assert buf[..|s|] == s;
    w.OutRev(buf, |s|, width, flags);
  }
}
