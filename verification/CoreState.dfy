// CoreMark's state machine: what language each state stands for, the scan over
// a block of comma separated items, and the corruption of the block and its
// undoing.

module CoreState {
  import opened Crc

  datatype State = START | INVALID | S1 | S2 | INT | FLOAT | EXPONENT | SCIENTIFIC

  type Text = seq<bv8>

  const COMMA: bv8 := 0x2C
  const PLUS: bv8 := 0x2B
  const MINUS: bv8 := 0x2D
  const POINT: bv8 := 0x2E
  const UPPER_E: bv8 := 0x45
  const LOWER_E: bv8 := 0x65

  predicate IsDigit(c: bv8) {
    0x30 <= c <= 0x39
  }

  predicate IsSign(c: bv8) {
    c == PLUS || c == MINUS
  }

  predicate IsExponentMark(c: bv8) {
    c == UPPER_E || c == LOWER_E
  }

  // ----- The machine -----

  function Next(state: State, c: bv8): State {
    match state
    case START => if IsDigit(c) then INT else if IsSign(c) then S1 else if c == POINT then FLOAT else INVALID
    case S1 => if IsDigit(c) then INT else if c == POINT then FLOAT else INVALID
    case INT => if c == POINT then FLOAT else if IsDigit(c) then INT else INVALID
    case FLOAT => if IsExponentMark(c) then S2 else if IsDigit(c) then FLOAT else INVALID
    case S2 => if IsSign(c) then EXPONENT else INVALID
    case EXPONENT => if IsDigit(c) then SCIENTIFIC else INVALID
    case SCIENTIFIC => if IsDigit(c) then SCIENTIFIC else INVALID
    case INVALID => INVALID
  }

  /** The state after a text without separators. */
  function Run(w: Text): State {
    if w == [] then START else Next(Run(w[..|w| - 1]), w[|w| - 1])
  }

  // ----- The languages of the states -----

  predicate AllDigits(w: Text) {
    forall i :: 0 <= i < |w| ==> IsDigit(w[i])
  }

  /** [+-]? */
  predicate OptionalSign(w: Text) {
    w == [] || (|w| == 1 && IsSign(w[0]))
  }

  /** [+-] */
  predicate Sign(w: Text) {
    |w| == 1 && IsSign(w[0])
  }

  /** [+-]?d+ */
  ghost predicate Integer(w: Text) {
    exists k: nat :: SplitsInteger(w, k)
  }

  predicate SplitsInteger(w: Text, k: nat) {
    k < |w| && OptionalSign(w[..k]) && AllDigits(w[k..])
  }

  /** [+-]?d*.d* */
  ghost predicate Decimal(w: Text) {
    exists i: nat, j: nat :: SplitsDecimal(w, i, j)
  }

  predicate SplitsDecimal(w: Text, i: nat, j: nat) {
    i <= j < |w| && OptionalSign(w[..i]) && AllDigits(w[i..j]) && w[j] == POINT && AllDigits(w[j + 1..])
  }

  /** [+-]?d*.d*[eE] */
  ghost predicate Marked(w: Text) {
    w != [] && Decimal(w[..|w| - 1]) && IsExponentMark(w[|w| - 1])
  }

  /** [+-]?d*.d*[eE][+-] */
  ghost predicate SignedExponent(w: Text) {
    w != [] && Marked(w[..|w| - 1]) && IsSign(w[|w| - 1])
  }

  /** [+-]?d*.d*[eE][+-]d+ */
  ghost predicate Scientific(w: Text) {
    exists k: nat :: SplitsScientific(w, k)
  }

  ghost predicate SplitsScientific(w: Text, k: nat) {
    k < |w| && SignedExponent(w[..k]) && AllDigits(w[k..])
  }

  lemma IntegerStep(w: Text, c: bv8)
    ensures Integer(w + [c]) <==> IsDigit(c) && (w == [] || Sign(w) || Integer(w))
  {
    var v := w + [c];
    if Integer(v) {
      var k: nat :| SplitsInteger(v, k);
      assert v[k..][|v| - 1 - k] == c;
      if k < |w| {
        assert w[..k] == v[..k] && forall i :: 0 <= i < |w| - k ==> w[k..][i] == v[k..][i];
        assert SplitsInteger(w, k);
      } else {
        assert v[..k] == w;
      }
    }
    if IsDigit(c) {
      if Integer(w) {
        var k: nat :| SplitsInteger(w, k);
        assert v[..k] == w[..k] && v[k..] == w[k..] + [c];
        assert SplitsInteger(v, k);
      } else if w == [] || Sign(w) {
        assert v[..|w|] == w && v[|w|..] == [c];
        assert SplitsInteger(v, |w|);
      }
    }
  }

  lemma DecimalShorter(w: Text, c: bv8, i: nat, j: nat)
    requires SplitsDecimal(w + [c], i, j)
    ensures (c == POINT && (w == [] || Sign(w) || Integer(w))) || (IsDigit(c) && Decimal(w))
  {
    var v := w + [c];
    assert w[..i] == v[..i];
    if j < |w| {
      assert v[j + 1..][|w| - j - 1] == c;
      assert w[i..j] == v[i..j] && v[j + 1..] == w[j + 1..] + [c];
      AllButLast(w[j + 1..], c);
      assert SplitsDecimal(w, i, j);
    } else {
      assert w[i..] == v[i..j];
      if i < |w| {
        assert SplitsInteger(w, i);
      } else {
        assert w[..i] == w;
      }
    }
  }

  lemma AllButLast(w: Text, c: bv8)
    ensures AllDigits(w + [c]) <==> AllDigits(w) && IsDigit(c)
  {
    var v := w + [c];
    assert v[|w|] == c;
    assert forall i :: 0 <= i < |w| ==> v[i] == w[i];
  }

  lemma DecimalLonger(w: Text, c: bv8, i: nat, j: nat)
    requires SplitsDecimal(w, i, j) && IsDigit(c)
    ensures Decimal(w + [c])
  {
    var v := w + [c];
    assert v[..i] == w[..i] && v[i..j] == w[i..j] && v[j + 1..] == w[j + 1..] + [c];
    AllButLast(w[j + 1..], c);
    assert SplitsDecimal(v, i, j);
  }

  lemma DecimalPoint(w: Text, k: nat)
    requires k <= |w| && OptionalSign(w[..k]) && AllDigits(w[k..])
    ensures Decimal(w + [POINT])
  {
    var v := w + [POINT];
    assert v[..k] == w[..k] && v[k..|w|] == w[k..] && v[|w| + 1..] == [];
    assert SplitsDecimal(v, k, |w|);
  }

  lemma DecimalStep(w: Text, c: bv8)
    ensures Decimal(w + [c]) <==>
            (c == POINT && (w == [] || Sign(w) || Integer(w))) || (IsDigit(c) && Decimal(w))
  {
    if Decimal(w + [c]) {
      var i: nat, j: nat :| SplitsDecimal(w + [c], i, j);
      DecimalShorter(w, c, i, j);
    }
    if c == POINT && Integer(w) {
      var k: nat :| SplitsInteger(w, k);
      DecimalPoint(w, k);
    } else if c == POINT && (w == [] || Sign(w)) {
      assert w[..|w|] == w && w[|w|..] == [];
      DecimalPoint(w, |w|);
    }
    if IsDigit(c) && Decimal(w) {
      var i: nat, j: nat :| SplitsDecimal(w, i, j);
      DecimalLonger(w, c, i, j);
    }
  }

  lemma ScientificStep(w: Text, c: bv8)
    ensures Scientific(w + [c]) <==> IsDigit(c) && (SignedExponent(w) || Scientific(w))
  {
    hide SignedExponent;
    var v := w + [c];
    if Scientific(v) {
      var k: nat :| SplitsScientific(v, k);
      assert v[k..][|v| - 1 - k] == c;
      assert v[..k] == w[..k];
      if k < |w| {
        assert forall i :: 0 <= i < |w| - k ==> w[k..][i] == v[k..][i];
        assert SplitsScientific(w, k);
      } else {
        assert w[..k] == w;
      }
    }
    if IsDigit(c) && Scientific(w) {
      var k: nat :| SplitsScientific(w, k);
      assert v[..k] == w[..k] && v[k..] == w[k..] + [c];
      assert SplitsScientific(v, k);
    } else if IsDigit(c) && SignedExponent(w) {
      assert v[..|w|] == w && v[|w|..] == [c];
      assert SplitsScientific(v, |w|);
    }
  }

  /** The state a text ends in is the one its language stands for. */
  ghost predicate Speaks(w: Text) {
    && (Run(w) == START <==> w == [])
    && (Run(w) == S1 <==> Sign(w))
    && (Run(w) == INT <==> Integer(w))
    && (Run(w) == FLOAT <==> Decimal(w))
    && (Run(w) == S2 <==> Marked(w))
    && (Run(w) == EXPONENT <==> SignedExponent(w))
    && (Run(w) == SCIENTIFIC <==> Scientific(w))
  }

  /** Every state stands for one language; what is left over is invalid. */
  lemma StateLanguages(w: Text)
    ensures Run(w) == START <==> w == []
    ensures Run(w) == S1 <==> Sign(w)
    ensures Run(w) == INT <==> Integer(w)
    ensures Run(w) == FLOAT <==> Decimal(w)
    ensures Run(w) == S2 <==> Marked(w)
    ensures Run(w) == EXPONENT <==> SignedExponent(w)
    ensures Run(w) == SCIENTIFIC <==> Scientific(w)
  {
    hide Run, Sign, Integer, Decimal, Marked, SignedExponent, Scientific;
    AllSpeak(w);
  }

  lemma {:induction false} AllSpeak(w: Text)
    ensures Speaks(w)
  {
    if w == [] {
      NothingAccepted();
      hide Run, Sign, Integer, Decimal, Marked, SignedExponent, Scientific;
      assert Speaks([]);
    } else {
      hide Speaks;
      var u, c := w[..|w| - 1], w[|w| - 1];
      AllSpeak(u);
      SpeaksOn(u, c);
      assert w == u + [c];
    }
  }

  lemma SpeaksOn(u: Text, c: bv8)
    requires Speaks(u)
    ensures Speaks(u + [c])
  {
    hide Run, Sign, Integer, Decimal, Marked, SignedExponent, Scientific, IsDigit, IsSign, IsExponentMark;
    OneClass(c);
    LanguagesStep(u, c);
  }

  lemma NothingAccepted()
    ensures Run([]) == START
    ensures !Sign([]) && !Integer([]) && !Decimal([]) && !Marked([]) && !SignedExponent([]) && !Scientific([])
  {
  }

  lemma OneClass(c: bv8)
    ensures IsDigit(c) ==> !IsSign(c) && !IsExponentMark(c) && c != POINT
    ensures IsSign(c) ==> !IsExponentMark(c) && c != POINT
    ensures c == POINT ==> !IsExponentMark(c)
  {
  }

  lemma LanguagesStep(u: Text, c: bv8)
    ensures var w := u + [c];
            && Run(w) == Next(Run(u), c)
            && (Sign(w) <==> u == [] && IsSign(c))
            && (Integer(w) <==> IsDigit(c) && (u == [] || Sign(u) || Integer(u)))
            && (Decimal(w) <==> (c == POINT && (u == [] || Sign(u) || Integer(u))) || (IsDigit(c) && Decimal(u)))
            && (Marked(w) <==> Decimal(u) && IsExponentMark(c))
            && (SignedExponent(w) <==> Marked(u) && IsSign(c))
            && (Scientific(w) <==> IsDigit(c) && (SignedExponent(u) || Scientific(u)))
  {
    var w := u + [c];
    assert w[..|w| - 1] == u && w[|w| - 1] == c;
    IntegerStep(u, c);
    DecimalStep(u, c);
    ScientificStep(u, c);
    hide Integer, Decimal, Scientific;
  }

  // ----- One token -----

  /** How far one call reads, separator included. */
  function Read(s: Text, state: State): (n: nat)
    ensures n <= |s|
  {
    if s == [] || s[0] == 0 || state == INVALID then 0
    else if s[0] == COMMA then 1
    else 1 + Read(s[1..], Next(state, s[0]))
  }

  /** The state one call ends in. */
  function Final(s: Text, state: State): State {
    if s == [] || s[0] == 0 || state == INVALID || s[0] == COMMA then state else Final(s[1..], Next(state, s[0]))
  }

  /** The text of the token, without its separator. */
  function TokenText(s: Text, state: State): (t: Text)
    ensures |t| <= |s| && t == s[..|t|]
  {
    if s == [] || s[0] == 0 || state == INVALID || s[0] == COMMA then []
    else [s[0]] + TokenText(s[1..], Next(state, s[0]))
  }

  lemma RunMore(w: Text, c: bv8)
    ensures Run(w + [c]) == Next(Run(w), c)
  {
    assert (w + [c])[..|w|] == w;
  }

  lemma {:induction false} TokenState(s: Text, w: Text)
    ensures Final(s, Run(w)) == Run(w + TokenText(s, Run(w)))
  {
    hide Next, Run;
    var t := TokenText(s, Run(w));
    if t == [] {
      assert w + t == w;
    } else {
      RunMore(w, s[0]);
      TokenState(s[1..], w + [s[0]]);
      var u := TokenText(s[1..], Next(Run(w), s[0]));
      assert t == [s[0]] + u;
      assert w + t == (w + [s[0]]) + u;
    }
  }

  lemma {:induction false} TokenSound(s: Text, w: Text, i: nat)
    requires i < |TokenText(s, Run(w))|
    ensures var c := TokenText(s, Run(w))[i]; c != COMMA && c != 0 && Run(w + s[..i]) != INVALID
  {
    hide Next, Run;
    if i == 0 {
      assert w + s[..0] == w;
    } else {
      RunMore(w, s[0]);
      TokenSound(s[1..], w + [s[0]], i - 1);
      assert w + s[..i] == w + [s[0]] + s[1..][..i - 1];
    }
  }

  lemma {:induction false} TokenStops(s: Text, state: State)
    ensures var k, n := |TokenText(s, state)|, Read(s, state);
            && n == (if k < |s| && s[k] == COMMA && Final(s, state) != INVALID then k + 1 else k)
            && (Final(s, state) == INVALID || k == |s| || s[k] == 0 || s[k] == COMMA)
  {
    if TokenText(s, state) != [] {
      TokenStops(s[1..], Next(state, s[0]));
    }
  }

  /**
   * One call makes progress, and ends in the state of the text it read: up to a separator, the end of the string
   * or the first character no number can have there, whichever comes first. The separator is read, too.
   */
  lemma TokenRead(s: Text)
    requires s != [] && s[0] != 0
    ensures var n, t := Read(s, START), TokenText(s, START);
            && n > 0 && t <= s && Final(s, START) == Run(t)
            && (forall i :: 0 <= i < |t| ==> t[i] != COMMA && t[i] != 0 && Run(s[..i]) != INVALID)
            && (Run(t) == INVALID || |t| == |s| || s[|t|] == 0 || s[|t|] == COMMA)
            && n == (if |t| < |s| && s[|t|] == COMMA && Run(t) != INVALID then |t| + 1 else |t|)
  {
    var t := TokenText(s, START);
    TokenState(s, []);
    assert [] + t == t;
    TokenStops(s, START);
    forall i | 0 <= i < |t| ensures t[i] != COMMA && t[i] != 0 && Run(s[..i]) != INVALID {
      TokenSound(s, [], i);
      assert [] + s[..i] == s[..i];
    }
  }

  // ----- The whole string -----

  function Length(s: Text): (n: nat)
    ensures n <= |s| && (n < |s| ==> s[n] == 0) && forall i :: 0 <= i < n ==> s[i] != 0
  {
    if s == [] || s[0] == 0 then 0 else 1 + Length(s[1..])
  }

  lemma {:induction false} LengthBehind(s: Text, n: nat)
    requires n <= Length(s)
    ensures Length(s[n..]) == Length(s) - n
  {
    if n == 0 {
      assert s[0..] == s;
    } else {
      LengthBehind(s[1..], n - 1);
      assert s[1..][n - 1..] == s[n..];
    }
  }

  lemma {:induction false} ReadBelow(s: Text, state: State)
    ensures Read(s, state) <= Length(s)
    ensures Length(s) > 0 && state != INVALID ==> Read(s, state) > 0
    decreases |s|
  {
    if Length(s) > 0 {
      ReadBelow(s[1..], Next(state, s[0]));
    }
  }

  /** What the calls over a string read, one piece each. */
  function Pieces(s: Text): seq<Text>
    decreases Length(s)
  {
    ReadBelow(s, START);
    if Length(s) == 0 then []
    else
      LengthBehind(s, Read(s, START));
      [s[..Read(s, START)]] + Pieces(s[Read(s, START)..])
  }

  function Flat(pieces: seq<Text>): Text {
    if pieces == [] then [] else pieces[0] + Flat(pieces[1..])
  }

  /** Together the calls read every byte of the string once, and each reads some. */
  lemma {:induction false} PiecesCover(s: Text)
    ensures Flat(Pieces(s)) == s[..Length(s)]
    ensures forall p | p in Pieces(s) :: p != []
    decreases Length(s)
  {
    ReadBelow(s, START);
    if Length(s) > 0 {
      var n := Read(s, START);
      LengthBehind(s, n);
      PiecesCover(s[n..]);
      assert s[n..][..Length(s) - n] == s[n..Length(s)];
      assert s[..n] + s[n..Length(s)] == s[..Length(s)];
    }
  }

  /** How many calls over a string end in `x`. */
  function Ends(s: Text, x: State): nat
    decreases Length(s)
  {
    ReadBelow(s, START);
    if Length(s) == 0 then 0
    else
      LengthBehind(s, Read(s, START));
      (if Final(s, START) == x then 1 else 0) + Ends(s[Read(s, START)..], x)
  }

  // ----- Counting transitions -----

  /** By how much one character raises the counter of `x`. */
  function Raised(state: State, c: bv8, x: State): nat {
    var next := Next(state, c);
    match state
    case START => if x == START || (x == INVALID && next == INVALID) then 1 else 0
    case INT => if x == INT && next != INT then 1 else 0
    case FLOAT => if x == FLOAT && next != FLOAT then 1 else 0
    case SCIENTIFIC => if x == INVALID && next == INVALID then 1 else 0
    case INVALID => 0
    case _ => if x == state then 1 else 0
  }

  /** Over one call. */
  function Transitions(s: Text, state: State, x: State): nat {
    if s == [] || s[0] == 0 || state == INVALID || s[0] == COMMA then 0
    else Raised(state, s[0], x) + Transitions(s[1..], Next(state, s[0]), x)
  }

  /** Over all calls. */
  function AllTransitions(s: Text, x: State): nat
    decreases Length(s)
  {
    ReadBelow(s, START);
    if Length(s) == 0 then 0
    else
      LengthBehind(s, Read(s, START));
      Transitions(s, START, x) + AllTransitions(s[Read(s, START)..], x)
  }

  // ----- The code -----

  function StateOf(i: nat): State {
    match i
    case 0 => START
    case 1 => INVALID
    case 2 => S1
    case 3 => S2
    case 4 => INT
    case 5 => FLOAT
    case 6 => EXPONENT
    case _ => SCIENTIFIC
  }

  /** The enumeration's numbering. */
  function Code(x: State): (n: nat)
    ensures n < NUM_CORE_STATES && StateOf(n) == x
  {
    match x
    case START => 0
    case INVALID => 1
    case S1 => 2
    case S2 => 3
    case INT => 4
    case FLOAT => 5
    case EXPONENT => 6
    case SCIENTIFIC => 7
  }

  const NUM_CORE_STATES := 8

  method Count(counts: array<nat>, x: State)
    requires counts.Length == NUM_CORE_STATES
    modifies counts
    ensures forall y: State :: counts[Code(y)] == old(counts[Code(y)]) + if x == y then 1 else 0
  {
    counts[Code(x)] := counts[Code(x)] + 1;
  }

  /** The switch of `core_state_transition`. */
  method Switch(state0: State, c: bv8, counts: array<nat>) returns (state: State)
    requires counts.Length == NUM_CORE_STATES
    modifies counts
    ensures state == Next(state0, c)
    ensures forall x: State :: counts[Code(x)] == old(counts[Code(x)]) + Raised(state0, c, x)
  {
    state := state0;
    match state {
      case START =>
        if IsDigit(c) {
          state := INT;
        } else if c == PLUS || c == MINUS {
          state := S1;
        } else if c == POINT {
          state := FLOAT;
        } else {
          state := INVALID;
          Count(counts, INVALID);
        }
        Count(counts, START);
      case S1 =>
        if IsDigit(c) {
          state := INT;
        } else if c == POINT {
          state := FLOAT;
        } else {
          state := INVALID;
        }
        Count(counts, S1);
      case INT =>
        if c == POINT {
          state := FLOAT;
          Count(counts, INT);
        } else if !IsDigit(c) {
          state := INVALID;
          Count(counts, INT);
        }
      case FLOAT =>
        if c == UPPER_E || c == LOWER_E {
          state := S2;
          Count(counts, FLOAT);
        } else if !IsDigit(c) {
          state := INVALID;
          Count(counts, FLOAT);
        }
      case S2 =>
        if c == PLUS || c == MINUS {
          state := EXPONENT;
        } else {
          state := INVALID;
        }
        Count(counts, S2);
      case EXPONENT =>
        if IsDigit(c) {
          state := SCIENTIFIC;
        } else {
          state := INVALID;
        }
        Count(counts, EXPONENT);
      case SCIENTIFIC =>
        if !IsDigit(c) {
          state := INVALID;
          Count(counts, INVALID);
        }
      case INVALID =>
    }
  }

  /** `core_state_transition` */
  method CoreStateTransition(mem: array<bv8>, instr: nat, counts: array<nat>) returns (state: State, str: nat)
    requires counts.Length == NUM_CORE_STATES && counts as object != mem as object
    requires instr <= mem.Length && instr + Length(mem[instr..]) < mem.Length
    modifies counts
    ensures state == Final(mem[instr..], START) && str == instr + Read(mem[instr..], START)
    ensures forall x: State :: counts[Code(x)] == old(counts[Code(x)]) + Transitions(mem[instr..], START, x)
  {
    hide Raised, Next;
    ghost var s := mem[instr..];
    str, state := instr, START;
    while mem[str] != 0 && state != INVALID
      invariant instr <= str <= instr + Length(s) && mem[..] == old(mem[..])
      invariant Final(mem[str..], state) == Final(s, START)
      invariant str - instr + Read(mem[str..], state) == Read(s, START)
      invariant forall x: State :: counts[Code(x)] + Transitions(mem[str..], state, x)
                                == old(counts[Code(x)]) + Transitions(s, START, x)
      decreases instr + Length(s) - str
    {
      assert mem[str..][1..] == mem[str + 1..] && s[str - instr] == mem[str];
      var nextSymbol := mem[str];
      if nextSymbol == COMMA {
        str := str + 1;
        return;
      }
      state := Switch(state, nextSymbol, counts);
      str := str + 1;
    }
  }

  lemma OneCall(s: Text, x: State)
    requires Length(s) > 0
    ensures 0 < Read(s, START) <= Length(s) && Length(s[Read(s, START)..]) == Length(s) - Read(s, START)
    ensures Ends(s, x) == (if Final(s, START) == x then 1 else 0) + Ends(s[Read(s, START)..], x)
    ensures AllTransitions(s, x) == Transitions(s, START, x) + AllTransitions(s[Read(s, START)..], x)
  {
    hide Read, Final, Transitions, Length;
    ReadBelow(s, START);
    LengthBehind(s, Read(s, START));
  }

  /** A scan over the block: `while (*p != 0)`. */
  method Scan(mem: array<bv8>, finals: array<nat>, tracks: array<nat>)
    requires finals.Length == NUM_CORE_STATES && tracks.Length == NUM_CORE_STATES && finals != tracks
    requires finals as object != mem as object && tracks as object != mem as object
    requires Length(mem[..]) < mem.Length
    modifies finals, tracks
    ensures forall x: State :: finals[Code(x)] == old(finals[Code(x)]) + Ends(mem[..], x)
    ensures forall x: State :: tracks[Code(x)] == old(tracks[Code(x)]) + AllTransitions(mem[..], x)
  {
    hide Final, Read, Transitions, Length, Ends, AllTransitions, Code;
    ghost var block := mem[..];
    var p := 0;
    assert mem[0..] == block;
    Nul(block, 0);
    while mem[p] != 0
      invariant mem[..] == block && 0 <= p <= Length(block) && Length(mem[p..]) == Length(block) - p
      invariant mem[p] == 0 <==> p == Length(block)
      invariant forall x: State :: finals[Code(x)] + Ends(mem[p..], x) == old(finals[Code(x)]) + Ends(block, x)
      invariant forall x: State ::
                  tracks[Code(x)] + AllTransitions(mem[p..], x) == old(tracks[Code(x)]) + AllTransitions(block, x)
      decreases Length(block) - p
    {
      ghost var s, q := mem[p..], p;
      assert Length(s) > 0;
      forall x: State
        ensures Ends(s, x) == (if Final(s, START) == x then 1 else 0) + Ends(s[Read(s, START)..], x)
        ensures AllTransitions(s, x) == Transitions(s, START, x) + AllTransitions(s[Read(s, START)..], x)
      {
        OneCall(s, x);
      }
      OneCall(s, START);
      var fstate;
      fstate, p := CoreStateTransition(mem, p, tracks);
      assert mem[p..] == s[p - q..];
      Nul(block, p);
      Count(finals, fstate);
    }
    NoCalls(mem[p..]);
  }

  lemma Nul(block: Text, p: nat)
    requires p <= Length(block) < |block|
    ensures block[p] == 0 <==> p == Length(block)
  {
  }

  lemma NoCalls(s: Text)
    requires Length(s) == 0
    ensures forall x: State :: Ends(s, x) == 0 && AllTransitions(s, x) == 0
  {
  }

  // ----- Corrupting a block and undoing it -----

  function Flip(b: bv8, seed: bv8): bv8 {
    if b != COMMA then b ^ seed else b
  }

  /** One sweep: every `step`-th byte from `at` on, separators spared. */
  function Swept(block: Text, at: nat, step: nat, seed: bv8): (r: Text)
    requires step > 0
    ensures |r| == |block|
    decreases |block| - at
  {
    if at >= |block| then block else Swept(block[at := Flip(block[at], seed)], at + step, step, seed)
  }

  /** The sweep from `at` comes by `i`. */
  predicate Visits(at: nat, step: nat, i: nat)
    requires step > 0
    decreases i - at
  {
    i == at || (at < i && Visits(at + step, step, i))
  }

  lemma {:induction false} SweptAt(block: Text, at: nat, step: nat, seed: bv8, i: nat)
    requires step > 0 && i < |block|
    ensures Swept(block, at, step, seed)[i] == if Visits(at, step, i) then Flip(block[i], seed) else block[i]
    decreases |block| - at
  {
    if at < |block| {
      SweptAt(block[at := Flip(block[at], seed)], at + step, step, seed, i);
    }
  }

  lemma FlipTwice(b: bv8, seed: bv8)
    ensures Flip(Flip(b, seed), seed) == b <==> b == COMMA || b ^ seed != COMMA
  {
  }

  /** With equal seeds the second sweep undoes the first exactly if no visited byte was turned into a separator. */
  lemma RestoredIff(block: Text, step: nat, seed: bv8)
    requires step > 0
    ensures Swept(Swept(block, 0, step, seed), 0, step, seed) == block
       <==> forall i :: 0 <= i < |block| && Visits(0, step, i) ==> block[i] == COMMA || block[i] ^ seed != COMMA
  {
    var once := Swept(block, 0, step, seed);
    var twice := Swept(once, 0, step, seed);
    forall i | 0 <= i < |block|
      ensures twice[i] == block[i] <==> (Visits(0, step, i) ==> block[i] == COMMA || block[i] ^ seed != COMMA)
    {
      SweptAt(block, 0, step, seed, i);
      SweptAt(once, 0, step, seed, i);
      FlipTwice(block[i], seed);
    }
  }

  lemma {:induction false} NotBoth(at: nat, step: nat, i: nat)
    requires step >= 2
    ensures !(Visits(at, step, i) && Visits(at, step, i + 1))
    decreases i - at
  {
    if at < i {
      NotBoth(at + step, step, i);
    }
  }

  lemma {:induction false} LengthAtMost(s: Text, i: nat)
    requires i < |s| && s[i] == 0
    ensures Length(s) <= i
  {
    if i > 0 {
      LengthAtMost(s[1..], i - 1);
    }
  }

  /** Two zeros at the end: a sweep of step two or more leaves one of them, so the second scan stops in the block. */
  lemma NulRemains(block: Text, step: nat, seed: bv8)
    requires |block| >= 2 && block[|block| - 1] == 0 && block[|block| - 2] == 0 && step >= 2
    ensures Length(block) < |block| && Length(Swept(block, 0, step, seed)) < |block|
  {
    var n := |block|;
    var r := Swept(block, 0, step, seed);
    LengthAtMost(block, n - 1);
    NotBoth(0, step, n - 2);
    SweptAt(block, 0, step, seed, n - 2);
    SweptAt(block, 0, step, seed, n - 1);
    if r[n - 2] == 0 {
      LengthAtMost(r, n - 2);
    } else {
      LengthAtMost(r, n - 1);
    }
  }

  method Sweep(mem: array<bv8>, step: nat, seed: bv8)
    requires step > 0
    modifies mem
    ensures mem[..] == Swept(old(mem[..]), 0, step, seed)
  {
    var p := 0;
    while p < mem.Length
      invariant Swept(mem[..], p, step, seed) == Swept(old(mem[..]), 0, step, seed)
    {
      ghost var block := mem[..];
      if mem[p] != COMMA {
        mem[p] := mem[p] ^ seed;
      }
      assert mem[..] == block[p := Flip(block[p], seed)];
      p := p + step;
    }
  }

  /** A count in 32 bits. */
  function Low32(n: nat): bv32 {
    (((n / 0x1_0000 % 0x1_0000) as bv16) as bv32 << 16) | (((n % 0x1_0000) as bv16) as bv32)
  }

  /** The CRC over the first `n` pairs of counters after a scan of each of two blocks. */
  function Reported(first: Text, second: Text, n: nat, crc: bv16): bv16 {
    if n == 0 then crc
    else
      var x := StateOf(n - 1);
      Fold(LittleEndian32(Low32(AllTransitions(first, x) + AllTransitions(second, x))),
           Fold(LittleEndian32(Low32(Ends(first, x) + Ends(second, x))), Reported(first, second, n - 1, crc)))
  }

  /** `core_bench_state` on a block of its own. */
  method CoreBenchState(mem: array<bv8>, seed1: bv8, seed2: bv8, step: nat, crc0: bv16) returns (crc: bv16)
    requires step > 0 && Length(mem[..]) < mem.Length && Length(Swept(mem[..], 0, step, seed1)) < mem.Length
    modifies mem
    ensures mem[..] == Swept(Swept(old(mem[..]), 0, step, seed1), 0, step, seed2)
    ensures crc == Reported(old(mem[..]), Swept(old(mem[..]), 0, step, seed1), NUM_CORE_STATES, crc0)
  {
    hide Swept, Ends, AllTransitions, Length, Fold, LittleEndian32, Low32;
    ghost var first := mem[..];
    var finals, tracks := new nat[NUM_CORE_STATES](_ => 0), new nat[NUM_CORE_STATES](_ => 0);
    Scan(mem, finals, tracks);
    Sweep(mem, step, seed1);
    ghost var second := mem[..];
    Scan(mem, finals, tracks);
    Sweep(mem, step, seed2);
    crc := Report(finals, tracks, first, second, crc0);
  }

  method Report(finals: array<nat>, tracks: array<nat>, ghost first: Text, ghost second: Text, crc0: bv16)
    returns (crc: bv16)
    requires finals.Length == NUM_CORE_STATES && tracks.Length == NUM_CORE_STATES
    requires forall x: State :: finals[Code(x)] == Ends(first, x) + Ends(second, x)
    requires forall x: State :: tracks[Code(x)] == AllTransitions(first, x) + AllTransitions(second, x)
    ensures crc == Reported(first, second, NUM_CORE_STATES, crc0)
  {
    hide Ends, AllTransitions, Fold, LittleEndian32, Low32;
    crc := crc0;
    var i := 0;
    while i < NUM_CORE_STATES
      invariant 0 <= i <= NUM_CORE_STATES && crc == Reported(first, second, i, crc0)
    {
      assert Code(StateOf(i)) == i;
      crc := CrcU32(Low32(finals[i]), crc);
      crc := CrcU32(Low32(tracks[i]), crc);
      i := i + 1;
    }
  }

  // ----- Filling a block -----

  /** `intpat` */
  function IntPattern(j: nat): Text {
    match j % 4
    case 0 => [0x35, 0x30, 0x31, 0x32]  // 5012
    case 1 => [0x31, 0x32, 0x33, 0x34]  // 1234
    case 2 => [0x2D, 0x38, 0x37, 0x34]  // -874
    case _ => [0x2B, 0x31, 0x32, 0x32]  // +122
  }

  /** `floatpat` */
  function FloatPattern(j: nat): Text {
    match j % 4
    case 0 => [0x33, 0x35, 0x2E, 0x35, 0x34, 0x34, 0x30, 0x30]  // 35.54400
    case 1 => [0x2E, 0x31, 0x32, 0x33, 0x34, 0x35, 0x30, 0x30]  // .1234500
    case 2 => [0x2D, 0x31, 0x31, 0x30, 0x2E, 0x37, 0x30, 0x30]  // -110.700
    case _ => [0x2B, 0x30, 0x2E, 0x36, 0x34, 0x34, 0x30, 0x30]  // +0.64400
  }

  /** `scipat` */
  function SciPattern(j: nat): Text {
    match j % 4
    case 0 => [0x35, 0x2E, 0x35, 0x30, 0x30, 0x65, 0x2B, 0x33]  // 5.500e+3
    case 1 => [0x2D, 0x2E, 0x31, 0x32, 0x33, 0x65, 0x2D, 0x32]  // -.123e-2
    case 2 => [0x2D, 0x38, 0x37, 0x65, 0x2B, 0x38, 0x33, 0x32]  // -87e+832
    case _ => [0x2B, 0x30, 0x2E, 0x36, 0x65, 0x2D, 0x31, 0x32]  // +0.6e-12
  }

  /** `errpat` */
  function ErrPattern(j: nat): Text {
    match j % 4
    case 0 => [0x54, 0x30, 0x2E, 0x33, 0x65, 0x2D, 0x31, 0x46]  // T0.3e-1F
    case 1 => [0x2D, 0x54, 0x2E, 0x54, 0x2B, 0x2B, 0x54, 0x71]  // -T.T++Tq
    case 2 => [0x31, 0x54, 0x33, 0x2E, 0x34, 0x65, 0x34, 0x7A]  // 1T3.4e4z
    case _ => [0x33, 0x34, 0x2E, 0x30, 0x65, 0x2D, 0x54, 0x5E]  // 34.0e-T^
  }

  /** The item a seed selects; only its low five bits count. */
  function Pattern(seed: int): Text {
    var kind, j := seed % 8, seed % 32 / 8;
    if kind <= 2 then IntPattern(j) else if kind <= 4 then FloatPattern(j) else if kind <= 6 then SciPattern(j) else ErrPattern(j)
  }

  /** `n` items, each with a separator behind it. */
  function Items(seed: int, n: nat): Text {
    if n == 0 then [] else Items(seed, n - 1) + Pattern(seed + n) + [COMMA]
  }

  method CopyItem(p: array<bv8>, total: nat, buf: Text)
    requires total + |buf| < p.Length
    modifies p
    ensures p[..total + |buf| + 1] == old(p[..total]) + buf + [COMMA]
  {
    for i := 0 to |buf|
      invariant p[..total] == old(p[..total]) && p[total..total + i] == buf[..i]
    {
      p[total + i] := buf[i];
    }
    p[total + |buf|] := COMMA;
  }

  /** `core_init_state`: as many items as leave two bytes free, then zeros. */
  method CoreInitState(p: array<bv8>, seed0: int) returns (ghost n: nat)
    requires p.Length >= 1
    modifies p
    ensures |Items(seed0, n)| <= p.Length && p[..|Items(seed0, n)|] == Items(seed0, n)
    ensures forall i :: |Items(seed0, n)| <= i < p.Length ==> p[i] == 0
    ensures p.Length >= 2 ==> |Items(seed0, n)| <= p.Length - 2 < |Items(seed0, n + 1)|
  {
    hide Pattern;
    var size := p.Length - 1;
    var total, next, seed := 0, 0, seed0;
    var buf: Text := [];
    n := 0;
    ghost var chosen := false;
    while total + next + 1 < size
      invariant 0 <= total <= size && (size > 0 ==> total < size)
      invariant total == |Items(seed0, n)| && p[..total] == Items(seed0, n) && next == |buf|
      invariant seed == seed0 + n + (if chosen then 1 else 0)
      invariant chosen <==> next > 0
      invariant if chosen then buf == Pattern(seed) else n == 0
      decreases size - total, next == 0
    {
      if next > 0 {
        CopyItem(p, total, buf);
        total := total + next + 1;
        n := n + 1;
      }
      seed := seed + 1;
      buf := Pattern(seed);
      PatternLength(seed);
      next := |buf|;
      chosen := true;
    }
    PatternLength(seed0 + n + 1);
    size := size + 1;
    ghost var end := total;
    while total < size
      invariant end <= total && p[..end] == Items(seed0, n)
      invariant forall i :: end <= i < total && i < p.Length ==> p[i] == 0
    {
      p[total] := 0;
      total := total + 1;
    }
  }

  lemma PatternLength(seed: int)
    ensures |Pattern(seed)| == 4 || |Pattern(seed)| == 8
  {
  }

  // ----- For which seeds the block comes back -----

  /** What `core_init_state` fills a block with. */
  predicate Filled(block: Text, seed: int, n: nat) {
    && |Items(seed, n)| + 2 <= |block| < |Items(seed, n + 1)| + 2
    && block[..|Items(seed, n)|] == Items(seed, n)
    && forall i :: |Items(seed, n)| <= i < |block| ==> block[i] == 0
  }

  /** The bytes that occur in such blocks beside separators: the digits but 9, and those of `+-.eFTqz^` and zero. */
  predicate Occurring(b: bv8) {
    || b == 0 || b == 0x30 || b == 0x31 || b == 0x32 || b == 0x33 || b == 0x34 || b == 0x35 || b == 0x36 || b == 0x37
    || b == 0x38 || b == PLUS || b == MINUS || b == POINT || b == LOWER_E
    || b == 0x46 || b == 0x54 || b == 0x71 || b == 0x7A || b == 0x5E
  }

  predicate AllOccur(w: Text) {
    forall i :: 0 <= i < |w| ==> Occurring(w[i])
  }

  lemma IntBytes(j: nat)
    ensures AllOccur(IntPattern(j))
  {
  }

  lemma FloatBytes(j: nat)
    ensures AllOccur(FloatPattern(j))
  {
  }

  lemma SciBytes(j: nat)
    ensures AllOccur(SciPattern(j))
  {
  }

  lemma ErrBytes(j: nat)
    ensures AllOccur(ErrPattern(j))
  {
  }

  lemma PatternBytes(seed: int)
    ensures AllOccur(Pattern(seed))
  {
    hide AllOccur, IntPattern, FloatPattern, SciPattern, ErrPattern;
    var j := seed % 32 / 8;
    IntBytes(j);
    FloatBytes(j);
    SciBytes(j);
    ErrBytes(j);
  }

  lemma {:induction false} ItemBytes(seed: int, n: nat, i: nat)
    requires i < |Items(seed, n)|
    ensures Items(seed, n)[i] == COMMA || Occurring(Items(seed, n)[i])
  {
    hide Pattern, Occurring;
    if i < |Items(seed, n - 1)| {
      ItemBytes(seed, n - 1, i);
    } else if i < |Items(seed, n)| - 1 {
      PatternBytes(seed + n);
    }
  }

  /** A seed whose pattern has the byte in it, and where. */
  function SeedWith(b: bv8): (int, nat) {
    if b == 0x30 then (0, 1) else if b == 0x31 then (0, 2) else if b == 0x32 then (0, 3) else if b == 0x33 then (8, 2)
    else if b == 0x34 then (8, 3) else if b == 0x35 then (0, 0) else if b == 0x36 then (27, 3)
    else if b == 0x37 then (16, 2) else if b == 0x38 then (16, 1) else if b == PLUS then (24, 0)
    else if b == MINUS then (16, 0) else if b == POINT then (3, 2) else if b == LOWER_E then (5, 5)
    else if b == 0x46 then (7, 7) else if b == 0x54 then (7, 0) else if b == 0x71 then (15, 7)
    else if b == 0x7A then (23, 7) else (31, 7)
  }

  lemma EachOccurs(b: bv8)
    requires Occurring(b) && b != 0
    ensures var (seed, i) := SeedWith(b); i < |Pattern(seed)| && Pattern(seed)[i] == b
  {
  }

  /** A block of one item that has the byte in it, or of none. */
  lemma BlockWith(b: bv8) returns (block: Text, seed: int, n: nat, i: nat)
    requires Occurring(b)
    ensures Filled(block, seed, n) && i < |block| && block[i] == b
  {
    if b == 0 {
      block, seed, n, i := [0, 0], 0, 0, 0;
      PatternLength(1);
      assert Items(0, 0) == [] && Items(0, 1) == [] + Pattern(1) + [COMMA];
    } else {
      EachOccurs(b);
      var (s, k) := SeedWith(b);
      hide Pattern, SeedWith, Occurring;
      assert Items(s - 1, 0) == [] && Items(s - 1, 1) == Pattern(s) + [COMMA];
      PatternLength(s + 1);
      assert Items(s - 1, 2) == Items(s - 1, 1) + Pattern(s + 1) + [COMMA];
      block, seed, n, i := Items(s - 1, 1) + [0, 0], s - 1, 1, k;
    }
  }

  lemma {:induction false} StepOneVisits(at: nat, i: nat)
    requires at <= i
    ensures Visits(at, 1, i)
    decreases i - at
  {
    if at < i {
      StepOneVisits(at + 1, i);
    }
  }

  lemma Turned(b: bv8, seed: bv8)
    ensures b ^ seed == COMMA <==> b == COMMA ^ seed
    ensures COMMA ^ seed == COMMA <==> seed == 0
  {
  }

  /** Whatever block was filled and whatever the step, two sweeps with this seed leave it as it was. */
  ghost predicate Restores(seed: bv8) {
    forall block: Text, s: int, n: nat, step: nat | Filled(block, s, n) && step > 0 :: Undone(block, step, seed)
  }

  predicate Undone(block: Text, step: nat, seed: bv8)
    requires step > 0
  {
    Swept(Swept(block, 0, step, seed), 0, step, seed) == block
  }

  /** The seed turns none of the bytes that occur into a separator, exactly if every block comes back. */
  lemma RestoresIff(seed: bv8)
    ensures Restores(seed) <==> seed == 0 || !Occurring(COMMA ^ seed)
  {
    hide Occurring, Filled, Undone, Visits;
    if seed == 0 || !Occurring(COMMA ^ seed) {
      forall block: Text, s: int, n: nat, step: nat | Filled(block, s, n) && step > 0
        ensures Undone(block, step, seed)
      {
        ComesBack(block, s, n, step, seed);
      }
    } else {
      var block, s, n, i := BlockWith(COMMA ^ seed);
      Turned(block[i], seed);
      NotUndone(block, i, seed);
    }
  }

  lemma NotUndone(block: Text, i: nat, seed: bv8)
    requires i < |block| && block[i] != COMMA && block[i] ^ seed == COMMA
    ensures !Undone(block, 1, seed)
  {
    hide Visits;
    StepOneVisits(0, i);
    RestoredIff(block, 1, seed);
  }

  lemma ComesBack(block: Text, s: int, n: nat, step: nat, seed: bv8)
    requires Filled(block, s, n) && step > 0 && (seed == 0 || !Occurring(COMMA ^ seed))
    ensures Undone(block, step, seed)
  {
    hide Swept, Visits;
    forall i | 0 <= i < |block|
      ensures block[i] == COMMA || block[i] ^ seed != COMMA
    {
      FilledByte(block, s, n, i);
      Turned(block[i], seed);
      hide Filled, Occurring;
    }
    RestoredIff(block, step, seed);
  }

  lemma FilledByte(block: Text, s: int, n: nat, i: nat)
    requires Filled(block, s, n) && i < |block|
    ensures block[i] == COMMA || Occurring(block[i])
  {
    if i < |Items(s, n)| {
      ItemBytes(s, n, i);
      assert block[..|Items(s, n)|][i] == block[i];
    }
  }

  /** The seeds of the three standard runs, 0, 0x3415 and 8, restore every block. */
  lemma StandardSeeds()
    ensures Restores(0) && Restores(0x15) && Restores(0x08)
  {
    RestoresIff(0);
    RestoresIff(0x15);
    RestoresIff(0x08);
  }

  /** Seed byte 0x2C makes separators of the zeros behind the items, and they stay. */
  lemma CommaSeed()
    ensures Filled([0, 0], 0, 0)
    ensures Swept(Swept([0, 0], 0, 1, COMMA), 0, 1, COMMA) == [COMMA, COMMA]
  {
    PatternLength(1);
    assert Items(0, 0) == [] && Items(0, 1) == [] + Pattern(1) + [COMMA];
    assert Flip(0, COMMA) == COMMA && Flip(COMMA, COMMA) == COMMA;
    SweptTwo([0, 0]);
    SweptTwo([COMMA, COMMA]);
  }

  lemma SweptTwo(block: Text)
    requires |block| == 2
    ensures Swept(block, 0, 1, COMMA) == [Flip(block[0], COMMA), Flip(block[1], COMMA)]
  {
    hide Flip;
    var once := block[0 := Flip(block[0], COMMA)];
    assert Swept(block, 0, 1, COMMA) == Swept(once, 1, 1, COMMA);
    assert Swept(once, 1, 1, COMMA) == Swept(once[1 := Flip(once[1], COMMA)], 2, 1, COMMA);
  }

  // ----- What the patterns are -----

  lemma IntPatterns(j: nat)
    ensures Run(IntPattern(j)) == INT
  {
    var w := IntPattern(j);
    assert SplitsInteger(w, if j % 4 < 2 then 0 else 1);
    StateLanguages(w);
  }

  lemma FloatPatterns(j: nat)
    ensures Run(FloatPattern(j)) == FLOAT
  {
    var w := FloatPattern(j);
    match j % 4 {
      case 0 => assert SplitsDecimal(w, 0, 2);
      case 1 => assert SplitsDecimal(w, 0, 0);
      case 2 => assert SplitsDecimal(w, 1, 4);
      case _ => assert SplitsDecimal(w, 1, 2);
    }
    StateLanguages(w);
  }

  /** A mantissa of `k` characters with its point at `j`, an exponent mark, a sign and digits. */
  lemma IsScientific(w: Text, i: nat, j: nat, k: nat)
    requires k + 2 < |w| && SplitsDecimal(w[..k], i, j) && IsExponentMark(w[k]) && IsSign(w[k + 1])
    requires AllDigits(w[k + 2..])
    ensures Scientific(w)
  {
    var marked, signed := w[..k + 1], w[..k + 2];
    assert marked[..k] == w[..k] && signed[..k + 1] == marked;
    assert Decimal(marked[..|marked| - 1]);
    assert SplitsScientific(w, k + 2);
  }

  lemma FirstSciPattern()
    ensures Scientific(SciPattern(0))
  {
    var w := SciPattern(0);
    assert w[..5] == [0x35, 0x2E, 0x35, 0x30, 0x30] && w[7..] == [0x33];
    IsScientific(w, 0, 1, 5);
  }

  lemma SecondSciPattern()
    ensures Scientific(SciPattern(1))
  {
    var w := SciPattern(1);
    assert w[..5] == [0x2D, 0x2E, 0x31, 0x32, 0x33] && w[7..] == [0x32];
    IsScientific(w, 1, 1, 5);
  }

  lemma LastSciPattern()
    ensures Scientific(SciPattern(3))
  {
    var w := SciPattern(3);
    assert w[..4] == [0x2B, 0x30, 0x2E, 0x36] && w[6..] == [0x31, 0x32];
    IsScientific(w, 1, 2, 4);
  }

  lemma ThirdSciPattern()
    ensures Run(SciPattern(2)) == INVALID
  {
    var w := SciPattern(2);
    assert w[..3] == [0x2D, 0x38, 0x37];
    assert SplitsInteger(w[..3], 1);
    StateLanguages(w[..3]);
    hide Run;
    RunMore(w[..3], LOWER_E);
    assert w[..3] + [LOWER_E] == w[..4];
    InvalidStays(w[..4], w[4..]);
    assert w[..4] + w[4..] == w;
  }

  lemma SciPatternFrom(j: nat)
    ensures SciPattern(j) == SciPattern(j % 4)
  {
  }

  /** All but one of the scientific patterns are; the third has no point and is invalid from its `e` on. */
  lemma SciPatterns(j: nat)
    ensures Run(SciPattern(j)) == SCIENTIFIC <==> j % 4 != 2
    ensures j % 4 == 2 ==> Run(SciPattern(j)) == INVALID
  {
    hide SciPattern, Scientific, Run;
    SciPatternFrom(j);
    FirstSciPattern();
    SecondSciPattern();
    ThirdSciPattern();
    LastSciPattern();
    StateLanguages(SciPattern(j));
  }

  lemma {:induction false} InvalidStays(w: Text, u: Text)
    requires Run(w) == INVALID
    ensures Run(w + u) == INVALID
    decreases |u|
  {
    if u == [] {
      assert w + u == w;
    } else {
      var init := u[..|u| - 1];
      InvalidStays(w, init);
      RunMore(w + init, u[|u| - 1]);
      assert w + init + [u[|u| - 1]] == w + u;
    }
  }
}
