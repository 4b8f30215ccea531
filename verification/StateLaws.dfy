// What the functions the state machine's benchmark is measured by come to:
// numbers as text, tokens and the states they leave, and the bits of the report.

module StateLaws {
  import opened CoreState
  import Crc

  // ----- Numbers -----

  predicate IsDecimal(w: Text) {
    forall i :: 0 <= i < |w| ==> 0x30 <= w[i] <= 0x39
  }

  lemma {:induction false} DigitsRun(w: Text, ds: Text)
    requires IsDecimal(ds)
    ensures Run(w) == INT || Run(w) == FLOAT || Run(w) == SCIENTIFIC ==> Run(w + ds) == Run(w)
  {
    if ds == [] {
      assert w + ds == w;
    } else {
      var init := ds[..|ds| - 1];
      DigitsRun(w, init);
      RunMore(w + init, ds[|ds| - 1]);
      assert w + ds == w + init + [ds[|ds| - 1]];
    }
  }

  lemma FirstDigitsRun(w: Text, ds: Text)
    requires IsDecimal(ds) && ds != []
    ensures Run(w) == START || Run(w) == S1 ==> Run(w + ds) == INT
    ensures Run(w) == EXPONENT ==> Run(w + ds) == SCIENTIFIC
  {
    RunMore(w, ds[0]);
    hide Run;
    DigitsRun(w + [ds[0]], ds[1..]);
    assert w + ds == w + [ds[0]] + ds[1..];
  }

  lemma PointRun(w: Text)
    requires Run(w) == START || Run(w) == S1 || Run(w) == INT
    ensures Run(w + [0x2E]) == FLOAT
  {
    RunMore(w, 0x2E);
  }

  lemma MarkRun(w: Text, mark: bv8, way: bv8)
    requires Run(w) == FLOAT && (mark == 0x45 || mark == 0x65) && (way == 0x2B || way == 0x2D)
    ensures Run(w + [mark]) == S2 && Run(w + [mark, way]) == EXPONENT
  {
    RunMore(w, mark);
    RunMore(w + [mark], way);
    assert w + [mark, way] == w + [mark] + [way];
  }

  /** An optional plus or minus, at least one digit, then perhaps a point with digits, then perhaps a signed exponent. */
  lemma NumbersRun(sign: Text, whole: Text, part: Text, mark: bv8, way: bv8, exponent: Text)
    requires sign == [] || sign == [0x2B] || sign == [0x2D]
    requires IsDecimal(whole) && IsDecimal(part) && IsDecimal(exponent) && exponent != []
    requires (mark == 0x45 || mark == 0x65) && (way == 0x2B || way == 0x2D)
    ensures whole != [] ==> Run(sign + whole) == INT
    ensures Run(sign + whole + [0x2E] + part) == FLOAT
    ensures Run(sign + whole + [0x2E] + part + [mark]) == S2
    ensures Run(sign + whole + [0x2E] + part + [mark, way]) == EXPONENT
    ensures Run(sign + whole + [0x2E] + part + [mark, way] + exponent) == SCIENTIFIC
  {
    hide *;
    SignRun(sign);
    if whole == [] {
      assert sign + whole == sign;
    } else {
      FirstDigitsRun(sign, whole);
    }
    PointRun(sign + whole);
    var w := sign + whole + [0x2E] + part;
    DigitsRun(sign + whole + [0x2E], part);
    MarkRun(w, mark, way);
    FirstDigitsRun(w + [mark, way], exponent);
  }

  lemma SignRun(sign: Text)
    requires sign == [] || sign == [0x2B] || sign == [0x2D]
    ensures Run(sign) == if sign == [] then START else S1
  {
    if sign != [] {
      assert sign[..0] == [];
    }
  }

  // ----- The items of a block -----

  lemma FailsFrom(w: Text, k: nat)
    requires k <= |w| && Run(w[..k]) == INVALID
    ensures Run(w) == INVALID
  {
    InvalidStays(w[..k], w[k..]);
    assert w[..k] + w[k..] == w;
  }

  lemma OneByte(c: bv8)
    ensures Run([c]) == Next(START, c)
  {
    assert [c][..0] == [];
  }

  lemma ErrPatterns(j: nat)
    ensures Run(ErrPattern(j)) == INVALID
  {
    hide Run;
    var w := ErrPattern(j);
    OneByte(w[0]);
    assert w[..1] == [w[0]] && w[..2] == [w[0]] + [w[1]];
    RunMore([w[0]], w[1]);
    if j % 4 == 0 {
      FailsFrom(w, 1);
    } else if j % 4 < 3 {
      FailsFrom(w, 2);
    } else {
      NumbersRun([], [0x33, 0x34], [0x30], 0x65, 0x2D, [0x30]);
      assert [] + [0x33, 0x34] + [0x2E] + [0x30] + [0x65, 0x2D] == w[..6];
      RunMore(w[..6], w[6]);
      assert w[..7] == w[..6] + [w[6]];
      FailsFrom(w, 7);
    }
  }

  /**
   * Of eight seeds in a row, three give an integer of four characters, two a float, two a number in scientific notation
   * and one an invalid item, of eight characters each; every fourth time the one in scientific notation is invalid, too.
   */
  lemma ItemsAre(seed: int)
    ensures var w, kind := Pattern(seed), seed % 8;
            && |w| == (if kind < 3 then 4 else 8)
            && Run(w) == if kind < 3 then INT else if kind < 5 then FLOAT
                         else if kind < 7 && seed % 32 / 8 != 2 then SCIENTIFIC else INVALID
  {
    hide Run;
    var j := seed % 32 / 8;
    IntPatterns(j);
    FloatPatterns(j);
    SciPatterns(j);
    ErrPatterns(j);
  }

  // ----- The sweeps -----

  /** A sweep from the start comes by every multiple of its step. */
  lemma VisitsIff(step: nat, i: nat)
    requires step > 0
    ensures Visits(0, step, i) <==> i % step == 0
  {
    VisitsFrom(0, step, i);
  }

  lemma {:induction false} VisitsFrom(at: nat, step: nat, i: nat)
    requires step > 0
    ensures Visits(at, step, i) <==> at <= i && (i - at) % step == 0
    decreases i - at
  {
    if at < i {
      VisitsFrom(at + step, step, i);
      LessOne(i - at, step);
    }
  }

  lemma LessOne(n: nat, d: nat)
    requires d > 0
    ensures d <= n ==> (n % d == 0 <==> (n - d) % d == 0)
    ensures 0 < n < d ==> n % d != 0
  {
    Crc.DivMod(n, d);
    if d <= n {
      Crc.DivMod(n - d, d);
      var q, p := n / d, (n - d) / d;
      assert d * (q - 1 - p) == d * q - d - d * p;
      Crc.NextDigit(d, q - 1 - p, (n - d) % d - n % d);
    }
  }

  // ----- What a token counts for -----

  /** The character at `i` takes the machine out of `x`; for failure, from the start or from within an exponent. */
  predicate ChangeAt(w: Text, i: nat, x: State)
    requires i < |w|
  {
    if x == INVALID then (Run(w[..i]) == START || Run(w[..i]) == SCIENTIFIC) && Run(w[..i + 1]) == INVALID
    else x != SCIENTIFIC && Run(w[..i]) == x && Run(w[..i + 1]) != x
  }

  ghost predicate ChangesFrom(w: Text, at: nat, x: State) {
    exists i: nat | at <= i < |w| :: ChangeAt(w, i, x)
  }

  function Rank(x: State): nat {
    match x
    case START => 0
    case S1 => 1
    case INT => 2
    case FLOAT => 3
    case S2 => 4
    case EXPONENT => 5
    case SCIENTIFIC => 6
    case INVALID => 7
  }

  lemma RankUp(x: State, c: bv8)
    ensures Next(x, c) == x || Rank(Next(x, c)) > Rank(x)
  {
  }

  /** No state comes back. */
  lemma {:induction false} RankGrows(w: Text, i: nat, j: nat)
    requires i <= j <= |w|
    ensures Rank(Run(w[..i])) <= Rank(Run(w[..j]))
  {
    hide Run, Rank;
    if i < j {
      RankGrows(w, i, j - 1);
      RunMore(w[..j - 1], w[j - 1]);
      assert w[..j] == w[..j - 1] + [w[j - 1]];
      RankUp(Run(w[..j - 1]), w[j - 1]);
    }
  }

  lemma ChangesOnce(w: Text, i: nat, j: nat, x: State)
    requires i < j < |w| && ChangeAt(w, i, x)
    ensures !ChangeAt(w, j, x)
  {
    hide Run;
    RankGrows(w, i + 1, j);
    RankGrows(w, i, i + 1);
    RunMore(w[..i], w[i]);
    assert w[..i + 1] == w[..i] + [w[i]];
    RankUp(Run(w[..i]), w[i]);
  }

  lemma RaisedIs(w: Text, i: nat, x: State)
    requires i < |w|
    ensures Raised(Run(w[..i]), w[i], x) == if ChangeAt(w, i, x) then 1 else 0
  {
    RunMore(w[..i], w[i]);
    assert w[..i + 1] == w[..i] + [w[i]];
    hide Run;
  }

  lemma {:induction false} TransitionsFrom(s: Text, u: Text, x: State)
    ensures var w := u + TokenText(s, Run(u)); Transitions(s, Run(u), x) == if ChangesFrom(w, |u|, x) then 1 else 0
  {
    var t := TokenText(s, Run(u));
    var w := u + t;
    if t != [] {
      var more := u + [s[0]];
      RunMore(u, s[0]);
      TransitionsFrom(s[1..], more, x);
      assert w == more + TokenText(s[1..], Run(more)) && w[..|u|] == u && w[|u|] == s[0];
      RaisedIs(w, |u|, x);
      hide Run, Raised, ChangeAt;
      if ChangeAt(w, |u|, x) {
        forall i: nat | |u| < i < |w| ensures !ChangeAt(w, i, x) {
          ChangesOnce(w, |u|, i, x);
        }
      }
    }
  }

  /** One call counts at most one transition for each state: whether the text it read left it, or failed. */
  lemma TransitionsAre(s: Text, x: State)
    ensures Transitions(s, START, x) == if ChangesFrom(TokenText(s, START), 0, x) then 1 else 0
  {
    TransitionsFrom(s, [], x);
    assert [] + TokenText(s, START) == TokenText(s, START);
  }

  // ----- What a string counts for -----

  function WithoutSeparator(p: Text): Text {
    if p != [] && p[|p| - 1] == 0x2C then p[..|p| - 1] else p
  }

  function EndCount(pieces: seq<Text>, x: State): nat {
    if pieces == [] then 0 else (if Run(WithoutSeparator(pieces[0])) == x then 1 else 0) + EndCount(pieces[1..], x)
  }

  ghost function ChangeCount(pieces: seq<Text>, x: State): nat {
    if pieces == [] then 0
    else (if ChangesFrom(WithoutSeparator(pieces[0]), 0, x) then 1 else 0) + ChangeCount(pieces[1..], x)
  }

  lemma PieceText(s: Text)
    requires s != [] && s[0] != 0
    ensures WithoutSeparator(s[..Read(s, START)]) == TokenText(s, START)
    ensures Final(s, START) == Run(TokenText(s, START))
  {
    hide Run, Read, Final, TokenText, WithoutSeparator;
    TokenRead(s);
    var t, n := TokenText(s, START), Read(s, START);
    SeparatorOff(t);
    if n == |t| + 1 {
      assert s[..n] == t + [0x2C];
    } else {
      assert s[..n] == t;
    }
  }

  lemma SeparatorOff(t: Text)
    ensures WithoutSeparator(t + [0x2C]) == t
    ensures t != [] && t[|t| - 1] != 0x2C ==> WithoutSeparator(t) == t
  {
  }

  /** The counters of a scan count the pieces of the string: by the states they end in, and those they leave. */
  lemma {:induction false} ScanCounts(s: Text, x: State)
    ensures Ends(s, x) == EndCount(Pieces(s), x)
    ensures AllTransitions(s, x) == ChangeCount(Pieces(s), x)
    decreases Length(s)
  {
    ReadBelow(s, START);
    if Length(s) > 0 {
      LengthBehind(s, Read(s, START));
      PieceText(s);
      TransitionsAre(s, x);
      ScanCounts(s[Read(s, START)..], x);
      hide Run, Read, Final, TokenText, ChangesFrom, Transitions, WithoutSeparator;
      assert Pieces(s)[1..] == Pieces(s[Read(s, START)..]);
    }
  }

  // ----- The report -----

  const ORDER: seq<State> := [START, INVALID, S1, S2, INT, FLOAT, EXPONENT, SCIENTIFIC]

  /** 32 bits, lowest first, stand for a count. */
  predicate Stands(bits: seq<bool>, n: nat) {
    |bits| == 32 && Crc.Number(bits) == n % 0x1_0000_0000
  }

  /** For state after state, the bits of how many calls ended in it and of how many transitions left it. */
  predicate IsReport(bits: seq<bool>, first: Text, second: Text, n: nat) {
    n <= 8 && |bits| == 64 * n
    && forall i :: 0 <= i < n ==>
         && Stands(bits[64 * i..64 * i + 32], Ends(first, ORDER[i]) + Ends(second, ORDER[i]))
         && Stands(bits[64 * i + 32..64 * i + 64], AllTransitions(first, ORDER[i]) + AllTransitions(second, ORDER[i]))
  }

  function Halves(n: nat): (bits: seq<bool>)
    ensures |bits| == 32
  {
    Crc.BitsOf((n % 0x1_0000) as bv16) + Crc.BitsOf((n / 0x1_0000 % 0x1_0000) as bv16)
  }

  lemma TwoHalves(lo: bv16, hi: bv16)
    ensures var v := (hi as bv32 << 16) | (lo as bv32); (v & 0xffff) as bv16 == lo && (v >> 16) as bv16 == hi
  {
  }

  lemma CountFed(n: nat, crc: bv16)
    ensures Crc.Fold(Crc.LittleEndian32(Low32(n)), crc) == Crc.Feed(Halves(n), crc)
  {
    hide Crc.Fold, Crc.LittleEndian32, Crc.Feed, Crc.BitsOf;
    TwoHalves((n % 0x1_0000) as bv16, (n / 0x1_0000 % 0x1_0000) as bv16);
    Crc.LongFed(Low32(n), crc);
  }

  lemma HalvesOf(n: nat)
    ensures n % 0x1_0000_0000 == n % 0x1_0000 + 0x1_0000 * (n / 0x1_0000 % 0x1_0000)
  {
  }

  lemma SixteenBits()
    ensures Crc.TwoTo(16) == 0x1_0000
  {
    assert Crc.TwoTo(4) == 16;
    assert Crc.TwoTo(8) == 256;
    assert Crc.TwoTo(12) == 4096;
  }

  lemma HalvesStand(n: nat)
    ensures Stands(Halves(n), n)
  {
    hide Crc.Number, Crc.TwoTo, Crc.BitsOf;
    Crc.CastBack(n % 0x1_0000);
    Crc.CastBack(n / 0x1_0000 % 0x1_0000);
    Crc.WordNumber((n % 0x1_0000) as bv16);
    Crc.WordNumber((n / 0x1_0000 % 0x1_0000) as bv16);
    Crc.NumberAppend(Crc.BitsOf((n % 0x1_0000) as bv16), Crc.BitsOf((n / 0x1_0000 % 0x1_0000) as bv16));
    SixteenBits();
    HalvesOf(n);
  }

  lemma StandsFed(bits: seq<bool>, n: nat, crc: bv16)
    requires Stands(bits, n)
    ensures Crc.Fold(Crc.LittleEndian32(Low32(n)), crc) == Crc.Feed(bits, crc)
  {
    hide Crc.Fold, Crc.Feed, Crc.LittleEndian32, Low32, Halves, Crc.Number;
    HalvesStand(n);
    CountFed(n, crc);
    Crc.NumberInjective(bits, Halves(n));
  }

  lemma ReportedMore(first: Text, second: Text, n: nat, crc: bv16)
    requires 0 < n <= 8
    ensures Reported(first, second, 0, crc) == crc
    ensures var x := ORDER[n - 1];
            Reported(first, second, n, crc)
            == Crc.Fold(Crc.LittleEndian32(Low32(AllTransitions(first, x) + AllTransitions(second, x))),
                        Crc.Fold(Crc.LittleEndian32(Low32(Ends(first, x) + Ends(second, x))),
                                 Reported(first, second, n - 1, crc)))
  {
    hide Crc.Fold, Crc.LittleEndian32, Low32, Ends, AllTransitions;
  }

  /** The CRC a run of the state benchmark returns is that of its report. */
  lemma {:induction false} ReportedIs(first: Text, second: Text, n: nat, bits: seq<bool>, crc: bv16)
    requires IsReport(bits, first, second, n)
    ensures Reported(first, second, n, crc) == Crc.Feed(bits, crc)
  {
    hide Crc.Fold, Crc.LittleEndian32, Low32, Ends, AllTransitions, Stands, Crc.Feed;
    if n == 0 {
      NothingFed(crc);
    } else {
      var x := ORDER[n - 1];
      var i := n - 1;
      var init, a, b := bits[..64 * i], bits[64 * i..64 * i + 32], bits[64 * i + 32..64 * i + 64];
      ReportStarts(bits, first, second, n);
      ReportedIs(first, second, n - 1, init, crc);
      ReportedMore(first, second, n, crc);
      StandsFed(a, Ends(first, x) + Ends(second, x), Crc.Feed(init, crc));
      StandsFed(b, AllTransitions(first, x) + AllTransitions(second, x), Crc.Feed(a, Crc.Feed(init, crc)));
      Crc.FeedAppend(init, a, crc);
      Crc.FeedAppend(init + a, b, crc);
      assert bits == init + a + b;
    }
  }

  lemma NothingFed(crc: bv16)
    ensures Crc.Feed([], crc) == crc
  {
  }

  lemma ReportStarts(bits: seq<bool>, first: Text, second: Text, n: nat)
    requires n > 0 && IsReport(bits, first, second, n)
    ensures IsReport(bits[..64 * (n - 1)], first, second, n - 1)
  {
    hide Stands;
    var init := bits[..64 * (n - 1)];
    forall i | 0 <= i < n - 1
      ensures init[64 * i..64 * i + 32] == bits[64 * i..64 * i + 32]
      ensures init[64 * i + 32..64 * i + 64] == bits[64 * i + 32..64 * i + 64]
    {
    }
  }
}
