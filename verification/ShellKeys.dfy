// What the keys do, as bytes on the line: text is typed where the cursor is,
// keys that go back undo those that go forth, and lines that were entered
// come back.

module ShellKeys {
  import opened ShellComplete
  import opened ShellSplit
  import opened Shell

  const UP := "\U{1B}[A"
  const DOWN := "\U{1B}[B"
  const RIGHT := "\U{1B}[C"
  const LEFT := "\U{1B}[D"

  /** A key pressed again and again. */
  function Pressed(key: string, k: nat): string {
    if k == 0 then "" else Pressed(key, k - 1) + key
  }

  predicate IsPrintable(s: string) {
    forall i :: 0 <= i < |s| ==> ' ' <= s[i] <= '~'
  }

  /** Between keys, with the cursor inside the line. */
  predicate Ready(e: Editor) {
    e.stat == Normal && e.cursor <= |e.text|
  }

  lemma {:induction false} RunAppend(e: Editor, a: string, b: string, table: seq<string>)
    ensures Run(e, a + b, table) == Run(Run(e, a, table), b, table)
  {
    hide Step;
    if b == "" {
      assert a + b == a;
    } else {
      var init := b[..|b| - 1];
      assert (a + b)[..|a + b| - 1] == a + init;
      RunAppend(e, a, init, table);
    }
  }

  lemma RunOne(e: Editor, c: char, table: seq<string>)
    ensures Run(e, [c], table) == Step(e, c, table)
  {
    hide Step;
    assert [c][..0] == "";
  }

  lemma RunTwo(e: Editor, c: char, d: char, table: seq<string>)
    ensures Run(e, [c, d], table) == Step(Step(e, c, table), d, table)
  {
    hide Step;
    RunOne(e, c, table);
    assert [c, d][..1] == [c];
  }

  /** An escape sequence. */
  lemma RunArrow(e: Editor, c: char, table: seq<string>)
    requires e.stat == Normal && 'A' <= c <= 'D'
    ensures Run(e, ['\U{1B}', '[', c], table) == Arrow(e, c)
  {
    var e1 := Step(e, '\U{1B}', table);
    var e2 := Step(e1, '[', table);
    RunTwo(e, '\U{1B}', '[', table);
    assert ['\U{1B}', '[', c][..2] == ['\U{1B}', '['];
    assert Ordinary(e.(stat := SpecKey), '\0', table) == e.(stat := SpecKey);
    assert e1 == e.(stat := SpecKey);
    assert Ordinary(e.(stat := FuncKey), '\0', table) == e.(stat := FuncKey);
    assert e2 == e.(stat := FuncKey);
    assert Step(e2, c, table) == Arrow(e, c);
  }

  // ----- Typing -----

  lemma TypedOne(e: Editor, c: char, table: seq<string>)
    requires Ready(e) && ' ' <= c <= '~'
    ensures Step(e, c, table) == e.(text := e.text[..e.cursor] + [c] + e.text[e.cursor..], cursor := e.cursor + 1)
  {
    hide Completed, Pushed;
  }

  /** Text goes where the cursor is. */
  lemma {:induction false} TextTyped(e: Editor, s: string, table: seq<string>)
    requires Ready(e) && IsPrintable(s)
    ensures Run(e, s, table)
         == e.(text := e.text[..e.cursor] + s + e.text[e.cursor..], cursor := e.cursor + |s|)
  {
    hide Step;
    if s == "" {
      assert e.text == e.text[..e.cursor] + "" + e.text[e.cursor..];
    } else {
      var init, c := s[..|s| - 1], s[|s| - 1];
      TextTyped(e, init, table);
      var e1 := Run(e, init, table);
      TypedOne(e1, c, table);
      assert s == init + [c];
      assert e1.text[..e1.cursor] == e.text[..e.cursor] + init && e1.text[e1.cursor..] == e.text[e.cursor..];
      assert e.text[..e.cursor] + init + [c] == e.text[..e.cursor] + s;
    }
  }

  lemma FitNothing(e: Editor, table: seq<string>)
    ensures Fit(e, "", table) && Run(e, "", table) == e
  {
  }

  /** Text fits the line exactly if 119 characters are enough; the last place is never taken. */
  lemma {:induction false} TypedFits(e: Editor, s: string, table: seq<string>)
    requires Ready(e) && IsPrintable(s) && |e.text| <= 119
    ensures Fit(e, s, table) <==> |e.text| + |s| <= 119
  {
    if s == "" {
      FitNothing(e, table);
    } else {
      var init, c := s[..|s| - 1], s[|s| - 1];
      TypedFits(e, init, table);
      TextTyped(e, init, table);
      hide Run, Step;
      assert Typed(Normal, c) == c;
    }
  }

  // ----- The cursor -----

  lemma OneLeft(e: Editor, table: seq<string>)
    requires Ready(e)
    ensures Run(e, LEFT, table) == e.(cursor := if e.cursor > 0 then e.cursor - 1 else 0)
  {
    RunArrow(e, 'D', table);
    assert LEFT == ['\U{1B}', '[', 'D'];
  }

  lemma OneRight(e: Editor, table: seq<string>)
    requires Ready(e)
    ensures Run(e, RIGHT, table) == e.(cursor := if e.cursor < |e.text| then e.cursor + 1 else e.cursor)
  {
    RunArrow(e, 'C', table);
    assert RIGHT == ['\U{1B}', '[', 'C'];
  }

  lemma {:induction false} LeftKeys(e: Editor, k: nat, table: seq<string>)
    requires Ready(e)
    ensures Run(e, Pressed(LEFT, k), table) == e.(cursor := if e.cursor > k then e.cursor - k else 0)
  {
    hide Run, Step;
    if k == 0 {
      NoBytes(e, table);
    } else {
      LeftKeys(e, k - 1, table);
      RunAppend(e, Pressed(LEFT, k - 1), LEFT, table);
      OneLeft(Run(e, Pressed(LEFT, k - 1), table), table);
    }
  }

  lemma {:induction false} RightKeys(e: Editor, k: nat, table: seq<string>)
    requires Ready(e)
    ensures Run(e, Pressed(RIGHT, k), table) == e.(cursor := if e.cursor + k < |e.text| then e.cursor + k else |e.text|)
  {
    hide Run, Step;
    if k == 0 {
      NoBytes(e, table);
    } else {
      RightKeys(e, k - 1, table);
      RunAppend(e, Pressed(RIGHT, k - 1), RIGHT, table);
      OneRight(Run(e, Pressed(RIGHT, k - 1), table), table);
    }
  }

  lemma NoBytes(e: Editor, table: seq<string>)
    ensures Run(e, "", table) == e
  {
  }

  /** Going left and typing puts the text that many places before. */
  lemma TypedBefore(e: Editor, k: nat, s: string, table: seq<string>)
    requires Ready(e) && k <= e.cursor && IsPrintable(s)
    ensures Run(e, Pressed(LEFT, k) + s, table)
         == e.(text := e.text[..e.cursor - k] + s + e.text[e.cursor - k..], cursor := e.cursor - k + |s|)
  {
    hide Run, Pressed;
    LeftKeys(e, k, table);
    RunAppend(e, Pressed(LEFT, k), s, table);
    TextTyped(e.(cursor := e.cursor - k), s, table);
  }

  /** Going right undoes going left exactly if there was room, and the other way around. */
  lemma RightUndoesLeft(e: Editor, k: nat, table: seq<string>)
    requires Ready(e)
    ensures Run(e, Pressed(LEFT, k) + Pressed(RIGHT, k), table) == e <==> k <= e.cursor || e.cursor == |e.text| <= k
    ensures Run(e, Pressed(RIGHT, k) + Pressed(LEFT, k), table) == e <==> k <= |e.text| - e.cursor || e.cursor == 0
  {
    hide Run, Pressed;
    LeftKeys(e, k, table);
    RightKeys(e, k, table);
    RunAppend(e, Pressed(LEFT, k), Pressed(RIGHT, k), table);
    RunAppend(e, Pressed(RIGHT, k), Pressed(LEFT, k), table);
    RightKeys(Run(e, Pressed(LEFT, k), table), k, table);
    LeftKeys(Run(e, Pressed(RIGHT, k), table), k, table);
  }

  // ----- Deleting -----

  lemma OneDeleted(e: Editor, key: char, table: seq<string>)
    requires Ready(e) && e.cursor > 0 && (key == '\U{08}' || key == '\U{7F}')
    ensures Step(e, key, table) == e.(text := e.text[..e.cursor - 1] + e.text[e.cursor..], cursor := e.cursor - 1)
  {
    hide Completed, Pushed;
  }

  lemma NoneDeleted(e: Editor, key: char, table: seq<string>)
    requires Ready(e) && e.cursor == 0 && (key == '\U{08}' || key == '\U{7F}')
    ensures Step(e, key, table) == e
  {
    hide Completed, Pushed;
  }

  lemma {:induction false} KeysDeleted(e: Editor, key: char, k: nat, table: seq<string>)
    requires Ready(e) && (key == '\U{08}' || key == '\U{7F}')
    ensures var at := if e.cursor > k then e.cursor - k else 0;
            Run(e, Pressed([key], k), table) == e.(text := e.text[..at] + e.text[e.cursor..], cursor := at)
  {
    hide Run, Step;
    if k == 0 {
      NoBytes(e, table);
      assert e.text[..e.cursor] + e.text[e.cursor..] == e.text;
    } else {
      KeysDeleted(e, key, k - 1, table);
      var e1 := Run(e, Pressed([key], k - 1), table);
      RunAppend(e, Pressed([key], k - 1), [key], table);
      RunOne(e1, key, table);
      if e1.cursor > 0 {
        OneDeleted(e1, key, table);
        assert e1.text[..e1.cursor - 1] == e.text[..e1.cursor - 1] && e1.text[e1.cursor..] == e.text[e.cursor..];
      } else {
        NoneDeleted(e1, key, table);
      }
    }
  }

  /** The delete keys undo what was just typed. */
  lemma DeleteUndoesTyping(e: Editor, s: string, key: char, table: seq<string>)
    requires Ready(e) && IsPrintable(s) && (key == '\U{08}' || key == '\U{7F}')
    ensures Run(e, s + Pressed([key], |s|), table) == e
  {
    hide Run, Pressed;
    TextTyped(e, s, table);
    var e1 := Run(e, s, table);
    RunAppend(e, s, Pressed([key], |s|), table);
    KeysDeleted(e1, key, |s|, table);
    assert e1.text[..e.cursor] + e1.text[e1.cursor..] == e.text;
  }

  // ----- The history -----

  lemma OneUp(e: Editor, table: seq<string>)
    requires Ready(e) && 0 < e.browse <= |e.history|
    ensures var entry := e.history[e.browse - 1];
            Run(e, UP, table) == e.(text := entry, cursor := |entry|, browse := e.browse - 1)
  {
    RunArrow(e, 'A', table);
    assert UP == ['\U{1B}', '[', 'A'];
  }

  lemma OneDown(e: Editor, table: seq<string>)
    requires Ready(e) && e.history != []
    ensures var at := if e.browse + 1 < |e.history| then e.browse + 1 else |e.history| - 1;
            Run(e, DOWN, table) == e.(text := e.history[at], cursor := |e.history[at]|, browse := at)
  {
    RunArrow(e, 'B', table);
    assert DOWN == ['\U{1B}', '[', 'B'];
  }

  lemma NoneUp(e: Editor, table: seq<string>)
    requires Ready(e) && e.browse == 0
    ensures Run(e, UP, table) == e
  {
    RunArrow(e, 'A', table);
    assert UP == ['\U{1B}', '[', 'A'];
  }

  /** Up shows the lines before, newest first, and stops at the oldest. */
  lemma {:induction false} UpKeys(e: Editor, k: nat, table: seq<string>)
    requires Ready(e) && e.browse <= |e.history|
    ensures k == 0 || e.browse == 0 ==> Run(e, Pressed(UP, k), table) == e
    ensures k > 0 && e.browse > 0 ==>
              var at := if k < e.browse then e.browse - k else 0;
              Run(e, Pressed(UP, k), table) == e.(text := e.history[at], cursor := |e.history[at]|, browse := at)
  {
    hide Run, Step;
    if k == 0 {
      NoBytes(e, table);
    } else {
      UpKeys(e, k - 1, table);
      RunAppend(e, Pressed(UP, k - 1), UP, table);
      var before := Run(e, Pressed(UP, k - 1), table);
      if before.browse > 0 {
        OneUp(before, table);
      } else {
        NoneUp(before, table);
      }
    }
  }

  lemma {:induction false} DownKeys(e: Editor, k: nat, table: seq<string>)
    requires Ready(e) && e.history != [] && k >= 1
    ensures var at := if e.browse + k < |e.history| then e.browse + k else |e.history| - 1;
            Run(e, Pressed(DOWN, k), table) == e.(text := e.history[at], cursor := |e.history[at]|, browse := at)
  {
    hide Run, Step;
    RunAppend(e, Pressed(DOWN, k - 1), DOWN, table);
    if k == 1 {
      NoBytes(e, table);
    } else {
      DownKeys(e, k - 1, table);
    }
    OneDown(Run(e, Pressed(DOWN, k - 1), table), table);
  }

  /** Inside the history, Down undoes Up: exactly where the line still is the entry browsed to. */
  lemma DownUndoesUp(e: Editor, k: nat, table: seq<string>)
    requires Ready(e) && 1 <= k <= e.browse <= |e.history|
    ensures var at := if e.browse < |e.history| then e.browse else |e.history| - 1;
            Run(e, Pressed(UP, k) + Pressed(DOWN, k), table)
            == e.(text := e.history[at], cursor := |e.history[at]|, browse := at)
    ensures Run(e, Pressed(UP, k) + Pressed(DOWN, k), table) == e
        <==> e.browse < |e.history| && e.text == e.history[e.browse] && e.cursor == |e.text|
  {
    hide Run, Pressed;
    UpKeys(e, k, table);
    RunAppend(e, Pressed(UP, k), Pressed(DOWN, k), table);
    DownKeys(Run(e, Pressed(UP, k), table), k, table);
  }

  // ----- Entering a line -----

  /** Return, line feed and the interrupt key. */
  predicate IsEnter(key: char) {
    key == '\r' || key == '\n' || key == '\U{03}'
  }

  function LastFive(lines: seq<string>): seq<string> {
    if |lines| <= 5 then lines else lines[|lines| - 5..]
  }

  /** A new line becomes the newest of at most five; an empty one and the newest once more do not. */
  lemma LineEntered(e: Editor, key: char, table: seq<string>)
    requires Ready(e) && IsEnter(key) && |e.history| <= 5
    ensures var again := e.text == "" || (e.history != [] && e.history[|e.history| - 1] == e.text);
            var lines := if again then e.history else LastFive(e.history + [e.text]);
            Run(e, [key], table) == Editor(Normal, "", 0, lines, |lines|)
  {
    hide Completed;
    RunOne(e, key, table);
    if |e.history| == 5 {
      assert (e.history + [e.text])[1..] == e.history[1..] + [e.text];
    }
  }

  /** A line that was entered comes back with Up. */
  lemma UpBringsBack(e: Editor, key: char, table: seq<string>)
    requires Ready(e) && IsEnter(key) && |e.history| <= 5 && e.text != ""
    ensures var back := Run(e, [key] + UP, table); back.text == e.text && back.cursor == |e.text|
  {
    hide Run;
    LineEntered(e, key, table);
    RunAppend(e, [key], UP, table);
    OneUp(Run(e, [key], table), table);
  }

  /** Lines typed one after the other. */
  function Session(lines: seq<string>): string {
    if lines == [] then "" else Session(lines[..|lines| - 1]) + (lines[|lines| - 1] + "\r")
  }

  /** Without empty lines and without the same one twice in a row. */
  function Squeezed(lines: seq<string>): seq<string> {
    if lines == [] then []
    else
      var before, line := Squeezed(lines[..|lines| - 1]), lines[|lines| - 1];
      if line == "" || (before != [] && before[|before| - 1] == line) then before else before + [line]
  }

  lemma LastFiveMore(lines: seq<string>, line: string)
    ensures LastFive(LastFive(lines) + [line]) == LastFive(lines + [line]) && |LastFive(lines)| <= 5
    ensures LastFive(lines) == [] <==> lines == []
    ensures lines != [] ==> LastFive(lines)[|LastFive(lines)| - 1] == lines[|lines| - 1]
  {
  }

  /** After any session the history is the last five of the lines typed. */
  lemma {:induction false} SessionHistory(lines: seq<string>, table: seq<string>)
    requires forall i :: 0 <= i < |lines| ==> IsPrintable(lines[i])
    ensures var history := LastFive(Squeezed(lines));
            Run(Editor(Normal, "", 0, [], 0), Session(lines), table) == Editor(Normal, "", 0, history, |history|)
  {
    hide Run, IsPrintable, LastFive;
    var start := Editor(Normal, "", 0, [], 0);
    if lines == [] {
      NoBytes(start, table);
      assert LastFive([]) == [] by { LastFiveMore([], ""); }
    } else {
      var init, line := lines[..|lines| - 1], lines[|lines| - 1];
      SessionHistory(init, table);
      var e := Run(start, Session(init), table);
      RunAppend(start, Session(init), line + "\r", table);
      RunAppend(e, line, "\r", table);
      TextTyped(e, line, table);
      var typed := e.(text := line, cursor := |line|);
      assert e.text[..0] + line + e.text[0..] == line;
      LastFiveMore(Squeezed(init), line);
      LineEntered(typed, '\r', table);
    }
  }

  // ----- The other bytes -----

  /** Tab grows the line to what all commands that extend it share, if there are any. */
  lemma TabCompletes(e: Editor, table: seq<string>)
    requires Ready(e)
    ensures var after := Run(e, "\t", table);
            && after == e.(text := after.text, cursor := |after.text|)
            && (if e.text != "" && exists name | name in table :: e.text <= name
                then IsLongestCommon(after.text, Extensions(e.text, table)) && e.text <= after.text
                else after.text == e.text)
  {
    RunOne(e, '\t', table);
    var names := Extensions(e.text, table);
    if name :| name in table && e.text <= name {
      assert name in names;
    }
    assert names != [] ==> names[0] in names;
    if e.text != "" && names != [] {
      CompletedIsLongestCommon(e.text, table);
    }
    hide Least;
  }

  /** Control bytes without a meaning and bytes outside ASCII do nothing. */
  lemma OthersIgnored(e: Editor, c: char, table: seq<string>)
    requires Ready(e) && (c < ' ' || c >= '\U{80}')
    requires c != '\U{03}' && c != '\U{08}' && c != '\t' && c != '\n' && c != '\r' && c != '\U{1B}'
    ensures Run(e, [c], table) == e
  {
    hide Completed, Pushed;
    RunOne(e, c, table);
  }

  /** An escape sequence that is none is dropped, and its last byte counts. */
  lemma EscapeDropped(e: Editor, c: char, table: seq<string>)
    requires Ready(e)
    ensures c != '[' && c != '\U{1B}' ==> Run(e, ['\U{1B}', c], table) == Run(e, [c], table)
    ensures !('A' <= c <= 'D') && c != '\U{1B}' ==> Run(e, ['\U{1B}', '[', c], table) == Run(e, [c], table)
  {
    hide Completed, Pushed;
    RunOne(e, c, table);
    RunTwo(e, '\U{1B}', c, table);
    RunTwo(e, '\U{1B}', '[', table);
    assert ['\U{1B}', '[', c][..2] == ['\U{1B}', '['];
  }

  // ----- What a line comes to -----

  lemma ResultsOne(e: Editor, c: char, table: seq<string>)
    ensures Results(e, [c], table) == Result(e, c, table)
  {
    hide Result;
    assert [c][..0] == "";
  }

  lemma FirstWord(pieces: seq<Piece>, tail: string)
    requires IsCommand(pieces, tail) && pieces != [] && !pieces[0].quoted
    ensures var s := Line(pieces, tail);
            var t := s[Blanks(s)..];
            t != "" && t[..WordLength(t)] == pieces[0].text && Tokens(t) == Texts(pieces)
  {
    hide Tokens, Blanks, WordLength;
    var p, rest := pieces[0], Line(pieces[1..], tail);
    var s, t := Line(pieces, tail), Written(p) + rest;
    assert IsPiece(p);
    GapOf(pieces);
    LineStarts(pieces[1..], tail);
    GapSkipped(p.gap, t);
    NothingToSkip(t);
    assert s[|p.gap|..] == t;
    WordEnds(p.text, rest);
    TokensSkip(s);
    SplitUndoesWriting(pieces, tail);
  }

  lemma LineExecuted(pieces: seq<Piece>, tail: string, table: seq<string>)
    requires IsCommand(pieces, tail) && (pieces != [] ==> !pieces[0].quoted)
    ensures Executed(Line(pieces, tail), table)
         == if pieces == [] then Nothing
            else if pieces[0].text !in table then Unknown
            else Ran(pieces[0].text, if |pieces| <= 16 then Texts(pieces) else Texts(pieces)[..16])
  {
    hide Tokens, Blanks, WordLength, Line, IsCommand;
    if pieces == [] {
      OnlyLine(tail);
    } else {
      FirstWord(pieces, tail);
    }
  }

  lemma OnlyLine(tail: string)
    requires IsCommand([], tail)
    ensures Line([], tail) == tail && Blanks(tail) == |tail|
  {
    OnlyBlanks(tail);
  }

  /** Entering a line runs the command its first word names, with up to sixteen arguments; nothing if it is blank. */
  lemma CommandEntered(e: Editor, pieces: seq<Piece>, tail: string, key: char, table: seq<string>)
    requires Ready(e) && IsEnter(key) && IsCommand(pieces, tail) && e.text == Line(pieces, tail)
    requires pieces != [] ==> !pieces[0].quoted
    ensures Results(e, [key], table)
         == [if pieces == [] then Nothing
             else if pieces[0].text !in table then Unknown
             else Ran(pieces[0].text, if |pieces| <= 16 then Texts(pieces) else Texts(pieces)[..16])]
  {
    ResultsOne(e, key, table);
    assert Result(e, key, table) == [Executed(e.text, table)];
    hide *;
    LineExecuted(pieces, tail, table);
  }
}
