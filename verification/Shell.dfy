// The shell's line editor: a byte-driven machine over a line buffer and five
// history slots, against a simple editor of a text, a cursor and a history.

module Shell {
  import opened ShellSplit
  import opened ShellComplete

  const SHELL_CMD_SIZE := 120
  const SHELL_HISTORY_LINES := 5

  const CTRL_C := '\U{03}'
  const BACKSPACE := '\U{08}'
  const ESCAPE := '\U{1B}'
  const DELETE := '\U{7F}'

  // ----- The simple editor -----

  datatype Stat = Normal | SpecKey | FuncKey

  /** `history` from oldest to newest; `browse` is the entry the arrow keys are at, or one past the newest. */
  datatype Editor = Editor(stat: Stat, text: string, cursor: nat, history: seq<string>, browse: nat)

  /** What comes of a command line. */
  datatype Outcome = Nothing | Unknown | Ran(name: string, argv: seq<string>)

  /** A line without its leading blanks is a command and its arguments. */
  function Executed(text: string, table: seq<string>): Outcome {
    var t := text[Blanks(text)..];
    if t == "" then Nothing
    else if t[..WordLength(t)] in table then Ran(t[..WordLength(t)], Arguments(t))
    else Unknown
  }

  /** The last five lines, without empty ones and without the same one twice in a row. */
  function Pushed(history: seq<string>, text: string): seq<string> {
    if text == "" || (history != [] && history[|history| - 1] == text) then history
    else (if |history| >= SHELL_HISTORY_LINES then history[1..] else history) + [text]
  }

  function Recalled(e: Editor, i: nat): Editor
    requires i < |e.history|
  {
    e.(text := e.history[i], cursor := |e.history[i]|, browse := i)
  }

  predicate IsText(data: char) {
    ' ' <= data < DELETE
  }

  function Ordinary(e: Editor, data: char, table: seq<string>): Editor {
    if e.cursor > |e.text| then e
    else if data == '\t' then e.(text := Completed(e.text, table), cursor := |Completed(e.text, table)|)
    else if data == DELETE || data == BACKSPACE then
      if e.cursor == 0 then e
      else e.(text := e.text[..e.cursor - 1] + e.text[e.cursor..], cursor := e.cursor - 1)
    else if data == '\r' || data == '\n' then
      e.(text := "", cursor := 0, history := Pushed(e.history, e.text), browse := |Pushed(e.history, e.text)|)
    else if IsText(data) then e.(text := e.text[..e.cursor] + [data] + e.text[e.cursor..], cursor := e.cursor + 1)
    else e
  }

  function Arrow(e: Editor, data: char): Editor {
    match data
    case 'A' => if 0 < e.browse <= |e.history| then Recalled(e, e.browse - 1) else e
    case 'B' =>
      if e.browse < |e.history| - 1 then Recalled(e, e.browse + 1)
      else if e.history != [] then Recalled(e, |e.history| - 1)
      else e
    case 'D' => if e.cursor > 0 then e.(cursor := e.cursor - 1) else e
    case _ => if e.cursor < |e.text| then e.(cursor := e.cursor + 1) else e
  }

  predicate IsArrow(data: char) {
    'A' <= data <= 'D'
  }

  /** The byte that is left when escape sequences and the interrupt key have been dealt with, if any. */
  function Typed(stat: Stat, data: char): char {
    if data == CTRL_C then '\r'
    else if data == ESCAPE || (stat == SpecKey && data == '[') || (stat == FuncKey && IsArrow(data)) then '\0'
    else data
  }

  function NextStat(stat: Stat, data: char): Stat {
    if data == ESCAPE then SpecKey
    else if stat == SpecKey && data == '[' then FuncKey
    else Normal
  }

  function Step(e: Editor, data: char, table: seq<string>): Editor {
    var next := e.(stat := NextStat(e.stat, data));
    if e.stat == FuncKey && IsArrow(data) then Arrow(next, data)
    else Ordinary(next, Typed(e.stat, data), table)
  }

  /** The outcome of the step, if it ends a line. */
  function Result(e: Editor, data: char, table: seq<string>): seq<Outcome> {
    var c := Typed(e.stat, data);
    if c == '\r' || c == '\n' then [Executed(e.text, table)] else []
  }

  /** The byte would take the last place in the line. */
  predicate Fills(e: Editor, data: char) {
    |e.text| >= SHELL_CMD_SIZE - 1 && IsText(Typed(e.stat, data))
  }

  // ----- What every step keeps -----

  predicate IsLine(s: string) {
    '\0' !in s && |s| < SHELL_CMD_SIZE
  }

  predicate IsHistory(history: seq<string>) {
    && |history| <= SHELL_HISTORY_LINES
    && (forall i :: 0 <= i < |history| ==> history[i] != "" && IsLine(history[i]))
    && (forall i :: 0 < i < |history| ==> history[i - 1] != history[i])
  }

  predicate WellFormed(e: Editor) {
    IsLine(e.text) && e.cursor <= |e.text| && IsHistory(e.history) && e.browse <= |e.history|
  }

  lemma PushedKeeps(history: seq<string>, text: string)
    requires IsHistory(history) && IsLine(text)
    ensures IsHistory(Pushed(history, text))
  {
  }

  lemma CompletedKeeps(text: string, table: seq<string>)
    requires IsLine(text) && ValidTable(table, SHELL_CMD_SIZE)
    ensures IsLine(Completed(text, table))
  {
    var names := Extensions(text, table);
    if text != "" && names != [] {
      assert names[0] in names;
    }
  }

  lemma InsertKeeps(text: string, at: nat, data: char)
    requires IsLine(text) && at <= |text| < SHELL_CMD_SIZE - 1 && data != '\0'
    ensures IsLine(text[..at] + [data] + text[at..])
  {
  }

  lemma DeleteKeeps(text: string, at: nat)
    requires IsLine(text) && at < |text|
    ensures IsLine(text[..at] + text[at + 1..])
  {
  }

  lemma ArrowKeeps(e: Editor, data: char)
    requires WellFormed(e) && IsArrow(data)
    ensures WellFormed(Arrow(e, data))
  {
    assert forall i :: 0 <= i < |e.history| ==> IsLine(e.history[i]);
    hide IsHistory, IsLine;
  }

  lemma OrdinaryKeeps(e: Editor, c: char, table: seq<string>)
    requires WellFormed(e) && ValidTable(table, SHELL_CMD_SIZE) && (|e.text| >= SHELL_CMD_SIZE - 1 ==> !IsText(c))
    ensures WellFormed(Ordinary(e, c, table))
  {
    assert |e.text| < SHELL_CMD_SIZE && IsLine("");
    hide IsHistory, IsLine, ValidTable, Completed, Pushed;
    PushedKeeps(e.history, e.text);
    CompletedKeeps(e.text, table);
    if IsText(c) {
      InsertKeeps(e.text, e.cursor, c);
    }
    if e.cursor > 0 {
      DeleteKeeps(e.text, e.cursor - 1);
    }
  }

  /** As long as the line does not fill, every step keeps the editor well formed. */
  lemma StepKeeps(e: Editor, data: char, table: seq<string>)
    requires WellFormed(e) && ValidTable(table, SHELL_CMD_SIZE) && !Fills(e, data)
    ensures WellFormed(Step(e, data, table))
  {
    var next := e.(stat := NextStat(e.stat, data));
    assert WellFormed(next);
    hide WellFormed, ValidTable, Ordinary, Arrow, NextStat;
    if e.stat == FuncKey && IsArrow(data) {
      ArrowKeeps(next, data);
    } else {
      OrdinaryKeeps(next, Typed(e.stat, data), table);
    }
  }

  /** A whole run. */
  function Run(e: Editor, bytes: string, table: seq<string>): Editor {
    if bytes == "" then e else Step(Run(e, bytes[..|bytes| - 1], table), bytes[|bytes| - 1], table)
  }

  function Results(e: Editor, bytes: string, table: seq<string>): seq<Outcome> {
    if bytes == "" then []
    else
      var init := bytes[..|bytes| - 1];
      Results(e, init, table) + Result(Run(e, init, table), bytes[|bytes| - 1], table)
  }

  /** The line never fills. */
  predicate Fit(e: Editor, bytes: string, table: seq<string>) {
    bytes != "" ==>
      var init := bytes[..|bytes| - 1];
      Fit(e, init, table) && !Fills(Run(e, init, table), bytes[|bytes| - 1])
  }

  lemma {:induction false} RunKeeps(e: Editor, bytes: string, table: seq<string>)
    requires WellFormed(e) && ValidTable(table, SHELL_CMD_SIZE) && Fit(e, bytes, table)
    ensures WellFormed(Run(e, bytes, table))
  {
    hide WellFormed, ValidTable, Fills, Step;
    if bytes != "" {
      var init := bytes[..|bytes| - 1];
      RunKeeps(e, init, table);
      StepKeeps(Run(e, init, table), bytes[|bytes| - 1], table);
    }
  }

  /** Nothing is typed twice into the history: Enter on the line just recalled leaves it as it is. */
  lemma RecalledOnce(e: Editor, table: seq<string>)
    requires WellFormed(e) && e.history != [] && e.stat == Normal
    ensures var up := Run(e.(text := "", cursor := 0, browse := |e.history|), [ESCAPE, '[', 'A', '\r'], table);
            up.history == e.history && up.text == "" && up.browse == |e.history|
  {
    var e0 := e.(text := "", cursor := 0, browse := |e.history|);
    var bytes := [ESCAPE, '[', 'A', '\r'];
    assert bytes[..3] == [ESCAPE, '[', 'A'] && bytes[..3][..2] == [ESCAPE, '['] && [ESCAPE, '['][..1] == [ESCAPE];
    assert [ESCAPE][..0] == "";
    var e1 := Step(e0, ESCAPE, table);
    var e2 := Step(e1, '[', table);
    var e3 := Step(e2, 'A', table);
    assert Run(e0, [ESCAPE], table) == e1;
    assert Run(e0, [ESCAPE, '['], table) == e2;
    assert e2 == e0.(stat := FuncKey);
    assert e3 == Recalled(e0, |e.history| - 1);
    assert Run(e0, bytes[..3], table) == e3;
    assert Run(e0, bytes, table) == Step(e3, '\r', table);
  }

  // ----- The shell -----

  function Row(h: array2<char>, i: nat): (s: string)
    requires i < h.Length0
    reads h
    ensures |s| == h.Length1
  {
    seq(h.Length1, j requires 0 <= j < h.Length1 reads h => h[i, j])
  }

  lemma SameImage(a: string, b: string)
    requires IsLine(a) && IsLine(b)
    ensures Image(a, SHELL_CMD_SIZE) == Image(b, SHELL_CMD_SIZE) <==> a == b
  {
    NoNul(a);
    NoNul(b);
    var x, y := Image(a, SHELL_CMD_SIZE), Image(b, SHELL_CMD_SIZE);
    if |a| < |b| {
      assert x[|a|] == '\0' && y[|a|] == y[..|b|][|a|] == b[|a|];
    } else if |b| < |a| {
      assert y[|b|] == '\0' && x[|b|] == x[..|a|][|b|] == a[|b|];
    } else {
      assert x[..|a|] == a && y[..|b|] == b;
    }
  }

  class Shell {
    var stat: Stat
    var currentHistory: nat
    var historyCount: nat
    const cmdHistory: array2<char>
    const line: array<char>
    var linePosition: nat
    var lineCurpos: nat
    const table: seq<string>
    ghost var text: string
    ghost var history: seq<string>
    ghost var outcomes: seq<Outcome>      // of all lines ended so far

    /** What the fields stand for. */
    ghost function State(): Editor
      reads this
    {
      Editor(stat, text, lineCurpos, history, currentHistory)
    }

    ghost predicate LineStored()
      reads this, line
    {
      && line.Length == SHELL_CMD_SIZE && cmdHistory.Length0 == SHELL_HISTORY_LINES
      && cmdHistory.Length1 == SHELL_CMD_SIZE
      && linePosition == |text| <= SHELL_CMD_SIZE && line[..] == Image(text, SHELL_CMD_SIZE)
    }

    /** The line is the text and zeros; the slots in use are the history entries and zeros. */
    ghost predicate Stored()
      reads this, line, cmdHistory
    {
      && LineStored()
      && historyCount == |history| <= SHELL_HISTORY_LINES
      && forall i :: 0 <= i < historyCount ==>
           |history[i]| <= SHELL_CMD_SIZE && Row(cmdHistory, i) == Image(history[i], SHELL_CMD_SIZE)
    }

    ghost predicate Valid()
      reads this, line, cmdHistory
    {
      Stored() && WellFormed(State()) && ValidTable(table, SHELL_CMD_SIZE)
    }

    /** A shell that has just been started. */
    constructor (table: seq<string>)
      requires ValidTable(table, SHELL_CMD_SIZE)
      ensures Valid() && State() == Editor(Normal, "", 0, [], 0) && outcomes == [] && this.table == table
      ensures fresh(line) && fresh(cmdHistory)
    {
      stat, currentHistory, historyCount, linePosition, lineCurpos := Normal, 0, 0, 0, 0;
      cmdHistory := new char[SHELL_HISTORY_LINES, SHELL_CMD_SIZE]((i, j) => '\0');
      line := new char[SHELL_CMD_SIZE](i => '\0');
      this.table := table;
      text, history, outcomes := "", [], [];
    }

    /** Whether a slot and the line are the same over their whole length. */
    method SameAsLine(i: nat) returns (same: bool)
      requires line.Length == cmdHistory.Length1 == SHELL_CMD_SIZE && i < cmdHistory.Length0
      ensures same <==> Row(cmdHistory, i) == line[..]
    {
      var j := 0;
      while j < SHELL_CMD_SIZE && cmdHistory[i, j] == line[j]
        invariant 0 <= j <= SHELL_CMD_SIZE && Row(cmdHistory, i)[..j] == line[..j]
      {
        assert Row(cmdHistory, i)[j] == line[j];
        j := j + 1;
      }
      same := j == SHELL_CMD_SIZE;
      assert same ==> Row(cmdHistory, i)[..j] == Row(cmdHistory, i) && line[..j] == line[..];
      assert !same ==> Row(cmdHistory, i)[j] != line[..][j];
    }

    /** `memset` of a slot, then `memcpy` of the line into it. */
    method SaveLine(i: nat)
      requires LineStored() && i < SHELL_HISTORY_LINES
      modifies cmdHistory
      ensures Row(cmdHistory, i) == Image(text, SHELL_CMD_SIZE)
      ensures forall k :: 0 <= k < SHELL_HISTORY_LINES && k != i ==> Row(cmdHistory, k) == old(Row(cmdHistory, k))
    {
      forall j | 0 <= j < SHELL_CMD_SIZE {
        cmdHistory[i, j] := '\0';
      }
      forall j | 0 <= j < linePosition {
        cmdHistory[i, j] := line[j];
      }
      assert forall j :: 0 <= j < linePosition ==> Row(cmdHistory, i)[j] == line[..][j];
    }

    /** `memcpy` of every slot from the one behind it. */
    method MoveHistory()
      requires cmdHistory.Length0 == SHELL_HISTORY_LINES && cmdHistory.Length1 == SHELL_CMD_SIZE
      modifies cmdHistory
      ensures forall k :: 0 <= k < SHELL_HISTORY_LINES - 1 ==> Row(cmdHistory, k) == old(Row(cmdHistory, k + 1))
    {
      var index := 0;
      while index < SHELL_HISTORY_LINES - 1
        invariant 0 <= index <= SHELL_HISTORY_LINES - 1
        invariant forall k, j :: 0 <= k < index && 0 <= j < SHELL_CMD_SIZE ==>
                    cmdHistory[k, j] == old(cmdHistory[k + 1, j])
        invariant forall k, j :: index <= k < SHELL_HISTORY_LINES && 0 <= j < SHELL_CMD_SIZE ==>
                    cmdHistory[k, j] == old(cmdHistory[k, j])
      {
        forall j | 0 <= j < SHELL_CMD_SIZE {
          cmdHistory[index, j] := cmdHistory[index + 1, j];
        }
        index := index + 1;
      }
    }

    /** All slots are in use: the oldest line goes, unless the newest is the same. */
    method PushFull()
      requires Stored() && IsHistory(history) && IsLine(text) && text != "" && historyCount >= SHELL_HISTORY_LINES
      modifies `historyCount, `history, cmdHistory
      ensures Stored() && history == Pushed(old(history), text)
    {
      hide IsHistory, IsLine, Image;
      HistoryLines(history);
      SameImage(history[SHELL_HISTORY_LINES - 1], text);
      var same := SameAsLine(SHELL_HISTORY_LINES - 1);
      if !same {
        MoveHistory();
        SaveLine(SHELL_HISTORY_LINES - 1);
        historyCount := SHELL_HISTORY_LINES;
        history := history[1..] + [text];
      }
    }

    /** There is a free slot, for a line that differs from the newest. */
    method PushMore()
      requires Stored() && IsHistory(history) && IsLine(text) && text != "" && historyCount < SHELL_HISTORY_LINES
      modifies `currentHistory, `historyCount, `history, cmdHistory
      ensures Stored() && history == Pushed(old(history), text)
    {
      hide IsHistory, IsLine, Image;
      HistoryLines(history);
      var same := false;
      if historyCount != 0 {
        SameImage(history[historyCount - 1], text);
        same := SameAsLine(historyCount - 1);
      }
      if historyCount == 0 || !same {
        currentHistory := historyCount;
        SaveLine(historyCount);
        historyCount := historyCount + 1;
        history := history + [text];
      }
    }

    /** `shell_push_history` */
    method PushHistory()
      requires Valid()
      modifies `currentHistory, `historyCount, `history, cmdHistory
      ensures Valid()
      ensures history == Pushed(old(history), text) && currentHistory == |history|
    {
      hide ValidTable, IsHistory, IsLine, Image, Pushed, Row;
      PushedKeeps(history, text);
      NothingPushed(history);
      if linePosition != 0 {
        if historyCount >= SHELL_HISTORY_LINES {
          PushFull();
        } else {
          PushMore();
        }
      }
      currentHistory := historyCount;
    }

    /** An arrow key's `memcpy` from a slot, and the positions from its length. */
    method Recall(i: nat)
      requires Valid() && i < historyCount
      modifies `linePosition, `lineCurpos, `text, `currentHistory, line
      ensures Valid() && State() == Recalled(old(State()), i)
    {
      hide WellFormed, ValidTable, IsHistory, Image;
      LinesOf(State());
      currentHistory := i;
      forall j | 0 <= j < SHELL_CMD_SIZE {
        line[j] := cmdHistory[i, j];
      }
      text := history[i];
      assert line[..] == Row(cmdHistory, i);
      linePosition := StrLen(line, text);
      lineCurpos := linePosition;
      FormedOf(State());
    }

    /** `shell_get_cmd` */
    method GetCmd(cmd: nat, size: nat) returns (found: bool)
      requires cmd + size <= line.Length && '\0' !in line[cmd..cmd + size] && ValidTable(table, SHELL_CMD_SIZE)
      ensures found <==> line[cmd..cmd + size] in table
    {
      var word, index := line[cmd..cmd + size], 0;
      while index < |table|
        invariant 0 <= index <= |table| && word !in table[..index]
      {
        var name := table[index];
        assert table[..index + 1] == table[..index] + [name];
        if word <= name && At(name, size) == '\0' {
          assert name in table;
          NoNul(name);
          assert word == name;
          return true;
        }
        index := index + 1;
      }
      found := false;
    }

    /** "truncate the cmd at the first space" */
    method Truncate(cmd: nat)
      requires cmd < line.Length && exists i :: cmd <= i < line.Length && line[i] == '\0'
      modifies line
    {
      var tcmd := cmd;
      ghost var i :| cmd <= i < line.Length && line[i] == '\0';
      while line[tcmd] != ' ' && line[tcmd] != '\0'
        invariant cmd <= tcmd <= i
        decreases i - tcmd
      {
        tcmd := tcmd + 1;
      }
      line[tcmd] := '\0';
    }

    /** "strim the beginning of command" */
    method Trim() returns (cmd: nat)
      requires LineStored() && IsLine(text)
      ensures cmd == Blanks(text)
    {
      cmd := 0;
      TextAt(line[..], text);
      assert text[0..] == text;
      while line[cmd] == ' ' || line[cmd] == '\t'
        invariant cmd <= |text| && cmd + Blanks(text[cmd..]) == Blanks(text)
        decreases |text| - cmd
      {
        assert text[cmd..][1..] == text[cmd + 1..];
        cmd := cmd + 1;
      }
    }

    /** `shell_exec`: the command is looked up by its first word and gets the arguments the line splits into. */
    method Exec() returns (ghost outcome: Outcome)
      requires LineStored() && IsLine(text) && ValidTable(table, SHELL_CMD_SIZE)
      modifies line
      ensures outcome == Executed(text, table)
    {
      hide Blanks, WordLength, ValidTable, Image;
      TextAt(line[..], text);
      var cmd := Trim();
      var length := linePosition - cmd;
      if length == 0 {
        return Nothing;
      }
      ghost var t := text[cmd..];
      assert line[cmd..cmd + length] == t;
      assert '\0' !in t by {
        NoNulBehind(text, cmd);
      }
      var size := SkipWord(line, cmd, cmd + length);
      assert line[cmd..size] == t[..WordLength(t)];
      NoNulBefore(t, WordLength(t));
      var found := GetCmd(cmd, size - cmd);
      if !found {
        Truncate(cmd);
        return Unknown;
      }
      var argv := Split(line, cmd, length);
      outcome := Ran(t[..WordLength(t)],
                     seq(|argv|, i requires 0 <= i < |argv| && argv[i] < line.Length reads line => CString(line[argv[i]..])));
      assert outcome.argv == Arguments(t);
    }

    /** `memset` of the line. */
    method ClearLine()
      requires line.Length == cmdHistory.Length1 == SHELL_CMD_SIZE && cmdHistory.Length0 == SHELL_HISTORY_LINES
      modifies `linePosition, `lineCurpos, `text, line
      ensures LineStored() && text == "" && lineCurpos == 0
    {
      forall j | 0 <= j < line.Length {
        line[j] := '\0';
      }
      linePosition, lineCurpos, text := 0, 0, "";
    }

    /** A character at the cursor; the place for the last one is never used up by it. */
    method InsertChar(data: char)
      requires Valid() && IsText(data)
      modifies `linePosition, `lineCurpos, `text, line
      ensures text == old(text[..lineCurpos] + [data] + text[lineCurpos..])
      ensures old(|text|) < SHELL_CMD_SIZE - 1 ==> Valid() && lineCurpos == old(lineCurpos) + 1
      ensures old(|text|) >= SHELL_CMD_SIZE - 1 ==> linePosition == 0 && lineCurpos == 0 && line[..] == text
    {
      hide ValidTable, IsHistory, IsLine, Row;
      LinesOf(State());
      TextAt(line[..], text);
      ghost var before, c := text, lineCurpos;
      // the test for "a large line" cannot fire: linePosition is always in the line here
      if lineCurpos < linePosition {
        forall j | lineCurpos < j <= linePosition {
          line[j] := line[j - 1];
        }
        line[lineCurpos] := data;
      } else {
        line[linePosition] := data;
      }
      text := before[..c] + [data] + before[c..];
      assert line[..] == Image(text, SHELL_CMD_SIZE);
      linePosition := linePosition + 1;
      lineCurpos := lineCurpos + 1;
      if linePosition >= SHELL_CMD_SIZE {
        linePosition := 0;
        lineCurpos := 0;
      } else {
        InsertKeeps(before, c, data);
        FormedOf(State());
      }
    }

    /** The character before the cursor goes. */
    method EraseChar()
      requires Valid()
      modifies `linePosition, `lineCurpos, `text, line
      ensures Valid()
      ensures if old(lineCurpos) == 0 then State() == old(State())
              else text == old(text[..lineCurpos - 1] + text[lineCurpos..]) && lineCurpos == old(lineCurpos) - 1
    {
      hide ValidTable, IsHistory;
      LinesOf(State());
      TextAt(line[..], text);
      if lineCurpos == 0 {
        return;
      }
      ghost var before, c := text, lineCurpos - 1;
      linePosition := linePosition - 1;
      lineCurpos := lineCurpos - 1;
      if linePosition > lineCurpos {
        forall j | lineCurpos <= j < linePosition {
          line[j] := line[j + 1];
        }
        line[linePosition] := '\0';
      } else {
        line[linePosition] := '\0';
      }
      text := before[..c] + before[c + 1..];
      DeleteKeeps(before, c);
      assert line[..] == Image(text, SHELL_CMD_SIZE);
      FormedOf(State());
    }

    /** The tab key. */
    method Complete()
      requires Valid()
      modifies `linePosition, `lineCurpos, `text, line
      ensures Valid() && text == Completed(old(text), table) && lineCurpos == |text|
    {
      hide ValidTable, IsHistory, Completed, Image;
      LinesOf(State());
      AutoComplete(line, text, table);
      CompletedKeeps(text, table);
      text := Completed(text, table);
      linePosition := StrLen(line, text);
      lineCurpos := linePosition;
      FormedOf(State());
    }

    /** The end of a line: into the history, carried out, cleared. */
    method EndLine()
      requires Valid()
      modifies `linePosition, `lineCurpos, `text, `currentHistory, `historyCount, `history, `outcomes, line, cmdHistory
      ensures Valid() && text == "" && lineCurpos == 0
      ensures history == Pushed(old(history), old(text)) && currentHistory == |history|
      ensures outcomes == old(outcomes) + [Executed(old(text), table)]
    {
      hide ValidTable, IsHistory, Executed, Pushed, Image;
      PushHistory();
      LinesOf(State());
      ghost var outcome := Exec();
      outcomes := outcomes + [outcome];
      ClearLine();
      NothingTyped(State());
    }

    /** A byte that belongs to no escape sequence. */
    method Type(data: char)
      requires Valid()
      modifies `linePosition, `lineCurpos, `text, `currentHistory, `historyCount, `history, `outcomes, line, cmdHistory
      ensures outcomes == old(outcomes) + if data == '\r' || data == '\n' then [Executed(old(text), table)] else []
      ensures old(|text|) >= SHELL_CMD_SIZE - 1 && IsText(data) ==> linePosition == 0 && |text| == SHELL_CMD_SIZE && line[..] == text
      ensures !(old(|text|) >= SHELL_CMD_SIZE - 1 && IsText(data)) ==>
                Valid() && State() == Ordinary(old(State()), data, table)
    {
      hide Executed, ValidTable, IsHistory, Pushed, Completed, Image;
      LinesOf(State());
      if data == '\0' || data == '\U{FF}' {
        return;
      } else if data == '\t' {
        Complete();
        return;
      } else if data == DELETE || data == BACKSPACE {
        EraseChar();
        return;
      }
      if data == '\r' || data == '\n' {
        EndLine();
        return;
      }
      if data < ' ' || data >= '\U{80}' {
        return;
      }
      InsertChar(data);
    }

    /** The four arrow keys. */
    method ArrowKey(data: char)
      requires Valid() && IsArrow(data)
      modifies `linePosition, `lineCurpos, `text, `currentHistory, line
      ensures Valid() && State() == Arrow(old(State()), data)
    {
      hide ValidTable, IsHistory, Image;
      LinesOf(State());
      if data == 'A' {
        if currentHistory > 0 {
          Recall(currentHistory - 1);
        } else {
          currentHistory := 0;
        }
      } else if data == 'B' {
        if currentHistory < historyCount - 1 {
          Recall(currentHistory + 1);
        } else if historyCount != 0 {
          Recall(historyCount - 1);
        }
      } else if data == 'D' {
        if lineCurpos > 0 {
          lineCurpos := lineCurpos - 1;
        }
      } else {
        if lineCurpos < linePosition {
          lineCurpos := lineCurpos + 1;
        }
      }
      FormedOf(State());
    }

    /** `shell_handler`: one step of the simple editor, unless the byte takes the last place in the line. */
    method Handler(data0: char)
      requires Valid()
      modifies this, line, cmdHistory
      ensures outcomes == old(outcomes) + Result(old(State()), data0, table)
      ensures Valid() <==> !Fills(old(State()), data0)
      ensures Valid() ==> State() == Step(old(State()), data0, table)
      ensures !Valid() ==> linePosition == 0 && line[..] == text
    {
      hide Executed, ValidTable, IsHistory, Image, IsLine, Ordinary, Arrow;
      LinesOf(State());
      var data := if data0 == CTRL_C then '\r' else data0;
      if data == ESCAPE {
        stat := SpecKey;
        FormedOf(State());
        Ignored(State(), table);
        return;
      } else if stat == SpecKey {
        if data == '[' {
          stat := FuncKey;
          FormedOf(State());
          Ignored(State(), table);
          return;
        }
        stat := Normal;
      } else if stat == FuncKey {
        stat := Normal;
        FormedOf(State());
        if IsArrow(data) {
          ArrowKey(data);
          return;
        }
      }
      FormedOf(State());
      Type(data);
    }

    /** A whole stream of bytes that never fills the line: the shell ends up where the simple editor does. */
    method Feed(bytes: string)
      requires Valid() && Fit(State(), bytes, table)
      modifies this, line, cmdHistory
      ensures Valid() && State() == Run(old(State()), bytes, table)
      ensures outcomes == old(outcomes) + Results(old(State()), bytes, table)
    {
      hide Valid, State, Step, Result, Fills;
      ghost var start, before := State(), outcomes;
      var i := 0;
      while i < |bytes|
        invariant 0 <= i <= |bytes| && Valid() && State() == Run(start, bytes[..i], table)
        invariant outcomes == before + Results(start, bytes[..i], table)
      {
        FitPrefix(start, bytes, i + 1, table);
        assert bytes[..i + 1][..i] == bytes[..i];
        Handler(bytes[i]);
        i := i + 1;
      }
      assert bytes[..|bytes|] == bytes;
    }
  }

  lemma {:induction false} FitPrefix(e: Editor, bytes: string, n: nat, table: seq<string>)
    requires Fit(e, bytes, table) && n <= |bytes|
    ensures Fit(e, bytes[..n], table)
    decreases |bytes|
  {
    if n == |bytes| {
      assert bytes[..n] == bytes;
    } else {
      assert bytes[..|bytes| - 1][..n] == bytes[..n];
      FitPrefix(e, bytes[..|bytes| - 1], n, table);
    }
  }

  /** The line holds the text, and a NUL behind it. */
  lemma TextAt(line: string, text: string)
    requires |text| < SHELL_CMD_SIZE && line == Image(text, SHELL_CMD_SIZE) && IsLine(text)
    ensures |line| == SHELL_CMD_SIZE && line[..|text|] == text && line[|text|] == '\0'
    ensures forall i :: 0 <= i < |text| ==> line[i] == text[i] && text[i] != '\0'
    ensures forall i :: 0 <= i <= |text| ==> line[i..|text|] == text[i..]
  {
    NoNul(text);
    assert forall i :: 0 <= i < |text| ==> line[i] == line[..|text|][i];
  }

  lemma NoNulBehind(s: string, n: nat)
    requires IsLine(s) && n <= |s|
    ensures '\0' !in s[n..]
  {
  }

  lemma NoNulBefore(s: string, n: nat)
    requires '\0' !in s && n <= |s|
    ensures '\0' !in s[..n]
  {
  }

  lemma LinesOf(e: Editor)
    requires WellFormed(e)
    ensures IsLine(e.text) && IsHistory(e.history) && e.cursor <= |e.text| && e.browse <= |e.history|
    ensures forall i :: 0 <= i < |e.history| ==> IsLine(e.history[i])
  {
  }

  lemma NothingPushed(history: seq<string>)
    ensures Pushed(history, "") == history
  {
  }

  lemma HistoryLines(history: seq<string>)
    requires IsHistory(history)
    ensures |history| <= SHELL_HISTORY_LINES && forall i :: 0 <= i < |history| ==> IsLine(history[i])
  {
  }

  lemma Ignored(e: Editor, table: seq<string>)
    ensures Ordinary(e, '\0', table) == e
  {
  }

  lemma NothingTyped(e: Editor)
    requires e.text == "" && e.cursor == 0 && IsHistory(e.history) && e.browse <= |e.history|
    ensures WellFormed(e)
  {
  }

  lemma FormedOf(e: Editor)
    ensures IsLine(e.text) && IsHistory(e.history) && e.cursor <= |e.text| && e.browse <= |e.history| ==> WellFormed(e)
  {
  }
}