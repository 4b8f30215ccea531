// Splitting a command line into arguments, in place: the separators become
// NUL and the arguments are pointers into the line.

module ShellSplit {
  const SHELL_ARG_NUM := 16

  // ----- The simple tokenizer -----

  predicate IsBlank(c: char) {
    c == ' ' || c == '\t'
  }

  function Blanks(s: string): (n: nat)
    ensures n <= |s| && (forall i :: 0 <= i < n ==> IsBlank(s[i])) && (n < |s| ==> !IsBlank(s[n]))
  {
    if s == "" || !IsBlank(s[0]) then 0 else 1 + Blanks(s[1..])
  }

  /** The length of a word: up to the next blank. */
  function WordLength(s: string): (n: nat)
    ensures n <= |s| && (forall i :: 0 <= i < n ==> !IsBlank(s[i])) && (n < |s| ==> IsBlank(s[n]))
  {
    if s == "" || IsBlank(s[0]) then 0 else 1 + WordLength(s[1..])
  }

  /** The length of a quoted string: up to the next quote that has no backslash before it. */
  function QuotedLength(s: string): (n: nat)
    ensures n <= |s| && (n < |s| ==> s[n] == '"')
  {
    if s == "" || s[0] == '"' then 0
    else if s[0] == '\\' && |s| > 1 && s[1] == '"' then 2 + QuotedLength(s[2..])
    else 1 + QuotedLength(s[1..])
  }

  /** Words and quoted strings; a quoted string keeps its backslashes and may lack its closing quote. */
  function Tokens(s: string): seq<string>
    decreases |s|, 1
  {
    TokensFrom(s[Blanks(s)..])
  }

  function TokensFrom(t: string): seq<string>
    requires t != "" ==> !IsBlank(t[0])
    decreases |t|, 0
  {
    if t == "" then []
    else if t[0] == '"' then [t[1..1 + QuotedLength(t[1..])]] + Tokens(Behind(t))
    else [t[..WordLength(t)]] + Tokens(t[WordLength(t)..])
  }

  /** What comes behind a quoted string and its closing quote. */
  function Behind(t: string): (r: string)
    requires t != ""
    ensures |r| < |t|
  {
    var n := 1 + QuotedLength(t[1..]);
    if n < |t| then t[n + 1..] else ""
  }

  function Arguments(s: string): (r: seq<string>)
    ensures |r| <= SHELL_ARG_NUM
  {
    var ts := Tokens(s);
    if |ts| > SHELL_ARG_NUM then ts[..SHELL_ARG_NUM] else ts
  }

  // ----- Strings in a buffer -----

  /** The string that starts at a place in memory: up to the first NUL. */
  function CString(s: string): (r: string)
    ensures |r| <= |s| && '\0' !in r
  {
    if s == "" || s[0] == '\0' then "" else [s[0]] + CString(s[1..])
  }

  lemma {:induction false} CStringIs(s: string, t: string)
    requires '\0' !in t && |t| < |s| && s[..|t|] == t && s[|t|] == '\0'
    ensures CString(s) == t
  {
    if t != "" {
      assert s[0] == t[0] && t[0] in t;
      assert s[1..][..|t[1..]|] == t[1..];
      CStringIs(s[1..], t[1..]);
    }
  }

  /** Argument `t` at `a`, ended by a NUL before `limit`. */
  predicate Ended(mem: string, a: nat, t: string, limit: nat) {
    a + |t| < limit <= |mem| && mem[a..a + |t|] == t && mem[a + |t|] == '\0' && '\0' !in t
  }

  /** Argument `t` at `a`, running up to the blank or the end of the line at `position`. */
  predicate Pending(mem: string, a: nat, t: string, position: nat) {
    a + |t| == position <= |mem| && mem[a..position] == t && '\0' !in t
  }

  /** All arguments so far; the last one may still lack its NUL. */
  ghost predicate Found(mem: string, argv: seq<nat>, texts: seq<string>, position: nat, pending: bool) {
    && |argv| == |texts|
    && (pending ==> argv != [])
    && (forall i {:trigger argv[i]} :: 0 <= i < |argv| && !(pending && i == |argv| - 1) ==>
          Ended(mem, argv[i], texts[i], position))
    && (pending ==> Pending(mem, argv[|argv| - 1], texts[|argv| - 1], position))
  }

  lemma FoundKept(mem: string, mem': string, argv: seq<nat>, texts: seq<string>, position: nat, position': nat, pending: bool)
    requires position <= position' <= |mem| == |mem'| && mem'[..position] == mem[..position]
    requires Found(mem, argv, texts, position, pending)
    requires pending ==> position < position' && mem'[position] == '\0'
    ensures Found(mem', argv, texts, position', false)
  {
    hide Ended, Pending;
    forall i | 0 <= i < |argv| ensures Ended(mem', argv[i], texts[i], position') {
      if !(pending && i == |argv| - 1) {
        EndedKept(mem, mem', argv[i], texts[i], position, position');
      } else {
        PendingEnds(mem, mem', argv[i], texts[i], position, position');
      }
    }
  }

  lemma EndedKept(mem: string, mem': string, a: nat, t: string, position: nat, position': nat)
    requires position <= position' <= |mem| == |mem'| && mem'[..position] == mem[..position]
    requires Ended(mem, a, t, position)
    ensures Ended(mem', a, t, position')
  {
    forall k | a <= k <= a + |t| ensures mem'[k] == mem[k] {
      assert mem'[..position][k] == mem[..position][k];
    }
    assert mem'[a..a + |t|] == mem[a..a + |t|];
  }

  lemma PendingEnds(mem: string, mem': string, a: nat, t: string, position: nat, position': nat)
    requires position < position' <= |mem| == |mem'| && mem'[..position] == mem[..position] && mem'[position] == '\0'
    requires Pending(mem, a, t, position)
    ensures Ended(mem', a, t, position')
  {
    forall k | a <= k < position ensures mem'[k] == mem[k] {
      assert mem'[..position][k] == mem[..position][k];
    }
    assert mem'[a..position] == mem[a..position];
  }

  lemma FoundMore(mem: string, argv: seq<nat>, texts: seq<string>, position: nat, a: nat, t: string, position': nat,
                  pending: bool)
    requires Found(mem, argv, texts, position, false) && position <= position' <= |mem|
    requires if pending then Pending(mem, a, t, position') else Ended(mem, a, t, position')
    ensures Found(mem, argv + [a], texts + [t], position', pending)
  {
    FoundKept(mem, mem, argv, texts, position, position', false);
  }

  /** A NUL in the right place ends the last argument, too. */
  lemma FoundSettles(mem: string, argv: seq<nat>, texts: seq<string>, position: nat, pending: bool)
    requires position < |mem| && mem[position] == '\0' && Found(mem, argv, texts, position, pending)
    ensures Found(mem, argv, texts, position + 1, false)
  {
    FoundKept(mem, mem, argv, texts, position, position + 1, pending);
  }

  lemma AllFound(mem: string, argv: seq<nat>, texts: seq<string>, position: nat)
    requires Found(mem, argv, texts, position, false)
    ensures forall i :: 0 <= i < |argv| ==> argv[i] < |mem| && CString(mem[argv[i]..]) == texts[i]
  {
    forall i | 0 <= i < |argv| ensures argv[i] < |mem| && CString(mem[argv[i]..]) == texts[i] {
      assert Ended(mem, argv[i], texts[i], position);
      EndedIsString(mem, argv[i], texts[i], position);
    }
  }

  lemma EndedIsString(mem: string, a: nat, t: string, limit: nat)
    requires Ended(mem, a, t, limit) && '\0' !in t
    ensures CString(mem[a..]) == t
  {
    assert mem[a..][..|t|] == mem[a..a + |t|];
    CStringIs(mem[a..], t);
  }

  // ----- The tokenizer step by step -----

  lemma TokensSkip(s: string)
    ensures Tokens(s) == Tokens(s[Blanks(s)..])
  {
    NoBlanks(s[Blanks(s)..]);
  }

  lemma NoBlanks(t: string)
    requires t != "" ==> !IsBlank(t[0])
    ensures Tokens(t) == TokensFrom(t)
  {
    hide TokensFrom;
    assert t[Blanks(t)..] == t;
  }

  lemma TokensQuoted(t: string)
    requires t != "" && t[0] == '"'
    ensures Tokens(t) == [t[1..1 + QuotedLength(t[1..])]] + Tokens(Behind(t))
  {
    hide QuotedLength, Behind, Tokens;
    NoBlanks(t);
  }

  lemma TokensWord(t: string)
    requires t != "" && t[0] != '"' && !IsBlank(t[0])
    ensures Tokens(t) == [t[..WordLength(t)]] + Tokens(t[WordLength(t)..])
  {
    hide WordLength, Tokens;
    NoBlanks(t);
  }

  /** "strip bank and tab" */
  method StripBlanks(cmd: array<char>, ptr0: nat, end: nat) returns (ptr: nat)
    requires ptr0 <= end < cmd.Length
    modifies cmd
    ensures ptr0 <= ptr <= end && ptr == ptr0 + Blanks(old(cmd[ptr0..end]))
    ensures cmd[..ptr0] == old(cmd[..ptr0]) && cmd[ptr..] == old(cmd[ptr..])
    ensures forall i :: ptr0 <= i < ptr ==> cmd[i] == '\0'
  {
    ptr := ptr0;
    while IsBlank(cmd[ptr]) && ptr < end
      invariant ptr0 <= ptr <= end
      invariant cmd[..ptr0] == old(cmd[..ptr0]) && cmd[ptr..] == old(cmd[ptr..])
      invariant forall i :: ptr0 <= i < ptr ==> cmd[i] == '\0'
      invariant ptr - ptr0 + Blanks(old(cmd[ptr..end])) == Blanks(old(cmd[ptr0..end]))
    {
      assert old(cmd[ptr..end])[1..] == old(cmd[ptr + 1..end]);
      cmd[ptr] := '\0';
      ptr := ptr + 1;
    }
    assert cmd[ptr] == old(cmd[ptr..])[0];
  }

  lemma QuotedStep(s: string)
    ensures s == "" || s[0] == '"' ==> QuotedLength(s) == 0
    ensures s != "" && s[0] != '"' ==>
              QuotedLength(s) == if s[0] == '\\' && |s| > 1 && s[1] == '"' then 2 + QuotedLength(s[2..])
                                 else 1 + QuotedLength(s[1..])
  {
  }

  /** "skip this string" */
  method SkipQuoted(cmd: array<char>, ptr0: nat, end: nat) returns (ptr: nat)
    requires ptr0 <= end < cmd.Length && cmd[end] == '\0'
    ensures ptr == ptr0 + QuotedLength(cmd[ptr0..end])
  {
    hide QuotedLength;
    ptr := ptr0;
    while cmd[ptr] != '"' && ptr < end
      invariant ptr0 <= ptr <= end
      invariant ptr - ptr0 + QuotedLength(cmd[ptr..end]) == QuotedLength(cmd[ptr0..end])
      decreases end - ptr
    {
      ghost var s := cmd[ptr..end];
      QuotedStep(s);
      assert s[1..] == cmd[ptr + 1..end] && (|s| > 1 ==> s[1] == cmd[ptr + 1] && s[2..] == cmd[ptr + 2..end]);
      if cmd[ptr] == '\\' {
        if cmd[ptr + 1] == '"' {
          ptr := ptr + 1;
        }
      }
      ptr := ptr + 1;
    }
    QuotedStep(cmd[ptr..end]);
  }

  method SkipWord(cmd: array<char>, ptr0: nat, end: nat) returns (ptr: nat)
    requires ptr0 <= end < cmd.Length
    ensures ptr == ptr0 + WordLength(cmd[ptr0..end])
  {
    ptr := ptr0;
    while !IsBlank(cmd[ptr]) && ptr < end
      invariant ptr0 <= ptr <= end
      invariant ptr - ptr0 + WordLength(cmd[ptr..end]) == WordLength(cmd[ptr0..end])
    {
      assert cmd[ptr..end][1..] == cmd[ptr + 1..end];
      ptr := ptr + 1;
    }
  }

  lemma SliceOf(mem: string, a: nat, b: nat, i: nat, j: nat)
    requires a <= b <= |mem| && i <= j <= b - a
    ensures mem[a..b][i..j] == mem[a + i..a + j]
  {
    assert |mem[a..b][i..j]| == |mem[a + i..a + j]|;
    forall k | 0 <= k < j - i ensures mem[a..b][i..j][k] == mem[a + i..a + j][k] {
      assert mem[a..b][i + k] == mem[a + i + k];
    }
  }

  /** What a quoted string at `ptr0` comes to, in terms of places in memory. */
  lemma QuotedAt(mem: string, ptr0: nat, end: nat)
    requires ptr0 < end <= |mem| && mem[ptr0] == '"' && '\0' !in mem[ptr0..end]
    ensures var ptr := ptr0 + 1 + QuotedLength(mem[ptr0 + 1..end]);
            var t := mem[ptr0 + 1..ptr];
            && ptr <= end && '\0' !in t
            && Tokens(mem[ptr0..end]) == [t] + Tokens(if ptr < end then mem[ptr + 1..end] else "")
  {
    hide Tokens, QuotedLength;
    var s := mem[ptr0..end];
    assert s[1..] == mem[ptr0 + 1..end];
    TokensQuoted(s);
    var n := QuotedLength(s[1..]);
    SliceOf(mem, ptr0, end, 1, 1 + n);
    if 1 + n < |s| {
      SliceOf(mem, ptr0, end, n + 2, |s|);
    }
    assert forall c :: c in s[1..1 + n] ==> c in s;
  }

  lemma WordAt(mem: string, ptr0: nat, end: nat)
    requires ptr0 < end <= |mem| && mem[ptr0] != '"' && !IsBlank(mem[ptr0]) && '\0' !in mem[ptr0..end]
    ensures var ptr := ptr0 + WordLength(mem[ptr0..end]);
            var t := mem[ptr0..ptr];
            && ptr0 < ptr <= end && '\0' !in t && (ptr < end ==> IsBlank(mem[ptr]))
            && Tokens(mem[ptr0..end]) == [t] + Tokens(mem[ptr..end])
  {
    hide Tokens, WordLength;
    var s := mem[ptr0..end];
    TokensWord(s);
    var n := WordLength(s);
    SliceOf(mem, ptr0, end, 0, n);
    SliceOf(mem, ptr0, end, n, |s|);
    assert forall c :: c in s[..n] ==> c in s;
    assert n < |s| ==> mem[ptr0 + n] == s[n];
  }

  /** From an opening quote to the closing one, which is overwritten, or to the end. */
  method TakeQuoted(cmd: array<char>, ptr0: nat, end: nat) returns (a: nat, ptr: nat, ghost t: string, ghost pending: bool)
    requires ptr0 < end < cmd.Length && cmd[end] == '\0' && '\0' !in cmd[ptr0..end] && cmd[ptr0] == '"'
    modifies cmd
    ensures ptr0 < ptr <= end && cmd[..ptr0] == old(cmd[..ptr0]) && cmd[ptr..] == old(cmd[ptr..])
    ensures if pending then Pending(cmd[..], a, t, ptr) && ptr == end else Ended(cmd[..], a, t, ptr)
    ensures Tokens(old(cmd[ptr0..end])) == [t] + Tokens(old(cmd[ptr..end]))
  {
    hide Tokens, QuotedLength;
    ghost var mem := cmd[..];
    assert mem[ptr0..end] == cmd[ptr0..end] && mem[ptr0 + 1..end] == cmd[ptr0 + 1..end];
    QuotedAt(mem, ptr0, end);
    a := ptr0 + 1;
    ptr := SkipQuoted(cmd, a, end);
    t := mem[a..ptr];
    pending := ptr >= end;
    if ptr >= end {
      assert mem[ptr..end] == old(cmd[ptr..end]) == "";
    } else {
      cmd[ptr] := '\0';
      ptr := ptr + 1;
      assert mem[ptr..end] == old(cmd[ptr..end]);
      assert cmd[..][a..ptr - 1] == mem[a..ptr - 1];
    }
  }

  /** One argument: a quoted string with its closing quote overwritten, or a word. */
  method TakeArgument(cmd: array<char>, ptr0: nat, end: nat) returns (a: nat, ptr: nat, ghost t: string, ghost pending: bool)
    requires ptr0 < end < cmd.Length && cmd[end] == '\0' && '\0' !in cmd[ptr0..end] && !IsBlank(cmd[ptr0])
    modifies cmd
    ensures ptr0 < ptr <= end && cmd[..ptr0] == old(cmd[..ptr0]) && cmd[ptr..] == old(cmd[ptr..])
    ensures if pending then Pending(cmd[..], a, t, ptr) else Ended(cmd[..], a, t, ptr)
    ensures pending && ptr < end ==> IsBlank(cmd[ptr])
    ensures Tokens(old(cmd[ptr0..end])) == [t] + Tokens(old(cmd[ptr..end]))
  {
    hide Tokens, WordLength;
    if cmd[ptr0] == '"' {
      a, ptr, t, pending := TakeQuoted(cmd, ptr0, end);
    } else {
      ghost var mem := cmd[..];
      assert mem[ptr0..end] == cmd[ptr0..end];
      WordAt(mem, ptr0, end);
      a, pending := ptr0, true;
      ptr := SkipWord(cmd, a, end);
      t := mem[a..ptr];
      assert mem[ptr..end] == old(cmd[ptr..end]);
    }
  }

  /** Stripping the blanks ends an argument that ran up to them. */
  method StripStep(cmd: array<char>, ptr0: nat, end: nat, ghost argv: seq<nat>, ghost texts: seq<string>, ghost pending: bool)
    returns (ptr: nat)
    requires ptr0 < end < cmd.Length && '\0' !in cmd[ptr0..end] && Found(cmd[..], argv, texts, ptr0, pending)
    requires pending ==> IsBlank(cmd[ptr0])
    modifies cmd
    ensures ptr0 <= ptr <= end && cmd[..ptr0] == old(cmd[..ptr0]) && cmd[ptr..] == old(cmd[ptr..])
    ensures Found(cmd[..], argv, texts, ptr, false) && (ptr < end ==> !IsBlank(cmd[ptr]))
    ensures Tokens(cmd[ptr..end]) == Tokens(old(cmd[ptr0..end])) && '\0' !in cmd[ptr..end]
  {
    hide Tokens, Found;
    ghost var mem := cmd[..];
    ghost var s := cmd[ptr0..end];
    TokensSkip(s);
    ptr := StripBlanks(cmd, ptr0, end);
    assert cmd[ptr..][..end - ptr] == cmd[ptr..end] == s[ptr - ptr0..];
    assert ptr < end ==> cmd[ptr] == s[ptr - ptr0];
    FoundKept(mem, cmd[..], argv, texts, ptr0, ptr, pending);
  }

  method TakeStep(cmd: array<char>, ptr0: nat, end: nat, ghost argv: seq<nat>, ghost texts: seq<string>)
    returns (a: nat, ptr: nat, ghost t: string, ghost pending: bool)
    requires ptr0 < end < cmd.Length && cmd[end] == '\0' && '\0' !in cmd[ptr0..end] && !IsBlank(cmd[ptr0])
    requires Found(cmd[..], argv, texts, ptr0, false)
    modifies cmd
    ensures ptr0 < ptr <= end && cmd[..ptr0] == old(cmd[..ptr0]) && cmd[ptr..] == old(cmd[ptr..])
    ensures Found(cmd[..], argv + [a], texts + [t], ptr, pending) && (pending && ptr < end ==> IsBlank(cmd[ptr]))
    ensures Tokens(old(cmd[ptr0..end])) == [t] + Tokens(cmd[ptr..end]) && '\0' !in cmd[ptr..end]
  {
    hide Tokens, Found;
    ghost var mem := cmd[..];
    ghost var s := cmd[ptr0..end];
    a, ptr, t, pending := TakeArgument(cmd, ptr0, end);
    assert cmd[ptr..][..end - ptr] == cmd[ptr..end] == s[ptr - ptr0..];
    FoundKept(mem, cmd[..], argv, texts, ptr0, ptr0, false);
    FoundMore(cmd[..], argv, texts, ptr0, a, t, ptr, pending);
  }

  /** `shell_split`: the arguments of the simple tokenizer, each ended by a NUL in the line itself, sixteen at most. */
  method Split(cmd: array<char>, base: nat, length: nat) returns (argv: seq<nat>)
    requires base + length < cmd.Length && cmd[base + length] == '\0' && '\0' !in cmd[base..base + length]
    modifies cmd
    ensures cmd[..base] == old(cmd[..base]) && cmd[base + length..] == old(cmd[base + length..])
    ensures |argv| == |Arguments(old(cmd[base..base + length]))|
    ensures forall i :: 0 <= i < |argv| ==>
              argv[i] < cmd.Length && CString(cmd[argv[i]..]) == Arguments(old(cmd[base..base + length]))[i]
  {
    hide Tokens, Found, CString;
    ghost var line, behind := cmd[base..base + length], cmd[base + length..];
    var ptr, end := base, base + length;
    argv := [];
    ghost var texts: seq<string>, pending := [], false;
    NothingFound(cmd[..], base);
    while ptr < end
      invariant base <= ptr <= end && cmd[..base] == old(cmd[..base]) && cmd[end..] == behind
      invariant Found(cmd[..], argv, texts, ptr, pending) && |argv| == |texts| <= SHELL_ARG_NUM
      invariant '\0' !in cmd[ptr..end] && (pending && ptr < end ==> IsBlank(cmd[ptr]))
      invariant texts + Tokens(cmd[ptr..end]) == Tokens(line)
      decreases end - ptr, SHELL_ARG_NUM - |argv|
    {
      ghost var mem, at := cmd[..], ptr;
      ptr := StripStep(cmd, ptr, end, argv, texts, pending);
      pending := false;
      BehindSame(mem, cmd[..], base, at, ptr, end);
      if |argv| >= SHELL_ARG_NUM {
        break;
      }
      if ptr >= end {
        break;
      }
      assert cmd[end] == cmd[end..][0] == behind[0];
      mem, at := cmd[..], ptr;
      var a;
      ghost var t;
      a, ptr, t, pending := TakeStep(cmd, ptr, end, argv, texts);
      BehindSame(mem, cmd[..], base, at, ptr, end);
      argv, texts := argv + [a], texts + [t];
    }
    if ptr == end {
      NoTokens();
      assert cmd[ptr..end] == "" && cmd[end] == cmd[end..][0] == behind[0];
      FoundSettles(cmd[..], argv, texts, ptr, pending);
      AllFound(cmd[..], argv, texts, ptr + 1);
    } else {
      AllFound(cmd[..], argv, texts, ptr);
    }
  }

  lemma BehindSame(mem: string, mem': string, base: nat, at: nat, ptr: nat, end: nat)
    requires base <= at <= ptr <= end <= |mem| == |mem'| && mem'[..at] == mem[..at] && mem'[ptr..] == mem[ptr..]
    ensures mem'[..base] == mem[..base] && mem'[end..] == mem[end..]
  {
    assert mem'[..at][..base] == mem'[..base] && mem[..at][..base] == mem[..base];
    assert mem'[ptr..][end - ptr..] == mem'[end..] && mem[ptr..][end - ptr..] == mem[end..];
  }

  lemma NothingFound(mem: string, at: nat)
    ensures Found(mem, [], [], at, false)
  {
  }

  lemma NoTokens()
    ensures Tokens("") == []
  {
  }

  // ----- Writing arguments down is undone by splitting -----

  /** An argument as it is written: what comes before it, and whether it is in quotes. */
  datatype Piece = Piece(gap: string, text: string, quoted: bool)

  predicate IsGap(s: string) {
    forall i :: 0 <= i < |s| ==> s[i] == ' ' || s[i] == '\t'
  }

  /** Quotes inside have a backslash before them, and none comes before the closing one. */
  predicate IsQuotable(s: string) {
    && (forall i :: 0 <= i < |s| && s[i] == '"' ==> i > 0 && s[i - 1] == '\\')
    && (s != "" ==> s[|s| - 1] != '\\')
  }

  predicate IsWord(s: string) {
    s != "" && s[0] != '"' && forall i :: 0 <= i < |s| ==> s[i] != ' ' && s[i] != '\t'
  }

  predicate IsPiece(p: Piece) {
    IsGap(p.gap) && if p.quoted then IsQuotable(p.text) else IsWord(p.text)
  }

  /** Words and quoted strings with blanks between them. */
  predicate IsCommand(pieces: seq<Piece>, tail: string) {
    (forall i :: 0 <= i < |pieces| ==> IsPiece(pieces[i]) && (i > 0 ==> pieces[i].gap != "")) && IsGap(tail)
  }

  function Written(p: Piece): string {
    if p.quoted then "\"" + (p.text + "\"") else p.text
  }

  function Line(pieces: seq<Piece>, tail: string): string {
    if pieces == [] then tail else pieces[0].gap + (Written(pieces[0]) + Line(pieces[1..], tail))
  }

  function Texts(pieces: seq<Piece>): (r: seq<string>)
    ensures |r| == |pieces| && forall i :: 0 <= i < |r| ==> r[i] == pieces[i].text
  {
    seq(|pieces|, i requires 0 <= i < |pieces| => pieces[i].text)
  }

  lemma QuotableTail(a: string)
    requires IsQuotable(a) && a != ""
    ensures if a[0] == '\\' && |a| > 1 && a[1] == '"' then IsQuotable(a[2..])
            else IsQuotable(a[1..]) && a[0] != '"' && (a[0] == '\\' ==> |a| > 1)
  {
  }

  lemma {:induction false} QuoteEnds(a: string, rest: string)
    requires IsQuotable(a) && rest != "" && rest[0] == '"'
    ensures QuotedLength(a + rest) == |a|
  {
    if a == "" {
      assert a + rest == rest;
    } else {
      QuotableTail(a);
      hide IsQuotable;
      var s := a + rest;
      assert s[0] == a[0] && (|a| > 1 ==> s[1] == a[1]);
      if a[0] == '\\' && a[1] == '"' {
        assert s[2..] == a[2..] + rest;
        QuoteEnds(a[2..], rest);
      } else {
        assert s[1..] == a[1..] + rest;
        QuoteEnds(a[1..], rest);
      }
    }
  }

  lemma {:induction false} GapSkipped(gap: string, s: string)
    requires IsGap(gap)
    ensures Blanks(gap + s) == |gap| + Blanks(s)
  {
    if gap == "" {
      assert gap + s == s;
    } else {
      assert (gap + s)[1..] == gap[1..] + s;
      GapSkipped(gap[1..], s);
    }
  }

  lemma {:induction false} WordEnds(w: string, rest: string)
    requires (forall i :: 0 <= i < |w| ==> w[i] != ' ' && w[i] != '\t') && (rest != "" ==> rest[0] == ' ' || rest[0] == '\t')
    ensures WordLength(w + rest) == |w|
  {
    if w == "" {
      assert w + rest == rest;
    } else {
      assert (w + rest)[1..] == w[1..] + rest;
      WordEnds(w[1..], rest);
    }
  }

  lemma NothingToSkip(s: string)
    ensures s != "" && s[0] != ' ' && s[0] != '\t' ==> Blanks(s) == 0
  {
  }

  lemma QuotedTaken(text: string, rest: string)
    requires IsQuotable(text)
    ensures Tokens("\"" + (text + "\"") + rest) == [text] + Tokens(rest)
  {
    hide Tokens, QuotedLength, IsQuotable;
    var t := "\"" + (text + "\"") + rest;
    assert t[1..] == text + ("\"" + rest);
    QuoteEnds(text, "\"" + rest);
    TokensQuoted(t);
    assert t[1..1 + |text|] == text && Behind(t) == rest;
  }

  lemma WordTaken(w: string, rest: string)
    requires IsWord(w) && (rest != "" ==> rest[0] == ' ' || rest[0] == '\t')
    ensures Tokens(w + rest) == [w] + Tokens(rest)
  {
    hide Tokens, WordLength;
    WordEnds(w, rest);
    TokensWord(w + rest);
    assert (w + rest)[..|w|] == w && (w + rest)[|w|..] == rest;
  }

  lemma PieceTaken(p: Piece, rest: string)
    requires IsPiece(p) && (rest != "" ==> rest[0] == ' ' || rest[0] == '\t')
    ensures Tokens(p.gap + (Written(p) + rest)) == [p.text] + Tokens(rest)
  {
    hide Tokens, Blanks, IsQuotable;
    var t := Written(p) + rest;
    GapSkipped(p.gap, t);
    NothingToSkip(t);
    TokensSkip(p.gap + t);
    assert (p.gap + t)[|p.gap|..] == t;
    if p.quoted {
      QuotedTaken(p.text, rest);
    } else {
      WordTaken(p.text, rest);
    }
  }

  lemma LineStarts(pieces: seq<Piece>, tail: string)
    requires IsGap(tail) && (pieces != [] ==> IsGap(pieces[0].gap) && pieces[0].gap != "")
    ensures var s := Line(pieces, tail); s != "" ==> s[0] == ' ' || s[0] == '\t'
  {
  }

  lemma OnlyBlanks(tail: string)
    requires IsGap(tail)
    ensures Blanks(tail) == |tail| && Tokens(tail) == []
  {
    GapSkipped(tail, "");
    assert tail + "" == tail && tail[|tail|..] == "";
  }

  /** Words and quoted strings, with any blanks around them, are the tokens of the line they make up. */
  lemma {:induction false} SplitUndoesWriting(pieces: seq<Piece>, tail: string)
    requires IsCommand(pieces, tail)
    ensures Tokens(Line(pieces, tail)) == Texts(pieces)
  {
    hide Tokens, IsPiece, Written;
    if pieces == [] {
      OnlyBlanks(tail);
    } else {
      var p, rest := pieces[0], pieces[1..];
      assert IsPiece(p);
      GapOf(pieces);
      LineStarts(rest, tail);
      PieceTaken(p, Line(rest, tail));
      SplitUndoesWriting(rest, tail);
      assert Texts(pieces) == [p.text] + Texts(rest);
    }
  }

  lemma GapOf(pieces: seq<Piece>)
    requires |pieces| > 0 && forall i :: 0 <= i < |pieces| ==> IsPiece(pieces[i]) && (i > 0 ==> pieces[i].gap != "")
    ensures |pieces| > 1 ==> IsGap(pieces[1..][0].gap) && pieces[1..][0].gap != ""
  {
    assert |pieces| > 1 ==> IsPiece(pieces[1]);
  }
}
