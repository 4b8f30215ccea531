// Tab completion: the line grows to what all commands that extend it agree on.

module ShellComplete {
  // ----- The longest common prefix -----

  predicate IsCommon(r: string, names: seq<string>) {
    forall name | name in names :: r <= name
  }

  /** A common prefix of all the names that every other common prefix is a prefix of. */
  ghost predicate IsLongestCommon(r: string, names: seq<string>) {
    IsCommon(r, names) && forall c | IsCommon(c, names) :: c <= r
  }

  /** The commands that extend a line, in table order. */
  function Extensions(line: string, table: seq<string>): (r: seq<string>)
    ensures forall name :: name in r <==> name in table && line <= name
  {
    if table == [] then []
    else if line <= table[0] then [table[0]] + Extensions(line, table[1..])
    else Extensions(line, table[1..])
  }

  /** How many characters two names have in common at the front. */
  function Agreement(a: string, b: string): (n: nat)
    ensures n <= |a| && n <= |b| && a[..n] == b[..n] && (n < |a| && n < |b| ==> a[n] != b[n])
  {
    if a == "" || b == "" || a[0] != b[0] then 0 else 1 + Agreement(a[1..], b[1..])
  }

  /** The least agreement of `first` with any of the names, at most `n`. */
  function Least(first: string, names: seq<string>, n: nat): (r: nat)
    ensures r <= n
  {
    if names == [] then n
    else
      var a := Agreement(first, names[0]);
      Least(first, names[1..], if a < n then a else n)
  }

  /** What a line becomes. */
  function Completed(line: string, table: seq<string>): string {
    var names := Extensions(line, table);
    if line == "" || names == [] then line
    else names[0][..Least(names[0], names, |names[0]|)]
  }

  lemma {:induction false} LeastBelow(first: string, names: seq<string>, n: nat, name: string)
    requires name in names
    ensures Least(first, names, n) <= Agreement(first, name)
  {
    var a := Agreement(first, names[0]);
    if name != names[0] {
      LeastBelow(first, names[1..], if a < n then a else n, name);
    }
  }

  lemma {:induction false} LeastAttained(first: string, names: seq<string>, n: nat, c: string)
    requires c <= first && |c| <= n && IsCommon(c, names)
    ensures |c| <= Least(first, names, n)
  {
    if names != [] {
      assert names[0] in names;
      AgreementLongest(first, names[0], c);
      assert forall name | name in names[1..] :: name in names;
      var a := Agreement(first, names[0]);
      LeastAttained(first, names[1..], if a < n then a else n, c);
    }
  }

  lemma {:induction false} AgreementLongest(a: string, b: string, c: string)
    requires c <= a && c <= b
    ensures |c| <= Agreement(a, b)
  {
    if c != "" {
      assert a[0] == c[0] == b[0];
      AgreementLongest(a[1..], b[1..], c[1..]);
    }
  }

  lemma LeastIsCommon(first: string, names: seq<string>)
    ensures IsCommon(first[..Least(first, names, |first|)], names)
  {
    var n := Least(first, names, |first|);
    forall name | name in names ensures first[..n] <= name {
      LeastBelow(first, names, |first|, name);
      assert name[..Agreement(first, name)][..n] == first[..Agreement(first, name)][..n];
    }
  }

  lemma LeastIsLongest(first: string, names: seq<string>)
    requires first in names
    ensures forall c | IsCommon(c, names) :: c <= first[..Least(first, names, |first|)]
  {
    forall c | IsCommon(c, names) ensures c <= first[..Least(first, names, |first|)] {
      LeastAttained(first, names, |first|, c);
    }
  }

  /** Comparing with the first match alone finds the longest prefix all of them share. */
  lemma CompletedIsLongestCommon(line: string, table: seq<string>)
    requires line != "" && Extensions(line, table) != []
    ensures IsLongestCommon(Completed(line, table), Extensions(line, table))
    ensures line <= Completed(line, table)
  {
    hide Least, Agreement;
    var names := Extensions(line, table);
    assert names[0] in names && IsCommon(line, names);
    LeastIsCommon(names[0], names);
    LeastIsLongest(names[0], names);
  }

  lemma {:induction false} SameExtensions(line: string, longer: string, table: seq<string>)
    requires line <= longer && forall name | name in table && line <= name :: longer <= name
    ensures Extensions(longer, table) == Extensions(line, table)
  {
    if table != [] {
      assert table[0] in table && forall name | name in table[1..] :: name in table;
      SameExtensions(line, longer, table[1..]);
    }
  }

  /** A second Tab changes nothing; without a match the first one does not either. */
  lemma CompletedTwice(line: string, table: seq<string>)
    ensures Completed(Completed(line, table), table) == Completed(line, table)
    ensures Extensions(line, table) == [] ==> Completed(line, table) == line
  {
    var names := Extensions(line, table);
    if line != "" && names != [] {
      var longer := Completed(line, table);
      CompletedIsLongestCommon(line, table);
      assert forall name | name in table && line <= name :: name in names;
      SameExtensions(line, longer, table);
    }
  }

  // ----- The code -----

  /** A text in a buffer of `n` characters, zeros behind it. */
  function Image(text: string, n: nat): (s: string)
    requires |text| <= n
    ensures |s| == n && s[..|text|] == text && forall i :: |text| <= i < n ==> s[i] == '\0'
  {
    text + seq(n - |text|, i => '\0')
  }

  /** `*str` of a C string */
  function At(s: string, i: nat): char
    requires i <= |s|
  {
    if i < |s| then s[i] else '\0'
  }

  /** `str_common` */
  method StrCommon(str1: string, str2: string) returns (n: nat)
    requires '\0' !in str1 && '\0' !in str2
    ensures n == Agreement(str1, str2)
  {
    n := 0;
    while At(str1, n) != '\0' && At(str2, n) != '\0' && At(str1, n) == At(str2, n)
      invariant n <= |str1| && n <= |str2|
      invariant n + Agreement(str1[n..], str2[n..]) == Agreement(str1, str2)
      decreases |str1| - n
    {
      assert str1[n..][1..] == str1[n + 1..] && str2[n..][1..] == str2[n + 1..];
      n := n + 1;
    }
    assert n < |str1| ==> str1[n] in str1;
    assert n < |str2| ==> str2[n] in str2;
  }

  predicate ValidTable(table: seq<string>, size: nat) {
    forall name | name in table :: '\0' !in name && |name| < size
  }

  lemma ExtensionsAppend(line: string, a: seq<string>, name: string)
    ensures Extensions(line, a + [name]) == Extensions(line, a) + if line <= name then [name] else []
  {
    if a == [] {
      assert a + [name] == [name];
    } else {
      assert (a + [name])[1..] == a[1..] + [name];
      ExtensionsAppend(line, a[1..], name);
    }
  }

  lemma LeastAppend(first: string, a: seq<string>, name: string, n: nat)
    ensures var k := Least(first, a, n);
            Least(first, a + [name], n) == if Agreement(first, name) < k then Agreement(first, name) else k
  {
    if a == [] {
      assert a + [name] == [name];
    } else {
      assert (a + [name])[1..] == a[1..] + [name];
      var g := Agreement(first, a[0]);
      LeastAppend(first, a[1..], name, if g < n then g else n);
    }
  }

  /** One more match. */
  method OneMore(prefix: string, cmdName: string, namePtr0: string, minLength0: nat, ghost names: seq<string>)
    returns (namePtr: string, minLength: nat)
    requires prefix != "" && prefix <= cmdName && '\0' !in cmdName && '\0' !in namePtr0
    requires if names == [] then minLength0 == 0
             else namePtr0 == names[0] && minLength0 == Least(names[0], names, |names[0]|) && minLength0 >= |prefix|
    requires forall name | name in names :: prefix <= name
    ensures var more := names + [cmdName];
            namePtr == more[0] && minLength == Least(more[0], more, |more[0]|) && minLength >= |prefix|
    ensures '\0' !in namePtr
  {
    namePtr, minLength := namePtr0, minLength0;
    if minLength == 0 {
      namePtr := cmdName;
      minLength := |namePtr|;
    }
    assert (names + [cmdName])[0] == namePtr && minLength == Least(namePtr, names, |namePtr|);
    LeastAppend(namePtr, names, cmdName, |namePtr|);
    var length := StrCommon(namePtr, cmdName);
    if length < minLength {
      minLength := length;
    }
    assert names != [] ==> names[0] in names;
    AgreementLongest(namePtr, cmdName, prefix);
  }

  /** The loop of `shell_auto_complete` over the commands: the first match, and how much of it they all share. */
  method FindCommon(prefix: string, table: seq<string>) returns (namePtr: string, minLength: nat)
    requires prefix != "" && ValidTable(table, 120)
    ensures var names := Extensions(prefix, table);
            if names == [] then minLength == 0
            else namePtr == names[0] && minLength == Least(names[0], names, |names[0]|) && minLength >= |prefix|
  {
    hide Least, Agreement;
    namePtr, minLength := "", 0;
    var index := 0;
    while index < |table|
      invariant 0 <= index <= |table|
      invariant var names := Extensions(prefix, table[..index]);
                if names == [] then minLength == 0
                else namePtr == names[0] && minLength == Least(names[0], names, |names[0]|) && minLength >= |prefix|
      invariant '\0' !in namePtr
    {
      var cmdName := table[index];
      assert table[..index + 1] == table[..index] + [cmdName] && cmdName in table;
      ExtensionsAppend(prefix, table[..index], cmdName);
      assert Extensions(prefix, table[..index]) + [] == Extensions(prefix, table[..index]);
      if prefix <= cmdName {
        namePtr, minLength := OneMore(prefix, cmdName, namePtr, minLength, Extensions(prefix, table[..index]));
      }
      index := index + 1;
    }
    assert table[..|table|] == table;
  }

  /** The first `n` characters of a name over the line, and a NUL. */
  method CopyName(line: array<char>, name: string, n: nat)
    requires n <= |name| && n < line.Length
    modifies line
    ensures line[..n] == name[..n] && line[n] == '\0' && line[n + 1..] == old(line[n + 1..])
  {
    for i := 0 to n
      invariant line[..i] == name[..i] && line[n + 1..] == old(line[n + 1..])
    {
      line[i] := name[i];
    }
    line[n] := '\0';
  }

  lemma ImageStart(text: string)
    requires |text| < 120 && '\0' !in text
    ensures Image(text, 120)[0] == '\0' <==> text == ""
  {
    assert text != "" ==> Image(text, 120)[0] == text[0];
  }

  lemma NothingCompleted(table: seq<string>)
    ensures Completed("", table) == ""
  {
  }

  /** A longer text over a shorter one, with its NUL. */
  lemma CopiedImage(was: string, now: string, text: string, longer: string)
    requires |now| == 120 && |text| <= |longer| < 120 && was == Image(text, 120)
    requires now[..|longer|] == longer && now[|longer|] == '\0' && now[|longer| + 1..] == was[|longer| + 1..]
    ensures now == Image(longer, 120)
  {
    forall i | |longer| < i < 120 ensures now[i] == '\0' {
      assert now[|longer| + 1..][i - |longer| - 1] == now[i];
    }
  }

  lemma CompletedTaken(text: string, table: seq<string>, n: nat)
    requires text != "" && |text| < 120 && '\0' !in text && ValidTable(table, 120)
    requires var names := Extensions(text, table);
             if names == [] then n == 0 else n == Least(names[0], names, |names[0]|) && n >= |text|
    ensures |Completed(text, table)| < 120 && '\0' !in Completed(text, table)
    ensures if n == 0 then Completed(text, table) == text else Completed(text, table) == Extensions(text, table)[0][..n]
  {
    hide Least;
    var names := Extensions(text, table);
    if names != [] {
      assert names[0] in names;
    }
  }

  /** `shell_auto_complete` on a line that holds `text` and zeros. */
  method AutoComplete(line: array<char>, ghost text: string, table: seq<string>)
    requires line.Length == 120 && |text| < 120 && '\0' !in text && line[..] == Image(text, 120)
    requires ValidTable(table, 120)
    modifies line
    ensures |Completed(text, table)| < 120 && '\0' !in Completed(text, table)
    ensures line[..] == Image(Completed(text, table), 120)
  {
    hide Least, Completed, Image;
    ImageStart(text);
    assert line[..][0] == line[0];
    if line[0] == '\0' {
      NothingCompleted(table);
      return;
    }
    ghost var before := line[..];
    var length := StrLen(line, text);
    assert line[..length] == before[..length] == text;
    var namePtr, minLength := FindCommon(line[..length], table);
    CompletedTaken(text, table, minLength);
    if minLength > 0 {
      CopyName(line, namePtr, minLength);
      assert line[..][..minLength] == namePtr[..minLength] && line[..][minLength] == '\0';
      assert line[..][minLength + 1..] == line[minLength + 1..] == before[minLength + 1..];
      CopiedImage(before, line[..], text, Completed(text, table));
    }
  }

  lemma NoNul(text: string)
    requires '\0' !in text
    ensures forall i :: 0 <= i < |text| ==> text[i] != '\0'
  {
  }

  /** `strlen` */
  method StrLen(line: array<char>, ghost text: string) returns (n: nat)
    requires line.Length == 120 && |text| < 120 && '\0' !in text && line[..] == Image(text, 120)
    ensures n == |text|
  {
    n := 0;
    NoNul(text);
    assert line[..][|text|] == '\0' && line[..][..|text|] == text;
    while line[n] != '\0'
      invariant n <= |text|
      decreases |text| - n
    {
      assert line[..][n] == line[n];
      n := n + 1;
    }
    assert line[..][n] == line[n];
  }
}
