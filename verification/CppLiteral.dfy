/** The C++ string-literal emitter of webui/embed.py: four chained replacements turn a text into
    the inside of a run of adjacent string literals, one per line. */
module CppLiteral {

  import opened Wrappers

  /** str.replace for a pattern of one character. */
  function Replace(s: string, c: char, with: string): string {
    if s == "" then "" else (if s[0] == c then with else [s[0]]) + Replace(s[1..], c, with)
  }

  function EscapeCppString(data: string): string {
    Replace(Replace(Replace(Replace(data, '\\', "\\\\"), '"', "\\\""), '\n', "\\n\"\n\""), '\r', "")
  }

  // ---------------------------------------------------------------- one map per character

  function EscapeChar(c: char): string {
    if c == '\\' then "\\\\"
    else if c == '"' then "\\\""
    else if c == '\n' then "\\n\"\n\""
    else if c == '\r' then ""
    else [c]
  }

  function EscapeEach(s: string): string {
    if s == "" then "" else EscapeChar(s[0]) + EscapeEach(s[1..])
  }

  lemma {:induction false} ReplaceConcat(a: string, b: string, c: char, with: string)
    ensures Replace(a + b, c, with) == Replace(a, c, with) + Replace(b, c, with)
  {
    if a == "" {
      assert a + b == b;
    } else {
      assert (a + b)[1..] == a[1..] + b;
      ReplaceConcat(a[1..], b, c, with);
    }
  }

  lemma {:induction false} ReplaceAbsent(s: string, c: char, with: string)
    requires c !in s
    ensures Replace(s, c, with) == s
  {
    if s != "" {
      ReplaceAbsent(s[1..], c, with);
    }
  }

  lemma ReplaceOne(c: char, d: char, with: string)
    ensures Replace([d], c, with) == if d == c then with else [d]
  {
    assert [d][1..] == "";
  }

  /** A first part that the last three replacements leave as it is. */
  lemma LaterReplacementsKeep(s: string, t: string)
    requires '"' !in s && '\n' !in s && '\r' !in s
    ensures Replace(Replace(Replace(s + t, '"', "\\\""), '\n', "\\n\"\n\""), '\r', "")
      == s + Replace(Replace(Replace(t, '"', "\\\""), '\n', "\\n\"\n\""), '\r', "")
  {
    ReplaceConcat(s, t, '"', "\\\"");
    ReplaceAbsent(s, '"', "\\\"");
    var t2 := Replace(t, '"', "\\\"");
    ReplaceConcat(s, t2, '\n', "\\n\"\n\"");
    ReplaceAbsent(s, '\n', "\\n\"\n\"");
    var t3 := Replace(t2, '\n', "\\n\"\n\"");
    ReplaceConcat(s, t3, '\r', "");
    ReplaceAbsent(s, '\r', "");
  }

  /** The chained replacements, on a first character and the rest. */
  lemma EscapeFirst(c: char, rest: string)
    ensures EscapeCppString([c] + rest) == EscapeChar(c) + EscapeCppString(rest)
  {
    var r1 := Replace(rest, '\\', "\\\\");
    var r2 := Replace(r1, '"', "\\\"");
    var r3 := Replace(r2, '\n', "\\n\"\n\"");
    ReplaceConcat([c], rest, '\\', "\\\\");
    ReplaceOne('\\', c, "\\\\");
    if c == '\\' {
      LaterReplacementsKeep("\\\\", r1);
    } else if c == '"' {
      ReplaceConcat([c], r1, '"', "\\\"");
      ReplaceOne('"', c, "\\\"");
      ReplaceConcat("\\\"", r2, '\n', "\\n\"\n\"");
      ReplaceAbsent("\\\"", '\n', "\\n\"\n\"");
      ReplaceConcat("\\\"", r3, '\r', "");
      ReplaceAbsent("\\\"", '\r', "");
    } else if c == '\n' {
      ReplaceConcat([c], r1, '"', "\\\"");
      ReplaceOne('"', c, "\\\"");
      ReplaceConcat([c], r2, '\n', "\\n\"\n\"");
      ReplaceOne('\n', c, "\\n\"\n\"");
      ReplaceConcat("\\n\"\n\"", r3, '\r', "");
      ReplaceAbsent("\\n\"\n\"", '\r', "");
    } else if c == '\r' {
      ReplaceConcat([c], r1, '"', "\\\"");
      ReplaceOne('"', c, "\\\"");
      ReplaceConcat([c], r2, '\n', "\\n\"\n\"");
      ReplaceOne('\n', c, "\\n\"\n\"");
      ReplaceConcat([c], r3, '\r', "");
      ReplaceOne('\r', c, "");
    } else {
      LaterReplacementsKeep([c], r1);
    }
  }

  /** The four chained replacements are one map per character: none touches what another wrote. */
  lemma {:induction false} EscapeIsPerCharacter(data: string)
    ensures EscapeCppString(data) == EscapeEach(data)
  {
    if data == "" {
      assert EscapeCppString("") == "";
    } else {
      EscapeFirst(data[0], data[1..]);
      assert data == [data[0]] + data[1..];
      EscapeIsPerCharacter(data[1..]);
    }
  }

  // ---------------------------------------------------------------- reading literals

  /** The value of adjacent C++ string literals. Between literals there may be white space; inside
      one a line break is an error, and of the escapes only those for a line break, a quote and a
      backslash are read. */
  function ReadLiterals(s: string, inside: bool): Option<string>
    decreases |s|
  {
    if s == "" then if inside then None else Some("")
    else if !inside then
      if s[0] == '"' then ReadLiterals(s[1..], true)
      else if s[0] == ' ' || s[0] == '\n' || s[0] == '\t' then ReadLiterals(s[1..], false)
      else None
    else if s[0] == '"' then ReadLiterals(s[1..], false)
    else if s[0] == '\n' then None
    else if s[0] == '\\' then
      if |s| == 1 then None
      else if s[1] == 'n' then Then('\n', ReadLiterals(s[2..], true))
      else if s[1] == '"' || s[1] == '\\' then Then(s[1], ReadLiterals(s[2..], true))
      else None
    else Then(s[0], ReadLiterals(s[1..], true))
  }

  function Then(c: char, rest: Option<string>): Option<string> {
    if rest.Some? then Some([c] + rest.value) else None
  }

  function WithoutReturns(s: string): string {
    Replace(s, '\r', "")
  }

  lemma ReadEscapedChar(c: char, rest: string)
    ensures ReadLiterals(EscapeChar(c) + rest, true) ==
      if c == '\r' then ReadLiterals(rest, true) else Then(c, ReadLiterals(rest, true))
  {
    var s := EscapeChar(c) + rest;
    if c == '\r' {
      assert s == rest;
    } else if c == '\n' {
      assert s[0] == '\\' && s[1] == 'n';
      var t := s[2..];
      assert t == "\"\n\"" + rest;
      assert t[0] == '"' && t[1..] == "\n\"" + rest;
      assert t[1..][0] == '\n' && t[1..][1..] == "\"" + rest;
      assert t[1..][1..][0] == '"' && t[1..][1..][1..] == rest;
      assert ReadLiterals(t[1..], false) == ReadLiterals(rest, true);
    } else if c == '\\' || c == '"' {
      assert s[0] == '\\' && s[1] == c && s[2..] == rest;
    } else {
      assert s[0] == c && s[1..] == rest;
    }
  }

  lemma {:induction false} ReadEscaped(data: string)
    ensures ReadLiterals(EscapeEach(data) + "\"", true) == Some(WithoutReturns(data))
  {
    if data == "" {
      assert EscapeEach("") + "\"" == "\"";
      assert "\""[1..] == "";
    } else {
      ReadEscaped(data[1..]);
      ReadEscapedChar(data[0], EscapeEach(data[1..]) + "\"");
      assert WithoutReturns(data) == (if data[0] == '\r' then "" else [data[0]]) + WithoutReturns(data[1..]);
      assert "" + WithoutReturns(data[1..]) == WithoutReturns(data[1..]);
      assert EscapeEach(data) + "\"" == EscapeChar(data[0]) + (EscapeEach(data[1..]) + "\"");
    }
  }

  /** The emitted text, read as adjacent string literals, is the original without its carriage
      returns, for every input. */
  lemma EmittedTextReadsBack(data: string)
    ensures ReadLiterals("\"" + EscapeCppString(data) + "\"", false) == Some(WithoutReturns(data))
  {
    EscapeIsPerCharacter(data);
    ReadEscaped(data);
    var s := "\"" + EscapeCppString(data) + "\"";
    assert s[0] == '"' && s[1..] == EscapeEach(data) + "\"";
  }

  /** A text without carriage returns comes back unchanged, and two such texts that are emitted
      alike are the same. */
  lemma EmissionLosesOnlyReturns(a: string, b: string)
    requires EscapeCppString(a) == EscapeCppString(b)
    ensures WithoutReturns(a) == WithoutReturns(b)
    ensures '\r' !in a && '\r' !in b ==> a == b
  {
    EmittedTextReadsBack(a);
    EmittedTextReadsBack(b);
    if '\r' !in a && '\r' !in b {
      ReplaceAbsent(a, '\r', "");
      ReplaceAbsent(b, '\r', "");
    }
  }
}
