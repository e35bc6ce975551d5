/** Version ranges of include/util/semver.hpp: alternatives of comparators, read by a lexer and a
    parser and evaluated against a version as they are read. A text still to be read is the suffix
    at the lexer's position. */
module SemverRange {

  import opened Wrappers
  import opened Decimal
  import opened Semver

  datatype Operator = Less | LessOrEqual | Greater | GreaterOrEqual | Equal

  datatype Token =
    | NoToken | Number(number: uint16) | Op(op: Operator) | Dot | LogicalOr | Hyphen
    | PrereleaseName(prerelease: Prerelease) | EndOfLine
    // The lexer stands at a character that it does not know and never returns.
    | Stuck

  datatype Comparator = Comparator(op: Operator, version: Version)

  // ---------------------------------------------------------------- what a range means

  predicate Holds(c: Comparator, v: Version) {
    match c.op
    case Equal => Compare(v, c.version) == 0
    case Greater => Compare(v, c.version) > 0
    case GreaterOrEqual => Compare(v, c.version) >= 0
    case Less => Compare(v, c.version) < 0
    case LessOrEqual => Compare(v, c.version) <= 0
  }

  /** What the operators mean, in the order of the fields: major, minor, patch, the prerelease and
      its number. */
  lemma OperatorsMean(v: Version, w: Version)
    ensures var less := LexicographicallyLess(Weights(v), Weights(w));
      var greater := LexicographicallyLess(Weights(w), Weights(v));
      && (Holds(Comparator(Equal, w), v) <==> v == w)
      && (Holds(Comparator(Less, w), v) <==> less)
      && (Holds(Comparator(LessOrEqual, w), v) <==> less || v == w)
      && (Holds(Comparator(Greater, w), v) <==> greater)
      && (Holds(Comparator(GreaterOrEqual, w), v) <==> greater || v == w)
      && (less || greater || v == w) && !(less && greater) && !(less && v == w) && !(greater && v == w)
  {
    CompareIsLexicographic(v, w);
    CompareIsLexicographic(w, v);
    CompareIsATotalOrder(v, w, w);
  }

  predicate SameTriple(a: Version, b: Version) {
    a.major == b.major && a.minor == b.minor && a.patch == b.patch
  }

  predicate HasPrerelease(v: Version) {
    !v.prerelease.NoPrerelease?
  }

  /** A prerelease is let in by the flag or by a comparator on the same major, minor and patch. */
  predicate LetIn(alternative: seq<Comparator>, v: Version, includePrerelease: bool) {
    !HasPrerelease(v) || includePrerelease
    || exists i :: 0 <= i < |alternative| && SameTriple(alternative[i].version, v)
  }

  lemma PrereleasesAreLetInWhen(alternative: seq<Comparator>, v: Version, includePrerelease: bool)
    ensures LetIn(alternative, v, includePrerelease) <==>
      || v.prerelease == NoPrerelease || includePrerelease
      || exists c :: c in alternative && c.version.major == v.major && c.version.minor == v.minor
                     && c.version.patch == v.patch
  {
    if i :| 0 <= i < |alternative| && SameTriple(alternative[i].version, v) {
      assert alternative[i] in alternative;
    }
  }

  predicate AllHold(alternative: seq<Comparator>, v: Version) {
    forall i :: 0 <= i < |alternative| ==> Holds(alternative[i], v)
  }

  predicate InAlternative(alternative: seq<Comparator>, v: Version, includePrerelease: bool) {
    AllHold(alternative, v) && LetIn(alternative, v, includePrerelease)
  }

  /** The or of ands: some alternative holds in full. */
  predicate InRange(alternatives: seq<seq<Comparator>>, v: Version, includePrerelease: bool) {
    exists k :: 0 <= k < |alternatives| && InAlternative(alternatives[k], v, includePrerelease)
  }

  /** Evaluation leaves an alternative at its first failing comparator; if that is not the last
      one, what follows is not an "||", and the alternatives after it are never looked at. */
  predicate BreaksOff(alternative: seq<Comparator>, v: Version) {
    exists i :: 0 <= i < |alternative| - 1 && !Holds(alternative[i], v)
  }

  /** What satisfies answers: the first alternative that holds decides, unless an earlier one
      breaks off. */
  predicate Answer(alternatives: seq<seq<Comparator>>, v: Version, includePrerelease: bool) {
    alternatives != []
    && (InAlternative(alternatives[0], v, includePrerelease)
        || (!BreaksOff(alternatives[0], v) && Answer(alternatives[1..], v, includePrerelease)))
  }

  /** A true answer means that some alternative holds. */
  lemma {:induction false} AnswerIsSound(alternatives: seq<seq<Comparator>>, v: Version, includePrerelease: bool)
    requires Answer(alternatives, v, includePrerelease)
    ensures InRange(alternatives, v, includePrerelease)
  {
    if !InAlternative(alternatives[0], v, includePrerelease) {
      AnswerIsSound(alternatives[1..], v, includePrerelease);
      var k :| 0 <= k < |alternatives[1..]| && InAlternative(alternatives[1..][k], v, includePrerelease);
      assert InAlternative(alternatives[k + 1], v, includePrerelease);
    }
  }

  /** Alternative `k` holds and no alternative ahead of it breaks off. */
  predicate Reached(alternatives: seq<seq<Comparator>>, k: nat, v: Version, includePrerelease: bool) {
    k < |alternatives| && InAlternative(alternatives[k], v, includePrerelease)
    && forall i :: 0 <= i < k ==> !BreaksOff(alternatives[i], v)
  }

  lemma {:induction false} AnswerReaches(alternatives: seq<seq<Comparator>>, v: Version, includePrerelease: bool)
    ensures Answer(alternatives, v, includePrerelease) <==>
      exists k: nat :: Reached(alternatives, k, v, includePrerelease)
  {
    if alternatives != [] {
      var rest := alternatives[1..];
      AnswerReaches(rest, v, includePrerelease);
      if InAlternative(alternatives[0], v, includePrerelease) {
        assert Reached(alternatives, 0, v, includePrerelease);
      } else if !BreaksOff(alternatives[0], v) {
        forall k: nat
          ensures Reached(alternatives, k + 1, v, includePrerelease) <==> Reached(rest, k, v, includePrerelease)
        {
          assert k < |rest| ==> alternatives[k + 1] == rest[k];
          assert forall i :: 0 <= i < k && i < |rest| ==> rest[i] == alternatives[i + 1];
          assert forall i :: 0 < i <= k && i <= |rest| ==> alternatives[i] == rest[i - 1];
        }
        if k: nat :| Reached(alternatives, k, v, includePrerelease) {
          assert Reached(rest, k - 1, v, includePrerelease);
        }
      }
    }
  }

  /** The answer differs from the or of ands exactly when some alternative holds but every one that
      holds comes after one that breaks off. */
  lemma AnswerIsExactWhen(alternatives: seq<seq<Comparator>>, v: Version, includePrerelease: bool)
    ensures (Answer(alternatives, v, includePrerelease) <==> InRange(alternatives, v, includePrerelease)) <==>
      forall k :: 0 <= k < |alternatives| && InAlternative(alternatives[k], v, includePrerelease) ==>
        exists l: nat :: l <= k && Reached(alternatives, l, v, includePrerelease)
  {
    AnswerReaches(alternatives, v, includePrerelease);
    if l: nat :| Reached(alternatives, l, v, includePrerelease) {
      forall k | 0 <= k < |alternatives| && InAlternative(alternatives[k], v, includePrerelease)
        ensures exists m: nat :: m <= k && Reached(alternatives, m, v, includePrerelease)
      {
        if k < l {
          assert Reached(alternatives, k, v, includePrerelease);
        }
      }
    }
  }

  /** So it is the or of ands for every version when all alternatives but the last have at most
      one comparator. */
  lemma SingleComparatorsAreExact(alternatives: seq<seq<Comparator>>, v: Version, includePrerelease: bool)
    requires forall k :: 0 <= k < |alternatives| - 1 ==> |alternatives[k]| <= 1
    ensures Answer(alternatives, v, includePrerelease) <==> InRange(alternatives, v, includePrerelease)
  {
    AnswerReaches(alternatives, v, includePrerelease);
    if k :| 0 <= k < |alternatives| && InAlternative(alternatives[k], v, includePrerelease) {
      assert Reached(alternatives, k, v, includePrerelease);
    }
  }

  /** ">=1.0.0 <2.0.0 || 0.1.0" does not let in 0.1.0: its first alternative breaks off. */
  lemma EarlyBreakLosesAnAlternative()
    ensures var v := Version(0, 1, 0, NoPrerelease, None);
      var alternatives := [[Comparator(GreaterOrEqual, Version(1, 0, 0, NoPrerelease, None)),
                            Comparator(Less, Version(2, 0, 0, NoPrerelease, None))],
                           [Comparator(Equal, v)]];
      InRange(alternatives, v, false) && !Answer(alternatives, v, false)
  {
    var v := Version(0, 1, 0, NoPrerelease, None);
    var low := Comparator(GreaterOrEqual, Version(1, 0, 0, NoPrerelease, None));
    var first := [low, Comparator(Less, Version(2, 0, 0, NoPrerelease, None))];
    var alternatives := [first, [Comparator(Equal, v)]];
    assert first[0] == low && !Holds(low, v);
    assert InAlternative(alternatives[1], v, false);
  }

  // ---------------------------------------------------------------- the lexer

  predicate IsLetter(c: char) {
    'A' <= c <= 'Z' || 'a' <= c <= 'z'
  }

  predicate IsOperator(c: char) {
    c == '<' || c == '>' || c == '='
  }

  /** On any other character the lexer makes no progress. */
  predicate Known(c: char) {
    c == ' ' || c == '|' || IsOperator(c) || IsDigit(c) || c == '.' || c == '-' || IsLetter(c)
  }

  datatype Lexed = Lexed(token: Token, rest: string)

  /** After an operator at the very end the code looks at the byte behind the text; whatever that is,
      no version follows and the parser throws. */
  function LexOperator(s: string): (r: Lexed)
    requires s != "" && IsOperator(s[0])
    ensures r.token.Op? && |r.rest| < |s|
  {
    if s[0] == '=' then Lexed(Op(Equal), s[1..])
    else if Delimited(s[1..], '=') then
      Lexed(Op(if s[0] == '<' then LessOrEqual else GreaterOrEqual), s[2..])
    else
      Lexed(Op(if s[0] == '<' then Less else Greater), s[1..])
  }

  /** A number above 65535 becomes 0 and is not consumed; otherwise as many characters are
      consumed as the number has digits. */
  function LexNumber(s: string): (r: Lexed)
    ensures r.token.Number? && |r.rest| <= |s|
  {
    var n := ReadNumber(s);
    if n.Read? then Lexed(Number(n.value), Drop(s, Length(n.value))) else Lexed(Number(0), s)
  }

  function LexName(s: string): (r: Lexed)
    ensures r.token.PrereleaseName? && |r.rest| <= |s|
  {
    var p := ReadName(s);
    if p.Read? then Lexed(PrereleaseName(p.value), Drop(s, |Name(p.value)|))
    else Lexed(PrereleaseName(NoPrerelease), Drop(s, 1))
  }

  /** The next token of a text, and the text after it. */
  function Lex(s: string): (r: Lexed)
    ensures |r.rest| <= |s|
    ensures r.token.Dot? || r.token.LogicalOr? || r.token.Op? || r.token.Hyphen? ==> |r.rest| < |s|
    ensures !r.token.NoToken?
  {
    if s == "" then Lexed(EndOfLine, "")
    else if s[0] == ' ' then Lex(s[1..])
    else if s[0] == '|' then Lexed(LogicalOr, Drop(s, 2))
    else if IsOperator(s[0]) then LexOperator(s)
    else if IsDigit(s[0]) then LexNumber(s)
    else if s[0] == '.' then Lexed(Dot, s[1..])
    else if s[0] == '-' then Lexed(Hyphen, s[1..])
    else if IsLetter(s[0]) then LexName(s)
    else Lexed(Stuck, s)
  }

  /** The lexer never returns exactly if the first character that is no space is one that it does
      not know. */
  lemma {:induction false} LexerHangsWhen(s: string)
    ensures Lex(s).token.Stuck? <==>
      exists i :: 0 <= i < |s| && !Known(s[i]) && forall j :: 0 <= j < i ==> s[j] == ' '
  {
    hide LexOperator, LexNumber, LexName;
    if s != "" {
      if s[0] == ' ' {
        LexerHangsWhen(s[1..]);
        if i :| 0 <= i < |s| && !Known(s[i]) && forall j :: 0 <= j < i ==> s[j] == ' ' {
          assert s[1..][i - 1] == s[i];
        }
        if i :| 0 <= i < |s[1..]| && !Known(s[1..][i]) && forall j :: 0 <= j < i ==> s[1..][j] == ' ' {
          assert s[i + 1] == s[1..][i];
          forall j | 0 <= j < i + 1 ensures s[j] == ' ' {
            if j > 0 { assert s[j] == s[1..][j - 1]; }
          }
        }
      } else if i :| 0 <= i < |s| && !Known(s[i]) && forall j :: 0 <= j < i ==> s[j] == ' ' {
        assert i == 0;
      }
    }
  }

  // ---------------------------------------------------------------- the parser

  /** The parser's state: the current token and the text after it. */
  type Cursor = Lexed

  function Next(c: Cursor): (r: Cursor)
    ensures |r.rest| <= |c.rest|
  {
    Lex(c.rest)
  }

  /** A result, the exception that the parser throws on a token it did not expect, or no return
      because the lexer is stuck. */
  datatype Parsed<+T> = Parsed(value: T, cursor: Cursor) | Unexpected | Hangs

  /** The result that the parser has when the next token has been read. */
  function Arrived<T>(value: T, cursor: Cursor): Parsed<T> {
    if cursor.token.Stuck? then Hangs else Parsed(value, cursor)
  }

  function Failed<T, U>(p: Parsed<T>): (r: Parsed<U>)
    requires !p.Parsed?
    ensures !r.Parsed?
  {
    if p.Hangs? then Hangs else Unexpected
  }

  function ParseNumberToken(c: Cursor): (r: Parsed<uint16>)
    ensures r.Parsed? ==> |r.cursor.rest| <= |c.rest|
  {
    if c.token.Number? then Arrived(c.token.number, Next(c)) else Unexpected
  }

  /** A number, then a dot. */
  function NumberThenDot(c: Cursor): (r: Parsed<uint16>)
    ensures r.Parsed? ==> |r.cursor.rest| < |c.rest|
  {
    var n := ParseNumberToken(c);
    if !n.Parsed? then n
    else if n.cursor.token.Dot? then Arrived(n.value, Next(n.cursor)) else Unexpected
  }

  /** The constructor drops a number without a prerelease. */
  function MakeVersion(major: uint16, minor: uint16, patch: uint16, p: Prerelease, n: Option<uint16>): Version {
    Version(major, minor, patch, p, if p.NoPrerelease? then None else n)
  }

  /** The prerelease after a patch number, if a hyphen follows. */
  function ParseTail(major: uint16, minor: uint16, patch: uint16, c: Cursor): (r: Parsed<Version>)
    ensures r.Parsed? ==> |r.cursor.rest| <= |c.rest|
  {
    if !c.token.Hyphen? then Parsed(MakeVersion(major, minor, patch, NoPrerelease, None), c)
    else
      var name := Next(c);
      if name.token.Stuck? then Hangs
      else if !name.token.PrereleaseName? then Unexpected
      else
        var p, after := name.token.prerelease, Next(name);
        if !after.token.Dot? then Arrived(MakeVersion(major, minor, patch, p, None), after)
        else if Next(after).token.Stuck? then Hangs
        else
          var n := ParseNumberToken(Next(after));
          if !n.Parsed? then Failed(n)
          else Parsed(MakeVersion(major, minor, patch, p, Some(n.value)), n.cursor)
  }

  function ParseVersion(c: Cursor): (r: Parsed<Version>)
    ensures r.Parsed? ==> |r.cursor.rest| < |c.rest|
  {
    var major := NumberThenDot(c);
    if !major.Parsed? then Failed(major)
    else
      var minor := NumberThenDot(major.cursor);
      if !minor.Parsed? then Failed(minor)
      else
        var patch := ParseNumberToken(minor.cursor);
        if !patch.Parsed? then Failed(patch)
        else ParseTail(major.value, minor.value, patch.value, patch.cursor)
  }

  predicate StartsComparator(t: Token) {
    t.Op? || t.Number?
  }

  function ParseComparator(c: Cursor): (r: Parsed<Comparator>)
    requires StartsComparator(c.token)
    ensures r.Parsed? ==> |r.cursor.rest| < |c.rest|
  {
    if c.token.Op? && Next(c).token.Stuck? then Hangs
    else
      var v := ParseVersion(if c.token.Op? then Next(c) else c);
      if !v.Parsed? then Failed(v)
      else Parsed(Comparator(if c.token.Op? then c.token.op else Equal, v.value), v.cursor)
  }

  // ---------------------------------------------------------------- evaluation while reading

  /** Whether all comparators held, and whether a prerelease may be compared. */
  datatype Verdict = Verdict(contains: bool, allowCompare: bool)

  function EvalAlternative(c: Cursor, v: Version, allowCompare: bool): (r: Parsed<Verdict>)
    ensures r.Parsed? ==> |r.cursor.rest| <= |c.rest|
    ensures r.Parsed? && |r.cursor.rest| == |c.rest| ==> r.cursor == c && !StartsComparator(c.token)
    decreases |c.rest|
  {
    if !StartsComparator(c.token) then Parsed(Verdict(true, allowCompare), c)
    else
      var comparator := ParseComparator(c);
      if !comparator.Parsed? then Failed(comparator)
      else
        var allow := allowCompare || (HasPrerelease(v) && SameTriple(comparator.value.version, v));
        if !Holds(comparator.value, v) then Parsed(Verdict(false, allow), comparator.cursor)
        else EvalAlternative(comparator.cursor, v, allow)
  }

  function EvalRange(c: Cursor, v: Version, includePrerelease: bool): Parsed<bool>
    decreases |c.rest|
  {
    if c.token.Stuck? || (c.token.LogicalOr? && Next(c).token.Stuck?) then Hangs
    else
      var start := if c.token.LogicalOr? then Next(c) else c;
      var r := EvalAlternative(start, v, includePrerelease);
      if !r.Parsed? then Failed(r)
      else if r.value.contains && (!HasPrerelease(v) || r.value.allowCompare) then Parsed(true, r.cursor)
      else if r.cursor.token.LogicalOr? then
        // Only a second "||" in a row leaves the text unread, and lexing it has used some up.
        EvalRange(r.cursor, v, includePrerelease)
      else Parsed(false, r.cursor)
  }

  /** What the range constructor and satisfies make of a text. */
  function Evaluate(text: string, v: Version, includePrerelease: bool): Parsed<bool> {
    EvalRange(Lex(text), v, includePrerelease)
  }

  // ---------------------------------------------------------------- when evaluation ends

  ghost predicate AllKnown(s: string) {
    forall i :: 0 <= i < |s| ==> Known(s[i])
  }

  lemma KnownDrop(text: string, pos: nat)
    requires AllKnown(text)
    ensures AllKnown(Drop(text, pos))
  {
  }

  lemma {:induction false} KnownLexes(s: string)
    requires AllKnown(s)
    ensures !Lex(s).token.Stuck? && AllKnown(Lex(s).rest)
  {
    if s != "" {
      if s[0] == ' ' { KnownLexes(s[1..]); }
      KnownDrop(s, 1);
      KnownDrop(s, 2);
      if IsDigit(s[0]) && ReadNumber(s).Read? { KnownDrop(s, Length(ReadNumber(s).value)); }
      if IsLetter(s[0]) && ReadName(s).Read? { KnownDrop(s, |Name(ReadName(s).value)|); }
    }
  }

  /** The call returns or throws, and leaves only known characters. */
  ghost predicate Ends<T>(p: Parsed<T>) {
    !p.Hangs? && (p.Parsed? ==> AllKnown(p.cursor.rest))
  }

  lemma NumbersEnd(c: Cursor)
    requires AllKnown(c.rest)
    ensures Ends(ParseNumberToken(c)) && Ends(NumberThenDot(c))
  {
    hide Lex, AllKnown;
    KnownLexes(c.rest);
    KnownLexes(Next(c).rest);
  }

  lemma TailEndsToo(major: uint16, minor: uint16, patch: uint16, c: Cursor)
    requires AllKnown(c.rest)
    ensures Ends(ParseTail(major, minor, patch, c))
  {
    hide Lex, AllKnown, ParseNumberToken;
    KnownLexes(c.rest);
    KnownLexes(Next(c).rest);
    KnownLexes(Next(Next(c)).rest);
    NumbersEnd(Next(Next(Next(c))));
  }

  lemma VersionEnds(c: Cursor)
    requires AllKnown(c.rest)
    ensures Ends(ParseVersion(c))
  {
    hide Lex, AllKnown, ParseNumberToken, NumberThenDot, ParseTail;
    NumbersEnd(c);
    var major := NumberThenDot(c);
    if major.Parsed? {
      NumbersEnd(major.cursor);
      var minor := NumberThenDot(major.cursor);
      if minor.Parsed? {
        NumbersEnd(minor.cursor);
        var patch := ParseNumberToken(minor.cursor);
        if patch.Parsed? { TailEndsToo(major.value, minor.value, patch.value, patch.cursor); }
      }
    }
  }

  lemma {:induction false} AlternativeEnds(c: Cursor, v: Version, allowCompare: bool)
    requires AllKnown(c.rest)
    ensures Ends(EvalAlternative(c, v, allowCompare))
    decreases |c.rest|
  {
    hide Lex, AllKnown, ParseVersion, Holds;
    if StartsComparator(c.token) {
      KnownLexes(c.rest);
      VersionEnds(Next(c));
      VersionEnds(c);
      var comparator := ParseComparator(c);
      if comparator.Parsed? {
        var allow := allowCompare || (HasPrerelease(v) && SameTriple(comparator.value.version, v));
        AlternativeEnds(comparator.cursor, v, allow);
      }
    }
  }

  lemma {:induction false} RangeEnds(c: Cursor, v: Version, includePrerelease: bool)
    requires AllKnown(c.rest) && !c.token.Stuck?
    ensures !EvalRange(c, v, includePrerelease).Hangs?
    decreases |c.rest|
  {
    hide Lex, AllKnown, EvalAlternative;
    KnownLexes(c.rest);
    var start := if c.token.LogicalOr? then Next(c) else c;
    AlternativeEnds(start, v, includePrerelease);
    var r := EvalAlternative(start, v, includePrerelease);
    if r.Parsed? && r.cursor.token.LogicalOr? { RangeEnds(r.cursor, v, includePrerelease); }
  }

  /** On a text of known characters evaluation always returns or throws. */
  lemma KnownTextsEnd(text: string, v: Version, includePrerelease: bool)
    requires AllKnown(text)
    ensures !Evaluate(text, v, includePrerelease).Hangs?
  {
    hide Lex, AllKnown, EvalRange;
    KnownLexes(text);
    RangeEnds(Lex(text), v, includePrerelease);
  }

  /** An unknown character need not be reached: the range "*" hangs, "*" behind a token that the
      parser refuses does not. */
  lemma StarHangs(v: Version, includePrerelease: bool)
    ensures Evaluate("*", v, includePrerelease).Hangs?
    ensures Evaluate(">.*", v, includePrerelease).Unexpected?
  {
    assert Lex(">.*") == Lexed(Op(Greater), ".*");
    assert Lex(".*") == Lexed(Dot, "*");
  }

  /** A version with a zero in front of a number is accepted alone and refused in a range, where only
      as many characters are consumed as the number has digits. */
  lemma LeadingZeroIsRefused(v: Version, includePrerelease: bool)
    ensures Evaluate("01.2.3", v, includePrerelease).Unexpected?
    ensures Parse("01.2.3") == Accepted(Version(1, 2, 3, NoPrerelease, None))
  {
    hide Parse, ReadNumber, Digits, ReadsAs;
    DigitsOfOdd();
    ReadStarts("01", ".2.3", 1);
    ReadStarts("1", ".2.3", 1);
    assert "01" + ".2.3" == "01.2.3" && "1" + ".2.3" == "1.2.3";
    assert Lex("01.2.3") == Lexed(Number(1), "1.2.3");
    assert Lex("1.2.3") == Lexed(Number(1), ".2.3");
    assert VersionText("01.2.3", "01", "2", "3", "", Version(1, 2, 3, NoPrerelease, None));
    AcceptedWhen("01.2.3", Version(1, 2, 3, NoPrerelease, None));
  }

  /** A number above 65535 is never consumed, and refused. */
  lemma BigNumberIsRefused(v: Version, includePrerelease: bool)
    ensures Evaluate(Digits(65536) + ".0.0", v, includePrerelease).Unexpected?
  {
    hide Digits, Value;
    var s := Digits(65536) + ".0.0";
    DigitsRoundTrip(65536);
    assert s[..|Digits(65536)|] == Digits(65536);
    RunEnds(s, |Digits(65536)|);
    assert IsDigit(s[0]);
    assert Lex(s) == Lexed(Number(0), s);
  }

  /** Behind a hyphen a letter that starts no name is dropped: the version is read without prerelease. */
  lemma UnknownNameIsDropped(major: uint16, minor: uint16, patch: uint16, s: string)
    requires s != "" && IsLetter(s[0]) && ReadName(s).NoMatch? && !Lex(s[1..]).token.Dot?
    ensures ParseTail(major, minor, patch, Lexed(Hyphen, s)) ==
      Arrived(Version(major, minor, patch, NoPrerelease, None), Lex(s[1..]))
  {
    hide ReadNumber, ReadName;
  }

  /** Inside a comparator too an unknown character is waited for: behind an operator, behind the hyphen
      of a prerelease, and where its number should be. */
  lemma UnknownInsideHangs(major: uint16, minor: uint16, patch: uint16, op: Operator, s: string)
    requires Lex(s).token.Stuck?
    ensures ParseComparator(Lexed(Op(op), s)).Hangs?
    ensures ParseTail(major, minor, patch, Lexed(Hyphen, s)).Hangs?
    ensures ParseTail(major, minor, patch, Lexed(Hyphen, "rc." + s)).Hangs?
  {
    hide ReadNumber;
    var t := "rc." + s;
    assert t[0] == 'r' && t[1] == 'c' && t[2..] == "." + s && ("." + s)[1..] == s;
    SpelledIsEqual(t);
    OneName(t);
    assert Spelled(t, "rc", "RC");
    assert Lex(t) == Lexed(PrereleaseName(Rc), "." + s);
  }

  lemma DigitsOfOdd()
    ensures ReadsAs("01", 1) && ReadsAs("1", 1) && ReadsAs("2", 2) && ReadsAs("3", 3)
  {
    assert "01"[..1] == "0" && "0"[..0] == "" && "1"[..0] == "" && "2"[..0] == "" && "3"[..0] == "";
    assert Value("0") == 0 && Value("01") == 1 && Value("1") == 1 && Value("2") == 2 && Value("3") == 3;
    ReadsAsItself("01");
    ReadsAsItself("1");
    ReadsAsItself("2");
    ReadsAsItself("3");
  }

  lemma ReadStarts(s: string, rest: string, n: uint16)
    requires ReadsAs(s, n) && (rest == "" || !IsDigit(rest[0]))
    ensures ReadNumber(s + rest) == Read(n, |s|)
  {
    ReadsAsItsNumber(s, rest, n);
  }

  // ---------------------------------------------------------------- range text

  /** A comparator as written: an operator, or none for an exact version. */
  datatype Written = Written(op: Operator, bare: bool, version: Version)

  predicate WellWritten(w: Written) {
    Normal(w.version) && (w.bare ==> w.op.Equal?)
  }

  function Meant(w: Written): Comparator {
    Comparator(w.op, w.version)
  }

  function OperatorText(w: Written): string {
    if w.bare then ""
    else match w.op
      case Less => "<" case LessOrEqual => "<=" case Greater => ">" case GreaterOrEqual => ">=" case Equal => "="
  }

  function ComparatorText(w: Written): string {
    OperatorText(w) + Print(w.version)
  }

  function AlternativeText(alternative: seq<Written>): string {
    if alternative == [] then ""
    else if |alternative| == 1 then ComparatorText(alternative[0])
    else ComparatorText(alternative[0]) + (" " + AlternativeText(alternative[1..]))
  }

  function RangeText(alternatives: seq<seq<Written>>): string {
    if alternatives == [] then ""
    else if |alternatives| == 1 then AlternativeText(alternatives[0])
    else AlternativeText(alternatives[0]) + (" || " + RangeText(alternatives[1..]))
  }

  function MeantAll(alternative: seq<Written>): (r: seq<Comparator>)
    ensures |r| == |alternative|
    ensures forall i :: 0 <= i < |r| ==> r[i] == Meant(alternative[i])
  {
    seq(|alternative|, i requires 0 <= i < |alternative| => Meant(alternative[i]))
  }

  function MeantRange(alternatives: seq<seq<Written>>): (r: seq<seq<Comparator>>)
    ensures |r| == |alternatives|
    ensures forall i :: 0 <= i < |r| ==> r[i] == MeantAll(alternatives[i])
  {
    seq(|alternatives|, i requires 0 <= i < |alternatives| => MeantAll(alternatives[i]))
  }

  // ---------------------------------------------------------------- the text is read back

  lemma Regroup(a: string, b: string, c: string, d: string)
    ensures a + b + c + d == a + (b + (c + d))
    ensures a + b + d == a + (b + d)
  {
  }

  lemma NothingThenRest(rest: string)
    ensures "" + rest == rest
  {
  }

  lemma NumberLexes(n: uint16, rest: string)
    requires NoDigitAhead(rest)
    ensures Lex(Digits(n) + rest) == Lexed(Number(n), rest)
  {
    hide Lex, ReadNumber, Digits;
    var s := Digits(n) + rest;
    NumberReadsBack(n, rest);
    LengthIsDigits(n);
    FirstDigit(n, rest);
    LexesNumber(s);
    assert Drop(s, |Digits(n)|) == rest;
  }

  lemma FirstDigit(n: nat, rest: string)
    ensures Digits(n) + rest != "" && IsDigit((Digits(n) + rest)[0])
  {
    DigitsRoundTrip(n);
    assert (Digits(n) + rest)[0] == Digits(n)[0];
  }

  lemma LexesNumber(s: string)
    requires s != "" && IsDigit(s[0])
    ensures Lex(s) == LexNumber(s)
  {
    hide LexNumber;
  }

  lemma NameLexes(p: Prerelease, rest: string)
    requires !p.NoPrerelease?
    ensures Lex(Name(p) + rest) == Lexed(PrereleaseName(p), rest)
  {
    hide ReadName;
    var s := Name(p) + rest;
    NameReadsBack(p, rest);
    assert s[0] == Name(p)[0];
    assert Drop(s, |Name(p)|) == rest;
  }

  lemma MarkLexes(c: char, rest: string)
    requires (c == '.' || c == '-' || c == ' ')
    ensures Lex([c] + rest) == match c
      case '.' => Lexed(Dot, rest)
      case '-' => Lexed(Hyphen, rest)
      case _ => Lex(rest)
  {
    assert ([c] + rest)[1..] == rest;
  }

  /** What may follow a version in a range. */
  predicate Gap(s: string) {
    s == "" || s[0] == ' '
  }

  lemma NumberThenDotReads(n: uint16, rest: string)
    requires !Lex(rest).token.Stuck?
    ensures NumberThenDot(Lex(Digits(n) + "." + rest)) == Parsed(n, Lex(rest))
  {
    hide Lex, Digits;
    MarkLexes('.', rest);
    NumberLexes(n, "." + rest);
    Regroup(Digits(n), ".", "", rest);
  }

  /** The end of the text, another comparator or an "||" comes next. */
  ghost predicate Separated(rest: string) {
    Gap(rest)
    && var t := Lex(rest).token; t.EndOfLine? || t.LogicalOr? || StartsComparator(t)
  }

  lemma NumberTextLexes(n: uint16, rest: string)
    requires Gap(rest)
    ensures Lex(Digits(n) + rest) == Lexed(Number(n), rest)
    ensures Lex("." + Digits(n) + rest) == Lexed(Dot, Digits(n) + rest)
  {
    hide Lex, Digits;
    NumberLexes(n, rest);
    MarkLexes('.', Digits(n) + rest);
    Regroup(".", Digits(n), "", rest);
  }

  /** A name, then what may follow it. */
  lemma NameTailParses(v: Version, tail: string, rest: string)
    requires !v.prerelease.NoPrerelease?
    ensures var s := "-" + Name(v.prerelease) + tail + rest;
      && Lex(s).token.Hyphen?
      && Next(Lex(s)) == Lexed(PrereleaseName(v.prerelease), tail + rest)
  {
    hide Lex, Name;
    NameLexes(v.prerelease, tail + rest);
    MarkLexes('-', Name(v.prerelease) + (tail + rest));
    Regroup("-", Name(v.prerelease), tail, rest);
  }

  lemma TailOfTokens(v: Version, c: Cursor, end: Cursor)
    requires Normal(v) && !v.prerelease.NoPrerelease? && c.token.Hyphen?
    requires Next(c).token == PrereleaseName(v.prerelease) && !end.token.Stuck?
    requires var after := Next(Next(c));
      if v.number.None? then after == end && !end.token.Dot?
      else after.token.Dot? && Next(after).token == Number(v.number.value) && Next(Next(after)) == end
    ensures ParseTail(v.major, v.minor, v.patch, c) == Parsed(v, end)
  {
    hide Next;
  }

  lemma SeparatedEnds(rest: string)
    requires Separated(rest)
    ensures Gap(rest) && !Lex(rest).token.Dot? && !Lex(rest).token.Stuck?
  {
  }

  lemma UnnumberedTailParses(v: Version, rest: string)
    requires !v.prerelease.NoPrerelease? && v.number.None? && Separated(rest)
    ensures !Lex(PrereleaseText(v) + rest).token.Stuck?
    ensures ParseTail(v.major, v.minor, v.patch, Lex(PrereleaseText(v) + rest)) == Parsed(v, Lex(rest))
  {
    hide Lex, Name, ParseTail;
    hide Separated;
    var s := "-" + Name(v.prerelease) + "" + rest;
    assert PrereleaseText(v) + rest == s;
    SeparatedEnds(rest);
    NothingThenRest(rest);
    NameTailParses(v, "", rest);
    TailOfTokens(v, Lex(s), Lex(rest));
  }

  lemma NumberedTailParses(v: Version, rest: string)
    requires !v.prerelease.NoPrerelease? && v.number.Some? && Separated(rest)
    ensures !Lex(PrereleaseText(v) + rest).token.Stuck?
    ensures ParseTail(v.major, v.minor, v.patch, Lex(PrereleaseText(v) + rest)) == Parsed(v, Lex(rest))
  {
    hide Lex, Digits, Name, ParseTail;
    NumberTextLexes(v.number.value, rest);
    NameTailParses(v, "." + Digits(v.number.value), rest);
    TailOfTokens(v, Lex(PrereleaseText(v) + rest), Lex(rest));
  }

  lemma TailParses(v: Version, rest: string)
    requires Normal(v) && Separated(rest)
    ensures !Lex(PrereleaseText(v) + rest).token.Stuck?
    ensures ParseTail(v.major, v.minor, v.patch, Lex(PrereleaseText(v) + rest)) == Parsed(v, Lex(rest))
  {
    hide Lex, Name;
    if v.prerelease.NoPrerelease? {
      NothingThenRest(rest);
    } else if v.number.None? {
      UnnumberedTailParses(v, rest);
    } else {
      NumberedTailParses(v, rest);
    }
  }

  /** The parser recovers a printed version, whatever comparator or "||" follows it. */
  lemma VersionParses(v: Version, rest: string)
    requires Normal(v) && Separated(rest)
    ensures ParseVersion(Lex(Print(v) + rest)) == Parsed(v, Lex(rest))
    ensures Lex(Print(v) + rest).token == Number(v.major)
  {
    hide Lex, Digits, PrereleaseText, NumberThenDot, ParseTail, ParseVersion, Print, Separated;
    SeparatedEnds(rest);
    var tail := PrereleaseText(v) + rest;
    TailParses(v, rest);
    TailHasNoDigit(v, rest);
    NumberLexes(v.patch, tail);
    var s2 := Digits(v.patch) + tail;
    NumberThenDotReads(v.minor, s2);
    var s1 := Digits(v.minor) + "." + s2;
    MajorLexes(v.minor, s2);
    NumberThenDotReads(v.major, s1);
    PrintParts(v, rest);
    MajorLexes(v.major, s1);
    VersionOfTokens(v, Lex(Print(v) + rest), Lex(s1), Lex(s2), Lex(rest));
  }

  lemma MajorLexes(n: uint16, rest: string)
    ensures Lex(Digits(n) + "." + rest).token == Number(n)
  {
    hide Lex, Digits;
    MarkLexes('.', rest);
    NumberLexes(n, "." + rest);
    Regroup(Digits(n), ".", "", rest);
  }

  lemma VersionOfTokens(v: Version, c: Cursor, minor: Cursor, patch: Cursor, end: Cursor)
    requires NumberThenDot(c) == Parsed(v.major, minor) && NumberThenDot(minor) == Parsed(v.minor, patch)
    requires ParseNumberToken(patch).Parsed? && ParseNumberToken(patch).value == v.patch
    requires ParseTail(v.major, v.minor, v.patch, ParseNumberToken(patch).cursor) == Parsed(v, end)
    ensures ParseVersion(c) == Parsed(v, end)
  {
    hide NumberThenDot, ParseNumberToken, ParseTail;
  }

  lemma TailHasNoDigit(v: Version, rest: string)
    requires Gap(rest)
    ensures NoDigitAhead(PrereleaseText(v) + rest)
  {
  }

  lemma PrintParts(v: Version, rest: string)
    ensures Print(v) + rest ==
      Digits(v.major) + "." + (Digits(v.minor) + "." + (Digits(v.patch) + (PrereleaseText(v) + rest)))
  {
    hide Digits, PrereleaseText;
  }

  lemma OperatorLexes(w: Written, rest: string)
    requires !w.bare && rest != "" && rest[0] != '='
    ensures Lex(OperatorText(w) + rest) == Lexed(Op(w.op), rest)
  {
    hide Lex, LexOperator;
    var s := OperatorText(w) + rest;
    assert s[0] == OperatorText(w)[0];
    LexesOperator(s);
    OperatorReads(w, rest);
  }

  lemma LexesOperator(s: string)
    requires s != "" && IsOperator(s[0])
    ensures Lex(s) == LexOperator(s)
  {
    hide LexOperator;
  }

  lemma OperatorReads(w: Written, rest: string)
    requires !w.bare && rest != "" && rest[0] != '='
    ensures LexOperator(OperatorText(w) + rest) == Lexed(Op(w.op), rest)
  {
    var text := OperatorText(w);
    var s := text + rest;
    if |text| == 1 {
      assert s[1..] == rest;
    } else {
      assert s[1..] == [text[1]] + rest && s[2..] == rest;
    }
  }

  lemma ComparatorParses(w: Written, rest: string)
    requires WellWritten(w) && Separated(rest)
    ensures var s := ComparatorText(w) + rest;
      && StartsComparator(Lex(s).token)
      && ParseComparator(Lex(s)) == Parsed(Meant(w), Lex(rest))
  {
    hide Lex, Print, ParseVersion, Separated;
    var t := Print(w.version) + rest;
    VersionParses(w.version, rest);
    StartsWithDigit(w.version, rest);
    Regroup(OperatorText(w), Print(w.version), "", rest);
    if w.bare {
      NothingThenRest(t);
      NothingThenRest(Print(w.version));
    } else {
      OperatorLexes(w, t);
    }
  }

  lemma StartsWithDigit(v: Version, rest: string)
    ensures var t := Print(v) + rest; t != "" && t[0] != '='
  {
    DigitsRoundTrip(v.major);
    assert (Print(v) + rest)[0] == Digits(v.major)[0];
  }

  ghost predicate AllWellWritten(alternative: seq<Written>) {
    forall i :: 0 <= i < |alternative| ==> WellWritten(alternative[i])
  }

  lemma SpaceLexes(s: string)
    ensures Lex(" " + s) == Lex(s)
  {
    MarkLexes(' ', s);
  }

  lemma SpaceSeparates(s: string)
    requires StartsComparator(Lex(s).token)
    ensures Separated(" " + s)
  {
    SpaceLexes(s);
  }

  /** The parser recovers the comparators of an alternative in order. */
  lemma {:induction false} AlternativeReads(alternative: seq<Written>, tail: string)
    requires AllWellWritten(alternative) && Separated(tail)
    ensures var s := AlternativeText(alternative) + tail;
      && (alternative == [] ==> s == tail)
      && (alternative != [] ==>
            var rest := AlternativeText(alternative[1..]) + tail;
            && StartsComparator(Lex(s).token)
            && ParseComparator(Lex(s)) == Parsed(Meant(alternative[0]), Lex(rest)))
    decreases |alternative|
  {
    hide Lex, ComparatorText, ParseComparator, Separated;
    SeparatedEnds(tail);
    NothingThenRest(tail);
    if |alternative| == 1 {
      ComparatorParses(alternative[0], tail);
    } else if |alternative| > 1 {
      var rest := AlternativeText(alternative[1..]) + tail;
      AlternativeReads(alternative[1..], tail);
      SpaceSeparates(rest);
      SpaceLexes(rest);
      ComparatorParses(alternative[0], " " + rest);
      Regroup(ComparatorText(alternative[0]), " ", AlternativeText(alternative[1..]), tail);
      Regroup(" ", AlternativeText(alternative[1..]), "", tail);
      Regroup(ComparatorText(alternative[0]), " " + AlternativeText(alternative[1..]), "", tail);
    }
  }

  /** What evaluating an alternative leaves: all of it read, or the place where it broke off. */
  ghost predicate EvaluatesTo(r: Parsed<Verdict>, alternative: seq<Comparator>, v: Version, allow: bool, end: Cursor) {
    && r.Parsed?
    && (r.value.contains <==> AllHold(alternative, v))
    && (AllHold(alternative, v) ==>
          r.value.allowCompare == (allow || (HasPrerelease(v) && LetIn(alternative, v, false))))
    && (if BreaksOff(alternative, v) then StartsComparator(r.cursor.token) else r.cursor == end)
  }

  lemma {:induction false} AlternativeEvaluates(alternative: seq<Written>, tail: string, v: Version, allow: bool)
    requires AllWellWritten(alternative) && Separated(tail) && !StartsComparator(Lex(tail).token)
    ensures EvaluatesTo(EvalAlternative(Lex(AlternativeText(alternative) + tail), v, allow),
                        MeantAll(alternative), v, allow, Lex(tail))
    decreases |alternative|
  {
    hide Lex, ComparatorText, ParseComparator, Separated, Holds, AlternativeText;
    AlternativeReads(alternative, tail);
    if alternative != [] {
      var c, rest := Meant(alternative[0]), alternative[1..];
      AlternativeReads(rest, tail);
      var more := allow || (HasPrerelease(v) && SameTriple(c.version, v));
      AlternativeEvaluates(rest, tail, v, more);
      FirstAndRest(alternative, v);
    }
  }

  lemma AllHoldFirst(c: Comparator, rest: seq<Comparator>, v: Version)
    ensures AllHold([c] + rest, v) <==> Holds(c, v) && AllHold(rest, v)
  {
    hide Holds;
    var all := [c] + rest;
    assert all[0] == c;
    assert forall i :: 0 <= i < |rest| ==> all[i + 1] == rest[i];
  }

  lemma BreaksOffFirst(c: Comparator, rest: seq<Comparator>, v: Version)
    ensures BreaksOff([c] + rest, v) <==> (!Holds(c, v) && rest != []) || BreaksOff(rest, v)
  {
    hide Holds;
    var all := [c] + rest;
    assert all[0] == c;
    forall i | 0 <= i < |rest| ensures all[i + 1] == rest[i] { }
    if i :| 0 <= i < |rest| - 1 && !Holds(rest[i], v) {
      assert !Holds(all[i + 1], v);
    }
    if i :| 0 <= i < |all| - 1 && !Holds(all[i], v) {
      if i > 0 { assert !Holds(rest[i - 1], v); }
    }
  }

  lemma LetInFirst(c: Comparator, rest: seq<Comparator>, v: Version)
    ensures LetIn([c] + rest, v, false) <==> SameTriple(c.version, v) || LetIn(rest, v, false)
  {
    hide SameTriple;
    var all := [c] + rest;
    assert all[0] == c;
    if i :| 0 <= i < |rest| && SameTriple(rest[i].version, v) {
      assert all[i + 1] == rest[i];
    }
    if i :| 0 <= i < |all| && SameTriple(all[i].version, v) {
      if i > 0 { assert all[i] == rest[i - 1]; }
    }
  }

  lemma FirstAndRest(alternative: seq<Written>, v: Version)
    requires alternative != []
    ensures var all, rest, c := MeantAll(alternative), MeantAll(alternative[1..]), Meant(alternative[0]);
      && (AllHold(all, v) <==> Holds(c, v) && AllHold(rest, v))
      && (BreaksOff(all, v) <==> (!Holds(c, v) && rest != []) || BreaksOff(rest, v))
      && (LetIn(all, v, false) <==> SameTriple(c.version, v) || LetIn(rest, v, false))
  {
    hide AllHold, BreaksOff, LetIn, Holds, SameTriple;
    var c, rest := Meant(alternative[0]), MeantAll(alternative[1..]);
    assert MeantAll(alternative) == [c] + rest;
    AllHoldFirst(c, rest, v);
    BreaksOffFirst(c, rest, v);
    LetInFirst(c, rest, v);
  }

  ghost predicate RangeWellWritten(alternatives: seq<seq<Written>>) {
    alternatives != [] && forall i :: 0 <= i < |alternatives| ==> AllWellWritten(alternatives[i])
  }

  lemma RestThenNothing(s: string)
    ensures s + "" == s
  {
  }

  lemma OrLexes(s: string)
    ensures Lex(" || " + s) == Lexed(LogicalOr, " " + s)
    ensures Separated(" || " + s)
  {
    hide Lex;
    var t := "||" + (" " + s);
    SpaceLexes(s);
    TwoBarsLex(" " + s);
    SpaceLexes(t);
    Regroup(" ", "||", " ", s);
    assert " " + "||" + " " == " || ";
    assert (" || " + s)[0] == ' ';
  }

  lemma TwoBarsLex(s: string)
    ensures Lex("||" + s) == Lexed(LogicalOr, s)
  {
    assert Drop("||" + s, 2) == s;
  }

  lemma EmptyLexes()
    ensures Lex("") == Lexed(EndOfLine, "") && Separated("")
  {
  }

  /** Evaluation from the start of a range text: at the beginning, or after an "||". */
  lemma {:induction false} RangeEvaluates(alternatives: seq<seq<Written>>, c: Cursor, v: Version,
                                          includePrerelease: bool)
    requires RangeWellWritten(alternatives)
    requires (if c.token.LogicalOr? then Next(c) else c) == Lex(RangeText(alternatives))
    ensures EvalRange(c, v, includePrerelease).Parsed?
    ensures EvalRange(c, v, includePrerelease).value <==> Answer(MeantRange(alternatives), v, includePrerelease)
    decreases |alternatives|
  {
    hide Lex, AlternativeText, Separated, EvalAlternative, BreaksOff, AllHold, LetIn;
    var first := alternatives[0];
    var meant := MeantRange(alternatives);
    EmptyLexes();
    RangeStarts(alternatives);
    if |alternatives| == 1 {
      AlternativeEvaluates(first, "", v, includePrerelease);
      RestThenNothing(AlternativeText(first));
      assert meant[1..] == [];
    } else {
      var rest := alternatives[1..];
      RangeStarts(rest);
      OrLexes(RangeText(rest));
      AlternativeEvaluates(first, " || " + RangeText(rest), v, includePrerelease);
      SpaceLexes(RangeText(rest));
      RangeEvaluates(rest, Lex(" || " + RangeText(rest)), v, includePrerelease);
      assert meant[1..] == MeantRange(rest);
    }
    LetInEither(meant[0], v, includePrerelease);
  }

  lemma LetInEither(alternative: seq<Comparator>, v: Version, includePrerelease: bool)
    ensures LetIn(alternative, v, includePrerelease) <==>
      !HasPrerelease(v) || includePrerelease || LetIn(alternative, v, false)
    ensures BreaksOff(alternative, v) ==> !AllHold(alternative, v)
  {
  }

  lemma {:induction false} RangeStarts(alternatives: seq<seq<Written>>)
    requires RangeWellWritten(alternatives)
    ensures |alternatives| == 1 || alternatives[0] != [] ==> !Lex(RangeText(alternatives)).token.LogicalOr?
    ensures !Lex(RangeText(alternatives)).token.Stuck?
    decreases |alternatives|
  {
    hide Lex, AlternativeText, Separated;
    var first := AlternativeText(alternatives[0]);
    if |alternatives| == 1 {
      EmptyLexes();
      AlternativeReads(alternatives[0], "");
      RestThenNothing(first);
    } else {
      RangeStarts(alternatives[1..]);
      OrLexes(RangeText(alternatives[1..]));
      AlternativeReads(alternatives[0], " || " + RangeText(alternatives[1..]));
    }
  }

  /** The alternatives that evaluation looks at. An "||" at the very beginning is skipped, and with
      it the empty alternative in front of it. */
  function LookedAt<T>(alternatives: seq<seq<T>>): (r: seq<seq<T>>)
    ensures alternatives != [] ==> r != []
  {
    if SkipsFirst(alternatives) then alternatives[1..] else alternatives
  }

  predicate SkipsFirst<T>(alternatives: seq<seq<T>>) {
    |alternatives| > 1 && |alternatives[0]| == 0
  }

  lemma LookedAtMeant(alternatives: seq<seq<Written>>)
    ensures LookedAt(MeantRange(alternatives)) == MeantRange(LookedAt(alternatives))
  {
  }

  /** Where the evaluation of a range text starts to look. */
  lemma LooksFrom(alternatives: seq<seq<Written>>, tail: string)
    requires RangeWellWritten(alternatives)
    ensures SkipsFirst(alternatives) ==>
      Lex(RangeText(alternatives) + tail) == Lexed(LogicalOr, " " + (RangeText(LookedAt(alternatives)) + tail))
    ensures Lex(" " + (RangeText(LookedAt(alternatives)) + tail)) == Lex(RangeText(LookedAt(alternatives)) + tail)
  {
    hide Lex;
    SpaceLexes(RangeText(LookedAt(alternatives)) + tail);
    if SkipsFirst(alternatives) {
      var rest := RangeText(alternatives[1..]);
      NothingThenRest(" || " + rest);
      OrLexes(rest + tail);
      Regroup(" || ", rest, "", tail);
    }
  }

  /** For a range as written evaluation never throws: lexer and parser recover the comparators in
      order, and the answer is that of the alternatives looked at. */
  lemma RangeTextIsEvaluated(alternatives: seq<seq<Written>>, v: Version, includePrerelease: bool)
    requires RangeWellWritten(alternatives)
    ensures var r := Evaluate(RangeText(alternatives), v, includePrerelease);
      r.Parsed? && (r.value <==> Answer(LookedAt(MeantRange(alternatives)), v, includePrerelease))
  {
    hide Lex, EvalRange, Answer;
    LookedAtMeant(alternatives);
    LooksFrom(alternatives, "");
    RestThenNothing(RangeText(alternatives));
    RestThenNothing(RangeText(LookedAt(alternatives)));
    RangeStarts(alternatives);
    RangeEvaluates(LookedAt(alternatives), Lex(RangeText(alternatives)), v, includePrerelease);
  }

  lemma InRangeOfLookedAt(alternatives: seq<seq<Comparator>>, v: Version, includePrerelease: bool)
    ensures InRange(alternatives, v, includePrerelease) <==>
      InRange(LookedAt(alternatives), v, includePrerelease)
      || (SkipsFirst(alternatives) && (!HasPrerelease(v) || includePrerelease))
  {
    hide AllHold, SameTriple;
    if SkipsFirst(alternatives) {
      var rest := alternatives[1..];
      EmptyHolds(alternatives[0], v, includePrerelease);
      if k :| 0 <= k < |alternatives| && InAlternative(alternatives[k], v, includePrerelease) {
        if k > 0 { assert rest[k - 1] == alternatives[k]; }
      }
      if k :| 0 <= k < |rest| && InAlternative(rest[k], v, includePrerelease) {
        assert rest[k] == alternatives[k + 1];
      }
    }
  }

  lemma EmptyHolds(alternative: seq<Comparator>, v: Version, includePrerelease: bool)
    requires alternative == []
    ensures InAlternative(alternative, v, includePrerelease) <==> !HasPrerelease(v) || includePrerelease
  {
  }

  /** A true answer on a range text always means that some alternative holds in full. The answer is
      the or of ands if and only if each looked-at alternative that holds is one that is reached or
      comes after one, and some such alternative is reached where a skipped empty one lets the
      version in. */
  lemma RangeTextIsExactWhen(alternatives: seq<seq<Written>>, v: Version, includePrerelease: bool)
    requires RangeWellWritten(alternatives)
    ensures var r, meant := Evaluate(RangeText(alternatives), v, includePrerelease), MeantRange(alternatives);
      var seen := LookedAt(meant);
      && r.Parsed?
      && (r.value ==> InRange(meant, v, includePrerelease))
      && ((r.value <==> InRange(meant, v, includePrerelease)) <==>
           && (forall k :: 0 <= k < |seen| && InAlternative(seen[k], v, includePrerelease) ==>
                 exists l: nat :: l <= k && Reached(seen, l, v, includePrerelease))
           && (SkipsFirst(meant) && (!HasPrerelease(v) || includePrerelease) ==>
                 exists l: nat :: Reached(seen, l, v, includePrerelease)))
  {
    hide Lex, EvalRange, Answer, InRange, InAlternative, Reached;
    var meant := MeantRange(alternatives);
    var seen := LookedAt(meant);
    RangeTextIsEvaluated(alternatives, v, includePrerelease);
    InRangeOfLookedAt(meant, v, includePrerelease);
    AnswerReaches(seen, v, includePrerelease);
    AnswerIsExactWhen(seen, v, includePrerelease);
    if Answer(seen, v, includePrerelease) { AnswerIsSound(seen, v, includePrerelease); }
  }

  /** When every alternative but the last has at most one comparator, the answer is the or of ands if
      and only if no empty alternative that lets the version in is skipped, or another holds. */
  lemma RangeTextMeansItsAlternatives(alternatives: seq<seq<Written>>, v: Version, includePrerelease: bool)
    requires RangeWellWritten(alternatives)
    requires forall k :: 0 <= k < |alternatives| - 1 ==> |alternatives[k]| <= 1
    ensures var r, meant := Evaluate(RangeText(alternatives), v, includePrerelease), MeantRange(alternatives);
      && r.Parsed?
      && ((r.value <==> InRange(meant, v, includePrerelease)) <==>
            (SkipsFirst(meant) && (!HasPrerelease(v) || includePrerelease) ==>
               InRange(LookedAt(meant), v, includePrerelease)))
  {
    hide Lex, EvalRange, Answer, InRange;
    var meant := MeantRange(alternatives);
    RangeTextIsEvaluated(alternatives, v, includePrerelease);
    InRangeOfLookedAt(meant, v, includePrerelease);
    SingleComparatorsAreExact(LookedAt(meant), v, includePrerelease);
  }

  /** The range " || <1.0.0" should let in any version, since its first alternative is empty, and does
      not let in 2.0.0. */
  lemma LeadingEmptyAlternativeIsLost()
    ensures var below := Written(Less, false, Version(1, 0, 0, NoPrerelease, None));
      var alternatives, v := [[], [below]], Version(2, 0, 0, NoPrerelease, None);
      && RangeText(alternatives) == " || <1.0.0"
      && InRange(MeantRange(alternatives), v, false)
      && Evaluate(RangeText(alternatives), v, false).Parsed? && !Evaluate(RangeText(alternatives), v, false).value
  {
    hide Lex, EvalRange;
    var below := Written(Less, false, Version(1, 0, 0, NoPrerelease, None));
    var alternatives, v := [[], [below]], Version(2, 0, 0, NoPrerelease, None);
    assert alternatives[1..] == [[below]];
    assert RangeText([[below]]) == ComparatorText(below);
    assert Digits(1) == "1" && Digits(0) == "0";
    assert AlternativeText([]) == "";
    assert ComparatorText(below) == "<1.0.0";
    RangeTextMeansItsAlternatives(alternatives, v, false);
    var meant := MeantRange(alternatives);
    EmptyHolds(meant[0], v, false);
    assert LookedAt(meant) == [meant[1]] && meant[1][0] == Meant(below) && !Holds(Meant(below), v);
    assert !InRange(LookedAt(meant), v, false);
  }

  // ---------------------------------------------------------------- an unknown character behind a range

  /** The next thing is a character that the lexer does not know. */
  ghost predicate Blocked(tail: string) {
    Lex(tail).token.Stuck?
  }

  lemma BlockedStarts(tail: string)
    requires Blocked(tail)
    ensures NoDigitAhead(tail)
  {
  }

  lemma VersionTailHangs(v: Version, tail: string)
    requires Normal(v) && Blocked(tail)
    ensures var c := Lex(PrereleaseText(v) + tail);
      c.token.Stuck? || ParseTail(v.major, v.minor, v.patch, c).Hangs?
  {
    hide Lex, Name, Digits;
    BlockedStarts(tail);
    NothingThenRest(tail);
    if !v.prerelease.NoPrerelease? {
      NameTailParses(v, NumberText(v.number), tail);
      if v.number.Some? {
        NumberLexes(v.number.value, tail);
        MarkLexes('.', Digits(v.number.value) + tail);
        Regroup(".", Digits(v.number.value), "", tail);
      }
      assert PrereleaseText(v) + tail == "-" + Name(v.prerelease) + NumberText(v.number) + tail;
    }
  }

  lemma VersionHangs(v: Version, tail: string)
    requires Normal(v) && Blocked(tail)
    ensures ParseVersion(Lex(Print(v) + tail)).Hangs?
    ensures Lex(Print(v) + tail).token == Number(v.major)
  {
    hide Lex, Digits, PrereleaseText, NumberThenDot, ParseTail, Print;
    BlockedStarts(tail);
    var end := PrereleaseText(v) + tail;
    VersionTailHangs(v, tail);
    NoDigitBehindPatch(v, tail);
    NumberLexes(v.patch, end);
    var s2 := Digits(v.patch) + end;
    NumberThenDotReads(v.minor, s2);
    var s1 := Digits(v.minor) + "." + s2;
    MajorLexes(v.minor, s2);
    NumberThenDotReads(v.major, s1);
    PrintParts(v, tail);
    MajorLexes(v.major, s1);
  }

  lemma NoDigitBehindPatch(v: Version, tail: string)
    requires NoDigitAhead(tail)
    ensures NoDigitAhead(PrereleaseText(v) + tail)
  {
  }

  lemma ComparatorHangs(w: Written, tail: string)
    requires WellWritten(w) && Blocked(tail)
    ensures var c := Lex(ComparatorText(w) + tail);
      StartsComparator(c.token) && ParseComparator(c).Hangs?
  {
    hide Lex, Print, ParseVersion;
    var t := Print(w.version) + tail;
    VersionHangs(w.version, tail);
    StartsWithDigit(w.version, tail);
    Regroup(OperatorText(w), Print(w.version), "", tail);
    if w.bare {
      NothingThenRest(t);
      NothingThenRest(Print(w.version));
    } else {
      OperatorLexes(w, t);
    }
  }

  lemma AlternativeTextSplits(alternative: seq<Written>, tail: string)
    requires |alternative| > 1
    ensures AlternativeText(alternative) + tail ==
      ComparatorText(alternative[0]) + (" " + (AlternativeText(alternative[1..]) + tail))
  {
    hide ComparatorText;
  }

  /** An alternative in front of an unknown character hangs unless it breaks off. */
  lemma {:induction false} AlternativeHangs(alternative: seq<Written>, tail: string, v: Version, allow: bool)
    requires alternative != [] && AllWellWritten(alternative) && Blocked(tail)
    ensures var c := Lex(AlternativeText(alternative) + tail);
      && StartsComparator(c.token)
      && if BreaksOff(MeantAll(alternative), v) then
           var r := EvalAlternative(c, v, allow);
           r.Parsed? && !r.value.contains && StartsComparator(r.cursor.token)
         else EvalAlternative(c, v, allow).Hangs?
    decreases |alternative|
  {
    hide Lex, ComparatorText, ParseComparator, Separated, Blocked, Holds;
    var first, rest := alternative[0], alternative[1..];
    if rest == [] {
      ComparatorHangs(first, tail);
    } else {
      var text := AlternativeText(rest) + tail;
      var more := allow || (HasPrerelease(v) && SameTriple(first.version, v));
      AlternativeHangs(rest, tail, v, more);
      AlternativeTextSplits(alternative, tail);
      SpaceSeparates(text);
      SpaceLexes(text);
      ComparatorParses(first, " " + text);
      FirstAndRest(alternative, v);
    }
  }

  /** No alternative but the last has settled the answer, and none breaks off. */
  ghost predicate Undecided(alternatives: seq<seq<Comparator>>, v: Version, includePrerelease: bool) {
    && (forall k :: 0 <= k < |alternatives| - 1 ==> !InAlternative(alternatives[k], v, includePrerelease))
    && (forall k :: 0 <= k < |alternatives| ==> !BreaksOff(alternatives[k], v))
  }

  lemma UndecidedFirst(alternatives: seq<seq<Comparator>>, v: Version, includePrerelease: bool)
    requires alternatives != []
    ensures Undecided(alternatives, v, includePrerelease) <==>
      && !BreaksOff(alternatives[0], v)
      && (|alternatives| > 1 ==>
            !InAlternative(alternatives[0], v, includePrerelease)
            && Undecided(alternatives[1..], v, includePrerelease))
  {
    hide BreaksOff, InAlternative;
    var rest := alternatives[1..];
    assert forall k :: 0 <= k < |rest| ==> rest[k] == alternatives[k + 1];
    if |alternatives| > 1 && !BreaksOff(alternatives[0], v) && Undecided(rest, v, includePrerelease) {
      forall k | 0 <= k < |alternatives| ensures !BreaksOff(alternatives[k], v) {
        if k > 0 { assert alternatives[k] == rest[k - 1]; }
      }
      forall k | 0 < k < |alternatives| - 1 ensures !InAlternative(alternatives[k], v, includePrerelease) {
        assert alternatives[k] == rest[k - 1];
      }
    }
  }

  lemma RangeTextSplits(alternatives: seq<seq<Written>>, tail: string)
    requires alternatives != []
    ensures RangeText(alternatives) + tail ==
      if |alternatives| == 1 then AlternativeText(alternatives[0]) + tail
      else AlternativeText(alternatives[0]) + (" || " + (RangeText(alternatives[1..]) + tail))
  {
    hide AlternativeText;
  }

  lemma OrEnds(s: string)
    ensures !StartsComparator(Lex(" || " + s).token)
  {
    hide Lex;
    OrLexes(s);
  }

  lemma {:induction false} RangeHangs(alternatives: seq<seq<Written>>, tail: string, c: Cursor, v: Version,
                                      includePrerelease: bool)
    requires RangeWellWritten(alternatives) && Blocked(tail) && !c.token.Stuck?
    requires (if c.token.LogicalOr? then Next(c) else c) == Lex(RangeText(alternatives) + tail)
    ensures var r, meant := EvalRange(c, v, includePrerelease), MeantRange(alternatives);
      if Undecided(meant, v, includePrerelease) then r.Hangs?
      else r.Parsed? && (r.value <==> Answer(meant, v, includePrerelease))
    decreases |alternatives|
  {
    hide Lex, AlternativeText, Separated, EvalAlternative, BreaksOff, AllHold, LetIn, Undecided, Blocked, RangeText;
    var first, meant := alternatives[0], MeantRange(alternatives);
    UndecidedFirst(meant, v, includePrerelease);
    RangeTextSplits(alternatives, tail);
    LetInEither(meant[0], v, includePrerelease);
    if |alternatives| == 1 {
      assert meant[1..] == [];
      if first == [] {
        EmptyText(tail);
        NothingBreaksOff(meant[0], v);
      } else {
        AlternativeHangs(first, tail, v, includePrerelease);
      }
    } else {
      var rest := alternatives[1..];
      var text := RangeText(rest) + tail;
      OrLexes(text);
      OrEnds(text);
      AlternativeEvaluates(first, " || " + text, v, includePrerelease);
      FirstTokenGoesOn(first, " || " + text);
      SpaceLexes(text);
      RangeHangs(rest, tail, Lex(" || " + text), v, includePrerelease);
      assert meant[1..] == MeantRange(rest);
    }
  }

  lemma EmptyText(tail: string)
    requires Blocked(tail)
    ensures Lex(AlternativeText([]) + tail).token.Stuck?
  {
    NothingThenRest(tail);
  }

  lemma NothingBreaksOff(alternative: seq<Comparator>, v: Version)
    requires alternative == []
    ensures !BreaksOff(alternative, v)
  {
  }

  lemma FirstTokenGoesOn(alternative: seq<Written>, tail: string)
    requires AllWellWritten(alternative) && Separated(tail)
    ensures !Lex(AlternativeText(alternative) + tail).token.Stuck?
  {
    hide Lex, ComparatorText, ParseComparator;
    AlternativeReads(alternative, tail);
  }

  /** Evaluating a range with an unknown character behind it never returns if and only if the answer
      is not settled before: no looked-at alternative but the last holds, and none breaks off. */
  lemma UnknownBehindARangeHangsWhen(alternatives: seq<seq<Written>>, tail: string, v: Version,
                                     includePrerelease: bool)
    requires RangeWellWritten(alternatives) && Blocked(tail)
    ensures var r := Evaluate(RangeText(alternatives) + tail, v, includePrerelease);
      var seen := LookedAt(MeantRange(alternatives));
      && (r.Hangs? <==> Undecided(seen, v, includePrerelease))
      && (!r.Hangs? ==> r.Parsed? && (r.value <==> Answer(seen, v, includePrerelease)))
  {
    hide Lex, EvalRange, Answer, RangeText, Undecided;
    var c := Lex(RangeText(alternatives) + tail);
    LookedAtMeant(alternatives);
    LooksFrom(alternatives, tail);
    RangeTailStarts(alternatives, tail);
    if c.token.Stuck? {
      StuckHangs(c, v, includePrerelease);
      EmptyUndecided(MeantRange(alternatives), v, includePrerelease);
    } else {
      RangeHangs(LookedAt(alternatives), tail, c, v, includePrerelease);
    }
  }

  lemma StuckHangs(c: Cursor, v: Version, includePrerelease: bool)
    requires c.token.Stuck?
    ensures EvalRange(c, v, includePrerelease).Hangs?
  {
  }

  lemma EmptyUndecided(alternatives: seq<seq<Comparator>>, v: Version, includePrerelease: bool)
    requires |alternatives| == 1 && alternatives[0] == []
    ensures Undecided(alternatives, v, includePrerelease)
  {
  }

  lemma RangeTailStarts(alternatives: seq<seq<Written>>, tail: string)
    requires RangeWellWritten(alternatives) && Blocked(tail)
    ensures var c := Lex(RangeText(alternatives) + tail);
      && (c.token.Stuck? ==> |alternatives| == 1 && alternatives[0] == [])
      && (!SkipsFirst(alternatives) ==> !c.token.LogicalOr?)
  {
    hide Lex, AlternativeText, EvalAlternative, RangeText, Separated;
    RangeTextSplits(alternatives, tail);
    if |alternatives| > 1 {
      var text := " || " + (RangeText(alternatives[1..]) + tail);
      OrLexes(RangeText(alternatives[1..]) + tail);
      FirstTokenGoesOn(alternatives[0], text);
      AlternativeReads(alternatives[0], text);
    } else if alternatives[0] != [] {
      AlternativeHangs(alternatives[0], tail, Version(0, 0, 0, NoPrerelease, None), false);
    } else {
      EmptyText(tail);
    }
  }

  // ---------------------------------------------------------------- the code

  /** How a call ends: it returns, throws, or does not end. */
  datatype Taken<+T> = Took(value: T) | Threw | NeverReturns

  datatype Progress = Advanced | Unwanted | Hung

  ghost predicate Agrees<T>(r: Taken<T>, expected: Parsed<T>, after: Cursor) {
    match r
    case Threw => expected.Unexpected?
    case NeverReturns => expected.Hangs?
    case Took(value) => expected == Parsed(value, after)
  }

  lemma DropTwice(s: string, m: nat, n: nat)
    ensures Drop(Drop(s, m), n) == Drop(s, m + n)
  {
  }

  lemma NothingDropped(text: string)
    ensures Drop(text, 0) == text
  {
  }

  /** One round of the lexer's loop at a position. */
  lemma LexAt(text: string, pos: nat)
    requires pos < |text|
    ensures var s, c := Drop(text, pos), text[pos];
      && s == text[pos..] && s != ""
      && (c == ' ' ==> Lex(s) == Lex(Drop(text, pos + 1)))
      && (c == '|' ==> Lex(s) == Lexed(LogicalOr, Drop(text, pos + 2)))
      && (IsOperator(c) ==> Lex(s) == LexOperator(s))
      && (IsDigit(c) ==> Lex(s) == LexNumber(s))
      && (c == '.' ==> Lex(s) == Lexed(Dot, Drop(text, pos + 1)))
      && (c == '-' ==> Lex(s) == Lexed(Hyphen, Drop(text, pos + 1)))
      && (IsLetter(c) ==> Lex(s) == LexName(s))
      && (!(c == ' ' || c == '|' || IsOperator(c) || IsDigit(c) || c == '.' || c == '-' || IsLetter(c)) ==>
            Lex(s) == Lexed(Stuck, s))
  {
    hide LexOperator, LexNumber, LexName;
    DropTwice(text, pos, 2);
  }

  lemma LexAtEnd(text: string, pos: nat)
    requires pos >= |text|
    ensures Lex(Drop(text, pos)) == Lexed(EndOfLine, Drop(text, pos))
  {
  }

  /** The range lexer and parser: a position in the text and the current token. */
  class RangeParser {
    const text: string
    var pos: nat
    var current: Token

    ghost function Rest(): string
      reads this
    {
      Drop(text, pos)
    }

    ghost function State(): Cursor
      reads this
    {
      Lexed(current, Rest())
    }

    constructor (text: string)
      ensures this.text == text && State() == Lex(text)
    {
      hide Lex, Drop;
      this.text, pos, current := text, 0, NoToken;
      new;
      NothingDropped(text);
      current := GetNextToken();
    }

    /** The next token; Stuck if the loop never ends. */
    method GetNextToken() returns (t: Token)
      modifies this`pos
      ensures Lexed(t, Rest()) == Lex(old(Rest()))
    {
      hide Lex, Drop, ReadNumber, ReadName, LexOperator, Known;
      ghost var start := Rest();
      while pos < |text|
        invariant Lex(Rest()) == Lex(start)
        decreases |text| - pos
      {
        LexAt(text, pos);
        if text[pos] == ' ' {
          pos := pos + 1;
          continue;
        }
        if text[pos] == '|' {
          pos := pos + 2;
          return LogicalOr;
        }
        if IsOperator(text[pos]) {
          t := GetOperator();
          return;
        }
        if IsDigit(text[pos]) {
          t := GetNumber();
          return;
        }
        if text[pos] == '.' {
          pos := pos + 1;
          return Dot;
        }
        if text[pos] == '-' {
          pos := pos + 1;
          return Hyphen;
        }
        if IsLetter(text[pos]) {
          t := GetPrerelease();
          return;
        }
        // A character of none of these kinds keeps the loop here for ever.
        return Stuck;
      }
      LexAtEnd(text, pos);
      return EndOfLine;
    }

    method GetNumber() returns (t: Token)
      requires pos < |text|
      modifies this`pos
      ensures Lexed(t, Rest()) == LexNumber(old(Rest()))
    {
      hide ReadNumber;
      var n := ReadNumberAt(text, pos);
      if n.NoMatch? {
        return Number(0);
      }
      DropTwice(text, pos, Length(n.value));
      pos := pos + Length(n.value);
      return Number(n.value);
    }

    method GetPrerelease() returns (t: Token)
      requires pos < |text|
      modifies this`pos
      ensures Lexed(t, Rest()) == LexName(old(Rest()))
    {
      hide ReadName, Name;
      var p := ReadNameAt(text, pos);
      if p.NoMatch? {
        DropTwice(text, pos, 1);
        pos := pos + 1;
        return PrereleaseName(NoPrerelease);
      }
      DropTwice(text, pos, |Name(p.value)|);
      pos := pos + |Name(p.value)|;
      return PrereleaseName(p.value);
    }

    method GetOperator() returns (t: Token)
      requires pos < |text| && IsOperator(text[pos])
      modifies this`pos
      ensures Lexed(t, Rest()) == LexOperator(old(Rest()))
    {
      DropTwice(text, pos, 1);
      DropTwice(text, pos, 2);
      if text[pos] == '<' {
        pos := pos + 1;
        if pos < |text| && text[pos] == '=' {
          pos := pos + 1;
          return Op(LessOrEqual);
        }
        return Op(Less);
      } else if text[pos] == '>' {
        pos := pos + 1;
        if pos < |text| && text[pos] == '=' {
          pos := pos + 1;
          return Op(GreaterOrEqual);
        }
        return Op(Greater);
      }
      pos := pos + 1;
      return Op(Equal);
    }

    /** Goes on to the next token if the current one is of the expected kind, and throws otherwise. */
    method AdvanceToken(expected: bool) returns (p: Progress)
      modifies this`pos, this`current
      ensures p.Unwanted? <==> !expected
      ensures p.Unwanted? ==> State() == old(State())
      ensures p.Advanced? ==> State() == Next(old(State())) && !current.Stuck?
      ensures p.Hung? ==> Next(old(State())).token.Stuck?
    {
      hide Lex, Drop;
      if !expected {
        return Unwanted;
      }
      var t := GetNextToken();
      if t.Stuck? {
        return Hung;
      }
      current := t;
      p := Advanced;
    }

    method TakeNumber() returns (r: Taken<uint16>)
      modifies this`pos, this`current
      ensures Agrees(r, ParseNumberToken(old(State())), State())
    {
      hide Drop, Lex;
      var token := current;
      var p := AdvanceToken(token.Number?);
      r := match p case Advanced => Took(token.number) case Unwanted => Threw case Hung => NeverReturns;
    }

    method TakeNumberDot() returns (r: Taken<uint16>)
      modifies this`pos, this`current
      ensures Agrees(r, NumberThenDot(old(State())), State())
    {
      hide Drop, Lex;
      r := TakeNumber();
      if !r.Took? {
        return;
      }
      var p := AdvanceToken(current.Dot?);
      if p.Unwanted? {
        return Threw;
      }
      if p.Hung? {
        return NeverReturns;
      }
    }

    method TakeTail(major: uint16, minor: uint16, patch: uint16) returns (r: Taken<Version>)
      modifies this`pos, this`current
      ensures Agrees(r, ParseTail(major, minor, patch, old(State())), State())
    {
      hide Drop, Lex;
      var prerelease, number := NoPrerelease, None;
      if current.Hyphen? {
        var p := AdvanceToken(true);
        if p.Hung? {
          return NeverReturns;
        }
        var token := current;
        p := AdvanceToken(token.PrereleaseName?);
        if p.Unwanted? {
          return Threw;
        }
        if p.Hung? {
          return NeverReturns;
        }
        prerelease := token.prerelease;
        if current.Dot? {
          p := AdvanceToken(true);
          if p.Hung? {
            return NeverReturns;
          }
          var n := TakeNumber();
          if !n.Took? {
            return Passed(n);
          }
          number := Some(n.value);
        }
      }
      r := Took(MakeVersion(major, minor, patch, prerelease, number));
    }

    method TakeVersion() returns (r: Taken<Version>)
      modifies this`pos, this`current
      ensures Agrees(r, ParseVersion(old(State())), State())
    {
      hide Drop, Lex, NumberThenDot, ParseTail, ParseNumberToken;
      var major := TakeNumberDot();
      if !major.Took? { return Passed(major); }
      var minor := TakeNumberDot();
      if !minor.Took? { return Passed(minor); }
      var patch := TakeNumber();
      if !patch.Took? { return Passed(patch); }
      r := TakeTail(major.value, minor.value, patch.value);
    }

    method TakeComparator() returns (r: Taken<Comparator>)
      requires StartsComparator(current)
      modifies this`pos, this`current
      ensures Agrees(r, ParseComparator(old(State())), State())
    {
      hide Drop, Lex, ParseVersion;
      var op := Equal;
      if current.Op? {
        op := current.op;
        var p := AdvanceToken(true);
        if p.Hung? {
          return NeverReturns;
        }
      }
      var v := TakeVersion();
      r := if v.Took? then Took(Comparator(op, v.value)) else Passed(v);
    }

    method Satisfies(v: Version, includePrerelease: bool) returns (r: Taken<bool>)
      modifies this`pos, this`current
      ensures Agrees(r, EvalRange(old(State()), v, includePrerelease), State())
    {
      hide Drop, Lex, ParseComparator, Holds;
      if current.Stuck? {
        // The constructor has not returned.
        return NeverReturns;
      }
      ghost var start := State();
      var again := true;
      while again
        invariant again ==> !current.Stuck?
        invariant if again then EvalRange(State(), v, includePrerelease) == EvalRange(start, v, includePrerelease)
                  else EvalRange(start, v, includePrerelease) == Parsed(false, State())
        decreases again, |Rest()|
      {
        ghost var round := State();
        if current.LogicalOr? {
          var p := AdvanceToken(true);
          if p.Hung? {
            return NeverReturns;
          }
        }
        ghost var alternative := State();
        var contains, allowCompare := true, includePrerelease;
        while contains && StartsComparator(current)
          invariant |Rest()| <= |alternative.rest|
          invariant contains ==>
            EvalAlternative(State(), v, allowCompare) == EvalAlternative(alternative, v, includePrerelease)
          invariant !contains ==>
            EvalAlternative(alternative, v, includePrerelease) == Parsed(Verdict(false, allowCompare), State())
          decreases contains, |Rest()|
        {
          var c := TakeComparator();
          if !c.Took? {
            return Passed(c);
          }
          if HasPrerelease(v) && SameTriple(c.value.version, v) {
            allowCompare := true;
          }
          if !Holds(c.value, v) {
            contains := false;
          }
        }
        if contains && (!HasPrerelease(v) || allowCompare) {
          return Took(true);
        }
        again := current.LogicalOr?;
      }
      r := Took(false);
    }
  }

  /** An exception, or a call that does not end, passed on to the caller. */
  function Passed<T, U>(t: Taken<T>): Taken<U>
    requires !t.Took?
  {
    if t.Threw? then Threw else NeverReturns
  }
}
