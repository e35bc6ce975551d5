/** Versions of include/util/semver.hpp: the printer, which fills a buffer from its end, the
    parser, and the order. A text still to be read is the suffix that starts at the parser's
    position. The parser is followed as far as it reads the text; signed 32-bit arithmetic wraps. */
module Semver {

  import opened Wrappers
  import opened Decimal

  type uint16 = v: int | 0 <= v < 0x1_0000

  datatype Prerelease = Alpha | Beta | Rc | NoPrerelease

  datatype Version = Version(major: uint16, minor: uint16, patch: uint16,
                             prerelease: Prerelease, number: Option<uint16>)

  /** What the constructors establish: no prerelease, no prerelease number. */
  predicate Normal(v: Version) {
    v.prerelease.NoPrerelease? ==> v.number.None?
  }

  // ---------------------------------------------------------------- the text of a version

  function Name(p: Prerelease): string {
    match p
    case Alpha => "alpha"
    case Beta => "beta"
    case Rc => "rc"
    case NoPrerelease => ""
  }

  function NumberText(n: Option<uint16>): string {
    if n.Some? then "." + Digits(n.value) else ""
  }

  function PrereleaseText(v: Version): string {
    if v.prerelease.NoPrerelease? then "" else "-" + Name(v.prerelease) + NumberText(v.number)
  }

  function Print(v: Version): string {
    Digits(v.major) + "." + Digits(v.minor) + "." + Digits(v.patch) + PrereleaseText(v)
  }

  /** The names are printed in small letters. */
  lemma PrintedText(v: Version)
    ensures var number := if v.number.Some? then "." + Digits(v.number.value) else "";
      var front := Digits(v.major) + "." + Digits(v.minor) + "." + Digits(v.patch);
      Print(v) == front + match v.prerelease
                          case Alpha => "-alpha" + number
                          case Beta => "-beta" + number
                          case Rc => "-rc" + number
                          case NoPrerelease => ""
  {
  }

  // ---------------------------------------------------------------- string_length

  function Length(x: uint16): nat {
    if x < 10 then 1 else if x < 100 then 2 else if x < 1000 then 3 else if x < 10000 then 4 else 5
  }

  lemma LengthIsDigits(x: uint16)
    ensures Length(x) == |Digits(x)| <= 5
  {
    assert Power10(1) == 10 && Power10(2) == 100 && Power10(3) == 1000 by {
      assert Power10(0) == 1;
    }
    assert Power10(4) == 10000 && Power10(5) == 100000;
    DigitCount(x, Length(x));
  }

  function StringLength(v: Version): nat {
    Length(v.major) + Length(v.minor) + Length(v.patch) + 2
    + if v.prerelease.NoPrerelease? then 0
      else |Name(v.prerelease)| + 1 + if v.number.Some? then Length(v.number.value) + 1 else 0
  }

  /** string_length is the length of the text, and at most 29. */
  lemma StringLengthIsExact(v: Version)
    ensures StringLength(v) == |Print(v)| <= 29
  {
    LengthIsDigits(v.major);
    LengthIsDigits(v.minor);
    LengthIsDigits(v.patch);
    if v.number.Some? { LengthIsDigits(v.number.value); }
  }

  // ---------------------------------------------------------------- to_chars

  /** `text` in the buffer, ending before `end`, everything else as it was. */
  ghost predicate FilledBefore(was: seq<char>, now: seq<char>, end: nat, text: string) {
    |text| <= end <= |was| && now == was[..end - |text|] + text + was[end..]
  }

  lemma FillFurther(was: seq<char>, mid: seq<char>, now: seq<char>, end: nat, text: string, front: string)
    requires FilledBefore(was, mid, end, text)
    requires FilledBefore(mid, now, end - |text|, front)
    ensures FilledBefore(was, now, end, front + text)
  {
  }

  method PutChar(buffer: array<char>, str: nat, c: char) returns (next: nat)
    requires 1 <= str <= buffer.Length
    modifies buffer
    ensures next == str - 1 && FilledBefore(old(buffer[..]), buffer[..], str, [c])
  {
    next := str - 1;
    buffer[next] := c;
  }

  /** The digits of a number, last one first, and then a dot if wanted. */
  method PutNumber(buffer: array<char>, str: nat, x: uint16, dot: bool) returns (next: nat)
    requires |Digits(x)| + (if dot then 1 else 0) <= str <= buffer.Length
    modifies buffer
    ensures var text := (if dot then "." else "") + Digits(x);
      next == str - |text| && FilledBefore(old(buffer[..]), buffer[..], str, text)
  {
    hide FilledBefore, Digits;
    ghost var was, text := buffer[..], "";
    next := str;
    assert Digits(x) + "" == Digits(x);
    var left: nat := x;
    var again := true;
    assert FilledBefore(was, buffer[..], str, "") by { NothingFilled(was, str); }
    while again
      invariant Digits(x) == (if again then Digits(left) else "") + text
      invariant next == str - |text|
      invariant FilledBefore(was, buffer[..], str, text)
      decreases again, left
    {
      ghost var mid := buffer[..];
      var digit := DigitChar(left % 10);
      LastDigit(left, text);
      next := PutChar(buffer, next, digit);
      FillFurther(was, mid, buffer[..], str, text, [digit]);
      text := [digit] + text;
      again := left / 10 != 0;
      left := left / 10;
    }
    if dot {
      ghost var mid := buffer[..];
      next := PutChar(buffer, next, '.');
      FillFurther(was, mid, buffer[..], str, text, ".");
      text := "." + text;
    }
    assert text == (if dot then "." else "") + Digits(x);
  }

  /** The last digit joins what is written; the others are still to be. */
  lemma LastDigit(n: nat, text: string)
    ensures Digits(n) + text ==
      (if n / 10 != 0 then Digits(n / 10) else "") + ([DigitChar(n % 10)] + text)
    ensures |Digits(n)| >= 1
  {
  }

  lemma NothingFilled(was: seq<char>, end: nat)
    requires end <= |was|
    ensures FilledBefore(was, was, end, "")
  {
  }

  /** "-" and the name of the prerelease, from its last letter back. */
  method PutPrerelease(buffer: array<char>, str: nat, p: Prerelease) returns (next: nat)
    requires |Name(p)| + 1 <= str <= buffer.Length
    modifies buffer
    ensures var text := if p.NoPrerelease? then "" else "-" + Name(p);
      next == str - |text| && FilledBefore(old(buffer[..]), buffer[..], str, text)
  {
    hide FilledBefore;
    var name := Name(p);
    ghost var was := buffer[..];
    next := str;
    assert FilledBefore(was, buffer[..], str, "") by { NothingFilled(was, str); }
    if |name| > 0 {
      var i := |name|;
      assert name[i..] == "";
      while i > 0
        invariant 0 <= i <= |name| && next == str - (|name| - i)
        invariant FilledBefore(was, buffer[..], str, name[i..])
      {
        i := i - 1;
        ghost var mid := buffer[..];
        next := PutChar(buffer, next, name[i]);
        FillFurther(was, mid, buffer[..], str, name[i + 1..], [name[i]]);
        assert name[i..] == [name[i]] + name[i + 1..];
      }
      ghost var mid := buffer[..];
      next := PutChar(buffer, next, '-');
      FillFurther(was, mid, buffer[..], str, name, "-");
    }
  }

  /** Fills `string_length` bytes from `first` on, last part first, if they fit before `last`. */
  method ToChars(v: Version, buffer: array<char>, first: nat, last: nat) returns (ok: bool, end: nat)
    requires first <= last <= buffer.Length
    modifies buffer
    ensures ok <==> first + |Print(v)| <= last
    ensures ok ==> end == first + |Print(v)| && end - first <= 29
    ensures ok ==> buffer[..] == old(buffer[..])[..first] + Print(v) + old(buffer[..])[end..]
    ensures !ok ==> end == last && buffer[..] == old(buffer[..])
  {
    hide FilledBefore, Digits, PrereleaseText;
    var length := StringLength(v);
    StringLengthIsExact(v);
    if last - first < length {
      return false, last;
    }
    end := first + length;
    var next := end;
    ghost var was, text := buffer[..], "";
    next := PutTail(buffer, next, v);
    text := PrereleaseText(v);
    next, text := PutNext(buffer, was, end, text, next, v.patch, true);
    next, text := PutNext(buffer, was, end, text, next, v.minor, true);
    next, text := PutNext(buffer, was, end, text, next, v.major, false);
    assert text == Print(v);
    assert next == first;
    FilledMeans(was, buffer[..], end, text);
    ok := true;
  }

  /** The prerelease part, if there is one. */
  method PutTail(buffer: array<char>, end: nat, v: Version) returns (next: nat)
    requires |PrereleaseText(v)| <= end <= buffer.Length
    modifies buffer
    ensures next == end - |PrereleaseText(v)|
    ensures FilledBefore(old(buffer[..]), buffer[..], end, PrereleaseText(v))
  {
    hide FilledBefore, Digits, Name;
    next := end;
    ghost var was, text := buffer[..], "";
    assert FilledBefore(was, buffer[..], end, "") by { NothingFilled(was, end); }
    if v.prerelease != NoPrerelease {
      if v.number.Some? {
        next := PutNumber(buffer, next, v.number.value, true);
        text := "." + Digits(v.number.value);
      }
      assert PrereleaseText(v) == "-" + Name(v.prerelease) + text;
      ghost var mid := buffer[..];
      next := PutPrerelease(buffer, next, v.prerelease);
      FillFurther(was, mid, buffer[..], end, text, "-" + Name(v.prerelease));
    }
  }

  method PutNext(buffer: array<char>, ghost was: seq<char>, ghost end: nat, ghost text: string,
                 str: nat, x: uint16, dot: bool)
    returns (next: nat, ghost longer: string)
    requires FilledBefore(was, buffer[..], end, text) && str == end - |text|
    requires |Digits(x)| + (if dot then 1 else 0) <= str
    modifies buffer
    ensures longer == (if dot then "." else "") + Digits(x) + text
    ensures FilledBefore(was, buffer[..], end, longer) && next == end - |longer|
  {
    ghost var mid := buffer[..];
    next := PutNumber(buffer, str, x, dot);
    FillFurther(was, mid, buffer[..], end, text, (if dot then "." else "") + Digits(x));
    longer := (if dot then "." else "") + Digits(x) + text;
  }

  lemma FilledMeans(was: seq<char>, now: seq<char>, end: nat, text: string)
    requires FilledBefore(was, now, end, text)
    ensures now == was[..end - |text|] + text + was[end..]
  {
  }

  // ---------------------------------------------------------------- from_chars

  datatype Read<T> = Read(value: T, count: nat) | NoMatch

  /** A signed 32-bit number wraps. */
  function Signed32(x: int): (r: int)
    ensures -0x8000_0000 <= r < 0x8000_0000
  {
    (x + 0x8000_0000) % 0x1_0000_0000 - 0x8000_0000
  }

  lemma SameSigned(x: int, y: int, q: int)
    requires x == y + q * 0x1_0000_0000
    ensures Signed32(x) == Signed32(y)
  {
    var d := x + 0x8000_0000;
    var r := d % 0x1_0000_0000;
    assert d == d / 0x1_0000_0000 * 0x1_0000_0000 + r;
    var e := d / 0x1_0000_0000 - q;
    assert y + 0x8000_0000 == e * 0x1_0000_0000 + r;
  }

  /** The wrapped accumulator is the true one, wrapped. */
  lemma SignedStep(x: int, d: int)
    ensures Signed32(Signed32(x) * 10 + d) == Signed32(10 * x + d)
  {
    var q := (x + 0x8000_0000) / 0x1_0000_0000;
    assert Signed32(x) == x - q * 0x1_0000_0000;
    SameSigned(10 * x + d, Signed32(x) * 10 + d, 10 * q);
  }

  /** The number that a text starts with. The accumulator wraps before it is compared with the
      largest number of sixteen bits, and only its low sixteen bits are kept. */
  function ReadNumber(s: string): (r: Read<uint16>)
    ensures r.Read? ==> 1 <= r.count <= |s|
  {
    var k := DigitRun(s);
    if k > 0 && Signed32(Value(s[..k])) <= 0xFFFF then Read(Value(s[..k]) % 0x1_0000, k) else NoMatch
  }

  /** A run of digits is read as its value if and only if that fits sixteen bits. Below 2^31 any other
      is refused; from there on a wrong number may be read. */
  lemma NumberIsReadRight(s: string)
    requires DigitRun(s) > 0
    ensures var value := Value(s[..DigitRun(s)]);
      && (ReadNumber(s).Read? && ReadNumber(s).value == value <==> value <= 0xFFFF)
      && (value < 0x8000_0000 ==> (ReadNumber(s).Read? <==> value <= 0xFFFF))
  {
    var value := Value(s[..DigitRun(s)]);
    if value < 0x8000_0000 { assert Signed32(value) == value; }
  }

  /** For instance the text of 2^32 is read as zero. */
  lemma TwoToThe32ReadsAsZero()
    ensures var s := Digits(0x1_0000_0000); Value(s[..DigitRun(s)]) == 0x1_0000_0000 && ReadNumber(s) == Read(0, |s|)
  {
    hide Digits, Value;
    var s := Digits(0x1_0000_0000);
    DigitsRoundTrip(0x1_0000_0000);
    assert s[..|s|] == s;
    RunEnds(s, |s|);
  }

  method ReadNumberAt(text: string, first: nat) returns (r: Read<uint16>)
    requires first <= |text|
    ensures r == ReadNumber(text[first..])
  {
    if first != |text| && IsDigit(text[first]) {
      var t, at := 0, first;
      while at != |text| && IsDigit(text[at])
        invariant first <= at <= |text|
        invariant AllDigits(text[first..at]) && t == Signed32(Value(text[first..at]))
      {
        assert text[first..at + 1] == text[first..at] + [text[at]];
        SignedStep(Value(text[first..at]), DigitValue(text[at]));
        t := Signed32(t * 10 + DigitValue(text[at]));
        at := at + 1;
      }
      assert text[first..][..at - first] == text[first..at];
      assert at < |text| ==> text[first..][at - first] == text[at];
      RunEnds(text[first..], at - first);
      if t <= 0xFFFF {
        LowSixteen(Value(text[first..at]));
        return Read(t % 0x1_0000, at - first);
      }
    }
    return NoMatch;
  }

  lemma LowSixteen(x: int)
    ensures Signed32(x) % 0x1_0000 == x % 0x1_0000
  {
    var q := (x + 0x8000_0000) / 0x1_0000_0000;
    assert Signed32(x) == x - q * 0x1_0000_0000;
    SameLowBits(Signed32(x), x, q * 0x1_0000);
  }

  lemma SameLowBits(y: int, x: int, k: int)
    requires x == y + k * 0x1_0000
    ensures y % 0x1_0000 == x % 0x1_0000
  {
    var d := y / 0x1_0000;
    assert y == d * 0x1_0000 + y % 0x1_0000;
    assert x == (d + k) * 0x1_0000 + y % 0x1_0000;
  }

  function ToLower(c: char): char {
    if 'A' <= c <= 'Z' then c - 'A' + 'a' else c
  }

  /** Equal as far as the shorter of the two goes, ignoring case. */
  predicate EqualPrefix(s: string, name: string) {
    forall i :: 0 <= i < |s| && i < |name| ==> ToLower(s[i]) == ToLower(name[i])
  }

  method Equals(text: string, first: nat, name: string) returns (equal: bool)
    requires first <= |text|
    ensures equal <==> EqualPrefix(text[first..], name)
  {
    var i := 0;
    while first + i != |text| && i < |name|
      invariant i <= |name| && first + i <= |text|
      invariant forall j :: 0 <= j < i ==> ToLower(text[first..][j]) == ToLower(name[j])
    {
      if ToLower(text[first + i]) != ToLower(name[i]) {
        assert text[first..][i] == text[first + i];
        return false;
      }
      i := i + 1;
    }
    return true;
  }

  /** The count may reach past the end: an abbreviated name matches. */
  function ReadName(s: string): Read<Prerelease> {
    if EqualPrefix(s, Name(Alpha)) then Read(Alpha, 5)
    else if EqualPrefix(s, Name(Beta)) then Read(Beta, 4)
    else if EqualPrefix(s, Name(Rc)) then Read(Rc, 2)
    else NoMatch
  }

  method ReadNameAt(text: string, first: nat) returns (r: Read<Prerelease>)
    requires first <= |text|
    ensures r == ReadName(text[first..])
  {
    var equal := Equals(text, first, "alpha");
    if equal { return Read(Alpha, 5); }
    equal := Equals(text, first, "beta");
    if equal { return Read(Beta, 4); }
    equal := Equals(text, first, "rc");
    if equal { return Read(Rc, 2); }
    return NoMatch;
  }

  predicate Delimited(s: string, d: char) {
    s != "" && s[0] == d
  }

  function Drop(s: string, n: nat): (r: string)
    ensures |r| <= |s| && (n > 0 && s != "" ==> |r| < |s|)
  {
    if |s| <= n then "" else s[n..]
  }

  function ParseNumber(s: string): Option<uint16> {
    var n := ReadNumber(s);
    if n.Read? && n.count == |s| then Some(n.value) else None
  }

  /** What from_chars makes of a text; or it looks at what is behind the text. */
  datatype Parsing = Accepted(version: Version) | Refused | ReadsOn

  /** What follows the patch number. */
  function ParsePrerelease(major: uint16, minor: uint16, patch: uint16, s: string): Parsing {
    if s == "" then Accepted(Version(major, minor, patch, NoPrerelease, None))
    else if !Delimited(s, '-') then Refused
    else
      var name := ReadName(s[1..]);
      if name.NoMatch? then Refused
      else if 1 + name.count == |s| then Accepted(Version(major, minor, patch, name.value, None))
      else if 1 + name.count > |s| then ReadsOn
      else
        var rest := s[1 + name.count..];
        if !Delimited(rest, '.') then Refused
        else
          var n := ParseNumber(rest[1..]);
          if n.Some? then Accepted(Version(major, minor, patch, name.value, n)) else Refused
  }

  /** A number and the dot after it. */
  function ReadNumberDot(s: string): (r: Read<uint16>)
    ensures r.Read? ==> r.count <= |s|
  {
    var n := ReadNumber(s);
    if n.NoMatch? || !Delimited(s[n.count..], '.') then NoMatch else Read(n.value, n.count + 1)
  }

  function ParsePatch(major: uint16, minor: uint16, s: string): Parsing {
    var patch := ReadNumber(s);
    if patch.NoMatch? then Refused else ParsePrerelease(major, minor, patch.value, s[patch.count..])
  }

  function ParseMinor(major: uint16, s: string): Parsing {
    var minor := ReadNumberDot(s);
    if minor.NoMatch? then Refused else ParsePatch(major, minor.value, s[minor.count..])
  }

  function Parse(s: string): Parsing {
    if |s| < 5 then Refused
    else
      var major := ReadNumberDot(s);
      if major.NoMatch? then Refused else ParseMinor(major.value, s[major.count..])
  }

  // ---------------------------------------------------------------- the texts that are accepted

  /** A name in small letters, capitals or both, as far as the text goes. */
  ghost predicate Spelled(s: string, small: string, capital: string)
    requires |small| == |capital|
  {
    forall i :: 0 <= i < |s| && i < |small| ==> s[i] == small[i] || s[i] == capital[i]
  }

  lemma SpelledIsEqual(s: string)
    ensures EqualPrefix(s, Name(Alpha)) <==> Spelled(s, "alpha", "ALPHA")
    ensures EqualPrefix(s, Name(Beta)) <==> Spelled(s, "beta", "BETA")
    ensures EqualPrefix(s, Name(Rc)) <==> Spelled(s, "rc", "RC")
  {
  }

  /** Digits whose value, accumulated in 32 bits, is not above 65535; the low sixteen bits count. */
  ghost predicate ReadsAs(s: string, n: uint16) {
    && s != "" && (forall i :: 0 <= i < |s| ==> '0' <= s[i] <= '9')
    && exists wrapped :: WrapsTo(Value(s), wrapped) && wrapped <= 65535 && n == wrapped % 65536
  }

  /** The same number in 32 bits with a sign. */
  ghost predicate WrapsTo(value: int, wrapped: int) {
    -0x8000_0000 <= wrapped < 0x8000_0000 && (value - wrapped) % 0x1_0000_0000 == 0
  }

  lemma ReadsAsItself(s: string)
    requires s != "" && AllDigits(s) && Value(s) <= 65535
    ensures ReadsAs(s, Value(s))
  {
    assert WrapsTo(Value(s), Value(s));
  }

  lemma ReadsAsItsNumber(s: string, rest: string, n: uint16)
    requires ReadsAs(s, n) && (rest == "" || !IsDigit(rest[0]))
    ensures ReadNumber(s + rest) == Read(n, |s|)
  {
    var t := s + rest;
    assert t[..|s|] == s;
    RunEnds(t, |s|);
    var wrapped :| WrapsTo(Value(s), wrapped) && wrapped <= 65535 && n == wrapped % 65536;
    SameSigned(Value(s), wrapped, (Value(s) - wrapped) / 0x1_0000_0000);
    LowSixteen(Value(s));
  }

  lemma ReadsAsWhatIsRead(s: string)
    requires ReadNumber(s).Read?
    ensures var r := ReadNumber(s);
      && ReadsAs(s[..r.count], r.value) && (r.count < |s| ==> !IsDigit(s[r.count]))
      && s == s[..r.count] + s[r.count..]
  {
    var k := DigitRun(s);
    var value := Value(s[..k]);
    LowSixteen(value);
    var q := (value + 0x8000_0000) / 0x1_0000_0000;
    assert value == Signed32(value) + q * 0x1_0000_0000;
    assert WrapsTo(value, Signed32(value));
  }

  /** A hyphen and a full prerelease name, then nothing or a dot and a number. */
  ghost predicate NameAndNumber(s: string, small: string, capital: string, number: Option<uint16>)
    requires |small| == |capital|
  {
    && |s| >= 1 + |small| && s[0] == '-' && Spelled(s[1..], small, capital)
    && if number.None? then |s| == 1 + |small|
       else |s| > 1 + |small| && s[1 + |small|] == '.' && ReadsAs(s[2 + |small|..], number.value)
  }

  ghost predicate TailText(s: string, p: Prerelease, number: Option<uint16>) {
    match p
    case NoPrerelease => s == "" && number.None?
    case Alpha => NameAndNumber(s, "alpha", "ALPHA", number)
    case Beta => NameAndNumber(s, "beta", "BETA", number)
    case Rc => NameAndNumber(s, "rc", "RC", number)
  }

  lemma WholeNumber(s: string, n: uint16)
    ensures ParseNumber(s) == Some(n) <==> ReadsAs(s, n)
  {
    if ParseNumber(s) == Some(n) {
      ReadsAsWhatIsRead(s);
      assert s[..|s|] == s;
    }
    if ReadsAs(s, n) {
      ReadsAsItsNumber(s, "", n);
      assert s + "" == s;
    }
  }

  lemma TailIsRead(major: uint16, minor: uint16, patch: uint16, s: string, v: Version)
    ensures ParsePrerelease(major, minor, patch, s) == Accepted(v) <==>
      v.major == major && v.minor == minor && v.patch == patch && TailText(s, v.prerelease, v.number)
  {
    hide EqualPrefix, Spelled, ParseNumber, ReadsAs;
    if s != "" {
      var t := s[1..];
      SpelledIsEqual(t);
      if t != "" { OneName(t); }
      if v.number.Some? {
        forall n: nat | n <= |s| ensures ParseNumber(s[n..]) == v.number <==> ReadsAs(s[n..], v.number.value) {
          WholeNumber(s[n..], v.number.value);
        }
      }
    }
  }

  lemma OneName(t: string)
    requires t != ""
    ensures Spelled(t, "alpha", "ALPHA") ==> !Spelled(t, "beta", "BETA") && !Spelled(t, "rc", "RC")
    ensures Spelled(t, "beta", "BETA") ==> !Spelled(t, "rc", "RC")
  {
    assert "alpha"[0] == 'a' && "ALPHA"[0] == 'A' && "beta"[0] == 'b' && "BETA"[0] == 'B';
    assert "rc"[0] == 'r' && "RC"[0] == 'R';
  }

  // ---------------------------------------------------------------- when from_chars looks behind the text

  /** A hyphen and a prerelease name that is cut short, if only to nothing. */
  ghost predicate CutName(s: string) {
    Delimited(s, '-')
    && exists p: Prerelease :: !p.NoPrerelease? && |s| - 1 < |Name(p)| && EqualPrefix(s[1..], Name(p))
  }

  lemma CutNamesReadOn(major: uint16, minor: uint16, patch: uint16, s: string)
    ensures ParsePrerelease(major, minor, patch, s).ReadsOn? <==> CutName(s)
  {
    if Delimited(s, '-') {
      var t := s[1..];
      assert EqualPrefix(t, Name(Alpha)) || EqualPrefix(t, Name(Beta)) || EqualPrefix(t, Name(Rc))
        || ReadName(t).NoMatch?;
      if t != "" {
        assert EqualPrefix(t, "alpha") ==> ToLower(t[0]) == 'a';
        assert EqualPrefix(t, "beta") ==> ToLower(t[0]) == 'b';
        assert EqualPrefix(t, "rc") ==> ToLower(t[0]) == 'r';
      }
    }
  }

  /** The three numbers that a text starts with, and what is behind them. */
  datatype Numbers = Numbers(major: uint16, minor: uint16, patch: uint16, rest: string) | NoNumbers

  function ReadNumbers(s: string): Numbers {
    var major := ReadNumberDot(s);
    if major.NoMatch? then NoNumbers
    else
      var s1 := s[major.count..];
      var minor := ReadNumberDot(s1);
      if minor.NoMatch? then NoNumbers
      else
        var s2 := s1[minor.count..];
        var patch := ReadNumber(s2);
        if patch.NoMatch? then NoNumbers
        else Numbers(major.value, minor.value, patch.value, s2[patch.count..])
  }

  lemma ParseByNumbers(s: string)
    ensures Parse(s) ==
      if |s| < 5 || ReadNumbers(s).NoNumbers? then Refused
      else
        var n := ReadNumbers(s);
        ParsePrerelease(n.major, n.minor, n.patch, n.rest)
    ensures ReadNumbers(s).Numbers? ==>
      var rest := ReadNumbers(s).rest; |rest| + 5 <= |s| && rest == s[|s| - |rest|..]
  {
    hide ReadNumber, ParsePrerelease;
  }

  ghost predicate VersionText(s: string, a: string, b: string, c: string, tail: string, v: Version) {
    && s == a + ("." + (b + ("." + (c + tail)))) && ReadsAs(a, v.major) && ReadsAs(b, v.minor) && ReadsAs(c, v.patch)
    && TailText(tail, v.prerelease, v.number)
  }

  lemma NumberDotIsRead(a: string, rest: string, n: uint16)
    requires ReadsAs(a, n)
    ensures ReadNumberDot(a + ("." + rest)) == Read(n, |a| + 1) && (a + ("." + rest))[|a| + 1..] == rest
  {
    hide ReadNumber, ReadsAs;
    ReadsAsItsNumber(a, "." + rest, n);
    assert (a + ("." + rest))[|a|..] == "." + rest;
  }

  lemma NumberDotSplits(s: string)
    requires ReadNumberDot(s).Read?
    ensures var r := ReadNumberDot(s);
      1 <= r.count <= |s| && ReadsAs(s[..r.count - 1], r.value) && s == s[..r.count - 1] + ("." + s[r.count..])
  {
    hide ReadNumber, ReadsAs;
    ReadsAsWhatIsRead(s);
    var k := ReadNumber(s).count;
    assert s[k..] == "." + s[k + 1..];
  }

  lemma ReadsAsIsLong(s: string, n: uint16)
    requires ReadsAs(s, n)
    ensures |s| >= 1
  {
  }

  lemma TailStarts(tail: string, p: Prerelease, number: Option<uint16>)
    requires TailText(tail, p, number)
    ensures tail == "" || tail[0] == '-'
  {
  }

  /** A text is accepted as a version exactly if it is three numbers with dots between them and, with
      a prerelease, a hyphen and its name, in full and in any case, and a number behind a dot if there
      is one. */
  lemma AcceptedWhen(s: string, v: Version)
    ensures Parse(s) == Accepted(v) <==> exists a, b, c, tail :: VersionText(s, a, b, c, tail, v)
  {
    hide Parse, ReadNumbers, ParsePrerelease, ReadsAs, TailText, ReadNumber, ReadNumberDot;
    ParseByNumbers(s);
    var n := ReadNumbers(s);
    if Parse(s).Accepted? {
      var a, b, c := NumbersSplit(s);
      TailIsRead(n.major, n.minor, n.patch, n.rest, v);
      if Parse(s) == Accepted(v) { assert VersionText(s, a, b, c, n.rest, v); }
    }
    if a, b, c, tail :| VersionText(s, a, b, c, tail, v) {
      TailStarts(tail, v.prerelease, v.number);
      NumbersAreRead(a, b, c, tail, v.major, v.minor, v.patch);
      ReadsAsIsLong(a, v.major);
      ReadsAsIsLong(b, v.minor);
      ReadsAsIsLong(c, v.patch);
      TailIsRead(v.major, v.minor, v.patch, tail, v);
    }
  }

  lemma NumbersSplit(s: string) returns (a: string, b: string, c: string)
    requires ReadNumbers(s).Numbers?
    ensures var n := ReadNumbers(s);
      && s == a + ("." + (b + ("." + (c + n.rest))))
      && ReadsAs(a, n.major) && ReadsAs(b, n.minor) && ReadsAs(c, n.patch)
  {
    hide ReadNumber, ReadNumberDot, ReadsAs;
    NumberDotSplits(s);
    var major := ReadNumberDot(s);
    var s1 := s[major.count..];
    NumberDotSplits(s1);
    var minor := ReadNumberDot(s1);
    var s2 := s1[minor.count..];
    ReadsAsWhatIsRead(s2);
    a, b, c := s[..major.count - 1], s1[..minor.count - 1], s2[..ReadNumber(s2).count];
  }

  lemma NumbersAreRead(a: string, b: string, c: string, tail: string, x: uint16, y: uint16, z: uint16)
    requires ReadsAs(a, x) && ReadsAs(b, y) && ReadsAs(c, z) && (tail == "" || !IsDigit(tail[0]))
    ensures ReadNumbers(a + ("." + (b + ("." + (c + tail))))) == Numbers(x, y, z, tail)
  {
    hide ReadNumber, ReadNumberDot, ReadsAs;
    var s2 := c + tail;
    var s1 := b + ("." + s2);
    NumberDotIsRead(a, s1, x);
    NumberDotIsRead(b, s2, y);
    ReadsAsItsNumber(c, tail, z);
    assert s2[|c|..] == tail;
  }

  /** A hyphen ends a number as the end of the text does. */
  lemma NumberBeforeHyphen(front: string, back: string)
    requires Delimited(back, '-')
    ensures ReadNumber(front + back) == ReadNumber(front)
    ensures ReadNumberDot(front + back) == ReadNumberDot(front)
  {
    var t, n := front + back, DigitRun(front);
    assert t[..n] == front[..n] && t[n] == if n < |front| then front[n] else back[0];
    RunEnds(t, n);
    var r := ReadNumber(front);
    if r.Read? { assert t[r.count..] == front[r.count..] + back; }
  }

  lemma NumbersBeforeHyphen(front: string, back: string)
    requires Delimited(back, '-')
    ensures var n := ReadNumbers(front);
      ReadNumbers(front + back) == if n.NoNumbers? then NoNumbers else n.(rest := n.rest + back)
  {
    hide ReadNumber, ReadNumberDot;
    NumberBeforeHyphen(front, back);
    var major := ReadNumberDot(front);
    if major.Read? {
      var s1 := front[major.count..];
      assert (front + back)[major.count..] == s1 + back;
      NumberBeforeHyphen(s1, back);
      var minor := ReadNumberDot(s1);
      if minor.Read? {
        var s2 := s1[minor.count..];
        assert (s1 + back)[minor.count..] == s2 + back;
        NumberBeforeHyphen(s2, back);
        var patch := ReadNumber(s2);
        if patch.Read? { assert (s2 + back)[patch.count..] == s2[patch.count..] + back; }
      }
    }
  }

  /** A version that is accepted and has no prerelease. */
  ghost predicate Plain(s: string) {
    Parse(s).Accepted? && Parse(s).version.prerelease.NoPrerelease?
  }

  lemma PlainIsNumbers(s: string)
    ensures Plain(s) <==> |s| >= 5 && ReadNumbers(s).Numbers? && ReadNumbers(s).rest == ""
  {
    hide ReadNumber, ReadNumberDot, ReadNumbers, Parse;
    ParseByNumbers(s);
  }

  /** The parser looks behind a text if and only if the text is a version without prerelease and then
      a hyphen with a prerelease name that is cut short. */
  lemma LooksBehindWhen(s: string)
    ensures Parse(s).ReadsOn? <==> exists k :: 0 <= k <= |s| && Plain(s[..k]) && CutName(s[k..])
  {
    hide Parse, ReadNumbers, ParsePrerelease, CutName, Plain;
    ParseByNumbers(s);
    var n := ReadNumbers(s);
    if Parse(s).ReadsOn? {
      CutNamesReadOn(n.major, n.minor, n.patch, n.rest);
      var k := |s| - |n.rest|;
      assert s == s[..k] + n.rest;
      CutNameStarts(n.rest);
      NumbersBeforeHyphen(s[..k], n.rest);
      PlainIsNumbers(s[..k]);
      assert Plain(s[..k]) && CutName(s[k..]);
    }
    if k :| 0 <= k <= |s| && Plain(s[..k]) && CutName(s[k..]) {
      assert s == s[..k] + s[k..];
      CutNameStarts(s[k..]);
      NumbersBeforeHyphen(s[..k], s[k..]);
      PlainIsNumbers(s[..k]);
      assert "" + s[k..] == s[k..];
      CutNamesReadOn(n.major, n.minor, n.patch, s[k..]);
    }
  }

  lemma CutNameStarts(s: string)
    requires CutName(s)
    ensures Delimited(s, '-')
  {
  }

  /** For instance behind 1.2.3-r. */
  lemma ShortNameIsReadPast()
    ensures Parse("1.2.3-r").ReadsOn?
  {
    hide Parse, ReadNumber, ParsePrerelease;
    var s, v := "1.2.3-r", Version(1, 2, 3, NoPrerelease, None);
    assert Digits(1) == "1" && Digits(2) == "2" && Digits(3) == "3";
    assert Print(v) == "1.2.3" == s[..5];
    VersionReadsBack(v);
    assert s[5..] == "-r" && "-r"[1..] == "r";
    assert EqualPrefix("r", Name(Rc));
    assert Plain(s[..5]) && CutName(s[5..]);
    LooksBehindWhen(s);
  }

  method ReadNumberDotAt(text: string, first: nat) returns (r: Read<uint16>)
    requires first <= |text|
    ensures r == ReadNumberDot(text[first..])
  {
    hide ReadNumber;
    r := ReadNumberAt(text, first);
    if r.Read? {
      var next := first + r.count;
      assert text[first..][r.count..] == text[next..];
      if !(next != |text| && text[next] == '.') {
        return NoMatch;
      }
      r := r.(count := r.count + 1);
    }
  }

  /** A version object, whose fields from_chars assigns one by one: a failed call may leave some
      of them changed. */
  class VersionObject {
    var major: uint16
    var minor: uint16
    var patch: uint16
    var prerelease: Prerelease
    var number: Option<uint16>

    function Value(): Version
      reads this
    {
      Version(major, minor, patch, prerelease, number)
    }

    constructor ()
      ensures Value() == Version(0, 1, 0, NoPrerelease, None)
    {
      major, minor, patch, prerelease, number := 0, 1, 0, NoPrerelease, None;
    }

    method FromChars(text: string) returns (r: Parsing)
      modifies this
      ensures r == Parse(text)
      ensures r.Accepted? ==> Value() == r.version
    {
      hide ReadNumber, ReadNumberDot, ParsePrerelease;
      if |text| < 5 {
        return Refused;
      }
      assert text[0..] == text;
      var n := ReadNumberDotAt(text, 0);
      if n.NoMatch? { return Refused; }
      major := n.value;
      var next := n.count;
      n := ReadNumberDotAt(text, next);
      if n.NoMatch? { return Refused; }
      minor := n.value;
      assert text[next..][n.count..] == text[next + n.count..];
      next := next + n.count;
      n := ReadNumberAt(text, next);
      if n.NoMatch? { return Refused; }
      patch := n.value;
      assert text[next..][n.count..] == text[next + n.count..];
      next := next + n.count;
      r := FromCharsPrerelease(text, next);
    }

    method FromCharsPrerelease(text: string, next: nat) returns (r: Parsing)
      requires next <= |text|
      modifies this`prerelease, this`number
      ensures r == ParsePrerelease(major, minor, patch, text[next..])
      ensures r.Accepted? ==> Value() == r.version
    {
      ghost var s := text[next..];
      if next == |text| {
        prerelease, number := NoPrerelease, None;
        return Accepted(Value());
      }
      if text[next] != '-' { return Refused; }
      assert s[1..] == text[next + 1..];
      var name := ReadNameAt(text, next + 1);
      if name.NoMatch? { return Refused; }
      prerelease := name.value;
      var end := next + 1 + name.count;
      if end == |text| {
        number := None;
        return Accepted(Value());
      }
      if end > |text| { return ReadsOn; }
      if text[end] != '.' { return Refused; }
      assert s[1 + name.count..] == text[end..];
      assert text[end..][1..] == text[end + 1..];
      var n := ReadNumberAt(text, end + 1);
      if n.NoMatch? { return Refused; }
      number := Some(n.value);
      r := if end + 1 + n.count == |text| then Accepted(Value()) else Refused;
    }
  }

  // ---------------------------------------------------------------- round trip

  predicate NoDigitAhead(s: string) {
    s == "" || !IsDigit(s[0])
  }

  lemma NumberReadsBack(n: uint16, rest: string)
    requires NoDigitAhead(rest)
    ensures ReadNumber(Digits(n) + rest) == Read(n, |Digits(n)|)
  {
    DigitsRoundTrip(n);
    var s := Digits(n) + rest;
    assert s[..|Digits(n)|] == Digits(n);
    RunEnds(s, |Digits(n)|);
  }

  lemma NameReadsBack(p: Prerelease, rest: string)
    requires !p.NoPrerelease?
    ensures ReadName(Name(p) + rest) == Read(p, |Name(p)|)
  {
    var s := Name(p) + rest;
    assert s[0] == Name(p)[0];
    assert forall i :: 0 <= i < |Name(p)| ==> s[i] == Name(p)[i];
    if p.Beta? || p.Rc? { assert ToLower(s[0]) != ToLower("alpha"[0]); }
    if p.Rc? { assert ToLower(s[0]) != ToLower("beta"[0]); }
  }

  lemma PrereleaseReadsBack(v: Version)
    requires Normal(v)
    ensures ParsePrerelease(v.major, v.minor, v.patch, PrereleaseText(v)) == Accepted(v)
  {
    hide ReadName, ReadNumber, Digits, Name;
    var s := PrereleaseText(v);
    if !v.prerelease.NoPrerelease? {
      var tail := NumberText(v.number);
      NameReadsBack(v.prerelease, tail);
      assert s[1..] == Name(v.prerelease) + tail;
      if v.number.Some? {
        assert s[1 + |Name(v.prerelease)|..] == tail;
        assert tail[1..] == Digits(v.number.value);
        NumberReadsBack(v.number.value, "");
        assert Digits(v.number.value) + "" == Digits(v.number.value);
      }
    }
  }

  lemma NumberDotReadsBack(n: uint16, rest: string)
    ensures var s := Digits(n) + "." + rest;
      && ReadNumberDot(s).Read? && ReadNumberDot(s).value == n
      && s[ReadNumberDot(s).count..] == rest
  {
    hide ReadNumber, Digits;
    var s := Digits(n) + "." + rest;
    NumberReadsBack(n, "." + rest);
    assert s == Digits(n) + ("." + rest);
    assert s[|Digits(n)|..] == "." + rest;
  }

  /** Parsing what was printed gives the same five fields. */
  lemma VersionReadsBack(v: Version)
    requires Normal(v)
    ensures Parse(Print(v)) == Accepted(v)
  {
    hide ReadNumber, ReadNumberDot, Digits, ParsePrerelease, PrereleaseText;
    var s, tail := Print(v), PrereleaseText(v);
    var s2 := Digits(v.patch) + tail;
    var s1 := Digits(v.minor) + "." + s2;
    assert s == Digits(v.major) + "." + s1;
    NumberDotReadsBack(v.major, s1);
    NumberDotReadsBack(v.minor, s2);
    StartsWithHyphen(v);
    NumberReadsBack(v.patch, tail);
    assert s2[|Digits(v.patch)|..] == tail;
    PrereleaseReadsBack(v);
  }

  lemma StartsWithHyphen(v: Version)
    ensures NoDigitAhead(PrereleaseText(v))
  {
  }

  // ---------------------------------------------------------------- the order

  function Rank(p: Prerelease): nat {
    match p case Alpha => 0 case Beta => 1 case Rc => 2 case NoPrerelease => 3
  }

  function Compare(a: Version, b: Version): int {
    if a.major != b.major then a.major - b.major
    else if a.minor != b.minor then a.minor - b.minor
    else if a.patch != b.patch then a.patch - b.patch
    else if a.prerelease != b.prerelease then Rank(a.prerelease) - Rank(b.prerelease)
    else if a.number.Some? then
      if b.number.Some? then a.number.value - b.number.value else 1
    else if b.number.Some? then -1
    else 0
  }

  /** compare is a total order on versions: zero only on equal ones, antisymmetric, transitive. */
  lemma CompareIsATotalOrder(a: Version, b: Version, c: Version)
    ensures Compare(a, b) == 0 <==> a == b
    ensures Compare(a, b) < 0 <==> Compare(b, a) > 0
    ensures Compare(a, b) <= 0 && Compare(b, c) <= 0 ==> Compare(a, c) <= 0
  {
    assert forall p, q :: Rank(p) == Rank(q) ==> p == q;
  }

  /** The fields in order of weight; an absent number comes before all numbers. */
  function Weights(v: Version): seq<int> {
    [v.major, v.minor, v.patch, Rank(v.prerelease), if v.number.Some? then 1 + v.number.value else 0]
  }

  predicate LexicographicallyLess(s: seq<int>, t: seq<int>)
    requires |s| == |t|
  {
    s != [] && (s[0] < t[0] || (s[0] == t[0] && LexicographicallyLess(s[1..], t[1..])))
  }

  /** compare is negative exactly when the fields, weightiest first, are lexicographically less;
      alpha, beta and rc come before the release. */
  lemma CompareIsLexicographic(a: Version, b: Version)
    ensures Compare(a, b) < 0 <==> LexicographicallyLess(Weights(a), Weights(b))
    ensures Rank(Alpha) < Rank(Beta) < Rank(Rc) < Rank(NoPrerelease)
  {
    assert forall p, q :: Rank(p) == Rank(q) ==> p == q;
    LessFrom(Weights(a), Weights(b), 4);
    LessFrom(Weights(a), Weights(b), 3);
    LessFrom(Weights(a), Weights(b), 2);
    LessFrom(Weights(a), Weights(b), 1);
    LessFrom(Weights(a), Weights(b), 0);
    assert Weights(a)[5..] == [] && Weights(a)[0..] == Weights(a) && Weights(b)[0..] == Weights(b);
  }

  lemma LessFrom(s: seq<int>, t: seq<int>, k: nat)
    requires |s| == |t| && k < |s|
    ensures LexicographicallyLess(s[k..], t[k..]) <==>
      s[k] < t[k] || (s[k] == t[k] && LexicographicallyLess(s[k + 1..], t[k + 1..]))
  {
    assert s[k..][1..] == s[k + 1..] && t[k..][1..] == t[k + 1..];
  }
}
