/** Peer addresses: the printer of src/discoverymgr/discovery_mgr.cpp and the parser of
    src/discoverymgr/election_mgr.cpp. */
module Multiaddr {

  import opened Wrappers
  import opened Decimal

  const INT_MIN := -0x8000_0000
  const INT_MAX := 0x7FFF_FFFF

  type int32 = v: int | INT_MIN <= v <= INT_MAX

  // ---------------------------------------------------------------- segments

  /** All slash-separated parts of a text, empty ones included. */
  function SplitSlash(s: string): (parts: seq<string>)
    ensures parts != []
  {
    if s == "" then [""]
    else
      var rest := SplitSlash(s[1..]);
      if s[0] == '/' then [""] + rest else [[s[0]] + rest[0]] + rest[1..]
  }

  function NonEmpty(parts: seq<string>): seq<string> {
    if parts == [] then []
    else (if parts[0] == "" then [] else [parts[0]]) + NonEmpty(parts[1..])
  }

  /** The segments of an address: its non-empty parts after the leading slash. */
  function Segments(addr: string): seq<string> {
    if addr == "" || addr[0] != '/' then [] else NonEmpty(SplitSlash(addr[1..]))
  }

  /** std::string_view::find: the first slash at or after `from`, or the length of the text. */
  function FindSlash(s: string, from: nat): (pos: nat)
    requires from <= |s|
    ensures from <= pos <= |s|
    ensures forall i :: from <= i < pos ==> s[i] != '/'
    ensures pos < |s| ==> s[pos] == '/'
    decreases |s| - from
  {
    if from == |s| || s[from] == '/' then from else FindSlash(s, from + 1)
  }

  ghost predicate SlashFree(s: string) {
    forall i :: 0 <= i < |s| ==> s[i] != '/'
  }

  lemma {:induction false} SplitFirst(part: string, rest: string)
    requires SlashFree(part)
    ensures SplitSlash(part + "/" + rest) == [part] + SplitSlash(rest)
    ensures SplitSlash(part) == [part]
  {
    if part == "" {
      assert part + "/" + rest == "/" + rest;
      assert ("/" + rest)[1..] == rest;
    } else {
      assert (part + "/" + rest)[1..] == part[1..] + "/" + rest;
      SplitFirst(part[1..], rest);
      assert [part[0]] + part[1..] == part;
    }
  }

  method MultiaddrSegments(addr: string) returns (segments: seq<string>)
    ensures segments == Segments(addr)
  {
    hide SplitSlash, NonEmpty, FindSlash;
    if |addr| == 0 || addr[0] != '/' {
      return [];
    }
    segments := [];
    var start := 1;
    var end: nat := FindSlash(addr, start);
    ghost var all := Segments(addr);
    hide Segments;
    assert all == segments + NonEmpty(SplitSlash(addr[start..]));
    while end < |addr|
      invariant 1 <= start <= |addr| && end == FindSlash(addr, start)
      invariant all == segments + NonEmpty(SplitSlash(addr[start..]))
      decreases |addr| - start
    {
      SplitAtSlash(addr, start, segments);
      if end > start {
        segments := segments + [addr[start..end]];
      }
      start := end + 1;
      end := FindSlash(addr, start);
    }
    LastPart(addr, start, segments);
    if start < |addr| {
      segments := segments + [addr[start..]];
    }
  }

  lemma SplitAtSlash(addr: string, start: nat, before: seq<string>)
    requires start <= |addr| && FindSlash(addr, start) < |addr|
    ensures var end := FindSlash(addr, start);
      before + NonEmpty(SplitSlash(addr[start..])) ==
        (if end > start then before + [addr[start..end]] else before) + NonEmpty(SplitSlash(addr[end + 1..]))
  {
    hide FindSlash;
    var end := FindSlash(addr, start);
    SplitFirst(addr[start..end], addr[end + 1..]);
    assert addr[start..] == addr[start..end] + "/" + addr[end + 1..];
    if end == start { assert before + [] == before; }
  }

  lemma LastPart(addr: string, start: nat, before: seq<string>)
    requires start <= |addr| && FindSlash(addr, start) == |addr|
    ensures before + NonEmpty(SplitSlash(addr[start..])) == if start < |addr| then before + [addr[start..]] else before
  {
    SplitFirst(addr[start..], "");
    if start == |addr| { assert before + [] == before; }
  }

  // ---------------------------------------------------------------- IPv4 addresses

  /** The alternatives of the regular expression for one number of an address. */
  predicate OctetText(s: string) {
    (|s| == 3 && s[0] == '1' && IsDigit(s[1]) && IsDigit(s[2]))
    || (|s| == 3 && s[0] == '2' && '0' <= s[1] <= '4' && IsDigit(s[2]))
    || (|s| == 3 && s[0] == '2' && s[1] == '5' && '0' <= s[2] <= '5')
    || (|s| == 2 && '1' <= s[0] <= '9' && IsDigit(s[1]))
    || (|s| == 1 && IsDigit(s[0]))
  }

  function FindDot(s: string): (pos: nat)
    ensures pos <= |s|
    ensures forall i :: 0 <= i < pos ==> s[i] != '.'
    ensures pos < |s| ==> s[pos] == '.'
  {
    if s == "" || s[0] == '.' then 0 else 1 + FindDot(s[1..])
  }

  /** Numbers with dots between them, `dots` in all. */
  predicate Octets(s: string, dots: nat) {
    var pos := FindDot(s);
    if dots == 0 then OctetText(s)
    else pos < |s| && OctetText(s[..pos]) && Octets(s[pos + 1..], dots - 1)
  }

  /** std::regex_match with the expression for an address. */
  predicate IsValidIpv4(s: string) {
    Octets(s, 3)
  }

  lemma OctetsStep(a: string, rest: string, dots: nat)
    requires OctetText(a)
    ensures Octets(a + "." + rest, dots + 1) <==> Octets(rest, dots)
  {
    var s := a + "." + rest;
    assert forall i :: 0 <= i < |a| ==> s[i] == a[i] != '.';
    assert s[|a|] == '.';
    assert FindDot(s) == |a|;
    assert s[..|a|] == a && s[|a| + 1..] == rest;
  }

  ghost predicate IsQuad(s: string, a: string, b: string, c: string, d: string) {
    OctetText(a) && OctetText(b) && OctetText(c) && OctetText(d) && s == a + "." + b + "." + c + "." + d
  }

  lemma FirstOctet(s: string, dots: nat) returns (a: string, rest: string)
    requires Octets(s, dots) && dots > 0
    ensures s == a + "." + rest && OctetText(a) && Octets(rest, dots - 1)
  {
    var pos := FindDot(s);
    a, rest := s[..pos], s[pos + 1..];
  }

  lemma Regroup(a: string, b: string, c: string, d: string)
    ensures a + "." + (b + "." + (c + "." + d)) == a + "." + b + "." + c + "." + d
  {
  }

  lemma QuadIsOctets(s: string, a: string, b: string, c: string, d: string)
    requires IsQuad(s, a, b, c, d)
    ensures IsValidIpv4(s)
  {
    hide OctetText, FindDot;
    OctetsStep(c, d, 0);
    OctetsStep(b, c + "." + d, 1);
    OctetsStep(a, b + "." + (c + "." + d), 2);
    Regroup(a, b, c, d);
  }

  /** What the expression says: three numbers each followed by a dot, and a fourth. */
  lemma ValidMeansFourNumbers(s: string)
    ensures IsValidIpv4(s) <==> exists a, b, c, d :: IsQuad(s, a, b, c, d)
  {
    hide OctetText, FindDot;
    if IsValidIpv4(s) {
      var a, s1 := FirstOctet(s, 3);
      var b, s2 := FirstOctet(s1, 2);
      var c, d := FirstOctet(s2, 1);
      Regroup(a, b, c, d);
      assert IsQuad(s, a, b, c, d);
    }
    forall a, b, c, d | IsQuad(s, a, b, c, d) ensures IsValidIpv4(s) {
      QuadIsOctets(s, a, b, c, d);
    }
  }

  lemma DigitsOfThree(n: nat)
    requires 100 <= n < 1000
    ensures Digits(n) == [DigitChar(n / 100), DigitChar(n / 10 % 10), DigitChar(n % 10)]
  {
    assert Digits(n / 10) == Digits(n / 10 / 10) + [DigitChar(n / 10 % 10)];
    assert Digits(n / 100) == [DigitChar(n / 100)];
  }

  lemma OctetValue(s: string) returns (n: nat)
    requires OctetText(s)
    ensures n < 256 && s == Digits(n)
  {
    if |s| == 1 {
      n := DigitValue(s[0]);
    } else if |s| == 2 {
      n := 10 * DigitValue(s[0]) + DigitValue(s[1]);
      assert n / 10 == DigitValue(s[0]) && n % 10 == DigitValue(s[1]);
    } else {
      n := 100 * DigitValue(s[0]) + 10 * DigitValue(s[1]) + DigitValue(s[2]);
      DigitsOfThree(n);
      assert n / 100 == DigitValue(s[0]) && n / 10 % 10 == DigitValue(s[1]) && n % 10 == DigitValue(s[2]);
    }
  }

  /** The expression accepts exactly the plain decimal texts of 0 to 255. */
  lemma OctetIsDecimal(s: string)
    ensures OctetText(s) <==> exists n: nat :: n < 256 && s == Digits(n)
  {
    if OctetText(s) {
      var n := OctetValue(s);
      assert n < 256 && s == Digits(n);
    }
    forall n: nat | n < 256 ensures OctetText(Digits(n)) {
      if n >= 100 { DigitsOfThree(n); }
    }
  }

  /** The dotted text of four numbers. */
  function Quad(a: nat, b: nat, c: nat, d: nat): string {
    Digits(a) + "." + Digits(b) + "." + Digits(c) + "." + Digits(d)
  }

  lemma QuadIsValid(a: nat, b: nat, c: nat, d: nat)
    requires a < 256 && b < 256 && c < 256 && d < 256
    ensures IsValidIpv4(Quad(a, b, c, d))
  {
    hide Digits, OctetText, IsValidIpv4;
    OctetIsDecimal(Digits(a));
    OctetIsDecimal(Digits(b));
    OctetIsDecimal(Digits(c));
    OctetIsDecimal(Digits(d));
    assert IsQuad(Quad(a, b, c, d), Digits(a), Digits(b), Digits(c), Digits(d));
    ValidMeansFourNumbers(Quad(a, b, c, d));
  }

  lemma QuadHasNoSlash(a: nat, b: nat, c: nat, d: nat)
    ensures SlashFree(Quad(a, b, c, d)) && Quad(a, b, c, d) != ""
  {
    hide Digits;
    DigitsRoundTrip(a);
    DigitsRoundTrip(b);
    DigitsRoundTrip(c);
    DigitsRoundTrip(d);
  }

  /** And nothing but such a text is valid. */
  lemma ValidIsQuad(s: string)
    ensures IsValidIpv4(s) <==> exists a: nat, b: nat, c: nat, d: nat ::
      a < 256 && b < 256 && c < 256 && d < 256 && s == Quad(a, b, c, d)
  {
    ValidMeansFourNumbers(s);
    if IsValidIpv4(s) {
      var a, b, c, d :| IsQuad(s, a, b, c, d);
      var k := OctetValue(a);
      var l := OctetValue(b);
      var m := OctetValue(c);
      var n := OctetValue(d);
      assert s == Quad(k, l, m, n);
    }
    forall a: nat, b: nat, c: nat, d: nat | a < 256 && b < 256 && c < 256 && d < 256
      ensures IsValidIpv4(Quad(a, b, c, d))
    {
      QuadIsValid(a, b, c, d);
    }
  }

  // ---------------------------------------------------------------- addresses

  datatype Number = Number(value: int32) | InvalidArgument | OutOfRange

  /** std::from_chars into an int: a minus sign and digits, and whatever follows is left alone. */
  function FromChars(s: string): Number {
    var t := if s != "" && s[0] == '-' then s[1..] else s;
    var k := DigitRun(t);
    if k == 0 then InvalidArgument
    else
      var v: int := if s[0] == '-' then 0 - Value(t[..k]) else Value(t[..k]);
      if INT_MIN <= v <= INT_MAX then Number(v) else OutOfRange
  }

  datatype HttpOverIpv4 = HttpOverIpv4(addr: string, port: int32)

  function FromSegments(segments: seq<string>): Option<HttpOverIpv4> {
    if |segments| != 2 && |segments| != 4 then None
    else if segments[0] != "ip4" then None
    else if !IsValidIpv4(segments[1]) then None
    else if |segments| == 4 && segments[2] == "http" then
      var n := FromChars(segments[3]);
      if n.Number? then Some(HttpOverIpv4(segments[1], n.value)) else None
    else Some(HttpOverIpv4(segments[1], 8080))
  }

  /** A minus sign or none, then digits, as many as there are. */
  ghost predicate StartsWithNumber(s: string, digits: string, rest: string, v: int) {
    && digits != "" && AllDigits(digits) && (rest == "" || !('0' <= rest[0] <= '9'))
    && ((s == digits + rest && v == Value(digits)) || (s == "-" + digits + rest && v == 0 - Value(digits)))
  }

  ghost predicate PortText(s: string, v: int) {
    exists digits, rest :: StartsWithNumber(s, digits, rest, v)
  }

  /** A text is read as a port exactly if it starts with a number that fits an int. */
  lemma PortIsReadWhen(s: string, v: int)
    ensures (FromChars(s).Number? && FromChars(s).value == v) <==>
      PortText(s, v) && -2147483648 <= v <= 2147483647
  {
    hide FromChars, StartsWithNumber;
    if FromChars(s).Number? && FromChars(s).value == v {
      var digits, rest := NumberAtStart(s, v);
    }
    if digits, rest :| -2147483648 <= v <= 2147483647 && StartsWithNumber(s, digits, rest, v) {
      NumberIsRead(s, digits, rest, v);
    }
  }

  lemma NumberAtStart(s: string, v: int32) returns (digits: string, rest: string)
    requires FromChars(s) == Number(v)
    ensures StartsWithNumber(s, digits, rest, v)
  {
    hide Value;
    var t := if s != "" && s[0] == '-' then s[1..] else s;
    var k := DigitRun(t);
    digits, rest := t[..k], t[k..];
    assert t == digits + rest;
    assert s[0] == '-' ==> s == "-" + t == "-" + digits + rest;
  }

  lemma NumberIsRead(s: string, digits: string, rest: string, v: int32)
    requires StartsWithNumber(s, digits, rest, v)
    ensures FromChars(s) == Number(v)
  {
    hide Value;
    var t := digits + rest;
    assert t[..|digits|] == digits && t[0] == digits[0];
    RunEnds(t, |digits|);
    if s[0] == '-' {
      assert s == "-" + t && s[1..] == t;
    }
  }

  /** Segments are an address exactly if they are two or four, the first is "ip4", the second is an
      address, and of four with "http" in the third place the last one starts with an int, which is
      the port; any other address has the port 8080. */
  lemma AddressIsReadWhen(segments: seq<string>)
    ensures FromSegments(segments).Some? <==>
      && (|segments| == 2 || |segments| == 4) && segments[0] == "ip4"
      && (exists a: nat, b: nat, c: nat, d: nat ::
            a < 256 && b < 256 && c < 256 && d < 256 && segments[1] == Quad(a, b, c, d))
      && (|segments| == 4 && segments[2] == "http" ==>
            exists v :: PortText(segments[3], v) && -2147483648 <= v <= 2147483647)
    ensures FromSegments(segments).Some? ==>
      var r := FromSegments(segments).value;
      && r.addr == segments[1]
      && if |segments| == 4 && segments[2] == "http" then PortText(segments[3], r.port) else r.port == 8080
  {
    hide IsValidIpv4, FromChars, Quad, PortText;
    if |segments| == 2 || |segments| == 4 {
      ValidIsQuad(segments[1]);
      if |segments| == 4 {
        forall v ensures (FromChars(segments[3]).Number? && FromChars(segments[3]).value == v) <==>
          PortText(segments[3], v) && -2147483648 <= v <= 2147483647
        {
          PortIsReadWhen(segments[3], v);
        }
        var n := FromChars(segments[3]);
        if n.Number? { PortIsReadWhen(segments[3], n.value); }
      }
    }
  }

  /** The address that make_pinfo writes for an IPv4 address and a port. */
  function PeerAddress(ip: string, port: int32): string {
    "/ip4/" + ip + if port != 8080 then "/http/" + IntText(port) else ""
  }

  lemma DigitsRead(n: nat)
    ensures var s := Digits(n);
      s != "" && IsDigit(s[0]) && SlashFree(s) && DigitRun(s) == |s| && s[..|s|] == s && Value(s) == n
  {
    DigitsRoundTrip(n);
    var s := Digits(n);
    assert s[..|s|] == s;
    RunEnds(s, |s|);
  }

  lemma IntReadsBack(n: int32)
    ensures FromChars(IntText(n)) == Number(n) && SlashFree(IntText(n)) && IntText(n) != ""
  {
    hide Digits, DigitRun;
    if n < 0 {
      DigitsRead(-(n as int));
      assert IntText(n)[1..] == Digits(-(n as int));
    } else {
      DigitsRead(n);
    }
  }

  lemma SegmentsOfTwo(a: string, b: string)
    requires SlashFree(a) && SlashFree(b) && a != "" && b != ""
    ensures Segments("/" + a + "/" + b) == [a, b]
  {
    var s := "/" + a + "/" + b;
    assert s[1..] == a + "/" + b;
    SplitFirst(a, b);
    SplitFirst(b, "");
    NonEmptyTwo(a, [b]);
    NonEmptyTwo(b, []);
  }

  lemma NonEmptyTwo(a: string, rest: seq<string>)
    requires a != ""
    ensures NonEmpty([a] + rest) == [a] + NonEmpty(rest) && NonEmpty([a]) == [a]
  {
    assert ([a] + rest)[1..] == rest && [a][1..] == [];
  }

  lemma SegmentsOfFour(a: string, b: string, c: string, d: string)
    requires SlashFree(a) && SlashFree(b) && SlashFree(c) && SlashFree(d)
    requires a != "" && b != "" && c != "" && d != ""
    ensures Segments("/" + a + "/" + b + "/" + c + "/" + d) == [a, b, c, d]
  {
    hide SplitSlash, NonEmpty;
    var s := "/" + a + "/" + b + "/" + c + "/" + d;
    var cd := c + "/" + d;
    var bcd := b + "/" + cd;
    assert s[1..] == a + "/" + bcd;
    SplitFirst(a, bcd);
    SplitFirst(b, cd);
    SplitFirst(c, d);
    SplitFirst(d, "");
    NonEmptyTwo(a, [b] + ([c] + [d]));
    NonEmptyTwo(b, [c] + [d]);
    NonEmptyTwo(c, [d]);
    NonEmptyTwo(d, []);
    assert [a] + ([b] + ([c] + [d])) == [a, b, c, d];
  }

  /** An address that was printed for a peer is parsed back: the IPv4 address and the port, whether
      the port is written or, being 8080, left out. */
  lemma PeerAddressReadsBack(a: nat, b: nat, c: nat, d: nat, port: int32)
    requires a < 256 && b < 256 && c < 256 && d < 256
    ensures FromSegments(Segments(PeerAddress(Quad(a, b, c, d), port))) == Some(HttpOverIpv4(Quad(a, b, c, d), port))
  {
    hide Segments, FromChars, IsValidIpv4, Quad, IntText;
    var ip := Quad(a, b, c, d);
    QuadIsValid(a, b, c, d);
    QuadHasNoSlash(a, b, c, d);
    assert SlashFree("ip4") && SlashFree("http");
    if port == 8080 {
      SegmentsOfTwo("ip4", ip);
      assert PeerAddress(ip, port) == "/" + "ip4" + "/" + ip;
    } else {
      IntReadsBack(port);
      SegmentsOfFour("ip4", ip, "http", IntText(port));
      assert PeerAddress(ip, port) == "/" + "ip4" + "/" + ip + "/" + "http" + "/" + IntText(port);
    }
  }

  /** Text after the digits of a port is ignored. */
  lemma TextAfterThePortIsIgnored(n: int32, rest: string)
    requires n >= 0 && (rest == "" || !IsDigit(rest[0]))
    ensures FromChars(IntText(n) + rest) == Number(n)
  {
    var s := IntText(n) + rest;
    DigitsRoundTrip(n);
    assert s[..|Digits(n)|] == Digits(n) && s[0] == Digits(n)[0];
    RunEnds(s, |Digits(n)|);
  }
}
