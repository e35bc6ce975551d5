/** The record-based URL class: its printer `get_href` and the offsets that `get_components`
    computes without printing, compared with the offsets of the printed text. */
module UrlComponents {

  import opened Wrappers
  import opened Decimal
  import opened UrlRecord

  // Counting decimal digits with one table look-up.

  function FloorLog2(n: nat): nat
    requires n >= 1
  {
    if n == 1 then 0 else 1 + FloorLog2(n / 2)
  }

  function OrOne(z: uint32): nat {
    if z % 2 == 0 then z + 1 else z
  }

  const TABLE: seq<int> := [
    4294967296, 8589934582, 8589934582, 8589934582, 12884901788,
    12884901788, 12884901788, 17179868184, 17179868184, 17179868184,
    21474826480, 21474826480, 21474826480, 21474826480, 25769703776,
    25769703776, 25769703776, 30063771072, 30063771072, 30063771072,
    34349738368, 34349738368, 34349738368, 34349738368, 38554705664,
    38554705664, 38554705664, 41949672960, 41949672960, 41949672960,
    42949672960, 42949672960]

  /** int_log2 is 31 minus the leading zeros of z | 1, and the sum is shifted right by 32 bits. */
  function FastDigitCount(x: uint32): int {
    var k := FloorLog2(OrOne(x));
    if k < 32 then (x + TABLE[k]) / TWO32 else 0
  }

  function Power2(k: nat): nat {
    if k == 0 then 1 else 2 * Power2(k - 1)
  }

  lemma {:induction false} FloorLog2Range(n: nat)
    requires n >= 1
    ensures Power2(FloorLog2(n)) <= n < 2 * Power2(FloorLog2(n))
  {
    if n > 1 { FloorLog2Range(n / 2); }
  }

  lemma {:induction false} Power2Monotonic(a: nat, b: nat)
    requires a <= b
    ensures Power2(a) <= Power2(b)
  {
    if a < b { Power2Monotonic(a, b - 1); }
  }

  /** The digit count that entry k is built around: numbers with top bit k have this many digits,
      or one more from the power of ten on. */
  const DIGITS_AT: seq<nat> := [
    1, 1, 1, 1, 2, 2, 2, 3, 3, 3, 4, 4, 4, 4, 5, 5, 5, 6, 6, 6, 7, 7, 7, 7, 8, 8, 8, 9, 9, 9, 10, 10]

  lemma Powers()
    ensures forall k: nat | k <= 10 ::
              Power10(k) == [1, 10, 100, 1000, 10000, 100000, 1000000, 10000000, 100000000,
                             1000000000, 10000000000][k]
    ensures Power2(8) == 256 && Power2(16) == 65536 && Power2(24) == 16777216 && Power2(32) == TWO32
  {
    assert Power10(2) == 100;
    assert Power10(4) == 100 * Power10(2);
    assert Power10(6) == 100 * Power10(4);
    assert Power10(8) == 100 * Power10(6);
    assert Power10(10) == 100 * Power10(8);
    assert Power2(4) == 16;
    assert Power2(8) == 16 * Power2(4);
    assert Power2(12) == 16 * Power2(8);
    assert Power2(16) == 16 * Power2(12);
    assert Power2(20) == 16 * Power2(16);
    assert Power2(24) == 16 * Power2(20);
    assert Power2(28) == 16 * Power2(24);
    assert Power2(32) == 16 * Power2(28);
  }

  /** What entry k of the table means. */
  ghost predicate EntryMeans(k: nat)
    requires k < 32
  {
    var d := DIGITS_AT[k];
    && 1 <= d
    && (d == 1 || Power10(d - 1) <= Power2(k))
    && if k == 0 || k >= 30 then TABLE[k] == d * TWO32 && 2 * Power2(k) <= Power10(d)
       else TABLE[k] == (d + 1) * TWO32 - Power10(d) && 2 * Power2(k) <= Power10(d + 1)
  }

  lemma TableIsRightLow(k: nat)
    requires k < 16
    ensures EntryMeans(k)
  {
    Powers();
    if k < 8 {
      assert Power2(0) == 1 && Power2(1) == 2 && Power2(2) == 4 && Power2(3) == 8;
      assert Power2(4) == 16 && Power2(5) == 32 && Power2(6) == 64 && Power2(7) == 128;
    } else {
      assert Power2(9) == 512 && Power2(10) == 1024 && Power2(11) == 2048 && Power2(12) == 4096;
      assert Power2(13) == 8192 && Power2(14) == 16384 && Power2(15) == 32768;
    }
  }

  lemma TableIsRightHigh(k: nat)
    requires 16 <= k < 24
    ensures EntryMeans(k)
  {
    Powers();
    assert Power2(17) == 131072 && Power2(18) == 262144 && Power2(19) == 524288;
    assert Power2(20) == 1048576 && Power2(21) == 2097152 && Power2(22) == 4194304;
    assert Power2(23) == 8388608;
  }

  lemma TableIsRightTop(k: nat)
    requires 24 <= k < 32
    ensures EntryMeans(k)
  {
    Powers();
    assert Power2(25) == 33554432 && Power2(26) == 67108864 && Power2(27) == 134217728;
    assert Power2(28) == 268435456 && Power2(29) == 536870912 && Power2(30) == 1073741824;
    assert Power2(31) == 2147483648;
  }

  lemma Quotient(x: uint32, t: int, d: nat, p: nat)
    requires 0 < p < TWO32
    ensures t == d * TWO32 ==> (x + t) / TWO32 == d
    ensures t == (d + 1) * TWO32 - p ==> (x + t) / TWO32 == if x < p then d else d + 1
  {
  }

  lemma PowerBelow(d: nat)
    requires d <= 9
    ensures 0 < Power10(d) < TWO32
  {
    Powers();
  }

  lemma TableIsRight(k: nat)
    requires k < 32
    ensures EntryMeans(k)
    ensures DIGITS_AT[k] <= 10 && (k < 30 ==> DIGITS_AT[k] <= 9) && (k == 0 ==> DIGITS_AT[k] == 1)
  {
    hide Power2, Power10;
    if k < 16 { TableIsRightLow(k); } else if k < 24 { TableIsRightHigh(k); } else { TableIsRightTop(k); }
  }

  lemma TopBit(x: uint32)
    ensures var k := FloorLog2(OrOne(x));
            k < 32 && Power2(k) <= OrOne(x) < 2 * Power2(k) && (k > 0 ==> Power2(k) % 2 == 0)
  {
    hide FloorLog2, Power2, Power10, OrOne;
    OrOneFits(x);
    var k := FloorLog2(OrOne(x));
    FloorLog2Range(OrOne(x));
    Powers();
    if k >= 32 { Power2Monotonic(32, k); }
    if k > 0 { PowerIsEven(k); }
  }

  lemma OrOneFits(x: uint32)
    ensures 1 <= OrOne(x) < TWO32
  {
  }

  lemma PowerIsEven(k: nat)
    requires k > 0
    ensures Power2(k) % 2 == 0
  {
  }

  lemma EntryCounts(x: uint32, k: nat, d: nat, t: int)
    requires k < 32 && d == DIGITS_AT[k] && t == TABLE[k] && EntryMeans(k)
    requires Power2(k) <= OrOne(x) < 2 * Power2(k)
    requires k > 0 ==> Power2(k) % 2 == 0
    requires d <= 10 && (k < 30 ==> d <= 9) && (k == 0 ==> d == 1)
    ensures (x + t) / TWO32 == |Digits(x)|
  {
    hide TABLE, DIGITS_AT, Digits, Power2, Power10;
    PowerBelow(if d <= 9 then d else 9);
    PowerOfNothing(k);
    UnderOrOne(x, Power2(k), if d == 1 then 0 else Power10(d - 1));
    if k == 0 || k >= 30 {
      Quotient(x, t, d, 1);
      DigitCount(x, d);
    } else {
      Quotient(x, t, d, Power10(d));
      DigitCount(x, if x < Power10(d) then d else d + 1);
    }
  }

  lemma PowerOfNothing(k: nat)
    ensures Power2(k) == 1 <==> k == 0
  {
  }

  /** Setting the lowest bit does not lift a number over an even bound. */
  lemma UnderOrOne(x: uint32, power: nat, low: nat)
    requires power <= OrOne(x) < 2 * power && low <= power
    requires power == 1 || power % 2 == 0
    ensures x < 2 * power && (power > 1 ==> low <= x)
  {
  }

  /** For every 32-bit number the look-up gives the true number of decimal digits. */
  lemma FastDigitCountIsExact(x: uint32)
    ensures FastDigitCount(x) == |Digits(x)|
  {
    hide Power2, Power10, Digits, EntryMeans;
    var k := FloorLog2(OrOne(x));
    TopBit(x);
    TableIsRight(k);
    EntryCounts(x, k, DIGITS_AT[k], TABLE[k]);
  }

  // The class that keeps the components apart.

  /** A host makes the authority; without one, credentials are never printed. */
  datatype ParsedUrl = ParsedUrl(
    protocol: string, username: string, password: string, host: Option<string>,
    port: Option<uint32>, path: string, query: Option<string>, hash: Option<string>,
    hasOpaquePath: bool)

  predicate BeginsWithDashDash(path: string) {
    |path| >= 2 && path[0] == '/' && path[1] == '/'
  }

  /** The record whose serialisation is the href. */
  function Record(p: ParsedUrl): Url {
    var authority := p.host.Some?;
    var credentials := authority && (p.username != "" || p.password != "");
    Url(p.protocol, authority,
        if authority then p.username else "", if authority then p.password else "", credentials,
        if authority then p.host.value else "",
        if authority then p.port else None,
        !authority && !p.hasOpaquePath && BeginsWithDashDash(p.path),
        p.path, p.query, p.hash)
  }

  lemma NoAuthority(p: ParsedUrl)
    requires p.host.None?
    ensures Concat(Segments(Record(p))[..DASHDOT]) == Concat(Segments(Record(p))[..SLASHES])
  {
    hide Concat;
    var s := Segments(Record(p));
    var text := Concat(s[..SLASHES]);
    AddPart(s, SLASHES, text);
    AddPart(s, USERNAME, text);
    AddPart(s, PASSWORD, text);
    AddPart(s, AT, text);
    AddPart(s, HOST, text);
    AddPart(s, PORT, text);
  }

  /** The text of the URL. Without a host a path that starts with "//" comes behind a "/.", and neither
      credentials nor a port are printed. */
  ghost function HrefText(p: ParsedUrl): string {
    p.protocol
    + (if p.host.Some? then
         "//"
         + (if p.username == "" && p.password == "" then ""
            else p.username + (if p.password == "" then "" else ":" + p.password) + "@")
         + p.host.value + (if p.port.Some? then ":" + Digits(p.port.value) else "")
       else if !p.hasOpaquePath && "//" <= p.path then "/." else "")
    + p.path + (if p.query.Some? then "?" + p.query.value else "")
    + (if p.hash.Some? then "#" + p.hash.value else "")
  }

  lemma RecordText(p: ParsedUrl)
    ensures Serialize(Record(p)) == HrefText(p)
  {
    hide Serialize, Digits;
    assert BeginsWithDashDash(p.path) <==> "//" <= p.path;
    TextOfRecord(Record(p));
    if p.host.Some? {
      var password := if p.password == "" then "" else ":" + p.password;
      var at := if p.username == "" && p.password == "" then "" else "@";
      var port := if p.port.Some? then ":" + Digits(p.port.value) else "";
      JoinAuthority(p.protocol, p.username, password, at, p.host.value, port);
    } else {
      var dots := if !p.hasOpaquePath && "//" <= p.path then "/." else "";
      assert p.protocol + "" + "" + "" + "" + "" + "" + dots == p.protocol + dots;
    }
  }

  lemma JoinAuthority(a: string, b: string, c: string, d: string, e: string, f: string)
    ensures a + "//" + b + c + d + e + f + "" == a + ("//" + (b + c + d) + e + f)
    ensures b == "" && c == "" && d == "" ==> b + c + d == ""
  {
  }

  /** Prints the URL. */
  method GetHref(p: ParsedUrl) returns (output: string)
    ensures output == Serialize(Record(p)) == HrefText(p)
  {
    RecordText(p);
    assert Concat([]) == "";
    hide Concat, Digits;
    ghost var s := Segments(Record(p));
    assert s[..0] == [];
    AddPart(s, 0, "");
    output := p.protocol;
    assert output == "" + s[0];
    if p.host.Some? {
      AddPart(s, SLASHES, output);
      output := output + "//";
      output := PrintCredentials(p, output);
      AddPart(s, HOST, output);
      output := output + p.host.value;
      AddPart(s, PORT, output);
      if p.port.Some? {
        output := output + (":" + Digits(p.port.value));
      }
      AddPart(s, DASHDOT, output);
    } else {
      NoAuthority(p);
      AddPart(s, DASHDOT, output);
      if !p.hasOpaquePath && BeginsWithDashDash(p.path) {
        output := output + "/.";
      }
    }
    output := PrintTail(p, output);
  }

  method PrintTail(p: ParsedUrl, start: string) returns (output: string)
    requires start == Concat(Segments(Record(p))[..PATHNAME])
    ensures output == Serialize(Record(p))
  {
    hide Concat, Digits;
    ghost var s := Segments(Record(p));
    assert s[..END] == s;
    output := start;
    AddPart(s, PATHNAME, output);
    output := output + p.path;
    AddPart(s, SEARCH, output);
    if p.query.Some? {
      output := output + ("?" + p.query.value);
    }
    AddPart(s, HASH, output);
    if p.hash.Some? {
      output := output + ("#" + p.hash.value);
    }
  }

  method PrintCredentials(p: ParsedUrl, start: string) returns (output: string)
    requires p.host.Some? && start == Concat(Segments(Record(p))[..USERNAME])
    ensures output == Concat(Segments(Record(p))[..HOST])
  {
    hide Concat;
    ghost var s := Segments(Record(p));
    output := start;
    AddPart(s, USERNAME, output);
    if p.username != "" || p.password != "" {
      output := output + p.username;
      AddPart(s, PASSWORD, output);
      if p.password != "" {
        output := output + (":" + p.password);
      }
      AddPart(s, AT, output);
      output := output + "@";
    } else {
      AddPart(s, PASSWORD, output);
      AddPart(s, AT, output);
    }
  }

  function GetSearch(p: ParsedUrl): (r: string)
    ensures r == "" <==> p.query == None || p.query == Some("")
    ensures r != "" ==> r[0] == '?' && r[1..] == p.query.value
  {
    if p.query.None? || p.query.value == "" then "" else "?" + p.query.value
  }

  /** The digits that `get_components` counts but `get_href` does not print. */
  function UnprintedPort(p: ParsedUrl): nat {
    if p.host.None? && p.port.Some? then 1 + |Digits(p.port.value)| else 0
  }

  /** The offsets of the href in terms of the class's own fields. */
  lemma HrefOffsets(p: ParsedUrl)
    requires Fits(Record(p))
    ensures var c := Offsets(Record(p));
            && c.protocolEnd == |p.protocol|
            && (p.host.Some? ==>
                && c.usernameEnd == |p.protocol| + 2 + |p.username|
                && c.hostStart == c.usernameEnd + (if p.password != "" then 1 + |p.password| else 0)
                && c.hostEnd == c.hostStart + |p.host.value| +
                                (if p.username != "" || p.password != "" then 1 else 0))
            && (p.host.None? ==> c.hostStart == c.hostEnd == |p.protocol|)
            && c.pathnameStart == c.hostEnd +
                 (if p.host.Some? then (if p.port.Some? then 1 + |Digits(p.port.value)| else 0)
                  else if !p.hasOpaquePath && BeginsWithDashDash(p.path) then 2 else 0)
            && (p.query.Some? ==> c.searchStart == c.pathnameStart + |p.path|)
            && (p.hash.Some? ==>
                c.hashStart == c.pathnameStart + |p.path| +
                               (if p.query.Some? then 1 + |p.query.value| else 0) < |Serialize(Record(p))|)
            && c.pathnameStart + |p.path| + (if p.query.Some? then 1 + |p.query.value| else 0)
               <= |Serialize(Record(p))|
  {
    hide Serialize, Offsets, Digits;
    OffsetValues(Record(p));
  }

  /** The offsets up to the host end, and the index at which the next part starts. */
  method AuthorityComponents(p: ParsedUrl) returns (out: Components, runningIndex: nat)
    requires Fits(Record(p))
    ensures var c := Offsets(Record(p));
            && out == Components(c.protocolEnd, if p.host.Some? then c.usernameEnd else 0, c.hostStart,
                                 out.hostEnd, OMITTED, 0, OMITTED, OMITTED)
            && out.hostEnd == c.hostEnd - (if p.host.Some? then 1 else 0)
            && runningIndex == c.pathnameStart -
                 (if p.host.Some? && p.port.Some? then 1 + |Digits(p.port.value)| else 0)
  {
    hide Serialize, Offsets, Digits, Record;
    HrefOffsets(p);
    out := Components(0, 0, 0, 0, OMITTED, 0, OMITTED, OMITTED);
    out := out.(protocolEnd := |p.protocol|);
    runningIndex := out.protocolEnd;
    if p.host.Some? {
      out := out.(hostStart := out.protocolEnd + 2);
      if p.username != "" || p.password != "" {
        out := out.(usernameEnd := out.hostStart + |p.username|);
        out := out.(hostStart := out.hostStart + |p.username|);
        if p.password != "" {
          out := out.(hostStart := out.hostStart + |p.password| + 1);
        }
        out := out.(hostEnd := out.hostStart + |p.host.value|);
      } else {
        out := out.(usernameEnd := out.hostStart);
        out := out.(hostEnd := out.hostStart + |p.host.value| - 1);
      }
      runningIndex := out.hostEnd + 1;
    } else {
      out := out.(hostStart := out.protocolEnd);
      out := out.(hostEnd := out.hostStart);
      if !p.hasOpaquePath && BeginsWithDashDash(p.path) {
        runningIndex := out.protocolEnd + 2;
      } else {
        runningIndex := out.protocolEnd;
      }
    }
  }

  /** Offsets computed from lengths alone. They are those of the printed text except that the host
      end is one too small whenever there is a host, that the user-name end stays 0 when there is
      none, and that a port without a host moves the path, the search and the hash although it is
      not printed. */
  ghost predicate IsComputed(p: ParsedUrl, out: Components)
    requires |Serialize(Record(p))| + UnprintedPort(p) < TWO32
  {
    var c, extra := Offsets(Record(p)), UnprintedPort(p);
    && out.protocolEnd == c.protocolEnd
    && out.usernameEnd == (if p.host.Some? then c.usernameEnd else 0)
    && out.hostStart == c.hostStart
    && out.hostEnd == c.hostEnd - (if p.host.Some? then 1 else 0)
    && out.port == (if p.port.Some? then p.port.value else OMITTED)
    && out.pathnameStart == c.pathnameStart + extra
    && out.searchStart == (if p.query.Some? then c.searchStart + extra else OMITTED)
    && out.hashStart == (if p.hash.Some? then c.hashStart + extra else OMITTED)
  }

  method GetComponents(p: ParsedUrl) returns (out: Components)
    requires |Serialize(Record(p))| + UnprintedPort(p) < TWO32
    ensures IsComputed(p, out)
  {
    hide Serialize, Offsets, Digits, FastDigitCount, Record;
    HrefOffsets(p);
    var runningIndex;
    out, runningIndex := AuthorityComponents(p);
    if p.port.Some? {
      out := out.(port := p.port.value);
      FastDigitCountIsExact(p.port.value);
      runningIndex := runningIndex + FastDigitCount(p.port.value) + 1;
    }
    out := out.(pathnameStart := runningIndex);
    runningIndex := runningIndex + |p.path|;
    if p.query.Some? {
      out := out.(searchStart := runningIndex);
      runningIndex := runningIndex + |GetSearch(p)|;
      if |GetSearch(p)| == 0 {
        runningIndex := runningIndex + 1;
      }
    }
    if p.hash.Some? {
      out := out.(hashStart := runningIndex);
    }
  }

  /** The text between two offsets. */
  ghost predicate Cuts(s: string, from: int, to: int, part: string) {
    0 <= from <= to <= |s| && s[from..to] == part
  }

  /** The offsets find path, search and hash in the href. */
  ghost predicate CutsTheTail(p: ParsedUrl, out: Components) {
    var s, end := Serialize(Record(p)), out.pathnameStart + |p.path|;
    && Cuts(s, out.pathnameStart, end, p.path)
    && Cuts(s, end, |s|, Tagged('?', p.query) + Tagged('#', p.hash))
    && (p.query.Some? ==> out.searchStart == end)
    && (p.hash.Some? ==> out.hashStart == end + |Tagged('?', p.query)|)
  }

  /** They do precisely when there is a host or no port. */
  lemma OffsetsCutTheHref(p: ParsedUrl, out: Components)
    requires |Serialize(Record(p))| + UnprintedPort(p) < TWO32
    requires IsComputed(p, out)
    ensures CutsTheTail(p, out) <==> p.host.Some? || p.port.None?
  {
    hide Serialize, Offsets, PortText, DashDotText, Tagged, Digits;
    var u := Record(p);
    var pre, post := PathChange(u, u);
    OffsetValues(u);
    var stem := SearchChange(u, u);
    PathCut(pre, PortText(u.port), DashDotText(u), p.path, post);
  }

  /** The host offsets find the host, with the "@" in front of it, precisely when there is none. */
  lemma OffsetsCutTheHost(p: ParsedUrl, out: Components)
    requires |Serialize(Record(p))| + UnprintedPort(p) < TWO32
    requires IsComputed(p, out)
    ensures Cuts(Serialize(Record(p)), out.hostStart, out.hostEnd, AtText(Record(p)) + Record(p).host)
      <==> p.host.None?
  {
    hide Serialize, Offsets, PortText, DashDotText, Tagged, Digits;
    OffsetValues(Record(p));
  }

  /** For instance http://abc/, whose host offsets stand for "ab". */
  lemma HostIsCutShort(p: ParsedUrl, out: Components)
    requires p.protocol == "http:" && p.username == "" && p.password == "" && p.host == Some("abc")
    requires p.port.None? && p.path == "/" && p.query.None? && p.hash.None?
    requires |Serialize(Record(p))| < TWO32 && IsComputed(p, out)
    ensures Serialize(Record(p)) == "http://abc/"
    ensures Cuts(Serialize(Record(p)), out.hostStart, out.hostEnd, "ab")
  {
    hide Serialize, Offsets;
    HostUrlText(Record(p));
    OffsetValues(Record(p));
  }

  lemma HostUrlText(u: Url)
    requires u == Url("http:", true, "", "", false, "abc", None, false, "/", None, None)
    ensures Serialize(u) == "http://abc/"
  {
    TextParts(u);
  }

  lemma PathCut(pre: string, port: string, dashDot: string, path: string, post: string)
    ensures var s, at := pre + (port + dashDot + path) + post, |pre| + |port| + |dashDot|;
      at + |path| <= |s| && s[at..at + |path|] == path && s[at + |path|..] == post
  {
    var front := pre + port + dashDot;
    assert pre + (port + dashDot + path) + post == front + path + post;
  }
}
