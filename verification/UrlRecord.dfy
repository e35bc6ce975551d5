/** A parsed URL as a plain record of components, its serialisation, and the eight 32-bit offsets
    that delimit the components inside the serialisation. The record is the simple form; the
    aggregator in UrlAggregator.dfy keeps only the buffer and the offsets. */
module UrlRecord {

  import opened Wrappers
  import opened Decimal

  const TWO32: int := 0x1_0000_0000

  type uint32 = x: int | 0 <= x < TWO32

  /** The offset value that stands for "this component is absent". */
  const OMITTED: uint32 := 0xFFFF_FFFF

  /** Unsigned 32-bit arithmetic wraps. */
  function Wrap(x: int): uint32 { x % TWO32 }

  function Add32(a: uint32, b: uint32): uint32 { Wrap(a + b) }

  function Sub32(a: uint32, b: uint32): uint32 { Wrap(a - b) }

  datatype Components = Components(
    protocolEnd: uint32, usernameEnd: uint32, hostStart: uint32, hostEnd: uint32,
    port: uint32, pathnameStart: uint32, searchStart: uint32, hashStart: uint32)

  /** `protocol` includes the colon. `slashes` says that the URL has an authority, `at` that the "@"
      after the credentials is written. `dashDot` is the "/." that separates a path starting with
      "//" from an absent authority. */
  datatype Url = Url(
    protocol: string, slashes: bool, username: string, password: string, at: bool, host: string,
    port: Option<uint32>, dashDot: bool, pathname: string,
    search: Option<string>, hash: Option<string>)

  predicate HasCredentials(u: Url) {
    u.username != "" || u.password != ""
  }

  predicate StartsWith(s: string, c: char) {
    s != "" && s[0] == c
  }

  /** What the setters rely on: credentials, host and port only after "//". */
  predicate Sound(u: Url) {
    && (!u.slashes ==> u.username == "" && u.password == "" && u.host == "" && !u.at && u.port.None?)
    && u.port != Some(OMITTED)
  }

  /** Without the separator after the credentials, the host or the path starts with an "@" that
      stands in its place. */
  predicate StrayAt(u: Url) {
    !u.at && if u.host != "" then u.host[0] == '@'
             else u.port.None? && !u.dashDot && StartsWith(u.pathname, '@')
  }

  /** No "@" where the separator after the credentials would stand. */
  predicate Readable(u: Url) {
    Sound(u) && (u.slashes ==> !StartsWith(u.host, '@') && !StartsWith(u.pathname, '@'))
  }

  /** A finished record: the "@" is written exactly when there is a credential. */
  predicate WellFormed(u: Url) {
    Readable(u) && (u.at <==> HasCredentials(u))
  }

  /** Write the "@" exactly when there is a credential. */
  function SettleAt(u: Url): Url {
    u.(at := HasCredentials(u))
  }

  function SlashesText(u: Url): string { if u.slashes then "//" else "" }

  function PasswordText(u: Url): string { if u.password != "" then ":" + u.password else "" }

  function AtText(u: Url): string { if u.at then "@" else "" }

  function PortText(port: Option<uint32>): string {
    if port.Some? then ":" + Digits(port.value) else ""
  }

  function DashDotText(u: Url): string { if u.dashDot then "/." else "" }

  function Tagged(c: char, part: Option<string>): string {
    if part.Some? then [c] + part.value else ""
  }

  // Moving offsets by a wrapped difference, as the setters do after a splice.

  function ShiftOptional(offset: uint32, diff: uint32): uint32 {
    if offset != OMITTED then Add32(offset, diff) else OMITTED
  }

  function ShiftTail(c: Components, diff: uint32): Components {
    c.(searchStart := ShiftOptional(c.searchStart, diff),
       hashStart := ShiftOptional(c.hashStart, diff))
  }

  function ShiftFromPathname(c: Components, diff: uint32): Components {
    ShiftTail(c.(pathnameStart := Add32(c.pathnameStart, diff)), diff)
  }

  function ShiftFromHostEnd(c: Components, diff: uint32): Components {
    ShiftFromPathname(c.(hostEnd := Add32(c.hostEnd, diff)), diff)
  }

  /** Positions of the parts in `Segments`. */
  const SLASHES := 1
  const USERNAME := 2
  const PASSWORD := 3
  const AT := 4
  const HOST := 5
  const PORT := 6
  const DASHDOT := 7
  const PATHNAME := 8
  const SEARCH := 9
  const HASH := 10
  const END := 11

  ghost function Segments(u: Url): (s: seq<string>)
    ensures |s| == END
  {
    [u.protocol, SlashesText(u), u.username, PasswordText(u), AtText(u), u.host,
     PortText(u.port), DashDotText(u), u.pathname, Tagged('?', u.search), Tagged('#', u.hash)]
  }

  ghost function Concat(s: seq<string>): string {
    if s == [] then "" else s[0] + Concat(s[1..])
  }

  /** Where part k starts. */
  ghost function Off(s: seq<string>, k: nat): nat
    requires k <= |s|
  {
    |Concat(s[..k])|
  }

  ghost function Serialize(u: Url): string {
    Concat(Segments(u))
  }

  ghost predicate Fits(u: Url) {
    |Serialize(u)| < TWO32
  }

  ghost function Offsets(u: Url): Components
    requires Fits(u)
  {
    var s := Segments(u);
    OffBounds(s);
    Components(Off(s, SLASHES), Off(s, PASSWORD), Off(s, AT), Off(s, PORT),
               if u.port.Some? then u.port.value else OMITTED,
               Off(s, PATHNAME),
               if u.search.Some? then Off(s, SEARCH) else OMITTED,
               if u.hash.Some? then Off(s, HASH) else OMITTED)
  }

  lemma {:induction false} ConcatSplit(s: seq<string>, k: nat)
    requires k <= |s|
    ensures Concat(s) == Concat(s[..k]) + Concat(s[k..])
  {
    if k > 0 {
      ConcatSplit(s[1..], k - 1);
      assert s[..k][1..] == s[1..][..k - 1];
      assert s[1..][k - 1..] == s[k..];
    }
  }

  lemma OffBounds(s: seq<string>)
    ensures forall k: nat | k <= |s| :: Off(s, k) <= |Concat(s)|
  {
    forall k: nat | k <= |s| ensures Off(s, k) <= |Concat(s)| {
      ConcatSplit(s, k);
    }
  }

  /** A part is exactly the text between its two offsets. */
  lemma PartAt(s: seq<string>, k: nat)
    requires k < |s|
    ensures Off(s, k + 1) == Off(s, k) + |s[k]| <= |Concat(s)|
    ensures Concat(s)[Off(s, k)..Off(s, k + 1)] == s[k]
  {
    ConcatSplit(s, k);
    ConcatSplit(s, k + 1);
    ConcatSplit(s[..k + 1], k);
    assert s[..k + 1][..k] == s[..k];
    assert s[..k + 1][k..] == [s[k]];
    assert Concat([s[k]]) == s[k] + Concat([]) == s[k];
  }

  lemma ConcatMiddle(s: seq<string>, k: nat, m: nat)
    requires k <= m <= |s|
    ensures Concat(s) == Concat(s[..k]) + Concat(s[k..m]) + Concat(s[m..])
    ensures Off(s, m) == Off(s, k) + |Concat(s[k..m])|
  {
    ConcatSplit(s, m);
    ConcatSplit(s[..m], k);
    assert s[..m][..k] == s[..k] && s[..m][k..] == s[k..m];
  }

  lemma SameBefore(s: seq<string>, t: seq<string>, k: nat, j: nat)
    requires |s| == |t| && j <= k <= |s|
    requires s[..k] == t[..k]
    ensures Off(t, j) == Off(s, j)
  {
    assert t[..j] == t[..k][..j];
    assert s[..j] == s[..k][..j];
  }

  lemma ShiftedAfter(s: seq<string>, t: seq<string>, k: nat, m: nat, j: nat)
    requires |s| == |t| && k <= m <= j <= |s|
    requires s[..k] == t[..k] && s[m..] == t[m..]
    ensures Off(t, j) == Off(s, j) + |Concat(t[k..m])| - |Concat(s[k..m])|
  {
    ConcatMiddle(s, k, m);
    ConcatMiddle(t, k, m);
    ConcatMiddle(s, m, j);
    ConcatMiddle(t, m, j);
    assert s[m..j] == s[m..][..j - m];
    assert t[m..j] == t[m..][..j - m];
  }

  /** Two part lists that differ only in [k, m): their texts share the front and the back, and
      every offset outside the changed stretch moves by the change in its length. */
  lemma Replaced(s: seq<string>, t: seq<string>, k: nat, m: nat)
    requires |s| == |t| && k <= m <= |s|
    requires s[..k] == t[..k] && s[m..] == t[m..]
    ensures Concat(s) == Concat(s[..k]) + Concat(s[k..m]) + Concat(s[m..])
    ensures Concat(t) == Concat(s[..k]) + Concat(t[k..m]) + Concat(s[m..])
    ensures Off(s, m) == Off(s, k) + |Concat(s[k..m])|
    ensures forall j: nat | j <= k :: Off(t, j) == Off(s, j)
    ensures forall j: nat | m <= j <= |s| ::
              Off(t, j) == Off(s, j) + |Concat(t[k..m])| - |Concat(s[k..m])|
  {
    ConcatMiddle(s, k, m);
    ConcatMiddle(t, k, m);
    forall j: nat | j <= k ensures Off(t, j) == Off(s, j) {
      SameBefore(s, t, k, j);
    }
    forall j: nat | m <= j <= |s|
      ensures Off(t, j) == Off(s, j) + |Concat(t[k..m])| - |Concat(s[k..m])|
    {
      ShiftedAfter(s, t, k, m, j);
    }
  }

  // What a change to the parts k..m of a record does to its text and its offsets.

  /** The part lists of two records agree outside [k, m). */
  ghost predicate DifferOnly(u: Url, v: Url, k: nat, m: nat) {
    && k <= m <= END
    && Segments(u)[..k] == Segments(v)[..k]
    && Segments(u)[m..] == Segments(v)[m..]
  }

  /** The text of the parts k..m. */
  ghost function Mid(u: Url, k: nat, m: nat): string
    requires k <= m <= END
  {
    Concat(Segments(u)[k..m])
  }

  /** The offset at which part k starts, read off the components. */
  ghost predicate StartsAt(u: Url, k: nat, at: nat)
    requires Fits(u)
  {
    var c := Offsets(u);
    && (k == SLASHES ==> at == c.protocolEnd)
    && (k == USERNAME ==> at == c.protocolEnd + |SlashesText(u)|)
    && (k == PASSWORD ==> at == c.usernameEnd)
    && (k == AT ==> at == c.hostStart)
    && (k == PORT ==> at == c.hostEnd)
    && (k == PATHNAME ==> at == c.pathnameStart)
    && (k == SEARCH && u.search.Some? ==> at == c.searchStart)
    && (k == HASH && u.hash.Some? ==> at == c.hashStart)
    && (k == HASH && u.hash.None? ==> at == |Serialize(u)|)
  }

  lemma PresentOffsets(u: Url)
    requires Fits(u)
    ensures var c := Offsets(u);
            && (c.searchStart != OMITTED <==> u.search.Some?)
            && (c.hashStart != OMITTED <==> u.hash.Some?)
            && c.port == (if u.port.Some? then u.port.value else OMITTED)
    ensures u.search.Some? ==> Offsets(u).searchStart == Off(Segments(u), SEARCH) < |Serialize(u)|
    ensures u.hash.Some? ==> Offsets(u).hashStart == Off(Segments(u), HASH) < |Serialize(u)|
    ensures Off(Segments(u), PATHNAME) == Offsets(u).pathnameStart
  {
    PartAt(Segments(u), SEARCH);
    PartAt(Segments(u), HASH);
  }

  lemma StartOf(u: Url, k: nat)
    requires Fits(u) && k < END
    ensures StartsAt(u, k, Off(Segments(u), k))
  {
    var s := Segments(u);
    PresentOffsets(u);
    if k == USERNAME { PartAt(s, SLASHES); }
    PartAt(s, HASH);
    assert s[..END] == s;
  }

  /** Changing the parts k..m keeps the text before and after them; the result is the text cut at
      the two offsets with the new middle between them. */
  lemma TextChange(u: Url, v: Url, k: nat, m: nat) returns (pre: string, post: string)
    requires Fits(u) && Fits(v) && DifferOnly(u, v, k, m) && k < END
    ensures Serialize(u) == pre + Mid(u, k, m) + post
    ensures Serialize(v) == pre + Mid(v, k, m) + post
    ensures StartsAt(u, k, |pre|)
    ensures pre == Concat(Segments(u)[..k]) && post == Concat(Segments(u)[m..])
  {
    hide Segments;
    var s := Segments(u);
    pre, post := Concat(s[..k]), Concat(s[m..]);
    Replaced(s, Segments(v), k, m);
    StartOf(u, k);
  }

  lemma MidOne(u: Url, k: nat)
    requires k < END
    ensures Mid(u, k, k + 1) == Segments(u)[k]
  {
    hide Segments;
    var s := Segments(u);
    assert s[k..k + 1] == [s[k]];
    ConcatTwo(s[k], "");
  }

  lemma MidTwo(u: Url, k: nat)
    requires k + 1 < END
    ensures Mid(u, k, k + 2) == Segments(u)[k] + Segments(u)[k + 1]
  {
    hide Segments;
    var s := Segments(u);
    assert s[k..k + 2] == [s[k], s[k + 1]];
    ConcatTwo(s[k], s[k + 1]);
  }

  lemma MidThree(u: Url, k: nat)
    requires k + 2 < END
    ensures Mid(u, k, k + 3) == Segments(u)[k] + Segments(u)[k + 1] + Segments(u)[k + 2]
  {
    hide Segments;
    var s := Segments(u);
    assert s[k..k + 3] == [s[k], s[k + 1], s[k + 2]];
    ConcatThree(s[k], s[k + 1], s[k + 2]);
  }

  /** Empty parts in front do not change how a text starts. */
  lemma SkipEmpty(s: seq<string>, k: nat)
    requires k < |s| && s[k] == ""
    ensures Concat(s[k..]) == Concat(s[k + 1..])
  {
    assert s[k..][1..] == s[k + 1..];
  }

  lemma FirstPart(s: seq<string>, k: nat, c: char)
    requires k < |s| && s[k] != ""
    ensures StartsWith(Concat(s[k..]), c) <==> s[k][0] == c
  {
    assert s[k..][0] == s[k];
  }

  /** How the text from the host on starts. */
  lemma StrayStarts(u: Url)
    ensures !u.at ==> (StartsWith(Concat(Segments(u)[HOST..]), '@') <==> StrayAt(u))
  {
    hide Concat, Digits;
    var s := Segments(u);
    if u.host != "" {
      FirstPart(s, HOST, '@');
    } else {
      SkipEmpty(s, HOST);
      if u.port.Some? {
        FirstPart(s, PORT, '@');
      } else {
        SkipEmpty(s, PORT);
        if u.dashDot {
          FirstPart(s, DASHDOT, '@');
        } else {
          SkipEmpty(s, DASHDOT);
          PathStarts(u);
        }
      }
    }
  }

  lemma PathStarts(u: Url)
    ensures StartsWith(Concat(Segments(u)[PATHNAME..]), '@') <==> StartsWith(u.pathname, '@')
  {
    hide Concat;
    var s := Segments(u);
    if u.pathname != "" {
      FirstPart(s, PATHNAME, '@');
    } else {
      SkipEmpty(s, PATHNAME);
      if u.search.Some? {
        FirstPart(s, SEARCH, '@');
      } else {
        SkipEmpty(s, SEARCH);
        if u.hash.Some? {
          FirstPart(s, HASH, '@');
        } else {
          SkipEmpty(s, HASH);
          assert s[END..] == [];
          NothingStarts(s);
        }
      }
    }
  }

  lemma NothingStarts(s: seq<string>)
    ensures Concat([]) == ""
  {
  }

  /** The byte at the host offset is an "@" exactly if the separator is written or a stray "@"
      stands in its place, which a readable record with an authority does not have. */
  lemma AtMark(u: Url)
    requires Fits(u)
    ensures var h := Offsets(u).hostStart;
            h <= |Serialize(u)| && (u.at || StrayAt(u) <==> h < |Serialize(u)| && Serialize(u)[h] == '@')
    ensures Readable(u) && u.slashes ==> !StrayAt(u)
    ensures StrayAt(u) ==> !u.at
  {
    hide Segments, Concat;
    StrayStarts(u);
    AtOrHost(u);
    ConcatSplit(Segments(u), AT);
    StartOf(u, AT);
  }

  lemma AtOrHost(u: Url)
    ensures Concat(Segments(u)[AT..]) == AtText(u) + Concat(Segments(u)[HOST..])
  {
    assert Segments(u)[AT..][1..] == Segments(u)[HOST..];
  }

  lemma TextLength(u: Url)
    ensures |Serialize(u)| == |u.protocol| + |SlashesText(u)| + |u.username| + |PasswordText(u)|
                              + |AtText(u)| + |u.host| + |PortText(u.port)| + |DashDotText(u)|
                              + |u.pathname| + |Tagged('?', u.search)| + |Tagged('#', u.hash)|
  {
    var s := Segments(u);
    assert s[..0] == [];
    PartAt(s, 0); PartAt(s, SLASHES); PartAt(s, USERNAME); PartAt(s, PASSWORD); PartAt(s, AT);
    PartAt(s, HOST); PartAt(s, PORT); PartAt(s, DASHDOT); PartAt(s, PATHNAME); PartAt(s, SEARCH);
    PartAt(s, HASH);
    assert s[..END] == s;
  }

  /** The text of a record. */
  lemma TextOfRecord(u: Url)
    ensures Serialize(u) ==
      u.protocol + (if u.slashes then "//" else "") + u.username + (if u.password != "" then ":" + u.password else "")
      + (if u.at then "@" else "") + u.host + (if u.port.Some? then ":" + Digits(u.port.value) else "")
      + (if u.dashDot then "/." else "") + u.pathname + (if u.search.Some? then "?" + u.search.value else "")
      + (if u.hash.Some? then "#" + u.hash.value else "")
  {
    hide Serialize;
    TextParts(u);
    assert ['?'] == "?" && ['#'] == "#";
  }

  /** Printing part k, or skipping it when it is empty. */
  lemma AddPart(s: seq<string>, k: nat, text: string)
    requires k < |s| && text == Concat(s[..k])
    ensures text + s[k] == Concat(s[..k + 1])
    ensures s[k] == "" ==> text == Concat(s[..k + 1])
  {
    ConcatSplit(s[..k + 1], k);
    assert s[..k + 1][..k] == s[..k];
    assert s[..k + 1][k..] == [s[k]];
    ConcatTwo(s[k], "");
  }

  lemma SixParts(s: seq<string>)
    requires |s| >= 6
    ensures Concat(s[..6]) == s[0] + s[1] + s[2] + s[3] + s[4] + s[5]
  {
    assert Concat([]) == "" && s[..0] == [];
    hide Concat;
    AddPart(s, 0, "");
    var t := s[0];
    assert "" + s[0] == t;
    AddPart(s, 1, t);
    t := t + s[1];
    AddPart(s, 2, t);
    t := t + s[2];
    AddPart(s, 3, t);
    t := t + s[3];
    AddPart(s, 4, t);
    t := t + s[4];
    AddPart(s, 5, t);
  }

  /** The serialisation, part after part. */
  lemma TextParts(u: Url)
    ensures Serialize(u) ==
      u.protocol + SlashesText(u) + u.username + PasswordText(u) + AtText(u) + u.host
      + PortText(u.port) + DashDotText(u) + u.pathname + Tagged('?', u.search) + Tagged('#', u.hash)
  {
    hide Concat, SlashesText, PasswordText, AtText, PortText, DashDotText, Tagged;
    var s := Segments(u);
    SixParts(s);
    var t := Concat(s[..6]);
    AddPart(s, 6, t);
    t := t + s[6];
    AddPart(s, 7, t);
    t := t + s[7];
    AddPart(s, 8, t);
    t := t + s[8];
    AddPart(s, 9, t);
    t := t + s[9];
    AddPart(s, 10, t);
    assert s[..END] == s;
  }

  /** Every offset as a sum of part lengths. */
  lemma OffsetValues(u: Url)
    requires Fits(u)
    ensures var c := Offsets(u);
            && c.protocolEnd == |u.protocol|
            && c.usernameEnd == c.protocolEnd + |SlashesText(u)| + |u.username|
            && c.hostStart == c.usernameEnd + |PasswordText(u)|
            && c.hostEnd == c.hostStart + |AtText(u)| + |u.host|
            && c.port == (if u.port.Some? then u.port.value else OMITTED)
            && c.pathnameStart == c.hostEnd + |PortText(u.port)| + |DashDotText(u)|
            && c.searchStart ==
               (if u.search.Some? then c.pathnameStart + |u.pathname| else OMITTED)
            && c.hashStart ==
               (if u.hash.Some? then c.pathnameStart + |u.pathname| + |Tagged('?', u.search)|
                else OMITTED)
            && c.pathnameStart + |u.pathname| + |Tagged('?', u.search)| + |Tagged('#', u.hash)|
               == |Serialize(u)|
            && c.pathnameStart <= |Serialize(u)|
  {
    var s := Segments(u);
    assert s[..0] == [];
    PartAt(s, 0); PartAt(s, SLASHES); PartAt(s, USERNAME); PartAt(s, PASSWORD); PartAt(s, AT);
    PartAt(s, HOST); PartAt(s, PORT); PartAt(s, DASHDOT); PartAt(s, PATHNAME); PartAt(s, SEARCH);
    PartAt(s, HASH);
    assert s[..END] == s;
  }

  // The changes that the setters make, one lemma for each stretch of parts.

  lemma ProtocolChange(u: Url, v: Url) returns (post: string)
    requires Fits(u) && Fits(v) && v == u.(protocol := v.protocol)
    ensures Serialize(u) == u.protocol + post && Serialize(v) == v.protocol + post
  {
    var pre;
    pre, post := TextChange(u, v, 0, SLASHES);
    MidOne(u, 0);
    MidOne(v, 0);
    assert Segments(u)[..0] == [];
  }

  lemma SlashesChange(u: Url, v: Url) returns (pre: string, post: string)
    requires Fits(u) && Fits(v) && v == u.(slashes := v.slashes)
    ensures Serialize(u) == pre + SlashesText(u) + post
    ensures Serialize(v) == pre + SlashesText(v) + post
    ensures |pre| == Offsets(u).protocolEnd
  {
    pre, post := TextChange(u, v, SLASHES, USERNAME);
    MidOne(u, SLASHES);
    MidOne(v, SLASHES);
  }

  lemma CredentialsChange(u: Url, v: Url) returns (pre: string, post: string)
    requires Fits(u) && Fits(v)
    requires v == u.(username := v.username, password := v.password, at := v.at)
    ensures Serialize(u) == pre + (u.username + PasswordText(u) + AtText(u)) + post
    ensures Serialize(v) == pre + (v.username + PasswordText(v) + AtText(v)) + post
    ensures |pre| == Offsets(u).protocolEnd + |SlashesText(u)|
  {
    pre, post := TextChange(u, v, USERNAME, HOST);
    MidThree(u, USERNAME);
    MidThree(v, USERNAME);
  }

  lemma HostChange(u: Url, v: Url) returns (pre: string, post: string)
    requires Fits(u) && Fits(v) && v == u.(at := v.at, host := v.host)
    ensures Serialize(u) == pre + (AtText(u) + u.host) + post
    ensures Serialize(v) == pre + (AtText(v) + v.host) + post
    ensures |pre| == Offsets(u).hostStart
  {
    pre, post := TextChange(u, v, AT, PORT);
    MidTwo(u, AT);
    MidTwo(v, AT);
  }

  lemma PathChange(u: Url, v: Url) returns (pre: string, post: string)
    requires Fits(u) && Fits(v)
    requires v == u.(port := v.port, dashDot := v.dashDot, pathname := v.pathname)
    ensures Serialize(u) == pre + (PortText(u.port) + DashDotText(u) + u.pathname) + post
    ensures Serialize(v) == pre + (PortText(v.port) + DashDotText(v) + v.pathname) + post
    ensures |pre| == Offsets(u).hostEnd
  {
    pre, post := TextChange(u, v, PORT, SEARCH);
    MidThree(u, PORT);
    MidThree(v, PORT);
  }

  lemma SearchChange(u: Url, v: Url) returns (pre: string)
    requires Fits(u) && Fits(v) && v == u.(search := v.search, hash := v.hash)
    ensures Serialize(u) == pre + (Tagged('?', u.search) + Tagged('#', u.hash))
    ensures Serialize(v) == pre + (Tagged('?', v.search) + Tagged('#', v.hash))
    ensures |pre| == Offsets(u).pathnameStart + |u.pathname|
  {
    var post;
    pre, post := TextChange(u, v, SEARCH, END);
    MidTwo(u, SEARCH);
    MidTwo(v, SEARCH);
    PartAt(Segments(u), PATHNAME);
    PresentOffsets(u);
    assert Segments(u)[END..] == [];
  }

  lemma ConcatTwo(a: string, b: string)
    ensures Concat([a]) == a
    ensures Concat([a, b]) == a + b
  {
    assert [a, b][1..] == [b];
    assert [b][1..] == [] && [a][1..] == [];
  }

  lemma ConcatThree(a: string, b: string, c: string)
    ensures Concat([a, b, c]) == a + b + c
  {
    ConcatTwo(b, c);
    assert [a, b, c][1..] == [b, c];
  }

  /** Moving an offset by a wrapped difference lands on the true position, whichever of the two
      lengths is larger. */
  lemma WrappedShift(off: uint32, diff: uint32, delta: int)
    requires diff == Wrap(delta) && 0 <= off + delta < TWO32
    ensures Add32(off, diff) == off + delta
  {
  }

  lemma Residue(a: int, q: int, r: int)
    requires a == q * TWO32 + r && 0 <= r < TWO32
    ensures a % TWO32 == r
  {
  }

  lemma WrappedSum(d: uint32, x: int, e: uint32)
    requires d == Wrap(x)
    ensures Add32(d, e) == Wrap(x + e)
    ensures Sub32(d, e) == Wrap(x - e)
  {
    var q := x / TWO32;
    if d + e < TWO32 {
      Residue(x + e, q, d + e);
    } else {
      Residue(x + e, q + 1, d + e - TWO32);
    }
    if d - e >= 0 {
      Residue(x - e, q, d - e);
    } else {
      Residue(x - e, q - 1, d - e + TWO32);
    }
  }

  lemma WrapSmall(x: int)
    requires 0 <= x < TWO32
    ensures Wrap(x) == x
  {
  }

  function MovedOptional(offset: uint32, delta: int): int {
    if offset != OMITTED then offset + delta else OMITTED
  }

  lemma ShiftTailIsMove(c: Components, diff: uint32, delta: int)
    requires diff == Wrap(delta)
    requires 0 <= MovedOptional(c.searchStart, delta) < TWO32
    requires 0 <= MovedOptional(c.hashStart, delta) < TWO32
    ensures ShiftTail(c, diff) ==
            c.(searchStart := MovedOptional(c.searchStart, delta),
               hashStart := MovedOptional(c.hashStart, delta))
  {
    hide Wrap, Add32;
    if c.searchStart != OMITTED { WrappedShift(c.searchStart, diff, delta); }
    if c.hashStart != OMITTED { WrappedShift(c.hashStart, diff, delta); }
  }

  lemma ShiftPathIsMove(c: Components, diff: uint32, delta: int)
    requires diff == Wrap(delta)
    requires 0 <= c.pathnameStart + delta < TWO32
    requires 0 <= MovedOptional(c.searchStart, delta) < TWO32
    requires 0 <= MovedOptional(c.hashStart, delta) < TWO32
    ensures ShiftFromPathname(c, diff) ==
            c.(pathnameStart := c.pathnameStart + delta,
               searchStart := MovedOptional(c.searchStart, delta),
               hashStart := MovedOptional(c.hashStart, delta))
  {
    hide Wrap, Add32, ShiftTail;
    WrappedShift(c.pathnameStart, diff, delta);
    ShiftTailIsMove(c.(pathnameStart := Add32(c.pathnameStart, diff)), diff, delta);
  }

  /** The four offsets after the credentials all move by delta. */
  lemma ShiftIsMove(c: Components, diff: uint32, delta: int)
    requires diff == Wrap(delta)
    requires 0 <= c.hostEnd + delta < TWO32 && 0 <= c.pathnameStart + delta < TWO32
    requires 0 <= MovedOptional(c.searchStart, delta) < TWO32
    requires 0 <= MovedOptional(c.hashStart, delta) < TWO32
    ensures ShiftFromHostEnd(c, diff) ==
            c.(hostEnd := c.hostEnd + delta,
               pathnameStart := c.pathnameStart + delta,
               searchStart := MovedOptional(c.searchStart, delta),
               hashStart := MovedOptional(c.hashStart, delta))
  {
    hide Wrap, Add32, ShiftFromPathname;
    WrappedShift(c.hostEnd, diff, delta);
    ShiftPathIsMove(c.(hostEnd := Add32(c.hostEnd, diff)), diff, delta);
  }

  ghost function Growth(u: Url, v: Url): int {
    |Serialize(v)| - |Serialize(u)|
  }

  /** After a change in front of the host end, the later offsets move by the growth of the text. */
  lemma ShiftAfterHost(u: Url, v: Url, diff: uint32)
    requires Fits(u) && Fits(v) && diff == Wrap(Growth(u, v))
    requires v == u.(protocol := v.protocol, slashes := v.slashes, username := v.username,
                     password := v.password, at := v.at, host := v.host)
    ensures Offsets(v) == ShiftFromHostEnd(Offsets(u), diff).(
                            protocolEnd := Offsets(v).protocolEnd,
                            usernameEnd := Offsets(v).usernameEnd,
                            hostStart := Offsets(v).hostStart)
  {
    hide Wrap, Serialize, Offsets, Add32, ShiftTail, ShiftFromHostEnd, ShiftFromPathname;
    OffsetValues(u);
    OffsetValues(v);
    ShiftIsMove(Offsets(u), diff, Growth(u, v));
  }

  /** After a change between the host end and the path, likewise. */
  lemma ShiftAfterPort(u: Url, v: Url, diff: uint32)
    requires Fits(u) && Fits(v) && diff == Wrap(Growth(u, v))
    requires v == u.(port := v.port, dashDot := v.dashDot)
    ensures Offsets(v) == ShiftFromPathname(Offsets(u), diff).(port := Offsets(v).port)
  {
    hide Wrap, Serialize, Offsets, Add32, ShiftTail, ShiftFromHostEnd, ShiftFromPathname;
    OffsetValues(u);
    OffsetValues(v);
    ShiftPathIsMove(Offsets(u), diff, Growth(u, v));
  }

  /** After a change of the path, likewise. */
  lemma ShiftAfterPath(u: Url, v: Url, diff: uint32)
    requires Fits(u) && Fits(v) && diff == Wrap(Growth(u, v))
    requires v == u.(pathname := v.pathname)
    ensures Offsets(v) == ShiftTail(Offsets(u), diff)
  {
    hide Wrap, Serialize, Offsets, Add32, ShiftTail, ShiftFromHostEnd, ShiftFromPathname;
    OffsetValues(u);
    OffsetValues(v);
    ShiftTailIsMove(Offsets(u), diff, Growth(u, v));
  }
}
