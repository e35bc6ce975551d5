/** The single-buffer URL: one string and eight offsets, updated in place by splicing the string
    and shifting the offsets with wrapping 32-bit differences. Every setter is proved to leave
    exactly the serialisation and the offsets of the record with that one component changed. */
module UrlAggregator {

  import opened Wrappers
  import opened Decimal
  import opened PercentEncoding
  import opened UrlRecord

  // The std::string operations that the setters are written in.

  function Insert(s: string, pos: nat, x: string): string
    requires pos <= |s|
  {
    s[..pos] + x + s[pos..]
  }

  function Erase(s: string, pos: nat, n: nat): string
    requires pos <= |s|
  {
    if pos + n <= |s| then s[..pos] + s[pos + n..] else s[..pos]
  }

  function Replace(s: string, pos: nat, n: nat, x: string): string
    requires pos <= |s|
  {
    if pos + n <= |s| then s[..pos] + x + s[pos + n..] else s[..pos] + x
  }

  /** The three ways to replace a stretch of `n` bytes: by one as long, by a shorter and by a
      longer text. */
  lemma Resized(s: string, pos: nat, n: nat, x: string)
    requires pos + n <= |s|
    ensures n == 0 ==> Insert(s, pos, x) == s[..pos] + x + s[pos + n..]
    ensures |x| == n ==> Replace(s, pos, |x|, x) == s[..pos] + x + s[pos + n..]
    ensures |x| < n ==> Replace(Erase(s, pos, n - |x|), pos, |x|, x) == s[..pos] + x + s[pos + n..]
    ensures |x| > n ==> Insert(Replace(s, pos, n, x[..n]), pos + n, x[n..]) == s[..pos] + x + s[pos + n..]
  {
    if |x| < n {
      var e := Erase(s, pos, n - |x|);
      assert e[pos + |x|..] == s[pos + n..];
    } else if |x| > n {
      var r := Replace(s, pos, n, x[..n]);
      assert r[..pos + n] == s[..pos] + x[..n] && r[pos + n..] == s[pos + n..];
      assert x[..n] + x[n..] == x;
    }
  }

  /** With a length larger than the text, everything behind the position goes. */
  lemma ResizedToTheEnd(s: string, pos: nat, n: nat, x: string)
    requires pos <= |s| && pos + n > |s| && |x| < n
    ensures Replace(Erase(s, pos, n - |x|), pos, |x|, x) == s[..pos] + x
  {
  }

  /** Reading one past the end of a std::string yields the terminating NUL. */
  function CharAt(s: string, i: nat): char
    requires i <= |s|
  {
    if i < |s| then s[i] else 0 as char
  }

  // How the splices act on a text cut into a front, a middle and a back.

  lemma Associate(pre: string, a: string, b: string, post: string)
    ensures pre + (a + b) + post == (pre + a) + b + post
  {
  }

  lemma AssociateThree(a: string, b: string, c: string)
    ensures a + (b + c) == a + b + c
  {
  }

  lemma SpliceMiddle(pre: string, mid: string, post: string, x: string)
    ensures (pre + mid + post)[..|pre|] + x + (pre + mid + post)[|pre| + |mid|..] == pre + x + post
  {
    assert (pre + mid + post)[..|pre|] == pre;
    assert (pre + mid + post)[|pre| + |mid|..] == post;
  }

  lemma SpliceFront(pre: string, a: string, b: string, post: string, x: string)
    ensures var s := pre + (a + b) + post;
            s[..|pre|] + x + s[|pre| + |a|..] == pre + (x + b) + post
  {
    var s := pre + (a + b) + post;
    assert s[..|pre|] == pre;
    assert s[|pre| + |a|..] == b + post;
  }

  lemma InsertMiddle(pre: string, a: string, b: string, post: string, x: string)
    ensures Insert(pre + (a + b) + post, |pre| + |a|, x) == pre + (a + x + b) + post
  {
    var s := pre + (a + b) + post;
    assert s[..|pre| + |a|] == pre + a;
    assert s[|pre| + |a|..] == b + post;
  }

  lemma InsertFront(pre: string, mid: string, post: string, x: string)
    ensures Insert(pre + mid + post, |pre|, x) == pre + (x + mid) + post
  {
    var s := pre + mid + post;
    assert s[..|pre|] == pre;
    assert s[|pre|..] == mid + post;
  }

  lemma EraseMiddle(pre: string, a: string, x: string, b: string, post: string)
    ensures Erase(pre + (a + x + b) + post, |pre| + |a|, |x|) == pre + (a + b) + post
  {
    var s := pre + (a + x + b) + post;
    assert s[..|pre| + |a|] == pre + a;
    assert s[|pre| + |a| + |x|..] == b + post;
  }

  // What each setter's splices make of the text of a record, and where the offsets move.

  lemma HostTextOf(u: Url, v: Url)
    requires Fits(u) && Fits(v) && v == u.(host := v.host, at := v.at)
    ensures var c := Offsets(u);
            && c.hostStart <= c.hostEnd <= |Serialize(u)|
            && var b := Serialize(u)[..c.hostStart] + v.host + Serialize(u)[c.hostEnd..];
               Serialize(v) == if v.at then Insert(b, c.hostStart, "@") else b
    ensures Growth(u, v) == |v.host| + |AtText(v)| - (Offsets(u).hostEnd - Offsets(u).hostStart)
  {
    hide Wrap, Serialize, Offsets, Insert;
    var pre, post := HostChange(u, v);
    OffsetValues(u);
    SpliceMiddle(pre, AtText(u) + u.host, post, v.host);
    InsertFront(pre, v.host, post, "@");
    assert AtText(v) + v.host == if v.at then "@" + v.host else v.host;
  }

  /** Host and everything after it move together; the offsets before the host stay. */
  lemma HostOffsetsOf(u: Url, v: Url, diff: uint32)
    requires Fits(u) && Fits(v) && v == u.(host := v.host, at := v.at)
    requires diff == Wrap(Growth(u, v))
    ensures Offsets(v) == ShiftFromHostEnd(Offsets(u), diff)
  {
    hide Wrap, Serialize, Offsets, Add32, ShiftOptional;
    OffsetValues(u);
    OffsetValues(v);
    ShiftAfterHost(u, v, diff);
  }

  /** The "@" goes in, or comes out, in front of the host. */
  lemma UsernameTextOf(u: Url, v: Url)
    requires Fits(u) && Fits(v) && u.slashes
    requires v == u.(username := v.username, at := v.at)
    ensures var c, s := Offsets(u), Serialize(u);
            && c.protocolEnd + 2 <= c.usernameEnd <= c.hostStart <= |s|
            && c.usernameEnd - (c.protocolEnd + 2) == |u.username|
            && var b := s[..c.protocolEnd + 2] + v.username + s[c.usernameEnd..];
               var h := c.hostStart + |v.username| - |u.username|;
               && 0 <= h <= |b|
               && Serialize(v) == (if v.at && !u.at then Insert(b, h, "@")
                                   else if u.at && !v.at then Erase(b, h, 1) else b)
    ensures Growth(u, v) ==
            |v.username| - |u.username| + (if v.at then 1 else 0) - (if u.at then 1 else 0)
    ensures Offsets(v).usernameEnd == Offsets(u).usernameEnd + |v.username| - |u.username|
    ensures Offsets(v).hostStart == Offsets(u).hostStart + |v.username| - |u.username|
    ensures Offsets(v).protocolEnd == Offsets(u).protocolEnd
  {
    hide Serialize, Offsets, Insert, Erase;
    var pre, post := CredentialsChange(u, v);
    OffsetValues(u);
    OffsetValues(v);
    var password := PasswordText(u);
    assert u.username + password + AtText(u) == u.username + (password + AtText(u));
    SpliceFront(pre, u.username, password + AtText(u), post, v.username);
    var name := v.username + password;
    assert v.username + (password + AtText(u)) == name + AtText(u);
    if v.at && !u.at {
      assert name + AtText(u) == name + "";
      InsertMiddle(pre, name, "", post, "@");
      assert name + "@" + "" == name + AtText(v);
    } else if u.at && !v.at {
      assert name + AtText(u) == name + "@" + "";
      EraseMiddle(pre, name, "@", "", post);
      assert name + "" == name + AtText(v);
    }
  }

  lemma UsernameOffsetsOf(u: Url, v: Url, nameDiff: uint32, diff: uint32)
    requires Fits(u) && Fits(v) && u.slashes
    requires v == u.(username := v.username, at := v.at)
    requires nameDiff == Wrap(|v.username| - |u.username|) && diff == Wrap(Growth(u, v))
    ensures Offsets(v) == ShiftFromHostEnd(
                            Offsets(u).(usernameEnd := Add32(Offsets(u).usernameEnd, nameDiff),
                                        hostStart := Add32(Offsets(u).hostStart, nameDiff)), diff)
  {
    hide Wrap, Serialize, Offsets, Insert, Erase, Add32, ShiftOptional;
    UsernameTextOf(u, v);
    WrappedShift(Offsets(u).usernameEnd, nameDiff, |v.username| - |u.username|);
    WrappedShift(Offsets(u).hostStart, nameDiff, |v.username| - |u.username|);
    ShiftAfterHost(u, v, diff);
  }

  lemma SlashesLeaveStray(u: Url, v: Url)
    requires v == u.(slashes := v.slashes, username := v.username, password := v.password)
    ensures StrayAt(v) == StrayAt(u)
  {
  }

  lemma AddTwice(x: uint32, d: uint32, e: uint32)
    ensures Add32(Add32(x, d), e) == Add32(x, Add32(d, e))
  {
    hide Add32;
    WrappedSum(Wrap(x + d), x + d, e);
    WrappedSum(Wrap(d + e), d + e, x);
    assert Add32(x, d) == Wrap(x + d) && Add32(d, e) == Wrap(d + e) by { AddIsWrap(x, d); AddIsWrap(d, e); }
    AddIsWrap(Wrap(d + e), x);
    AddIsWrap(x, Wrap(d + e));
  }

  lemma AddIsWrap(x: uint32, d: uint32)
    ensures Add32(x, d) == Wrap(x + d)
  {
  }

  lemma ShiftTwice(c: Components, d: uint32, e: uint32)
    requires c.searchStart != OMITTED ==> Add32(c.searchStart, d) != OMITTED
    requires c.hashStart != OMITTED ==> Add32(c.hashStart, d) != OMITTED
    ensures ShiftFromHostEnd(ShiftFromHostEnd(c, d), e) == ShiftFromHostEnd(c, Add32(d, e))
  {
    hide Add32;
    AddTwice(c.hostEnd, d, e);
    AddTwice(c.pathnameStart, d, e);
    AddTwice(c.searchStart, d, e);
    AddTwice(c.hashStart, d, e);
  }

  /** A record with a stray "@" where the separator would be: the text with the name replaced, and one
      byte less at the host. */
  lemma ErasedStrayOf(u: Url, v: Url, nameDiff: uint32, diff: uint32)
    requires Fits(u) && Fits(v) && u.slashes && StrayAt(u) && !v.at
    requires v == u.(username := v.username)
    requires nameDiff == Wrap(|v.username| - |u.username|)
    requires diff == Wrap(|v.username| - |u.username| - 1)
    ensures var c := Offsets(u).(usernameEnd := Add32(Offsets(u).usernameEnd, nameDiff),
                                 hostStart := Add32(Offsets(u).hostStart, nameDiff));
      ShiftFromHostEnd(c, diff) == ShiftFromHostEnd(Offsets(v), Wrap(-1))
    ensures Offsets(v).hostStart < |Serialize(v)|
    ensures |Erase(Serialize(v), Offsets(v).hostStart, 1)| == |Serialize(v)| - 1
  {
    hide Wrap, Serialize, Offsets, Insert, Erase, Add32;
    var c := Offsets(u).(usernameEnd := Add32(Offsets(u).usernameEnd, nameDiff),
                         hostStart := Add32(Offsets(u).hostStart, nameDiff));
    UsernameTextOf(u, v);
    SlashesLeaveStray(u, v);
    AtMark(v);
    PresentOffsets(u);
    PresentOffsets(v);
    var whole := Wrap(Growth(u, v));
    UsernameOffsetsOf(u, v, nameDiff, whole);
    WrappedSum(Wrap(-1), -1, whole);
    WrappedSum(whole, Growth(u, v), 1);
    LessOne(whole, Growth(u, v));
    ShiftTwice(c, whole, Wrap(-1));
    EraseIsCut(Serialize(v), Offsets(v).hostStart, 1);
  }

  lemma LessOne(d: uint32, x: int)
    requires d == Wrap(x)
    ensures Add32(d, Wrap(-1)) == Wrap(x - 1)
  {
    hide Add32;
    WrappedSum(d, x, 1);
    Residue(-1, -1, TWO32 - 1);
    if d == 0 {
      WrapSmall(TWO32 - 1);
      AddIsWrap(d, TWO32 - 1);
      Residue(-1, -1, TWO32 - 1);
    } else {
      Residue(d + TWO32 - 1, 1, d - 1);
      AddIsWrap(d, TWO32 - 1);
      WrapSmall(d - 1);
    }
  }

  lemma ClearPasswordOf(u: Url, v: Url)
    requires Fits(u) && Fits(v) && v == u.(password := "")
    ensures var c := Offsets(u);
            && c.usernameEnd <= c.hostStart <= |Serialize(u)|
            && c.hostStart - c.usernameEnd == |PasswordText(u)|
            && Serialize(v) == Erase(Serialize(u), c.usernameEnd, c.hostStart - c.usernameEnd)
            && Offsets(v) == ShiftFromHostEnd(
                               c.(hostStart := c.usernameEnd), Wrap(c.usernameEnd - c.hostStart))
  {
    hide Wrap, Serialize, Offsets, Erase, Add32, ShiftOptional;
    var pre, post := CredentialsChange(u, v);
    OffsetValues(u);
    OffsetValues(v);
    EraseMiddle(pre, u.username, PasswordText(u), AtText(u), post);
    assert u.username + AtText(u) == v.username + PasswordText(v) + AtText(v);
    assert Growth(u, v) == -|PasswordText(u)|;
    ShiftAfterHost(u, v, Wrap(-|PasswordText(u)|));
  }

  lemma ColonMark(u: Url)
    requires Fits(u) && u.password != ""
    ensures Offsets(u).usernameEnd < Offsets(u).hostStart <= |Serialize(u)|
    ensures Serialize(u)[Offsets(u).usernameEnd] == ':'
  {
    hide Serialize, Offsets;
    var pre, post := CredentialsChange(u, u);
    OffsetValues(u);
    assert (u.username + PasswordText(u) + AtText(u))[|u.username|] == ':';
  }

  /** Writing a password over an old one, or with a new colon, without the "@" yet. */
  lemma PasswordTextOf(u: Url, w: Url)
    requires Fits(u) && Fits(w) && w == u.(password := w.password) && w.password != ""
    ensures var c, s := Offsets(u), Serialize(u);
            && c.usernameEnd <= c.hostStart <= |s|
            && (u.password != "" ==>
                && c.hostStart - c.usernameEnd == 1 + |u.password|
                && var b := Erase(s, c.usernameEnd + 1, |u.password|);
                   c.usernameEnd + 1 <= |b| && Serialize(w) == Insert(b, c.usernameEnd + 1, w.password))
            && (u.password == "" ==>
                && c.hostStart == c.usernameEnd
                && var b := Insert(s, c.usernameEnd, ":");
                   c.usernameEnd + 1 <= |b| && Serialize(w) == Insert(b, c.usernameEnd + 1, w.password))
    ensures Growth(u, w) == |w.password| - |u.password| + (if u.password == "" then 1 else 0)
    ensures Offsets(w).hostStart == Offsets(u).hostStart + Growth(u, w)
    ensures Offsets(w).protocolEnd == Offsets(u).protocolEnd
    ensures Offsets(w).usernameEnd == Offsets(u).usernameEnd
  {
    hide Serialize, Offsets, Insert, Erase;
    var pre, post := CredentialsChange(u, w);
    OffsetValues(u);
    OffsetValues(w);
    var colon := u.username + ":";
    assert w.username + PasswordText(w) + AtText(w) == colon + w.password + AtText(u);
    InsertMiddle(pre, colon, AtText(u), post, w.password);
    if u.password != "" {
      assert u.username + PasswordText(u) + AtText(u) == colon + u.password + AtText(u);
      EraseMiddle(pre, colon, u.password, AtText(u), post);
    } else {
      assert u.username + PasswordText(u) + AtText(u) == u.username + AtText(u);
      InsertMiddle(pre, u.username, AtText(u), post, ":");
    }
    assert |pre + (colon + AtText(u)) + post| >= Offsets(u).usernameEnd + 1;
  }

  /** Writing the "@" of a record that has none yet. */
  lemma AtTextOf(w: Url, v: Url)
    requires Fits(w) && Fits(v) && v == w.(at := true)
    ensures Offsets(w).hostStart <= |Serialize(w)|
    ensures Serialize(v) ==
            if w.at then Serialize(w) else Insert(Serialize(w), Offsets(w).hostStart, "@")
    ensures Growth(w, v) == if w.at then 0 else 1
    ensures Offsets(v).hostStart == Offsets(w).hostStart
    ensures Offsets(v).usernameEnd == Offsets(w).usernameEnd
    ensures Offsets(v).protocolEnd == Offsets(w).protocolEnd
  {
    hide Serialize, Offsets, Insert;
    var pre, post := HostChange(w, v);
    OffsetValues(w);
    OffsetValues(v);
    if !w.at {
      assert AtText(w) + w.host == w.host;
      InsertFront(pre, w.host, post, "@");
    }
  }

  /** Everything between the host and the path gives way to a new port. */
  lemma PortTextOf(u: Url, v: Url)
    requires Fits(u) && Fits(v)
    requires v == u.(port := v.port, dashDot := false)
    ensures var c, s := Offsets(u), Serialize(u);
            && c.hostEnd <= c.pathnameStart <= |s|
            && c.pathnameStart - c.hostEnd == |PortText(u.port)| + |DashDotText(u)|
            && var b := Erase(s, c.hostEnd, c.pathnameStart - c.hostEnd);
               c.hostEnd <= |b| && Serialize(v) == Insert(b, c.hostEnd, PortText(v.port))
    ensures Growth(u, v) == |PortText(v.port)| - |PortText(u.port)| - |DashDotText(u)|
  {
    hide Serialize, Offsets, Insert, Erase;
    var pre, post := PathChange(u, v);
    OffsetValues(u);
    var gap := PortText(u.port) + DashDotText(u);
    EraseMiddle(pre, "", gap, u.pathname, post);
    assert "" + gap == gap && "" + u.pathname == u.pathname;
    InsertFront(pre, u.pathname, post, PortText(v.port));
    assert PortText(v.port) + DashDotText(v) == PortText(v.port);
  }

  /** Where there was no port, the new one goes in front of the "/." or the path. */
  lemma NewPortTextOf(u: Url, v: Url)
    requires Fits(u) && Fits(v) && v == u.(port := v.port) && u.port.None?
    ensures Offsets(u).hostEnd <= |Serialize(u)|
    ensures Serialize(v) == Insert(Serialize(u), Offsets(u).hostEnd, PortText(v.port))
    ensures Growth(u, v) == |PortText(v.port)|
  {
    hide Serialize, Offsets, Insert;
    var pre, post := PathChange(u, v);
    OffsetValues(u);
    var rest := DashDotText(u) + u.pathname;
    assert PortText(u.port) + DashDotText(u) + u.pathname == rest;
    InsertFront(pre, rest, post, PortText(v.port));
    AssociateThree(PortText(v.port), DashDotText(u), u.pathname);
  }

  /** The end of the path, where the search, the hash or nothing follows. */
  function PathEnd(c: Components, size: nat): nat {
    if c.searchStart != OMITTED then c.searchStart
    else if c.hashStart != OMITTED then c.hashStart else size
  }

  lemma PathTextOf(u: Url, v: Url)
    requires Fits(u) && Fits(v) && v == u.(pathname := v.pathname)
    ensures var c, s := Offsets(u), Serialize(u);
            && c.pathnameStart <= PathEnd(c, |s|) <= |s|
            && PathEnd(c, |s|) - c.pathnameStart == |u.pathname|
            && s[c.pathnameStart..PathEnd(c, |s|)] == u.pathname
            && Serialize(v) == s[..c.pathnameStart] + v.pathname + s[PathEnd(c, |s|)..]
    ensures Growth(u, v) == |v.pathname| - |u.pathname|
  {
    hide Serialize, Offsets;
    var pre, post := PathChange(u, v);
    OffsetValues(u);
    PresentOffsets(u);
    var gap := PortText(u.port) + DashDotText(u);
    Associate(pre, gap, u.pathname, post);
    Associate(pre, gap, v.pathname, post);
    SpliceMiddle(pre + gap, u.pathname, post, v.pathname);
  }

  /** The "/." goes in front of the path. */
  lemma AddDashDotOf(u: Url, v: Url)
    requires Fits(u) && Fits(v) && !u.dashDot && v == u.(dashDot := true)
    ensures Offsets(u).pathnameStart <= |Serialize(u)|
    ensures Serialize(v) == Insert(Serialize(u), Offsets(u).pathnameStart, "/.")
    ensures Growth(u, v) == 2
  {
    hide Serialize, Offsets, Insert;
    var pre, post := PathChange(u, v);
    OffsetValues(u);
    var port := PortText(u.port);
    assert port + DashDotText(u) == port;
    InsertMiddle(pre, port, u.pathname, post, "/.");
  }

  /** The "/." comes out again. */
  lemma DropDashDotOf(u: Url, v: Url)
    requires Fits(u) && Fits(v) && u.dashDot && v == u.(dashDot := false)
    ensures var c, s, at := Offsets(u), Serialize(u), Offsets(u).hostEnd + |PortText(u.port)|;
            && at + 2 == c.pathnameStart <= |s|
            && s[at..at + 2] == "/."
            && Serialize(v) == Erase(s, at, 2)
    ensures Growth(u, v) == -2
  {
    hide Serialize, Offsets, Erase;
    var pre, post := PathChange(u, v);
    OffsetValues(u);
    var port := PortText(u.port);
    EraseMiddle(pre, port, "/.", u.pathname, post);
    assert port + DashDotText(v) == port;
    DashDotSlice(pre, port, u.pathname, post);
  }

  lemma DashDotSlice(pre: string, port: string, path: string, post: string)
    ensures var s := pre + (port + "/." + path) + post;
            s[|pre| + |port|..|pre| + |port| + 2] == "/."
  {
  }

  lemma KeepFront(pre: string, at: string, host: string, kept: string, post: string)
    requires kept <= host
    ensures Erase(pre + (at + host) + post, |pre| + |at| + |kept|, |host| - |kept|) == pre + (at + kept) + post
  {
    var front, gone := at + kept, host[|kept|..];
    assert at + host == front + gone + "" && front + "" == front;
    EraseMiddle(pre, front, gone, "", post);
  }

  lemma ClearHostOf(u: Url, v: Url, kept: string)
    requires Fits(u) && Fits(v) && v == u.(host := kept) && kept <= u.host
    ensures var c, s := Offsets(u), Serialize(u);
            && c.hostStart + |AtText(u)| + |u.host| == c.hostEnd <= |s|
            && Serialize(v) == Erase(s, c.hostStart + |AtText(u)| + |kept|, |u.host| - |kept|)
            && Offsets(v) == ShiftFromPathname(
                               c.(hostEnd := c.hostStart + |AtText(u)| + |kept|), Wrap(|kept| - |u.host|))
  {
    hide Wrap, Serialize, Offsets, Erase, Add32, ShiftOptional;
    var pre, post := HostChange(u, v);
    KeepFront(pre, AtText(u), u.host, kept, post);
    OffsetValues(u);
    OffsetValues(v);
    assert Growth(u, v) == |kept| - |u.host|;
    ShiftAfterHost(u, v, Wrap(|kept| - |u.host|));
  }

  /** The host setter's opposite keeps an "@" in front of the host, even if it is the host's own. */
  function HostCleared(u: Url): Url {
    u.(host := if !u.at && StartsWith(u.host, '@') then "@" else "")
  }

  lemma HostClearedOf(u: Url)
    requires Fits(u)
    ensures Fits(HostCleared(u))
    ensures var c, s := Offsets(u), Serialize(u);
            && c.hostStart <= c.hostEnd <= |s|
            && var first := if c.hostStart < c.hostEnd && s[c.hostStart] == '@' then 1 else 0;
               var gone := c.hostEnd - c.hostStart - first;
               && c.hostStart + first < TWO32
               && Serialize(HostCleared(u)) == Erase(s, c.hostStart + first, gone)
               && Offsets(HostCleared(u)) == ShiftFromPathname(c.(hostEnd := c.hostStart + first), Wrap(-gone))
  {
    hide Wrap, Serialize, Offsets, Erase, ShiftFromPathname;
    var v := HostCleared(u);
    TextLength(u);
    TextLength(v);
    AtMark(u);
    OffsetValues(u);
    ClearHostOf(u, v, v.host);
  }

  lemma AppendNameOf(u: Url, w: Url, input: string)
    requires Fits(u) && Fits(w) && w == u.(username := u.username + input)
    ensures Offsets(u).usernameEnd <= |Serialize(u)|
    ensures Serialize(w) == Insert(Serialize(u), Offsets(u).usernameEnd, input)
    ensures Growth(u, w) == |input|
    ensures Offsets(w).usernameEnd == Offsets(u).usernameEnd + |input|
    ensures Offsets(w).hostStart == Offsets(u).hostStart + |input|
    ensures Offsets(w).protocolEnd == Offsets(u).protocolEnd
  {
    hide Serialize, Offsets, Insert;
    var pre, post := CredentialsChange(u, w);
    OffsetValues(u);
    OffsetValues(w);
    var rest := PasswordText(u) + AtText(u);
    assert u.username + PasswordText(u) + AtText(u) == u.username + rest;
    InsertMiddle(pre, u.username, rest, post, input);
    assert u.username + input + rest == w.username + PasswordText(w) + AtText(w);
  }

  lemma AppendedOffsetsOf(u: Url, v: Url, input: string, diff: uint32)
    requires Fits(u) && Fits(v) && v == u.(username := u.username + input, at := v.at)
    requires diff == Wrap(Growth(u, v))
    ensures |input| < TWO32
    ensures Offsets(v) == ShiftFromHostEnd(
                            Offsets(u).(usernameEnd := Add32(Offsets(u).usernameEnd, |input|),
                                        hostStart := Add32(Offsets(u).hostStart, |input|)), diff)
  {
    hide Wrap, Serialize, Offsets, Add32, ShiftOptional;
    OffsetValues(u);
    OffsetValues(v);
    WrapSmall(|input|);
    WrappedShift(Offsets(u).usernameEnd, |input|, |input|);
    WrappedShift(Offsets(u).hostStart, |input|, |input|);
    ShiftAfterHost(u, v, diff);
  }

  lemma PasswordOffsetsOf(u: Url, v: Url, passwordDiff: uint32, diff: uint32)
    requires Fits(u) && Fits(v) && Fits(u.(password := v.password))
    requires v == u.(password := v.password, at := v.at)
    requires passwordDiff == Wrap(Growth(u, u.(password := v.password)))
    requires diff == Wrap(Growth(u, v))
    ensures Offsets(v) == ShiftFromHostEnd(
                            Offsets(u).(hostStart := Add32(Offsets(u).hostStart, passwordDiff)), diff)
  {
    hide Wrap, Serialize, Offsets, Add32, ShiftOptional;
    OffsetValues(u);
    OffsetValues(v);
    TextLength(u);
    TextLength(u.(password := v.password));
    WrappedShift(Offsets(u).hostStart, passwordDiff, Growth(u, u.(password := v.password)));
    ShiftAfterHost(u, v, diff);
  }

  /** The record after the port setter: a new port also removes a "/." behind an old one. */
  function PortSet(u: Url, port: uint32): Url {
    u.(port := if port == OMITTED then None else Some(port), dashDot := u.dashDot && u.port.None?)
  }

  lemma InsertNothing(s: string, pos: nat)
    requires pos <= |s|
    ensures Insert(s, pos, "") == s
  {
  }

  lemma EraseIsCut(s: string, pos: nat, n: nat)
    requires pos + n <= |s|
    ensures Erase(s, pos, n) == s[..pos] + "" + s[pos + n..]
  {
  }

  lemma DigitsLength(n: nat)
    ensures |Digits(n)| == 1 <==> n < 10
  {
  }

  /** What stands between the host and the path, when it is two characters long. */
  lemma GapMark(u: Url)
    requires Fits(u)
    ensures var c, s := Offsets(u), Serialize(u);
            && c.hostEnd <= c.pathnameStart <= |s|
            && (c.pathnameStart == c.hostEnd + 2 ==>
                (u.dashDot && u.port.None? <==> s[c.hostEnd] == '/' && s[c.hostEnd + 1] == '.'))
  {
    hide Serialize, Offsets;
    var pre, post := PathChange(u, u);
    OffsetValues(u);
    if u.dashDot && u.port.None? {
      assert PortText(u.port) + DashDotText(u) + u.pathname == "/." + u.pathname;
      DashDotSlice(pre, "", u.pathname, post);
      assert "" + "/." + u.pathname == "/." + u.pathname;
      assert Serialize(u)[|pre|..|pre| + 2] == "/.";
    } else if Offsets(u).pathnameStart == Offsets(u).hostEnd + 2 {
      assert (PortText(u.port) + DashDotText(u) + u.pathname)[0] == ':';
    }
  }

  /** Emptying the path takes two steps: the path goes, then a "/." in front of it. */
  lemma ErasedPathOf(u: Url, w: Url)
    requires Fits(u) && w == u.(pathname := "")
    ensures var c, s := Offsets(u), Serialize(u);
            && c.hostEnd <= c.pathnameStart <= PathEnd(c, |s|) <= |s|
            && PathEnd(c, |s|) - c.pathnameStart == |u.pathname|
            && Serialize(w) == Erase(s, c.pathnameStart, |u.pathname|)
            && c.pathnameStart <= |Serialize(w)|
    ensures Fits(w)
    ensures Offsets(w).hostEnd == Offsets(u).hostEnd
    ensures Offsets(w).pathnameStart == Offsets(u).pathnameStart
  {
    hide Wrap, Serialize, Offsets, Add32, Erase, ShiftOptional;
    TextLength(u);
    TextLength(w);
    PathTextOf(u, w);
    EraseIsCut(Serialize(u), Offsets(u).pathnameStart, |u.pathname|);
    OffsetValues(u);
    OffsetValues(w);
  }

  lemma DroppedDashDotOf(w: Url, v: Url)
    requires Fits(w) && v == w.(dashDot := w.dashDot && w.port.Some?)
    ensures Fits(v)
    ensures var c, s := Offsets(w), Serialize(w);
            && c.hostEnd <= c.pathnameStart <= |s|
            && (c.pathnameStart == c.hostEnd + 2 ==>
                (v.dashDot != w.dashDot <==> s[c.hostEnd] == '/' && s[c.hostEnd + 1] == '.'))
            && (v.dashDot != w.dashDot ==>
                c.pathnameStart == c.hostEnd + 2 && Serialize(v) == Erase(s, c.hostEnd, 2))
  {
    hide Wrap, Serialize, Offsets, Add32, Erase, ShiftOptional;
    TextLength(w);
    TextLength(v);
    GapMark(w);
    if v.dashDot != w.dashDot { DropDashDotOf(w, v); }
  }

  lemma ClearedPathOffsetsOf(u: Url, v: Url)
    requires Fits(u) && Fits(v)
    requires v == u.(pathname := "", dashDot := u.dashDot && u.port.Some?)
    ensures var gone := if v.dashDot != u.dashDot then 2 else 0;
            && Offsets(v).pathnameStart == Offsets(u).pathnameStart - gone
            && Offsets(v) == ShiftTail(
                               Offsets(u).(pathnameStart := Offsets(v).pathnameStart),
                               Wrap(-(|u.pathname| + gone)))
  {
    hide Wrap, Serialize, Offsets, Add32, ShiftOptional;
    OffsetValues(u);
    OffsetValues(v);
    ShiftTailIsMove(Offsets(u), Wrap(Growth(u, v)), Growth(u, v));
  }

  // The records that the credential setters leave.

  /** The byte at the host offset stands for the "@" even where it belongs to the host or the path:
      none is written in front of it. The "@" goes only with the last credential. */
  function UsernameSet(u: Url, input: string): Url {
    u.(slashes := true, username := input,
       at := if input != "" then u.at || !StrayAt(u) else u.at && u.password != "")
  }

  function PasswordSet(u: Url, input: string): Url {
    u.(slashes := true, password := input,
       at := if input != "" then u.at || !StrayAt(u) else u.at && u.username != "")
  }

  /** The appending setter compares the moved host start with the host end before it moves, so
      the "@" is left out when the host is as long as the appended text. */
  function UsernameAppended(u: Url, input: string): Url {
    u.(slashes := true, username := u.username + input,
       at := u.at || (input != "" && |u.host| != |input| && !StrayAt(u)))
  }

  /** Emptying both credentials takes a stray "@" out of the text instead of the separator. */
  predicate ErasesStray(u: Url, input: string, other: string) {
    input == "" && other == "" && StrayAt(u)
  }

  /** Whether the setter takes the byte at the host offset for the "@". */
  predicate SeesAt(u: Url) {
    u.at || StrayAt(u)
  }

  /** The text with the name replaced, before the "@" is seen to. */
  ghost function Named(u: Url, input: string): string
    requires Fits(u) && u.slashes
  {
    OffsetValues(u);
    var s := Serialize(u);
    UsernameTextOf(u, u);
    s[..Offsets(u).protocolEnd + 2] + input + s[Offsets(u).usernameEnd..]
  }

  function NamedOffsets(c: Components, diff: uint32): Components {
    c.(usernameEnd := Add32(c.usernameEnd, diff), hostStart := Add32(c.hostStart, diff))
  }

  lemma NameWritten(u: Url, v: Url, input: string, diff: uint32)
    requires Fits(u) && Fits(v) && u.slashes && v == u.(username := input, at := v.at)
    requires diff == Wrap(|input| - |u.username|)
    ensures var mid, named := NamedOffsets(Offsets(u), diff), Named(u, input);
      && mid.hostStart <= |named|
      && Serialize(v) == (if v.at && !u.at then Insert(named, mid.hostStart, "@")
                          else if u.at && !v.at then Erase(named, mid.hostStart, 1) else named)
      && Offsets(v) == ShiftFromHostEnd(
           mid, if v.at && !u.at then Add32(diff, 1) else if u.at && !v.at then Sub32(diff, 1) else diff)
  {
    hide Wrap, Serialize, Offsets, Insert, Erase, Add32, ShiftOptional, ShiftFromHostEnd;
    var delta := |input| - |u.username|;
    UsernameTextOf(u, v);
    WrappedShift(Offsets(u).hostStart, diff, delta);
    WrappedSum(diff, delta, 1);
    UsernameOffsetsOf(u, v, diff, Wrap(Growth(u, v)));
  }

  lemma NameErasesStray(u: Url, v: Url, diff: uint32)
    requires Fits(u) && Fits(v) && u.slashes && StrayAt(u) && v == u.(username := "")
    requires diff == Wrap(-|u.username|)
    ensures var mid, named := NamedOffsets(Offsets(u), diff), Named(u, "");
      mid.hostStart <= |named|
      && StrayErased(v, Erase(named, mid.hostStart, 1), ShiftFromHostEnd(mid, Sub32(diff, 1)))
  {
    hide Wrap, Serialize, Offsets, Insert, Erase, Add32, ShiftOptional, ShiftFromHostEnd;
    UsernameTextOf(u, v);
    WrappedShift(Offsets(u).hostStart, diff, -|u.username|);
    WrappedSum(diff, -|u.username|, 1);
    ErasedStrayOf(u, v, diff, Sub32(diff, 1));
  }

  /** What the three ways to see to the "@" make of it. */
  lemma NameSettled(u: Url, v: Url, input: string, diff: uint32)
    requires Fits(u) && Fits(v) && u.slashes && v == UsernameSet(u, input)
    requires diff == Wrap(|input| - |u.username|)
    ensures var mid, named := NamedOffsets(Offsets(u), diff), Named(u, input);
      && mid.hostStart <= |named|
      && if input != "" && !SeesAt(u) then
           Serialize(v) == Insert(named, mid.hostStart, "@")
           && Offsets(v) == ShiftFromHostEnd(mid, Add32(diff, 1))
         else if input == "" && SeesAt(u) && u.password == "" then
           if StrayAt(u) then
             StrayErased(v, Erase(named, mid.hostStart, 1), ShiftFromHostEnd(mid, Sub32(diff, 1)))
           else
             Serialize(v) == Erase(named, mid.hostStart, 1)
             && Offsets(v) == ShiftFromHostEnd(mid, Sub32(diff, 1))
         else
           Serialize(v) == named && Offsets(v) == ShiftFromHostEnd(mid, diff)
  {
    hide Wrap, Serialize, Offsets, Insert, Erase, Add32, ShiftFromHostEnd, StrayAt, StrayErased, Named, NamedOffsets;
    AtMark(u);
    if input == "" && StrayAt(u) && u.password == "" {
      NameErasesStray(u, v, diff);
    } else {
      NameWritten(u, v, input, diff);
    }
  }

  /** What is left when a stray "@" was erased in place of the separator. */
  ghost predicate StrayErased(u: Url, buffer: string, components: Components) {
    && Fits(u)
    && Offsets(u).hostStart < |Serialize(u)|
    && buffer == Erase(Serialize(u), Offsets(u).hostStart, 1) && |buffer| == |Serialize(u)| - 1
    && components == ShiftFromHostEnd(Offsets(u), Wrap(-1))
  }

  /** The credential setters write exactly the "@" that is due if and only if there is no stray one
      in its place and, where one credential is emptied and the other stays, it is written already. */
  lemma CredentialsAreSettledWhen(u: Url, input: string)
    requires Sound(u)
    ensures UsernameSet(u, input) == SettleAt(u.(slashes := true, username := input)) <==>
      (input != "" ==> !StrayAt(u)) && (input == "" && u.password != "" ==> u.at)
    ensures PasswordSet(u, input) == SettleAt(u.(slashes := true, password := input)) <==>
      (input != "" ==> !StrayAt(u)) && (input == "" && u.username != "" ==> u.at)
    ensures UsernameAppended(u, input) == SettleAt(u.(slashes := true, username := u.username + input)) <==>
      if input != "" then u.at || (|u.host| != |input| && !StrayAt(u)) else u.at <==> HasCredentials(u)
  {
    assert u.username + "" == u.username;
  }

  /** From a well-formed URL with an authority all results are well-formed, but for a text appended
      to no user name and no password that is as long as the host. */
  lemma AppendedIsWellFormedWhen(u: Url, input: string)
    requires WellFormed(u) && u.slashes
    ensures WellFormed(UsernameSet(u, input)) && WellFormed(PasswordSet(u, input))
    ensures WellFormed(UsernameAppended(u, input)) <==> input == "" || HasCredentials(u) || |input| != |u.host|
  {
    assert u.username + "" == u.username;
  }

  /** For instance "xyz" appended on http://abc/: the result is http://xyzabc/. */
  lemma AppendedNameRunsIntoTheHost()
    ensures var u := Url("http:", true, "", "", false, "abc", None, false, "/", None, None);
      var v := UsernameAppended(u, "xyz");
      && WellFormed(u) && Serialize(u) == "http://abc/"
      && !WellFormed(v) && v.username == "xyz" && Serialize(v) == "http://xyzabc/"
  {
    hide Serialize;
    var u := Url("http:", true, "", "", false, "abc", None, false, "/", None, None);
    TextParts(u);
    TextParts(UsernameAppended(u, "xyz"));
  }

  /** Appending to the user name: the text before the "@" test, the test, the text after it. */
  lemma AppendedOf(u: Url, w: Url, v: Url, input: string)
    requires Fits(u) && u.slashes && input != ""
    requires w == u.(username := u.username + input) && Fits(w.(at := true))
    requires v == UsernameAppended(u, input)
    ensures Fits(v) && |input| < TWO32
    ensures var c, h := Offsets(u), Offsets(u).hostStart + |input|;
            && c.usernameEnd <= |Serialize(u)|
            && c.usernameEnd + |input| < TWO32
            && Serialize(w) == Insert(Serialize(u), c.usernameEnd, input)
            && h <= |Serialize(w)| < TWO32
            && (CharAt(Serialize(w), h) == '@' <==> u.at || StrayAt(u))
            && c.hostEnd == c.hostStart + |AtText(u)| + |u.host|
            && Serialize(v) ==
               (if v.at && !u.at then Insert(Serialize(w), h, "@") else Serialize(w))
            && Growth(u, v) == |input| + (if v.at && !u.at then 1 else 0)
  {
    hide Serialize, Offsets, Insert;
    TextLength(w);
    TextLength(w.(at := true));
    TextLength(v);
    AppendNameOf(u, w, input);
    AtTextOf(w, w.(at := true));
    AtMark(w);
    OffsetValues(u);
  }

  /** Writing a password: the text before the "@" test, the test, the text after it. */
  lemma PasswordWrittenOf(u: Url, w: Url, v: Url)
    requires Fits(u) && u.slashes
    requires w == u.(password := w.password) && w.password != ""
    requires v == PasswordSet(u, w.password) && Fits(v)
    ensures Fits(w) && |w.password| < TWO32
    ensures var h := Offsets(u).hostStart + Growth(u, w);
            && 0 <= h <= |Serialize(w)|
            && (CharAt(Serialize(w), h) == '@' <==> u.at || StrayAt(u))
            && Serialize(v) == (if v.at && !u.at then Insert(Serialize(w), h, "@") else Serialize(w))
    ensures Growth(u, v) == Growth(u, w) + (if v.at && !u.at then 1 else 0)
  {
    hide Serialize, Offsets, Insert;
    TextLength(w);
    TextLength(v);
    PasswordTextOf(u, w);
    if v.at { AtTextOf(w, v); }
    AtMark(w);
  }

  /** Everything in front of the search and the hash. */
  ghost function Stem(u: Url): string {
    Serialize(u.(search := None, hash := None))
  }

  lemma StemParts(u: Url)
    requires Fits(u)
    ensures Serialize(u) == Stem(u) + Tagged('?', u.search) + Tagged('#', u.hash)
    ensures Offsets(u).searchStart == if u.search.Some? then |Stem(u)| else OMITTED
    ensures Offsets(u).hashStart ==
            if u.hash.Some? then |Stem(u)| + |Tagged('?', u.search)| else OMITTED
    ensures |Stem(u)| + |Tagged('?', u.search)| + |Tagged('#', u.hash)| == |Serialize(u)|
  {
    hide Serialize, Offsets;
    var w := u.(search := None, hash := None);
    TextLength(u);
    TextLength(w);
    var pre := SearchChange(u, w);
    OffsetValues(u);
    assert Tagged('?', w.search) + Tagged('#', w.hash) == "";
    assert pre + "" == pre;
    AssociateThree(pre, Tagged('?', u.search), Tagged('#', u.hash));
  }

  lemma SameFront(u: Url, v: Url)
    requires Fits(u) && Fits(v) && v == u.(search := v.search, hash := v.hash)
    ensures Stem(u) == Stem(v)
    ensures Offsets(v) == Offsets(u).(searchStart := Offsets(v).searchStart,
                                      hashStart := Offsets(v).hashStart)
  {
    hide Serialize, Offsets;
    OffsetValues(u);
    OffsetValues(v);
  }

  /** Completing a search whose "?" is already written. */
  lemma SearchWritten(u: Url, v: Url, query: string)
    requires Fits(u) && Fits(v) && v == u.(search := Some(query))
    ensures |Stem(u)| + 1 + |query| < TWO32 && Fits(u.(search := Some("")))
    ensures (u.hash.Some? <==> Offsets(u).hashStart != OMITTED)
    ensures var b := Stem(u) + "?" + Tagged('#', u.hash);
            && |Stem(u)| + 1 <= |b|
            && Serialize(v) == if u.hash.Some? then Insert(b, |Stem(u)| + 1, query) else b + query
    ensures Offsets(v) == Offsets(u).(
                            searchStart := |Stem(u)|,
                            hashStart := if u.hash.Some? then |Stem(u)| + 1 + |query| else OMITTED)
  {
    hide Serialize, Offsets, Insert, Stem;
    TextLength(u.(search := Some("")));
    TextLength(v);
    StemParts(v);
    SameFront(u, v);
    OffsetValues(u);
    WriteAfterMark(Stem(u), Tagged('#', u.hash), query);
    if u.hash.None? {
      assert Stem(u) + "?" + Tagged('#', u.hash) == Stem(u) + "?";
    }
  }

  lemma SearchCleared(u: Url, v: Url)
    requires Fits(u) && u.search.Some? && v == u.(search := None)
    ensures Fits(v) && (u.hash.Some? <==> Offsets(u).hashStart != OMITTED)
    ensures var c, s := Offsets(u), Serialize(u);
            && c.searchStart <= |s|
            && (u.hash.None? ==> Serialize(v) == s[..c.searchStart] && Offsets(v) == c.(searchStart := OMITTED))
            && (u.hash.Some? ==>
                && c.searchStart <= c.hashStart
                && Serialize(v) == Erase(s, c.searchStart, c.hashStart - c.searchStart)
                && Offsets(v) == c.(searchStart := OMITTED, hashStart := c.searchStart))
  {
    hide Serialize, Offsets, Insert, Stem, Erase;
    TextLength(u);
    TextLength(v);
    StemParts(u);
    StemParts(v);
    SameFront(u, v);
    StemCuts(Stem(u), Tagged('?', u.search), Tagged('#', u.hash));
    OffsetValues(u);
    assert Stem(u) + "" == Stem(u);
    if u.hash.None? { assert Stem(u) + "" + "" == Stem(u); }
  }

  lemma HashWritten(u: Url, v: Url)
    requires Fits(u) && Fits(v) && v == u.(hash := v.hash)
    ensures u.hash.Some? <==> Offsets(u).hashStart != OMITTED
    ensures u.hash.Some? ==> Offsets(u).hashStart <= |Serialize(u)|
    ensures var b := if u.hash.Some? then Serialize(u)[..Offsets(u).hashStart] else Serialize(u);
            && |b| < TWO32
            && Serialize(v) == b + Tagged('#', v.hash)
            && Offsets(v) == Offsets(u).(hashStart := if v.hash.Some? then |b| else OMITTED)
  {
    hide Serialize, Offsets, Insert, Stem, Erase;
    StemParts(u);
    StemParts(v);
    SameFront(u, v);
    StemCuts(Stem(u), Tagged('?', u.search), Tagged('#', u.hash));
    OffsetValues(u);
    if u.hash.None? {
      assert Stem(u) + Tagged('?', u.search) + Tagged('#', u.hash) == Stem(u) + Tagged('?', u.search);
    }
  }

  // Text facts about a stem, a search and a hash.

  lemma StemCuts(stem: string, search: string, hash: string)
    ensures var s := stem + search + hash;
            && s[..|stem|] == stem
            && s[..|stem| + |search|] == stem + search
            && Erase(s, |stem|, |search|) == stem + hash
            && Insert(stem + hash, |stem|, "?") == stem + "?" + hash
            && (search != "" ==> s[..|stem| + 1] == stem + search[..1])
  {
    var s := stem + search + hash;
    assert s[|stem| + |search|..] == hash;
    assert (stem + hash)[..|stem|] == stem && (stem + hash)[|stem|..] == hash;
  }

  lemma WriteAfterMark(stem: string, hash: string, x: string)
    ensures Insert(stem + "?" + hash, |stem| + 1, x) == stem + ("?" + x) + hash
    ensures stem + "?" + x == stem + ("?" + x) + ""
  {
    var s := stem + "?" + hash;
    assert s[..|stem| + 1] == stem + "?";
    assert s[|stem| + 1..] == hash;
  }

  /** The search that the un-encoded setter writes for its input. */
  function SearchFrom(input: string): Option<string> {
    if input == "" then None else Some(if input[0] == '?' then input[1..] else input)
  }

  lemma InsertTwice(s: string, pos: nat, x: string, y: string)
    requires pos <= |s|
    ensures pos + |x| <= |Insert(s, pos, x)|
    ensures Insert(Insert(s, pos, x), pos + |x|, y) == Insert(s, pos, x + y)
  {
    assert Insert(s, pos, x)[..pos + |x|] == s[..pos] + x;
    assert Insert(s, pos, x)[pos + |x|..] == s[pos..];
  }

  predicate Dashed(path: string) {
    |path| >= 2 && path[0] == '/' && path[1] == '/'
  }

  /** The record after the path setter: a "/." comes with a path that needs it, and goes with one that
      does not, if it is seen. */
  function PathSet(u: Url, opaquePath: bool, seesDashDot: bool, path: string): Url {
    u.(pathname := path,
       dashDot := if Dashed(path) then u.dashDot || (!opaquePath && !u.slashes) else u.dashDot && !seesDashDot)
  }

  lemma SameResidue(a: int, b: int, q: int)
    requires b == a + q * TWO32
    ensures Wrap(a) == Wrap(b)
  {
    Residue(b, a / TWO32 + q, a % TWO32);
  }

  /** The wrapped length of a stretch, and the wrapped difference to a new one. */
  lemma LengthsWrap(start: uint32, end: uint32, size: uint32)
    ensures Sub32(end, start) == if start <= end then end - start else TWO32 - (start - end)
    ensures Sub32(size, Sub32(end, start)) == Wrap(size - (end - start))
  {
    var q := if start <= end then 0 else 1;
    var length := Sub32(end, start);
    assert length == end - start + q * TWO32;
    SameResidue(size - length, size - (end - start), q);
  }

  lemma EraseKeepsFront(s: string, pos: nat, n: nat)
    requires pos <= |s|
    ensures pos <= |Erase(s, pos, n)|
  {
  }

  lemma ReplaceKeepsLength(s: string, pos: nat, n: nat, x: string)
    requires pos + n <= |s| && |x| == n
    ensures |Replace(s, pos, n, x)| == |s|
  {
  }

  /** The setter takes a one-digit port for a "/." and removes it. */
  predicate LosesPort(u: Url, seesDashDot: bool, path: string) {
    seesDashDot && !u.dashDot && !Dashed(path)
  }

  /** The setter writes a "/.": the path needs it, and none is seen. */
  predicate WritesDashDot(u: Url, seesDashDot: bool, opaquePath: bool, dashed: bool) {
    dashed && !opaquePath && !u.slashes && !seesDashDot
  }

  /** It is a second one, or it leaves the search and hash offsets where they were. */
  predicate Stranded(u: Url, seesDashDot: bool, opaquePath: bool, dashed: bool) {
    WritesDashDot(u, seesDashDot, opaquePath, dashed) && (u.dashDot || u.search.Some? || u.hash.Some?)
  }

  /** The text that is left then: the stretch replaced ends two bytes early in front of a search or a
      hash, so the last two of the old path stay; for an old path shorter than that, the search and
      the hash are lost. */
  ghost function StrandedText(u: Url, path: string): string
    requires Fits(u)
  {
    PathPlace(u);
    var s, start := Serialize(u), Offsets(u).pathnameStart;
    s[..start] + "/." + path +
      if (u.search.Some? || u.hash.Some?) && |u.pathname| >= 2 then s[start + |u.pathname| - 2..] else ""
  }

  ghost function StrandedOffsets(u: Url, path: string): Components
    requires |Serialize(u)| + 2 < TWO32
  {
    PathPlace(u);
    ShiftTail(Offsets(u).(pathnameStart := Offsets(u).pathnameStart + 2), Wrap(|path| - (|u.pathname| - 2)))
  }

  lemma PathPlace(u: Url)
    requires Fits(u)
    ensures var c, s := Offsets(u), Serialize(u);
            && c.pathnameStart + |u.pathname| == PathEnd(c, |s|) <= |s|
            && (u.dashDot ==> c.pathnameStart >= 2)
            && (u.search.Some? || u.hash.Some? ==> PathEnd(c, 0) == c.pathnameStart + |u.pathname| < |s|)
  {
    hide Serialize, Offsets;
    OffsetValues(u);
    PresentOffsets(u);
  }

  lemma ReplacedPathOf(u: Url, v: Url)
    requires Fits(u) && Fits(v) && v == u.(pathname := v.pathname)
    ensures var c, s := Offsets(u), Serialize(u);
            && c.pathnameStart <= PathEnd(c, |s|) <= |s|
            && Serialize(v) == s[..c.pathnameStart] + v.pathname + s[PathEnd(c, |s|)..]
            && Offsets(v) == ShiftTail(
                               c, Wrap(|v.pathname| - (PathEnd(c, |s|) - c.pathnameStart)))
    ensures PathEnd(Offsets(u), |Serialize(u)|) - Offsets(u).pathnameStart == |u.pathname|
  {
    hide Wrap, Serialize, Offsets, Add32, ShiftOptional;
    PathTextOf(u, v);
    ShiftAfterPath(u, v, Wrap(Growth(u, v)));
  }

  lemma DashedOf(u: Url, w: Url)
    requires Fits(u) && Fits(w) && !u.dashDot && w == u.(dashDot := true)
    ensures var c, s := Offsets(u), Serialize(u);
            && c.pathnameStart <= |s|
            && Serialize(w) == Insert(s, c.pathnameStart, "/.") && |Serialize(w)| == |s| + 2
            && c.pathnameStart + 2 < TWO32
            && (u.search.None? && u.hash.None? ==>
                Offsets(w) == c.(pathnameStart := c.pathnameStart + 2))
  {
    hide Wrap, Serialize, Offsets, Insert;
    AddDashDotOf(u, w);
    OffsetValues(u);
    OffsetValues(w);
  }

  /** Adding a wrapped length to the start gives the end, even when the end comes first. */
  lemma EndOfLength(start: uint32, end: uint32)
    ensures Add32(start, Sub32(end, start)) == end
  {
    if end >= start {
      WrapSmall(end - start);
    } else {
      Residue(end - start, -1, end - start + TWO32);
      Residue(end + TWO32, 1, end);
    }
  }

  /** The record between the two halves of the path setter. */
  function Adjusted(u: Url, hasDashDot: bool, opaquePath: bool, dashed: bool): Url {
    if !dashed && hasDashDot then (if u.dashDot then u.(dashDot := false) else u.(port := None))
    else if dashed && !opaquePath && !u.slashes then u.(dashDot := true)
    else u
  }

  lemma AdjustedLengths(u: Url, w: Url, v: Url, input: string)
    requires Fits(u) && Fits(v)
    requires v == u.(pathname := input, dashDot := v.dashDot)
    requires w == u.(port := w.port, dashDot := v.dashDot)
    requires w.port == u.port || (w.port.None? && u.port.value < 10)
    ensures Fits(w.(pathname := input))
    ensures w.port == u.port ==> w.(pathname := input) == v
    ensures |Serialize(w.(pathname := input))| ==
            |Serialize(v)| - (if w.port == u.port then 0 else 2)
    ensures |Serialize(v)| == |Serialize(w)| - |w.pathname| + |input| +
                              (if w.port == u.port then 0 else 2)
  {
    hide Serialize, Offsets;
    TextLength(v);
    TextLength(w);
    TextLength(w.(pathname := input));
    if u.port.Some? { DigitsLength(u.port.value); }
  }

  /** The path setter's last step: the stretch that the offsets take for the path is replaced, and the
      offsets of search and hash move by the difference. */
  function PathReplaced(b: string, c: Components, path: string): string
    requires c.pathnameStart <= |b| && PathEnd(c, |b|) <= |b|
  {
    b[..c.pathnameStart] + path + if c.pathnameStart <= PathEnd(c, |b|) then b[PathEnd(c, |b|)..] else ""
  }

  function PathMoved(b: string, c: Components, path: string): Components {
    ShiftTail(c, Wrap(|path| - (PathEnd(c, |b|) - c.pathnameStart)))
  }

  /** What the last step makes of what the first half of the setter leaves. */
  ghost predicate PathSettled(u: Url, v: Url, seesDashDot: bool, opaquePath: bool, path: string,
                              b: string, c: Components)
    requires Fits(u) && Fits(v)
    requires Stranded(u, seesDashDot, opaquePath, Dashed(path)) ==> |Serialize(u)| + 2 < TWO32
  {
    var stranded := Stranded(u, seesDashDot, opaquePath, Dashed(path));
    && (StandsFor(v, b, c) <==> !LosesPort(u, seesDashDot, path) && !stranded)
    && (LosesPort(u, seesDashDot, path) ==>
          var w := u.(port := None, pathname := path);
          Fits(w) && b == Serialize(w) && c == Offsets(w).(port := Offsets(u).port))
    && (stranded ==> b == StrandedText(u, path) && c == StrandedOffsets(u, path))
  }

  /** The buffer and the offsets stand for the record. */
  ghost predicate StandsFor(u: Url, buffer: string, components: Components) {
    Fits(u) && buffer == Serialize(u) && components == Offsets(u)
  }

  /** Where no port was mistaken and nothing stranded, the last step leaves the record asked for. */
  lemma PathReached(w: Url, port: uint32, path: string)
    requires Fits(w) && Fits(w.(pathname := path))
    ensures var b, c, t := Serialize(w), Offsets(w).(port := port), w.(pathname := path);
      && c.pathnameStart <= PathEnd(c, |b|) <= |b|
      && PathReplaced(b, c, path) == Serialize(t) && PathMoved(b, c, path) == Offsets(t).(port := port)
  {
    hide Wrap, Serialize, Offsets, ShiftTail;
    ReplacedPathOf(w, w.(pathname := path));
    ShiftTailKeepsPort(Offsets(w), port, Wrap(|path| - |w.pathname|));
  }

  lemma PlainPathSettled(u: Url, w: Url, v: Url, sees: bool, opaquePath: bool, path: string)
    requires Fits(u) && Fits(w) && Fits(v) && v == PathSet(u, opaquePath, sees, path)
    requires w == Adjusted(u, sees, opaquePath, Dashed(path)) && Sound(u)
    requires sees ==> !opaquePath && if u.dashDot then u.port.None? else u.port.Some? && u.port.value < 10
    requires !Stranded(u, sees, opaquePath, Dashed(path))
    ensures var b, c := Serialize(w), Offsets(w).(port := Offsets(u).port);
      && c.pathnameStart <= PathEnd(c, |b|) <= |b|
      && PathSettled(u, v, sees, opaquePath, path, PathReplaced(b, c, path), PathMoved(b, c, path))
  {
    hide Wrap, Serialize, Offsets, ShiftTail, Dashed, StartsWith, StrandedText, StrandedOffsets, PathReplaced,
      PathMoved, PathEnd;
    AdjustedLengths(u, w, v, path);
    PathReached(w, Offsets(u).port, path);
    PresentOffsets(u);
    PresentOffsets(v);
  }

  lemma ShiftTailKeepsPort(c: Components, port: uint32, diff: uint32)
    ensures ShiftTail(c.(port := port), diff) == ShiftTail(c, diff).(port := port)
  {
  }

  lemma StrandedLength(u: Url, path: string)
    requires Fits(u)
    ensures |StrandedText(u, path)| == Offsets(u).pathnameStart + 2 + |path| +
              if (u.search.Some? || u.hash.Some?) && |u.pathname| >= 2
              then |Serialize(u)| - (Offsets(u).pathnameStart + |u.pathname|) + 2 else 0
  {
    hide Serialize, Offsets;
    PathPlace(u);
  }

  lemma StrandedMoves(u: Url, b: string, c: Components, path: string)
    requires |Serialize(u)| + 2 < TWO32 && |b| == |Serialize(u)| + 2
    requires Offsets(u).pathnameStart + 2 < TWO32
    requires c == Offsets(u).(pathnameStart := Offsets(u).pathnameStart + 2)
    ensures PathMoved(b, c, path) == StrandedOffsets(u, path)
  {
    hide Wrap, Serialize, Offsets, Add32;
    PathPlace(u);
    PresentOffsets(u);
  }

  lemma StrandedPathSettled(u: Url, v: Url, sees: bool, opaquePath: bool, path: string)
    requires Fits(v) && v == PathSet(u, opaquePath, sees, path) && Sound(u) && |Serialize(u)| + 2 < TWO32
    requires Stranded(u, sees, opaquePath, Dashed(path))
    requires u.dashDot ==> |u.pathname| + |Tagged('?', u.search)| + |Tagged('#', u.hash)| < 2
    ensures Offsets(u).pathnameStart <= |Serialize(u)|
    ensures var b := Insert(Serialize(u), Offsets(u).pathnameStart, "/.");
      var c := Offsets(u).(pathnameStart := Offsets(u).pathnameStart + 2);
      && c.pathnameStart <= |b| && PathEnd(c, |b|) <= |b|
      && (c.pathnameStart > PathEnd(c, |b|) ==> |path| + c.pathnameStart < TWO32 + PathEnd(c, |b|))
      && PathSettled(u, v, sees, opaquePath, path, PathReplaced(b, c, path), PathMoved(b, c, path))
  {
    hide Wrap, Serialize, Offsets, ShiftTail, Dashed, StartsWith;
    PathPlace(u);
    OffsetValues(u);
    TextLength(u);
    TextLength(v);
    StrandedLength(u, path);
    var b := Insert(Serialize(u), Offsets(u).pathnameStart, "/.");
    var c := Offsets(u).(pathnameStart := Offsets(u).pathnameStart + 2);
    StrandedMoves(u, b, c, path);
    assert PathReplaced(b, c, path) == StrandedText(u, path);
    assert |StrandedText(u, path)| != |Serialize(v)|;
  }

  /** What stands behind the protocol of a URL without authority once its path was set: a path that
      starts with "//" is kept from reading as an authority. A "/." that was not seen stays. */
  ghost predicate KeptFromAuthority(u: Url, text: string, path: string) {
    && u.protocol <= text
    && var behind := text[|u.protocol|..];
       var unseen := u.dashDot && |u.pathname| + |Tagged('?', u.search)| + |Tagged('#', u.hash)| < 2;
       && (if unseen then "/." else "") + (if "//" <= path then "/." else "") + path <= behind
       && !("//" <= behind)
  }

  lemma TextWithoutAuthority(u: Url)
    requires Sound(u) && !u.slashes
    ensures var tail := u.pathname + Tagged('?', u.search) + Tagged('#', u.hash);
      Serialize(u) == u.protocol + ((if u.dashDot then "/." else "") + tail)
  {
    TextParts(u);
  }

  lemma KeptBehindProtocol(u: Url, text: string, path: string, front: string, rest: string)
    requires text == u.protocol + (front + path + rest)
    requires var unseen := u.dashDot && |u.pathname| + |Tagged('?', u.search)| + |Tagged('#', u.hash)| < 2;
      front == (if unseen then "/." else "") + if "//" <= path then "/." else ""
    requires rest == "" || rest[0] != '/' || "//" <= path
    ensures KeptFromAuthority(u, text, path)
  {
    hide Tagged;
    var behind := text[|u.protocol|..];
    assert behind == front + path + rest;
    assert text[..|u.protocol|] == u.protocol;
    assert behind[..|front + path|] == front + path;
    assert |path| >= 2 && path[0] == '/' && path[1] == '/' ==> path[..2] == "//";
    assert !(|behind| >= 2 && behind[0] == '/' && behind[1] == '/');
  }

  lemma PathKeptFromAuthority(u: Url, v: Url, sees: bool, path: string)
    requires Sound(u) && !u.slashes && v == PathSet(u, false, sees, path)
    requires sees <==> u.dashDot && |u.pathname| + |Tagged('?', u.search)| + |Tagged('#', u.hash)| >= 2
    requires !Stranded(u, sees, false, Dashed(path))
    ensures KeptFromAuthority(u, Serialize(v), path)
  {
    hide Serialize;
    TextWithoutAuthority(v);
    var front, rest := DashDotText(v), Tagged('?', u.search) + Tagged('#', u.hash);
    assert front + (path + Tagged('?', u.search) + Tagged('#', u.hash)) == front + path + rest;
    KeptBehindProtocol(u, Serialize(v), path, front, rest);
  }

  lemma StrandedTextParts(u: Url, path: string) returns (rest: string)
    requires Sound(u) && Fits(u) && !u.slashes
    ensures StrandedText(u, path) == u.protocol + (DashDotText(u) + "/." + path + rest)
  {
    hide Serialize, Offsets, Tagged;
    TextWithoutAuthority(u);
    OffsetValues(u);
    PathPlace(u);
    var s, start, dots := Serialize(u), Offsets(u).pathnameStart, DashDotText(u);
    assert s[..start] == u.protocol + dots;
    rest := if (u.search.Some? || u.hash.Some?) && |u.pathname| >= 2 then s[start + |u.pathname| - 2..] else "";
    Regrouped(u.protocol, dots, "/.", path, rest);
  }

  lemma Regrouped(a: string, b: string, c: string, d: string, e: string)
    ensures a + b + c + d + e == a + (b + c + d + e)
  {
  }

  lemma StrandedPathKeptFromAuthority(u: Url, sees: bool, path: string)
    requires Sound(u) && Fits(u) && Stranded(u, sees, false, Dashed(path))
    requires sees <==> u.dashDot && |u.pathname| + |Tagged('?', u.search)| + |Tagged('#', u.hash)| >= 2
    ensures KeptFromAuthority(u, StrandedText(u, path), path)
  {
    hide StrandedText, Tagged;
    var rest := StrandedTextParts(u, path);
    KeptBehindProtocol(u, StrandedText(u, path), path, DashDotText(u) + "/.", rest);
  }

  lemma FileTextOf(u: Url, v: Url)
    requires Fits(u) && Fits(v) && v == u.(protocol := "file:")
    ensures Offsets(u).protocolEnd <= |Serialize(u)|
    ensures Serialize(v) == Insert(Erase(Serialize(u), 0, Offsets(u).protocolEnd), 0, "file:")
    ensures Serialize(u) == "" ==> Serialize(v) == "file:"
  {
    hide Serialize, Offsets;
    var post := ProtocolChange(u, v);
    OffsetValues(u);
    assert Serialize(u)[|u.protocol|..] == post;
  }

  lemma FileOffsetsOf(u: Url, v: Url)
    requires Fits(u) && Fits(v) && v == u.(protocol := "file:")
    ensures var diff := Sub32(5, Offsets(u).protocolEnd);
            Offsets(v) == ShiftFromHostEnd(
                            Offsets(u).(protocolEnd := 5,
                                        usernameEnd := Add32(Offsets(u).usernameEnd, diff),
                                        hostStart := Add32(Offsets(u).hostStart, diff)), diff)
  {
    hide Wrap, Serialize, Offsets, Add32, ShiftOptional;
    OffsetValues(u);
    OffsetValues(v);
    var delta := 5 - |u.protocol|;
    WrappedShift(Offsets(u).usernameEnd, Wrap(delta), delta);
    WrappedShift(Offsets(u).hostStart, Wrap(delta), delta);
    assert Growth(u, v) == delta;
    ShiftAfterHost(u, v, Wrap(delta));
  }

  /** The parts of a record as cuts of its text. */
  lemma PartTexts(u: Url)
    requires Fits(u)
    ensures var c, s := Offsets(u), Serialize(u);
            && c.protocolEnd + |SlashesText(u)| <= c.usernameEnd <= c.hostStart <= c.hostEnd
                 <= c.pathnameStart <= |s|
            && s[..c.protocolEnd] == u.protocol
            && s[c.protocolEnd + |SlashesText(u)|..c.usernameEnd] == u.username
            && s[c.usernameEnd..c.hostStart] == PasswordText(u)
            && c.hostStart + |AtText(u)| <= c.hostEnd
            && s[c.hostStart + |AtText(u)|..c.hostEnd] == u.host
            && c.hostEnd + |PortText(u.port)| <= c.pathnameStart
            && s[c.hostEnd..c.hostEnd + |PortText(u.port)|] == PortText(u.port)
            && c.pathnameStart <= PathEnd(c, |s|) <= |s|
            && s[c.pathnameStart..PathEnd(c, |s|)] == u.pathname
            && (c.searchStart != OMITTED ==>
                var end := if c.hashStart != OMITTED then c.hashStart else |s|;
                c.searchStart <= end <= |s| && s[c.searchStart..end] == Tagged('?', u.search))
            && (c.hashStart != OMITTED ==>
                c.hashStart <= |s| && s[c.hashStart..] == Tagged('#', u.hash))
  {
    hide Serialize, Offsets;
    CredentialTexts(u);
    HostText(u);
    PortCut(u);
    PathTextOf(u, u);
    SearchCut(u);
  }

  lemma PortCut(u: Url)
    requires Fits(u)
    ensures var c, s := Offsets(u), Serialize(u);
            && c.hostEnd + |PortText(u.port)| <= c.pathnameStart <= |s|
            && s[c.hostEnd..c.hostEnd + |PortText(u.port)|] == PortText(u.port)
  {
    var s := Segments(u);
    OffsetValues(u);
    StartOf(u, PORT);
    hide *;
    PartAt(s, PORT);
  }

  lemma SearchCut(u: Url)
    requires Fits(u)
    ensures var c, s := Offsets(u), Serialize(u);
            && (c.searchStart != OMITTED ==>
                var end := if c.hashStart != OMITTED then c.hashStart else |s|;
                c.searchStart <= end <= |s| && s[c.searchStart..end] == Tagged('?', u.search))
            && (c.hashStart != OMITTED ==>
                c.hashStart <= |s| && s[c.hashStart..] == Tagged('#', u.hash))
  {
    hide Serialize, Offsets, Stem;
    StemParts(u);
    OffsetValues(u);
    var stem, search := Stem(u), Tagged('?', u.search);
    assert Serialize(u)[|stem|..|stem| + |search|] == search;
    assert Serialize(u)[|stem| + |search|..] == Tagged('#', u.hash);
  }

  lemma CredentialTexts(u: Url)
    requires Fits(u)
    ensures var c, s := Offsets(u), Serialize(u);
            && c.protocolEnd + |SlashesText(u)| <= c.usernameEnd <= c.hostStart <= |s|
            && s[..c.protocolEnd] == u.protocol
            && s[c.protocolEnd + |SlashesText(u)|..c.usernameEnd] == u.username
            && s[c.usernameEnd..c.hostStart] == PasswordText(u)
  {
    var s := Segments(u);
    assert s[..0] == [];
    OffsetValues(u);
    hide *;
    PartAt(s, 0);
    PartAt(s, SLASHES);
    PartAt(s, USERNAME);
    PartAt(s, PASSWORD);
  }

  lemma HostText(u: Url)
    requires Fits(u)
    ensures var c, s := Offsets(u), Serialize(u);
            && c.hostStart + |AtText(u)| <= c.hostEnd <= |s|
            && s[c.hostStart + |AtText(u)|..c.hostEnd] == u.host
  {
    var s := Segments(u);
    OffsetValues(u);
    StartOf(u, AT);
    hide *;
    PartAt(s, AT);
    PartAt(s, HOST);
  }

  /** The test for a "/." looks only at the distance between the host and the path. */
  predicate SeesDashDot(c: Components, size: nat, opaquePath: bool) {
    !opaquePath && c.pathnameStart == c.hostEnd + 2 && c.pathnameStart + 1 < size
  }

  /** http://h:8/ab has no "/.", but the test sees one, and a new path takes the port out of the text
      http://h/c, although the number stays in the components. */
  lemma OneDigitPortLooksLikeDashDot()
    ensures var u := Url("http:", true, "", "", false, "h", Some(8), false, "/ab", None, None);
            && Fits(u) && WellFormed(u) && !u.dashDot && Serialize(u) == "http://h:8/ab"
            && SeesDashDot(Offsets(u), |Serialize(u)|, false)
            && LosesPort(u, true, "/c") && Serialize(u.(port := None, pathname := "/c")) == "http://h/c"
  {
    hide Serialize, Offsets;
    var u := Url("http:", true, "", "", false, "h", Some(8), false, "/ab", None, None);
    assert Digits(8) == "8";
    TextParts(u);
    TextParts(u.(port := None, pathname := "/c"));
    OffsetValues(u);
  }

  /** foo:/a?q with the new path "//b" becomes foo:/.//b/a?q, in which the search starts at "/a?q". */
  lemma StrandedSearch()
    ensures var u := Url("foo:", false, "", "", false, "", None, false, "/a", Some("q"), None);
            && Fits(u) && |Serialize(u)| + 2 < TWO32 && WellFormed(u) && Serialize(u) == "foo:/a?q"
            && Stranded(u, false, false, true) && StrandedText(u, "//b") == "foo:/.//b/a?q"
            && StrandedOffsets(u, "//b").searchStart == 9 && "foo:/.//b/a?q"[9..] == "/a?q"
  {
    hide Serialize, Offsets, Wrap, Concat;
    var u := Url("foo:", false, "", "", false, "", None, false, "/a", Some("q"), None);
    TextParts(u);
    var s := "foo:/a?q";
    assert Serialize(u) == s;
    OffsetValues(u);
    WrapSmall(3);
    WrapSmall(9);
    assert s[..4] == "foo:" && s[4..] == "/a?q";
  }

  /** foo:/./ has a "/." in front of a path too short for the test to see it; with the new path "//b"
      it becomes foo:/././/b. */
  lemma SecondDashDot()
    ensures var u := Url("foo:", false, "", "", false, "", None, true, "/", None, None);
            && Fits(u) && |Serialize(u)| + 2 < TWO32 && WellFormed(u) && Serialize(u) == "foo:/./"
            && !SeesDashDot(Offsets(u), |Serialize(u)|, false)
            && Stranded(u, false, false, true) && StrandedText(u, "//b") == "foo:/././/b"
            && StrandedOffsets(u, "//b").pathnameStart == 8
  {
    hide Serialize, Offsets, Wrap, Concat;
    var u := Url("foo:", false, "", "", false, "", None, true, "/", None, None);
    TextParts(u);
    var s := "foo:/./";
    assert Serialize(u) == s;
    OffsetValues(u);
    assert s[..6] == "foo:/.";
  }

  /** The buffer and the offsets determine the record: no two records share them. */
  lemma RecordIsDetermined(u: Url, v: Url)
    requires Fits(u) && Fits(v) && Readable(u) && Readable(v)
    requires Serialize(u) == Serialize(v) && Offsets(u) == Offsets(v)
    ensures u == v
  {
    hide Serialize, Offsets, Tagged, PasswordText;
    OffsetValues(u);
    OffsetValues(v);
    PartTexts(u);
    PartTexts(v);
    assert u.slashes == v.slashes;
    AtMark(u);
    AtMark(v);
    TextsDetermine(u, v);
    assert u.username == v.username && u.at == v.at;
  }

  lemma TextsDetermine(u: Url, v: Url)
    ensures PasswordText(u) == PasswordText(v) ==> u.password == v.password
    ensures Tagged('?', u.search) == Tagged('?', v.search) ==> u.search == v.search
    ensures Tagged('#', u.hash) == Tagged('#', v.hash) ==> u.hash == v.hash
  {
    assert u.password == PasswordText(u)[if u.password == "" then 0 else 1..];
    assert v.password == PasswordText(v)[if v.password == "" then 0 else 1..];
    if u.search.Some? { assert u.search.value == Tagged('?', u.search)[1..]; }
    if v.search.Some? { assert v.search.value == Tagged('?', v.search)[1..]; }
    if u.hash.Some? { assert u.hash.value == Tagged('#', u.hash)[1..]; }
    if v.hash.Some? { assert v.hash.value == Tagged('#', v.hash)[1..]; }
  }

  datatype SchemeType = HTTP | NOT_SPECIAL | HTTPS | WS | FTP | WSS | FILE

  class UrlAggregator {
    var buffer: string
    var components: Components
    var hasOpaquePath: bool
    var schemeType: SchemeType
    ghost var url: Url

    ghost predicate Represents(u: Url)
      reads this
    {
      StandsFor(u, buffer, components)
    }

    ghost predicate Valid()
      reads this
    {
      Represents(url) && Sound(url)
    }

    predicate HasAuthority()
      reads this
    {
      && components.protocolEnd + 2 <= components.hostStart
      && components.protocolEnd + 2 <= |buffer|
      && buffer[components.protocolEnd..components.protocolEnd + 2] == "//"
    }

    lemma HasAuthorityIff()
      requires Valid()
      ensures HasAuthority() <==> url.slashes
    {
      hide Wrap, Serialize, Offsets, Insert, Erase, Add32, ShiftOptional;
      OffsetValues(url);
      if url.slashes {
        var pre, post := SlashesChange(url, url);
      }
    }

    method AddAuthoritySlashesIfNeeded()
      requires Valid()
      requires Fits(url.(slashes := true))
      modifies this`buffer, this`components, this`url
      ensures Valid() && url == old(url).(slashes := true)
    {
      hide Wrap, Serialize, Offsets, Insert, Erase, Add32, ShiftOptional;
      HasAuthorityIff();
      if HasAuthority() { return; }
      ghost var v := url.(slashes := true);
      ghost var pre, post := SlashesChange(url, v);
      WrapSmall(2);
      ShiftAfterHost(url, v, 2);
      OffsetValues(url);
      OffsetValues(v);
      WrappedShift(components.usernameEnd, 2, 2);
      WrappedShift(components.hostStart, 2, 2);
      InsertFront(pre, "", post, "//");

      buffer := Insert(buffer, components.protocolEnd, "//");
      components := components.(usernameEnd := Add32(components.usernameEnd, 2),
                                hostStart := Add32(components.hostStart, 2));
      components := ShiftFromHostEnd(components, 2);
      url := v;
    }

    /** Replaces the bytes from start to end. An end in front of the start makes the length wrap
        to almost 2^32; everything behind the start is then lost. */
    method ReplaceAndResize(start: uint32, end: uint32, input: string) returns (diff: uint32)
      requires start <= |buffer| < TWO32 && |input| < TWO32
      requires if start <= end then end <= |buffer| else |input| < TWO32 - (start - end)
      modifies this`buffer
      ensures buffer == old(buffer)[..start] + input +
                        (if start <= end then old(buffer)[end..] else "")
      ensures diff == Wrap(|input| - (end - start))
    {
      hide Insert, Erase, Replace, Wrap;
      var currentLength := Sub32(end, start);
      var inputSize: uint32 := |input|;
      diff := Sub32(inputSize, currentLength);
      LengthsWrap(start, end, inputSize);
      if start <= end {
        Resized(buffer, start, currentLength, input);
      } else {
        ResizedToTheEnd(buffer, start, currentLength, input);
      }
      if currentLength == 0 {
        buffer := Insert(buffer, start, input);
      } else if inputSize == currentLength {
        buffer := Replace(buffer, start, inputSize, input);
      } else if inputSize < currentLength {
        buffer := Erase(buffer, start, currentLength - inputSize);
        EraseKeepsFront(old(buffer), start, currentLength - inputSize);
        buffer := Replace(buffer, start, inputSize, input);
      } else {
        buffer := Replace(buffer, start, currentLength, input[..currentLength]);
        ReplaceKeepsLength(old(buffer), start, currentLength, input[..currentLength]);
        buffer := Insert(buffer, start + currentLength, input[currentLength..]);
      }
    }

    method UpdateBaseHostname(input: string)
      requires Valid() && Fits(url.(slashes := true))
      requires Fits(SettleAt(url.(slashes := true, host := input)))
      modifies this`buffer, this`components, this`url
      ensures Valid() && url == SettleAt(old(url).(slashes := true, host := input))
    {
      hide Wrap, Serialize, Offsets, Insert, Erase, Add32, ShiftOptional, ShiftFromHostEnd;
      AddAuthoritySlashesIfNeeded();
      ghost var u, v := url, SettleAt(url.(host := input));
      HostTextOf(u, v);
      OffsetValues(u);

      var hasCredentials := components.protocolEnd + 2 < components.hostStart;
      var diff := ReplaceAndResize(components.hostStart, components.hostEnd, input);
      if hasCredentials {
        buffer := Insert(buffer, components.hostStart, "@");
        WrappedSum(diff, |input| - (components.hostEnd - components.hostStart), 1);
        diff := Add32(diff, 1);
      }
      HostOffsetsOf(u, v, diff);
      components := ShiftFromHostEnd(components, diff);
      url := v;
    }

    /** Empties the host and leaves the "@" in front of it, or what looks like it. */
    method ClearHostname()
      requires Valid()
      modifies this`buffer, this`components, this`url
      ensures Valid() && url == HostCleared(old(url))
    {
      hide Wrap, Serialize, Offsets, Insert, Erase, Add32, ShiftOptional, ShiftFromHostEnd,
        ShiftFromPathname;
      HasAuthorityIff();
      if !HasAuthority() { return; }
      HostClearedOf(url);
      var hostnameLength := Sub32(components.hostEnd, components.hostStart);
      WrapSmall(components.hostEnd - components.hostStart);
      var start := components.hostStart;
      if hostnameLength > 0 && buffer[start] == '@' {
        WrapSmall(1);
        WrappedShift(components.hostStart, 1, 1);
        start := Add32(start, 1);
        hostnameLength := hostnameLength - 1;
      }
      buffer := Erase(buffer, start, hostnameLength);
      components := components.(hostEnd := start);
      components := ShiftFromPathname(components, Sub32(0, hostnameLength));
      url := HostCleared(url);
    }

    predicate HasNonEmptyUsername()
      reads this
    {
      components.protocolEnd + 2 < components.usernameEnd
    }

    predicate HasNonEmptyPassword()
      reads this
    {
      Sub32(components.hostStart, components.usernameEnd) > 0
    }

    predicate HasPassword()
      requires components.hostStart <= |buffer|
      reads this
    {
      components.hostStart > components.usernameEnd && buffer[components.usernameEnd] == ':'
    }

    /** Sets the user name and sees to the "@". */
    method UpdateBaseUsername(input: string)
      requires Valid() && Fits(url.(slashes := true)) && Fits(UsernameSet(url, input))
      modifies this`buffer, this`components, this`url
      ensures url == UsernameSet(old(url), input)
      ensures Valid() <==> !ErasesStray(old(url), input, old(url).password)
      ensures ErasesStray(old(url), input, old(url).password) ==> StrayErased(url, buffer, components)
    {
      hide Wrap, Serialize, Offsets, Insert, Erase, Add32, ShiftOptional, ShiftFromHostEnd,
        ShiftFromPathname, StrayAt, Named;
      AddAuthoritySlashesIfNeeded();
      ghost var u, v := url, UsernameSet(url, input);
      SlashesLeaveStray(old(url), u);
      AtMark(u);
      OffsetValues(u);
      TextLength(v);
      WrapSmall(components.hostStart - components.usernameEnd);
      var hasPassword := HasNonEmptyPassword();
      var hostStartsWithAt := |buffer| > components.hostStart && buffer[components.hostStart] == '@';
      var diff := ReplaceUsername(input);
      NameSettled(u, v, input, diff);
      if input != "" && !hostStartsWithAt {
        buffer := Insert(buffer, components.hostStart, "@");
        diff := Add32(diff, 1);
      } else if input == "" && hostStartsWithAt && !hasPassword {
        buffer := Erase(buffer, components.hostStart, 1);
        diff := Sub32(diff, 1);
      }
      components := ShiftFromHostEnd(components, diff);
      url := v;
    }

    /** The first half of the user name setter: the name and the two offsets behind it. */
    method ReplaceUsername(input: string) returns (diff: uint32)
      requires Valid() && url.slashes && |input| < TWO32
      modifies this`buffer, this`components
      ensures diff == Wrap(|input| - |url.username|)
      ensures buffer == Named(url, input) && components == NamedOffsets(Offsets(url), diff)
    {
      hide Wrap, Serialize, Offsets, Add32;
      OffsetValues(url);
      diff := ReplaceAndResize(components.protocolEnd + 2, components.usernameEnd, input);
      components := NamedOffsets(components, diff);
    }

    method AppendBaseUsername(input: string)
      requires Valid() && Fits(url.(slashes := true))
      requires Fits(url.(slashes := true, username := url.username + input, at := true))
      modifies this`buffer, this`components, this`url
      ensures Valid() && url == UsernameAppended(old(url), input)
    {
      hide Wrap, Serialize, Offsets, Insert, Erase, Add32, ShiftOptional, ShiftFromHostEnd,
        ShiftFromPathname, StrayAt;
      AddAuthoritySlashesIfNeeded();
      SlashesLeaveStray(old(url), url);
      if input == "" {
        assert old(url).username + input == old(url).username;
        return;
      }
      ghost var u, w, v := url, url.(username := url.username + input), UsernameAppended(url, input);
      AppendedOf(u, w, v, input);

      var difference: uint32 := |input|;
      WrapSmall(|input|);
      WrappedShift(components.hostStart, difference, |input|);
      buffer := Insert(buffer, components.usernameEnd, input);
      components := components.(usernameEnd := Add32(components.usernameEnd, difference),
                                hostStart := Add32(components.hostStart, difference));
      WrappedSum(difference, |input|, 1);
      if CharAt(buffer, components.hostStart) != '@' && components.hostStart != components.hostEnd {
        buffer := Insert(buffer, components.hostStart, "@");
        difference := Add32(difference, 1);
      }
      AppendedOffsetsOf(u, v, input, difference);
      components := ShiftFromHostEnd(components, difference);
      url := v;
    }

    /** Removes the password and its colon, and nothing else. */
    method ClearPassword()
      requires Valid()
      modifies this`buffer, this`components, this`url
      ensures Valid() && url == old(url).(password := "")
    {
      hide Wrap, Serialize, Offsets, Insert, Erase, Add32, ShiftOptional, ShiftFromHostEnd,
        ShiftFromPathname;
      ghost var u, v := url, url.(password := "");
      OffsetValues(u);
      if u.password != "" { ColonMark(u); }
      if !HasPassword() { return; }
      TextLength(u);
      TextLength(v);
      ClearPasswordOf(u, v);
      var diff := Sub32(components.hostStart, components.usernameEnd);
      WrapSmall(components.hostStart - components.usernameEnd);
      buffer := Erase(buffer, components.usernameEnd, diff);
      WrapSmall(components.usernameEnd);
      components := components.(hostStart := Sub32(components.hostStart, diff));
      components := ShiftFromHostEnd(components, Sub32(0, diff));
      url := v;
    }

    /** The part of the password setter for a non-empty password. */
    method WritePassword(input: string)
      requires Valid() && url.slashes && input != ""
      requires Fits(PasswordSet(url, input))
      modifies this`buffer, this`components, this`url
      ensures Valid() && url == PasswordSet(old(url), input)
    {
      hide Wrap, Serialize, Offsets, Insert, Erase, Add32, ShiftOptional, ShiftFromHostEnd,
        ShiftFromPathname, StrayAt;
      ghost var u, w, v := url, url.(password := input), PasswordSet(url, input);
      PasswordWrittenOf(u, w, v);
      PasswordTextOf(u, w);
      if u.password != "" { ColonMark(u); }

      var passwordExists := HasPassword();
      var difference: uint32 := |input|;
      WrapSmall(|input|);
      if passwordExists {
        var currentLength := components.hostStart - components.usernameEnd - 1;
        buffer := Erase(buffer, components.usernameEnd + 1, currentLength);
        WrappedSum(difference, |input|, currentLength);
        difference := Sub32(difference, currentLength);
      } else {
        buffer := Insert(buffer, components.usernameEnd, ":");
        WrappedSum(difference, |input|, 1);
        difference := Add32(difference, 1);
      }
      buffer := Insert(buffer, components.usernameEnd + 1, input);
      WrappedShift(components.hostStart, difference, Growth(u, w));
      components := components.(hostStart := Add32(components.hostStart, difference));
      WrappedSum(difference, Growth(u, w), 1);
      if CharAt(buffer, components.hostStart) != '@' {
        buffer := Insert(buffer, components.hostStart, "@");
        difference := Add32(difference, 1);
      }
      PasswordOffsetsOf(u, v, Wrap(Growth(u, w)), difference);
      components := ShiftFromHostEnd(components, difference);
      url := v;
    }

    /** Sets the password and sees to the "@". */
    method UpdateBasePassword(input: string)
      requires Valid() && Fits(url.(slashes := true)) && Fits(PasswordSet(url, input))
      modifies this`buffer, this`components, this`url
      ensures url == PasswordSet(old(url), input)
      ensures Valid() <==> !ErasesStray(old(url), input, old(url).username)
      ensures ErasesStray(old(url), input, old(url).username) ==> StrayErased(url, buffer, components)
    {
      hide Wrap, Serialize, Offsets, Insert, Erase, Add32, ShiftOptional, ShiftFromHostEnd,
        ShiftFromPathname, StrayAt, StrayErased;
      AddAuthoritySlashesIfNeeded();
      SlashesLeaveStray(old(url), url);
      if input == "" {
        ClearPassword();
        SlashesLeaveStray(old(url), url);
        OffsetValues(url);
        if !HasNonEmptyUsername() {
          TextLength(url);
          TextLength(UsernameSet(url, ""));
          UpdateBaseUsername("");
        }
        return;
      }
      WritePassword(input);
    }

    // Port, path, search and hash.

    /** A port replaces the old one together with a "/." behind it. Without an authority it is
        written all the same, and the state is then none that the other setters can take. */
    method UpdateBasePort(input: uint32)
      requires Valid() && Fits(PortSet(url, input))
      modifies this`buffer, this`components, this`url
      ensures Represents(url) && url == PortSet(old(url), input)
      ensures Valid() <==> url.slashes || input == OMITTED
    {
      hide Wrap, Serialize, Offsets, Insert, Erase, Add32, ShiftOptional, ShiftFromHostEnd,
        ShiftFromPathname;
      if input == OMITTED {
        ClearPort();
        return;
      }
      ghost var u, v := url, PortSet(url, input);
      OffsetValues(u);
      OffsetValues(v);
      var value := ":" + Digits(input);
      TextLength(v);
      var difference: uint32 := |value|;
      WrapSmall(|value|);
      if components.port != OMITTED {
        PortTextOf(u, v);
        WrappedSum(difference, |value|, components.pathnameStart - components.hostEnd);
        difference := Sub32(difference, components.pathnameStart - components.hostEnd);
        buffer := Erase(buffer, components.hostEnd, components.pathnameStart - components.hostEnd);
      } else {
        NewPortTextOf(u, v);
      }
      buffer := Insert(buffer, components.hostEnd, value);
      ShiftAfterPort(u, v, difference);
      components := ShiftFromPathname(components, difference);
      components := components.(port := input);
      url := v;
    }

    method ClearPort()
      requires Valid()
      modifies this`buffer, this`components, this`url
      ensures Valid() && url == PortSet(old(url), OMITTED)
    {
      hide Wrap, Serialize, Offsets, Insert, Erase, Add32, ShiftOptional, ShiftFromHostEnd,
        ShiftFromPathname;
      ghost var u, v := url, PortSet(url, OMITTED);
      OffsetValues(u);
      if components.port == OMITTED { return; }
      TextLength(u);
      TextLength(v);
      OffsetValues(v);
      PortTextOf(u, v);
      var length := components.pathnameStart - components.hostEnd;
      buffer := Erase(buffer, components.hostEnd, length);
      InsertNothing(buffer, components.hostEnd);
      ShiftAfterPort(u, v, Sub32(0, length));
      components := ShiftFromPathname(components, Sub32(0, length));
      components := components.(port := OMITTED);
      url := v;
    }

    /** Whether the code believes that a "/." stands before the path. */
    predicate HasDashDot()
      reads this
    {
      SeesDashDot(components, |buffer|, hasOpaquePath)
    }

    /** The belief is right except for a one-digit port, which is as long as "/.". */
    lemma HasDashDotExactly()
      requires Valid()
      ensures HasDashDot() <==>
              && !hasOpaquePath
              && |url.pathname| + |Tagged('?', url.search)| + |Tagged('#', url.hash)| >= 2
              && if url.dashDot then url.port.None? else url.port.Some? && url.port.value < 10
    {
      hide Serialize, Offsets;
      OffsetValues(url);
      if url.port.Some? { DigitsLength(url.port.value); }
    }

    /** Removes the two characters after the host. That is the "/." or, by mistake, the text of a
        one-digit port, whose number stays behind in the components. */
    method DeleteDashDot()
      requires Valid() && HasDashDot()
      modifies this`buffer, this`components, this`url
      ensures url == if old(url).dashDot then old(url).(dashDot := false) else old(url).(port := None)
      ensures Fits(url) && buffer == Serialize(url)
      ensures components == Offsets(url).(port := old(components.port))
    {
      hide Wrap, Serialize, Offsets, Erase, Add32, ShiftOptional;
      HasDashDotExactly();
      ghost var u := url;
      ghost var v := if u.dashDot then u.(dashDot := false) else u.(port := None);
      OffsetValues(u);
      TextLength(u);
      TextLength(v);
      if u.dashDot {
        DropDashDotOf(u, v);
      } else {
        PortTextOf(u, v);
        InsertNothing(Erase(buffer, components.hostEnd, 2), components.hostEnd);
      }
      buffer := Erase(buffer, components.hostEnd, 2);
      ShiftAfterPort(u, v, Sub32(0, 2));
      components := ShiftFromPathname(components, Sub32(0, 2));
      url := v;
    }

    /** Empties the path and drops a "/." in front of it. */
    method ClearPathname()
      requires Valid()
      modifies this`buffer, this`components, this`url
      ensures Valid()
      ensures url == old(url).(pathname := "", dashDot := old(url).dashDot && old(url).port.Some?)
    {
      hide Wrap, Serialize, Offsets, Insert, Erase, Add32, ShiftOptional, ShiftFromHostEnd,
        ShiftFromPathname;
      ghost var u, w := url, url.(pathname := "");
      ghost var v := w.(dashDot := u.dashDot && u.port.Some?);
      ErasedPathOf(u, w);
      DroppedDashDotOf(w, v);
      var endingIndex := PathEnd(components, |buffer|);
      var pathnameLength := endingIndex - components.pathnameStart;
      buffer := Erase(buffer, components.pathnameStart, pathnameLength);
      var difference := pathnameLength;
      if components.pathnameStart == components.hostEnd + 2
         && buffer[components.hostEnd] == '/' && buffer[components.hostEnd + 1] == '.' {
        components := components.(pathnameStart := components.pathnameStart - 2);
        buffer := Erase(buffer, components.hostEnd, 2);
        difference := difference + 2;
      }
      ClearedPathOffsetsOf(u, v);
      components := ShiftTail(components, Sub32(0, difference));
      url := v;
    }

    /** The first half of both search setters: drop an old search and write the "?". */
    method OpenSearch()
      requires Valid() && Fits(url.(search := Some("")))
      modifies this`buffer, this`components
      ensures |Stem(url)| < TWO32
      ensures buffer == Stem(url) + "?" + Tagged('#', url.hash)
      ensures components == old(components).(
                              searchStart := |Stem(url)|,
                              hashStart := if url.hash.Some? then |Stem(url)| else OMITTED)
    {
      hide Wrap, Serialize, Offsets, Insert, Erase, Add32, ShiftOptional, ShiftFromHostEnd,
        ShiftFromPathname, Stem;
      StemParts(url);
      StemCuts(Stem(url), Tagged('?', url.search), Tagged('#', url.hash));
      StemParts(url.(search := Some("")));
      SameFront(url, url.(search := Some("")));
      if components.hashStart == OMITTED {
        if components.searchStart == OMITTED {
          components := components.(searchStart := |buffer|);
          buffer := buffer + "?";
        } else {
          buffer := buffer[..components.searchStart + 1];
        }
      } else {
        if components.searchStart == OMITTED {
          components := components.(searchStart := components.hashStart);
        } else {
          buffer := Erase(buffer, components.searchStart,
                          components.hashStart - components.searchStart);
          components := components.(hashStart := components.searchStart);
        }
        buffer := Insert(buffer, components.searchStart, "?");
      }
    }

    /** Sets the search without encoding; one leading "?" is dropped, "" removes the search. */
    method UpdateBaseSearch(input: string)
      requires Valid() && Fits(url.(search := SearchFrom(input)))
      modifies this`buffer, this`components, this`url
      ensures Valid() && url == old(url).(search := SearchFrom(input))
    {
      hide Wrap, Serialize, Offsets, Insert, Erase, Add32, ShiftOptional, ShiftFromHostEnd,
        ShiftFromPathname, Stem, Tagged;
      if input == "" {
        ClearSearch();
        return;
      }
      var query := if input[0] == '?' then input[1..] else input;
      ghost var u, v := url, url.(search := Some(query));
      SearchWritten(u, v, query);
      OpenSearch();
      if components.hashStart == OMITTED {
        buffer := buffer + query;
      } else {
        buffer := Insert(buffer, components.searchStart + 1, query);
        WrapSmall(|query| + 1);
        WrappedShift(components.hashStart, |query| + 1, |query| + 1);
        components := components.(hashStart := Add32(components.hashStart, |query| + 1));
      }
      url := v;
    }

    /** Sets the search, encoding the bytes that the set marks. */
    method UpdateBaseSearchEncoded(input: string, marked: char -> bool)
      requires Valid() && Bytes(input) && Fits(url.(search := Some(Encode(input, marked))))
      modifies this`buffer, this`components, this`url
      ensures Valid() && url == old(url).(search := Some(Encode(input, marked)))
    {
      hide Wrap, Serialize, Offsets, Insert, Erase, Add32, ShiftOptional, ShiftFromHostEnd,
        ShiftFromPathname, Stem, Tagged;
      ghost var query := Encode(input, marked);
      ghost var u, v := url, url.(search := Some(query));
      SearchWritten(u, v, query);
      OpenSearch();
      if components.hashStart == OMITTED {
        var required, encoded := PercentEncodeAppend(input, marked, buffer);
        buffer := if required then encoded else buffer + input;
      } else {
        var written := WriteEncoded(components.searchStart + 1, input, marked);
        WrapSmall(written + 1);
        WrappedShift(components.hashStart, written + 1, written + 1);
        components := components.(hashStart := Add32(components.hashStart, written + 1));
      }
      url := v;
    }

    /** Inserts the encoded text in at most two pieces, as the setter does in front of a hash. */
    method WriteEncoded(at: nat, input: string, marked: char -> bool) returns (written: nat)
      requires Bytes(input) && at <= |buffer|
      modifies this`buffer
      ensures buffer == Insert(old(buffer), at, Encode(input, marked))
      ensures written == |Encode(input, marked)|
    {
      hide Insert;
      var idx := PercentEncodeIndex(input, marked);
      if idx == |input| {
        assert input[..idx] + Encode(input[idx..], marked) == input;
        buffer := Insert(buffer, at, input);
        return |input|;
      }
      InsertTwice(buffer, at, input[..idx], Encode(input[idx..], marked));
      buffer := Insert(buffer, at, input[..idx]);
      var encoded := PercentEncode(input[idx..], marked);
      buffer := Insert(buffer, at + idx, encoded);
      return |encoded| + idx;
    }

    method ClearSearch()
      requires Valid()
      modifies this`buffer, this`components, this`url
      ensures Valid() && url == old(url).(search := None)
    {
      hide Serialize, Offsets, Insert, Erase, Stem, Tagged;
      PresentOffsets(url);
      if components.searchStart == OMITTED {
        return;
      }
      SearchCleared(url, url.(search := None));
      if components.hashStart == OMITTED {
        buffer := buffer[..components.searchStart];
      } else {
        buffer := Erase(buffer, components.searchStart, components.hashStart - components.searchStart);
        components := components.(hashStart := components.searchStart);
      }
      components := components.(searchStart := OMITTED);
      url := url.(search := None);
    }

    /** Sets the hash, encoding the bytes that the fragment set marks. */
    method UpdateUnencodedBaseHash(input: string, marked: char -> bool)
      requires Valid() && Bytes(input) && Fits(url.(hash := Some(Encode(input, marked))))
      modifies this`buffer, this`components, this`url
      ensures Valid() && url == old(url).(hash := Some(Encode(input, marked)))
    {
      hide Wrap, Serialize, Offsets, Insert, Erase, Add32, ShiftOptional, ShiftFromHostEnd,
        ShiftFromPathname, Stem;
      ghost var u, v := url, url.(hash := Some(Encode(input, marked)));
      HashWritten(u, v);
      if components.hashStart != OMITTED {
        buffer := buffer[..components.hashStart];
      }
      components := components.(hashStart := |buffer|);
      ghost var b := buffer;
      buffer := buffer + "#";
      var required, encoded := PercentEncodeAppend(input, marked, buffer);
      buffer := if required then encoded else buffer + input;
      AssociateThree(b, "#", Encode(input, marked));
      assert ['#'] + Encode(input, marked) == "#" + Encode(input, marked);
      url := v;
    }

    method ClearHash()
      requires Valid()
      modifies this`buffer, this`components, this`url
      ensures Valid() && url == old(url).(hash := None)
    {
      hide Wrap, Serialize, Offsets, Insert, Erase, Add32, ShiftOptional, ShiftFromHostEnd,
        ShiftFromPathname, Stem;
      ghost var u, v := url, url.(hash := None);
      OffsetValues(u);
      if components.hashStart == OMITTED { return; }
      TextLength(u);
      TextLength(v);
      HashWritten(u, v);
      buffer := buffer[..components.hashStart];
      components := components.(hashStart := OMITTED);
      url := v;
    }

    function GetPathnameLength(): uint32
      requires |buffer| < TWO32
      reads this
    {
      Sub32(PathEnd(components, |buffer|), components.pathnameStart)
    }

    /** The first half of the path setter: the "/." goes, or comes without the search and hash
        offsets following it. */
    method AdjustDashDot(dashed: bool)
      requires Valid()
      requires WritesDashDot(url, HasDashDot(), hasOpaquePath, dashed) ==> |buffer| + 2 < TWO32
      modifies this`buffer, this`components, this`url
      ensures url == Adjusted(old(url), old(HasDashDot()), hasOpaquePath, dashed)
      ensures !Stranded(old(url), old(HasDashDot()), hasOpaquePath, dashed) ==>
                Fits(url) && buffer == Serialize(url) && components == Offsets(url).(port := old(components.port))
      ensures Stranded(old(url), old(HasDashDot()), hasOpaquePath, dashed) ==>
                && old(components.pathnameStart) <= |old(buffer)|
                && buffer == Insert(old(buffer), old(components.pathnameStart), "/.") && |buffer| < TWO32
                && components == old(components).(pathnameStart := old(components.pathnameStart) + 2)
    {
      hide Wrap, Serialize, Offsets, Erase, Add32, ShiftOptional, ShiftFromHostEnd,
        ShiftFromPathname;
      HasDashDotExactly();
      HasAuthorityIff();
      ghost var u := url;
      OffsetValues(u);
      if !dashed && HasDashDot() {
        DeleteDashDot();
      }
      if dashed && !hasOpaquePath && !HasAuthority() && !HasDashDot() {
        ghost var w := u.(dashDot := true);
        if !u.dashDot {
          TextLength(u);
          TextLength(w);
          DashedOf(u, w);
        }
        buffer := Insert(buffer, components.pathnameStart, "/.");
        components := components.(pathnameStart := components.pathnameStart + 2);
        url := w;
      }
      OffsetValues(url);
    }

    /** Replaces the path. A "/." in front of it comes and goes as a path starting with "//" needs
        it. The buffer and the offsets then stand for the record asked for exactly when no one-digit
        port was taken for a "/." and no "/." was written behind another one or in front of a search
        or a hash. */
    method UpdateBasePathname(input: string)
      requires Valid() && Fits(PathSet(url, hasOpaquePath, HasDashDot(), input))
      requires WritesDashDot(url, HasDashDot(), hasOpaquePath, Dashed(input)) ==> |buffer| + 2 < TWO32
      modifies this`buffer, this`components, this`url
      ensures url == PathSet(old(url), hasOpaquePath, old(HasDashDot()), input)
      ensures Valid() <==>
              && !LosesPort(old(url), old(HasDashDot()), input)
              && !Stranded(old(url), old(HasDashDot()), hasOpaquePath, Dashed(input))
      ensures LosesPort(old(url), old(HasDashDot()), input) ==>
                var v := old(url).(port := None, pathname := input);
                && Fits(v) && buffer == Serialize(v)
                && components == Offsets(v).(port := old(components.port))
      ensures Stranded(old(url), old(HasDashDot()), hasOpaquePath, Dashed(input)) ==>
                buffer == StrandedText(old(url), input) && components == StrandedOffsets(old(url), input)
      ensures !old(url).slashes && !hasOpaquePath ==> KeptFromAuthority(old(url), buffer, input)
    {
      hide Wrap, Serialize, Offsets, Insert, Erase, Add32, ShiftOptional, ShiftFromHostEnd,
        ShiftFromPathname, Dashed, StartsWith, HasDashDot, PathReplaced, PathMoved, StrandedText, StrandedOffsets;
      ghost var u, v := url, PathSet(url, hasOpaquePath, HasDashDot(), input);
      HasDashDotExactly();
      PresentOffsets(u);
      TextLength(v);
      ghost var sees := HasDashDot();
      AdjustDashDot(Dashed(input));
      if Stranded(u, sees, hasOpaquePath, Dashed(input)) {
        StrandedPathSettled(u, v, sees, hasOpaquePath, input);
      } else {
        PlainPathSettled(u, url, v, sees, hasOpaquePath, input);
      }
      ReplacePath(input);
      url := v;
      if !u.slashes && !hasOpaquePath {
        if Stranded(u, sees, false, Dashed(input)) {
          StrandedPathKeptFromAuthority(u, sees, input);
        } else {
          PathKeptFromAuthority(u, v, sees, input);
        }
      }
    }

    /** The second half of the path setter, for whatever stretch the offsets delimit. */
    method ReplacePath(input: string)
      requires |buffer| < TWO32 && |input| < TWO32
      requires components.pathnameStart <= |buffer| && PathEnd(components, |buffer|) <= |buffer|
      requires components.pathnameStart > PathEnd(components, |buffer|) ==>
                 |input| < TWO32 - (components.pathnameStart - PathEnd(components, |buffer|))
      modifies this`buffer, this`components
      ensures buffer == PathReplaced(old(buffer), old(components), input)
      ensures components == PathMoved(old(buffer), old(components), input)
    {
      hide Wrap, Add32, ShiftOptional;
      EndOfLength(components.pathnameStart, PathEnd(components, |buffer|));
      var difference := ReplaceAndResize(
        components.pathnameStart, Add32(components.pathnameStart, GetPathnameLength()), input);
      components := ShiftTail(components, difference);
    }

    /** Replaces the protocol by "file:"; every other offset moves by the wrapped difference. */
    method SetProtocolAsFile()
      requires Valid() && Fits(url.(protocol := "file:"))
      modifies this`schemeType, this`buffer, this`components, this`url
      ensures Valid() && url == old(url).(protocol := "file:") && schemeType == FILE
    {
      hide Wrap, Serialize, Offsets, Insert, Erase, Add32, ShiftOptional, ShiftFromHostEnd,
        ShiftFromPathname;
      ghost var u, v := url, url.(protocol := "file:");
      OffsetValues(u);
      FileTextOf(u, v);
      FileOffsetsOf(u, v);
      WrapSmall(5);
      schemeType := FILE;
      var diff := Sub32(5, components.protocolEnd);
      if buffer == "" {
        buffer := buffer + "file:";
      } else {
        buffer := Erase(buffer, 0, components.protocolEnd);
        buffer := Insert(buffer, 0, "file:");
      }
      components := components.(protocolEnd := 5,
                                usernameEnd := Add32(components.usernameEnd, diff),
                                hostStart := Add32(components.hostStart, diff));
      components := ShiftFromHostEnd(components, diff);
      url := v;
    }

    // The getters cut the buffer at the offsets.

    function GetProtocol(): string
      requires components.protocolEnd <= |buffer|
      reads this
    {
      buffer[..components.protocolEnd]
    }

    function GetUsername(): string
      requires components.usernameEnd <= |buffer|
      reads this
    {
      if HasNonEmptyUsername() then buffer[components.protocolEnd + 2..components.usernameEnd] else ""
    }

    function GetPassword(): string
      requires components.usernameEnd <= components.hostStart <= |buffer|
      reads this
    {
      if components.hostStart - components.usernameEnd > 0
      then buffer[components.usernameEnd + 1..components.hostStart] else ""
    }

    function GetHostname(): string
      requires components.hostStart <= components.hostEnd <= |buffer|
      reads this
    {
      var start := if components.hostEnd > components.hostStart && buffer[components.hostStart] == '@'
                   then components.hostStart + 1 else components.hostStart;
      buffer[start..components.hostEnd]
    }

    function GetPort(): string
      requires components.port != OMITTED ==> components.hostEnd < components.pathnameStart <= |buffer|
      reads this
    {
      if components.port == OMITTED then ""
      else buffer[components.hostEnd + 1..components.pathnameStart]
    }

    function GetPathname(): string
      requires components.pathnameStart <= PathEnd(components, |buffer|) <= |buffer|
      reads this
    {
      buffer[components.pathnameStart..PathEnd(components, |buffer|)]
    }

    function GetSearch(): string
      requires components.searchStart != OMITTED ==>
                 components.searchStart <=
                 (if components.hashStart != OMITTED then components.hashStart else |buffer|) <= |buffer|
      reads this
    {
      if components.searchStart == OMITTED then ""
      else
        var end := if components.hashStart != OMITTED then components.hashStart else |buffer|;
        if end - components.searchStart <= 1 then "" else buffer[components.searchStart..end]
    }

    function GetHash(): string
      requires components.hashStart != OMITTED ==> components.hashStart <= |buffer|
      reads this
    {
      if components.hashStart == OMITTED then ""
      else if |buffer| - components.hashStart <= 1 then "" else buffer[components.hashStart..]
    }

    /** In a valid state the offsets are in order and inside the buffer. */
    lemma OffsetsAreOrdered()
      requires Valid()
      ensures var c := components;
              && c.protocolEnd <= |buffer| && c.usernameEnd <= c.hostStart <= c.hostEnd <= |buffer|
              && c.hostEnd <= c.pathnameStart <= PathEnd(c, |buffer|) <= |buffer|
              && (c.port != OMITTED ==> c.hostEnd < c.pathnameStart)
              && (c.searchStart != OMITTED ==>
                  c.searchStart <= (if c.hashStart != OMITTED then c.hashStart else |buffer|)
                                <= |buffer|)
              && (c.hashStart != OMITTED ==> c.hashStart <= |buffer|)
    {
      hide Serialize, Offsets;
      OffsetValues(url);
      PartTexts(url);
    }

    /** In a valid state the getters of the protocol and the credentials return their components. */
    lemma GettersReadTheCredentials()
      requires Valid()
      ensures var c := components;
              c.protocolEnd <= |buffer| && c.usernameEnd <= c.hostStart <= c.hostEnd <= |buffer|
      ensures GetProtocol() == url.protocol
      ensures GetUsername() == url.username && GetPassword() == url.password
    {
      hide Serialize, Offsets, PathEnd;
      OffsetsAreOrdered();
      OffsetValues(url);
      PartTexts(url);
    }

    /** In a valid state the getter of the host returns it, without the "@", or without one of its own
        that stands in its place. */
    lemma GettersReadTheHost()
      requires Valid()
      ensures components.hostStart <= components.hostEnd <= |buffer|
      ensures GetHostname() == if !url.at && StartsWith(url.host, '@') then url.host[1..] else url.host
    {
      hide Serialize, Offsets, PathEnd;
      OffsetsAreOrdered();
      OffsetValues(url);
      PartTexts(url);
      AtMark(url);
    }

    /** Without a "/." the getter of the port returns its digits. */
    lemma GettersReadThePort()
      requires Valid()
      ensures components.port != OMITTED ==> components.hostEnd < components.pathnameStart <= |buffer|
      ensures !url.dashDot ==>
                GetPort() == if url.port.Some? then Digits(url.port.value) else ""
    {
      hide Serialize, Offsets, PathEnd, Digits;
      OffsetsAreOrdered();
      OffsetValues(url);
      PortCut(url);
      if !url.dashDot && url.port.Some? {
        var text := buffer[components.hostEnd..components.pathnameStart];
        assert text == PortText(url.port);
        assert buffer[components.hostEnd + 1..components.pathnameStart] == text[1..];
      }
    }

    /** In a valid state the getters of path, search and hash return theirs. With the
        lemmas above, the eight offsets delimit the components of the record. */
    lemma GettersReadTheTail()
      requires Valid()
      ensures var c := components;
              && c.pathnameStart <= PathEnd(c, |buffer|) <= |buffer|
              && (c.searchStart != OMITTED ==>
                  c.searchStart <= (if c.hashStart != OMITTED then c.hashStart else |buffer|)
                                <= |buffer|)
              && (c.hashStart != OMITTED ==> c.hashStart <= |buffer|)
      ensures GetPathname() == url.pathname
      ensures GetSearch() == if url.search in {None, Some("")} then "" else "?" + url.search.value
      ensures GetHash() == if url.hash in {None, Some("")} then "" else "#" + url.hash.value
    {
      hide Serialize, Offsets;
      OffsetsAreOrdered();
      OffsetValues(url);
      PartTexts(url);
    }
  }
}
