/** Domain names in a DNS message: length-prefixed labels that end with a zero byte or with a
    two-byte pointer to an earlier name (sections 3.1 and 4.1.4 of RFC 1035). The loops of
    include/util/mdns.h follow at most one pointer per step, and read the byte at its target as
    a length whatever its top bits say. */
module DnsName {

  type byte = b: int | 0 <= b < 256

  type Label = seq<byte>

  const DOT: byte := 46
  const INVALID_POS := -1

  predicate IsRef(v: byte) {
    v >= 0xC0
  }

  function Be16(b: seq<byte>, i: nat): (v: nat)
    requires i + 2 <= |b|
    ensures v < 0x1_0000
  {
    b[i] as int * 0x100 + b[i + 1]
  }

  // ---------------------------------------------------------------- reading one label

  datatype Substring = Invalid | Substring(offset: nat, length: nat, ref: bool)

  /** The label whose length byte is at `at`. */
  function LengthPrefixed(b: seq<byte>, at: nat, ref: bool): Substring
    requires at < |b|
  {
    if |b| < at + 1 + b[at] then Invalid else Substring(at + 1, b[at], ref)
  }

  function NextSubstring(b: seq<byte>, offset: nat): (pair: Substring)
    requires offset < |b|
    ensures pair.Substring? ==> pair.offset + pair.length <= |b|
    ensures pair.Substring? && !pair.ref ==> offset < pair.offset + pair.length || pair == Substring(offset, 0, false)
    ensures pair.Substring? && pair.ref ==> 1 <= pair.offset && offset + 2 <= |b|
  {
    if b[offset] == 0 then
      Substring(offset, 0, false)
    else if IsRef(b[offset]) then
      if |b| < offset + 2 then Invalid
      else
        var target := Be16(b, offset) % 0x4000;
        if target >= |b| then Invalid else LengthPrefixed(b, target, true)
    else
      LengthPrefixed(b, offset, false)
  }

  // ---------------------------------------------------------------- the meaning of a name

  /** What the bytes at an offset stand for, as far as `steps` labels tell: a list of labels and
      the offset just after the name; a name that does not fit its message; a walk that reads a
      length byte outside the message; or a walk that is still going on. */
  datatype Outcome = Name(labels: seq<Label>, end: nat) | Malformed | Outside | Unfinished

  function Decode(b: seq<byte>, cur: nat, steps: nat): Outcome
    decreases steps
  {
    if cur >= |b| then Outside
    else if steps == 0 then Unfinished
    else
      match NextSubstring(b, cur)
      case Invalid => Malformed
      case Substring(offset, length, ref) =>
        if length == 0 then Name([], if ref then cur + 2 else offset + 1)
        else
          match Decode(b, offset + length, steps - 1)
          case Name(rest, end) => Name([b[offset..offset + length]] + rest, if ref then cur + 2 else end)
          case other => other
  }

  lemma {:induction false} MoreStepsChangeNothing(b: seq<byte>, cur: nat, steps: nat, more: nat)
    requires steps <= more
    requires !Decode(b, cur, steps).Unfinished?
    ensures Decode(b, cur, more) == Decode(b, cur, steps)
    decreases steps
  {
    if cur < |b| {
      var pair := NextSubstring(b, cur);
      if pair.Substring? && pair.length != 0 {
        MoreStepsChangeNothing(b, pair.offset + pair.length, steps - 1, more - 1);
      }
    }
  }

  // ---------------------------------------------------------------- when a walk ends

  ghost predicate Ends(b: seq<byte>, cur: nat) {
    exists steps: nat :: !Decode(b, cur, steps).Unfinished?
  }

  /** The number of steps after which a walk that ends is over. */
  lemma {:induction false} LeastSteps(b: seq<byte>, cur: nat, enough: nat) returns (least: nat)
    requires !Decode(b, cur, enough).Unfinished?
    ensures !Decode(b, cur, least).Unfinished?
    ensures least > 0 ==> Decode(b, cur, least - 1).Unfinished?
    decreases enough
  {
    least := enough;
    if enough > 0 && !Decode(b, cur, enough - 1).Unfinished? {
      least := LeastSteps(b, cur, enough - 1);
    }
  }

  lemma {:induction false} OffsetsFit(offsets: set<nat>, size: nat)
    requires forall p :: p in offsets ==> p < size
    ensures |offsets| <= size
  {
    if size == 0 {
      assert offsets == {};
    } else {
      OffsetsFit(offsets - {size - 1}, size - 1);
    }
  }

  /** A walk that takes `least` steps visits as many offsets, all different from those that it has
      `seen`, which take more. */
  lemma {:induction false} NoOffsetTwice(b: seq<byte>, cur: nat, least: nat, seen: set<nat>)
    requires !Decode(b, cur, least).Unfinished?
    requires least > 0 ==> Decode(b, cur, least - 1).Unfinished?
    requires forall p :: p in seen ==> p < |b| && Decode(b, p, least).Unfinished?
    ensures least + |seen| <= |b|
    decreases least
  {
    hide NextSubstring;
    if least == 0 {
      OffsetsFit(seen, |b|);
    } else {
      var pair := NextSubstring(b, cur);
      if pair.Invalid? || pair.length == 0 {
        assert least == 1;
        OffsetsFit(seen + {cur}, |b|);
      } else {
        forall p | p in seen ensures Decode(b, p, least - 1).Unfinished? {
          if !Decode(b, p, least - 1).Unfinished? { MoreStepsChangeNothing(b, p, least - 1, least); }
        }
        NoOffsetTwice(b, pair.offset + pair.length, least - 1, seen + {cur});
      }
    }
  }

  /** The walk over a name ends if and only if it ends within as many labels as the message has
      bytes; one that goes on after that never ends. */
  lemma EndsWithinItsLength(b: seq<byte>, cur: nat)
    ensures Ends(b, cur) <==> !Decode(b, cur, |b|).Unfinished?
    ensures Ends(b, cur) ==> forall steps :: steps >= |b| ==> Decode(b, cur, steps) == Decode(b, cur, |b|)
    ensures !Ends(b, cur) <==> forall steps: nat :: Decode(b, cur, steps).Unfinished?
  {
    if Ends(b, cur) {
      var enough: nat :| !Decode(b, cur, enough).Unfinished?;
      var least := LeastSteps(b, cur, enough);
      NoOffsetTwice(b, cur, least, {});
      MoreStepsChangeNothing(b, cur, least, |b|);
      forall steps | steps >= |b| ensures Decode(b, cur, steps) == Decode(b, cur, |b|) {
        MoreStepsChangeNothing(b, cur, |b|, steps);
      }
    }
  }

  /** Every pointer met on the way leads to a label before the start of the run of labels it
      ends, and every label starts inside the buffer. */
  predicate PointsBack(b: seq<byte>, start: nat, cur: nat)
    decreases start, |b| - cur
  {
    cur < |b| &&
    match NextSubstring(b, cur)
    case Invalid => true
    case Substring(offset, length, ref) =>
      (ref ==> offset - 1 < start) &&
      (length != 0 ==> PointsBack(b, if ref then offset - 1 else start, offset + length))
  }

  lemma {:induction false} BackPointersEndSomewhere(b: seq<byte>, start: nat, cur: nat) returns (steps: nat)
    requires PointsBack(b, start, cur)
    ensures Decode(b, cur, steps).Name? || Decode(b, cur, steps).Malformed?
    decreases start, |b| - cur
  {
    var pair := NextSubstring(b, cur);
    steps := 1;
    if pair.Substring? && pair.length != 0 {
      var rest := BackPointersEndSomewhere(b, if pair.ref then pair.offset - 1 else start, pair.offset + pair.length);
      steps := rest + 1;
    }
  }

  /** Names whose pointers lead back end inside the message, within as many labels as it has bytes. */
  lemma BackPointersEnd(b: seq<byte>, start: nat, cur: nat)
    requires PointsBack(b, start, cur)
    ensures Decode(b, cur, |b|).Name? || Decode(b, cur, |b|).Malformed?
  {
    var steps := BackPointersEndSomewhere(b, start, cur);
    EndsWithinItsLength(b, cur);
    var most := if steps < |b| then |b| else steps;
    MoreStepsChangeNothing(b, cur, steps, most);
  }

  /** A label followed by a pointer to itself is never left, however many steps are taken. */
  lemma {:induction false} LabelPointingToItselfNeverEnds(b: seq<byte>, at: nat, steps: nat)
    requires at + 1 < |b| && 1 <= b[at] < 0xC0
    requires at + 1 + b[at] + 2 <= |b|
    requires IsRef(b[at + 1 + b[at]]) && Be16(b, at + 1 + b[at]) % 0x4000 == at
    ensures Decode(b, at, steps).Unfinished? && Decode(b, at + 1 + b[at], steps).Unfinished?
    decreases steps
  {
    if steps > 0 {
      LabelPointingToItselfNeverEnds(b, at, steps - 1);
    }
  }

  // ---------------------------------------------------------------- which bytes are read

  ghost predicate Inside(b: seq<byte>, offsets: set<nat>) {
    forall i :: i in offsets ==> i < |b|
  }

  /** The offsets looked at to find the label at `offset`: its length byte, and for a pointer its
      second byte and the length byte at its target. */
  function LabelReads(b: seq<byte>, offset: nat): (offsets: set<nat>)
    ensures offset in offsets && (offset < |b| ==> Inside(b, offsets))
  {
    if offset + 2 <= |b| && IsRef(b[offset]) then
      var target := Be16(b, offset) % 0x4000;
      {offset, offset + 1} + (if target < |b| then {target} else {})
    else
      {offset}
  }

  function Stretch(lo: nat, hi: nat): (offsets: set<nat>)
    ensures forall i :: i in offsets <==> lo <= i < hi
    decreases hi - lo
  {
    if lo >= hi then {} else {lo} + Stretch(lo + 1, hi)
  }

  /** The offsets looked at to extract a name, the text of its labels included. */
  function DecodeReads(b: seq<byte>, cur: nat, steps: nat): set<nat>
    decreases steps
  {
    if cur >= |b| then {cur}
    else if steps == 0 then {}
    else
      LabelReads(b, cur) +
      match NextSubstring(b, cur)
      case Invalid => {}
      case Substring(offset, length, ref) =>
        if length == 0 then {}
        else Stretch(offset, offset + length) + DecodeReads(b, offset + length, steps - 1)
  }

  /** Every byte read lies inside the message exactly when the walk is not led outside; from an
      offset inside, the byte just after the message is the only other one ever read. */
  lemma {:induction false} DecodeReadsInside(b: seq<byte>, cur: nat, steps: nat)
    ensures !Decode(b, cur, steps).Outside? <==> Inside(b, DecodeReads(b, cur, steps))
    ensures forall i :: i in DecodeReads(b, cur, steps) ==> i <= |b| || i == cur
    decreases steps
  {
    hide NextSubstring, LabelReads, Stretch;
    if cur < |b| && steps > 0 {
      var pair := NextSubstring(b, cur);
      if pair.Substring? && pair.length != 0 {
        var next := pair.offset + pair.length;
        DecodeReadsInside(b, next, steps - 1);
        InsideTogether(b, LabelReads(b, cur), Stretch(pair.offset, next));
        InsideTogether(b, LabelReads(b, cur) + Stretch(pair.offset, next), DecodeReads(b, next, steps - 1));
        assert DecodeReads(b, cur, steps) ==
          LabelReads(b, cur) + Stretch(pair.offset, next) + DecodeReads(b, next, steps - 1);
      }
    }
  }

  lemma InsideTogether(b: seq<byte>, s: set<nat>, t: set<nat>)
    ensures Inside(b, s + t) <==> Inside(b, s) && Inside(b, t)
  {
  }

  // ---------------------------------------------------------------- skipping

  datatype Skipped = SkippedTo(end: nat) | NotAName | SkipsOutside

  function SkipFrom(b: seq<byte>, cur: nat): (r: Skipped)
    ensures r.SkippedTo? ==> cur < r.end <= |b|
    decreases |b| - cur
  {
    if cur >= |b| then SkipsOutside
    else
      match NextSubstring(b, cur)
      case Invalid => NotAName
      case Substring(offset, length, ref) =>
        if ref then SkippedTo(cur + 2)
        else if length == 0 then SkippedTo(offset + 1)
        else SkipFrom(b, offset + length)
  }

  /** The offset moves past the name, or stays where it is. The skip is followed as far as it
      reads the message; what it does with a byte behind the message is unknown. */
  method Skip(b: seq<byte>, offset: nat) returns (r: Skipped, newOffset: nat)
    ensures r == SkipFrom(b, offset)
    ensures newOffset == if r.SkippedTo? then r.end else offset
  {
    var cur: nat := offset;
    var substr := Substring(0, 1, false);
    while substr.length != 0
      invariant substr.Substring?
      invariant substr.length != 0 ==> SkipFrom(b, offset) == SkipFrom(b, cur)
      invariant substr.length == 0 ==> SkipFrom(b, offset) == SkippedTo(cur + 1)
      decreases substr.length != 0, |b| - cur
    {
      if cur >= |b| {
        return SkipsOutside, offset;
      }
      substr := NextSubstring(b, cur);
      if substr.Invalid? {
        return NotAName, offset;
      }
      if substr.ref {
        return SkippedTo(cur + 2), cur + 2;
      }
      cur := substr.offset + substr.length;
    }
    return SkippedTo(cur + 1), cur + 1;
  }

  /** Skipping a name ends where decoding it ends, pointer or not. */
  lemma {:induction false} SkipEndsWhereTheNameEnds(b: seq<byte>, cur: nat, steps: nat)
    requires Decode(b, cur, steps).Name?
    ensures SkipFrom(b, cur) == SkippedTo(Decode(b, cur, steps).end)
    decreases steps
  {
    var pair := NextSubstring(b, cur);
    if pair.length != 0 && !pair.ref {
      SkipEndsWhereTheNameEnds(b, pair.offset + pair.length, steps - 1);
    }
  }

  /** The offsets looked at to skip a name. */
  function SkipReads(b: seq<byte>, cur: nat): set<nat>
    decreases |b| - cur
  {
    if cur >= |b| then {cur}
    else
      LabelReads(b, cur) +
      match NextSubstring(b, cur)
      case Invalid => {}
      case Substring(offset, length, ref) => if ref || length == 0 then {} else SkipReads(b, offset + length)
  }

  lemma {:induction false} SkipReadsInside(b: seq<byte>, cur: nat)
    ensures !SkipFrom(b, cur).SkipsOutside? <==> Inside(b, SkipReads(b, cur))
    ensures forall i :: i in SkipReads(b, cur) ==> i <= |b| || i == cur
    decreases |b| - cur
  {
    hide NextSubstring, LabelReads;
    if cur < |b| {
      var pair := NextSubstring(b, cur);
      if pair.Substring? && !pair.ref && pair.length != 0 {
        SkipReadsInside(b, pair.offset + pair.length);
        InsideTogether(b, LabelReads(b, cur), SkipReads(b, pair.offset + pair.length));
        assert SkipReads(b, cur) == LabelReads(b, cur) + SkipReads(b, pair.offset + pair.length);
      }
    }
  }

  /** The message of the two bytes 1 and 65: its only label is the last thing in it, so skipping
      and extracting look for the next length byte behind the message. */
  lemma LabelWithoutEndIsReadPast()
    ensures var b: seq<byte> := [1, 65];
      && SkipFrom(b, 0).SkipsOutside? && 2 in SkipReads(b, 0)
      && Decode(b, 0, |b|).Outside? && 2 in DecodeReads(b, 0, |b|)
  {
    var b: seq<byte> := [1, 65];
    assert NextSubstring(b, 0) == Substring(1, 1, false);
    assert SkipReads(b, 2) == {2} && DecodeReads(b, 2, 1) == {2};
    assert SkipReads(b, 2) <= SkipReads(b, 0);
    assert DecodeReads(b, 2, 1) <= DecodeReads(b, 0, 2);
  }

  // ---------------------------------------------------------------- extracting text

  /** The text of a name: every label followed by a dot. */
  function Dotted(labels: seq<Label>): seq<byte> {
    if labels == [] then [] else labels[0] + [DOT] + Dotted(labels[1..])
  }

  /** Every label of a text is followed by the byte 46, which is the dot. */
  lemma DotIsByte46(labels: seq<Label>, part: Label)
    ensures Dotted([part] + labels) == part + [46] + Dotted(labels)
  {
    assert ([part] + labels)[1..] == labels;
  }

  lemma {:induction false} DottedAppend(labels: seq<Label>, part: Label)
    ensures Dotted(labels + [part]) == Dotted(labels) + part + [DOT]
  {
    if labels == [] {
      assert ([] + [part])[1..] == [];
    } else {
      DottedAppend(labels[1..], part);
      assert (labels + [part])[1..] == labels[1..] + [part];
      assert Dotted(labels + [part]) == labels[0] + [DOT] + (Dotted(labels[1..]) + part + [DOT]);
    }
  }

  /** The outcome of a walk that has read `done`, knows where the name ends once a pointer was
      met, and has `rest` before it. */
  ghost function Resumed(done: seq<Label>, end: int, rest: Outcome): Outcome
    requires end >= -1
  {
    match rest
    case Name(labels, e) => Name(done + labels, if end == INVALID_POS then e else end)
    case other => other
  }

  ghost function Cut(s: seq<byte>, capacity: nat): seq<byte> {
    if |s| <= capacity then s else s[..capacity]
  }

  lemma CutAppend(s: seq<byte>, t: seq<byte>, capacity: nat)
    ensures Cut(Cut(s, capacity) + t, capacity) == Cut(s + t, capacity)
  {
    if |s| <= capacity {
    } else {
      assert (s[..capacity] + t)[..capacity] == s[..capacity] == (s + t)[..capacity];
    }
  }

  /** One round of a reading loop: what the next label contributes to the whole. */
  lemma ReadOn(b: seq<byte>, whole: Outcome, done: seq<Label>, end: int, cur: nat, left: nat)
    requires end >= -1 && whole == Resumed(done, end, Decode(b, cur, left))
    ensures cur >= |b| ==> whole.Outside?
    ensures cur < |b| && left == 0 ==> whole.Unfinished?
    ensures cur < |b| && left > 0 && NextSubstring(b, cur).Invalid? ==> whole.Malformed?
    ensures cur < |b| && left > 0 && NextSubstring(b, cur).Substring? ==>
      var pair := NextSubstring(b, cur);
      var newEnd := if pair.ref && end == INVALID_POS then cur + 2 else end;
      if pair.length == 0 then
        whole == Name(done, if newEnd == INVALID_POS then pair.offset + 1 else newEnd)
      else
        whole == Resumed(done + [b[pair.offset..pair.offset + pair.length]], newEnd,
                         Decode(b, pair.offset + pair.length, left - 1))
  {
    if cur < |b| && left > 0 && NextSubstring(b, cur).Substring? {
      var pair := NextSubstring(b, cur);
      if pair.length == 0 {
        assert done + [] == done;
      } else {
        var part := b[pair.offset..pair.offset + pair.length];
        var rest := Decode(b, pair.offset + pair.length, left - 1);
        if rest.Name? {
          assert done + ([part] + rest.labels) == done + [part] + rest.labels;
        }
      }
    }
  }

  /** Copies a label and its dot to the text buffer, as far as there is room. */
  method CopyPart(str: array<byte>, dst: nat, part: Label) returns (newDst: nat)
    requires dst <= str.Length
    modifies str
    ensures dst <= newDst <= str.Length
    ensures str[..newDst] == Cut(old(str[..dst]) + (part + [DOT]), str.Length)
    ensures forall i :: newDst <= i < str.Length ==> str[i] == old(str[i])
  {
    var remain := str.Length - dst;
    var toCopy := if |part| < remain then |part| else remain;
    forall i | 0 <= i < toCopy {
      str[dst + i] := part[i];
    }
    assert str[..dst + toCopy] == old(str[..dst]) + part[..toCopy];
    newDst := dst + toCopy;
    if newDst != str.Length {
      ghost var copied := str[..newDst];
      str[newDst] := DOT;
      newDst := newDst + 1;
      assert str[..newDst] == copied + [DOT];
    }
  }

  /** How a reading loop ended, or that it did not. */
  datatype Walk = Finished | Refused | LeftTheMessage | StillWalking

  /** Follows the loop for at most `rounds` labels and as far as it reads the message. */
  method Extract(b: seq<byte>, offset: nat, str: array<byte>, rounds: nat)
    returns (walk: Walk, newOffset: nat, length: nat)
    modifies str
    ensures walk.StillWalking? <==> Decode(b, offset, rounds).Unfinished?
    ensures walk.LeftTheMessage? <==> Decode(b, offset, rounds).Outside?
    ensures walk.Refused? <==> Decode(b, offset, rounds).Malformed?
    ensures !walk.Finished? ==> length == 0 && newOffset == offset
    ensures walk.Finished? ==>
      && newOffset == Decode(b, offset, rounds).end
      && length <= str.Length
      && str[..length] == Cut(Dotted(Decode(b, offset, rounds).labels), str.Length)
      && str[length..] == old(str[..])[length..]
  {
    hide Decode, NextSubstring, Dotted, Cut;
    var cur: nat, end: int := offset, INVALID_POS;
    var dst: nat, left := 0, rounds;
    var substr := Substring(0, 1, false);
    ghost var done: seq<Label> := [];
    ghost var whole := Decode(b, offset, rounds);
    assert whole == Resumed(done, end, whole) by {
      if whole.Name? { assert done + whole.labels == whole.labels; }
    }
    assert str[..dst] == Cut(Dotted(done), str.Length) by { NothingReadYet(str.Length); }
    while substr.length != 0
      invariant substr.Substring? && end >= -1 && dst <= str.Length
      invariant substr.length != 0 ==> whole == Resumed(done, end, Decode(b, cur, left))
      invariant substr.length == 0 ==> whole == Name(done, if end == INVALID_POS then cur + 1 else end)
      invariant str[..dst] == Cut(Dotted(done), str.Length)
      invariant forall i :: dst <= i < str.Length ==> str[i] == old(str[i])
      decreases substr.length != 0, left
    {
      ReadOn(b, whole, done, end, cur, left);
      if cur >= |b| {
        return LeftTheMessage, offset, 0;
      }
      if left == 0 {
        return StillWalking, offset, 0;
      }
      substr := NextSubstring(b, cur);
      if substr.Invalid? {
        return Refused, offset, 0;
      }
      if substr.ref && end == INVALID_POS {
        end := cur + 2;
      }
      if substr.length != 0 {
        ghost var text := Dotted(done);
        var part := b[substr.offset..substr.offset + substr.length];
        dst := CopyPart(str, dst, part);
        CutAppend(text, part + [DOT], str.Length);
        DottedAppend(done, part);
        assert text + part + [DOT] == text + (part + [DOT]);
        done := done + [part];
        left := left - 1;
      }
      cur := substr.offset + substr.length;
    }
    if end == INVALID_POS {
      end := cur + 1;
    }
    return Finished, end, dst;
  }

  lemma NothingReadYet(capacity: nat)
    ensures Cut(Dotted([]), capacity) == []
  {
  }

  // ---------------------------------------------------------------- comparing names

  function Lower(c: byte): byte {
    if 65 <= c <= 90 then c + 32 else c
  }

  /** strncasecmp returning zero for two labels of one length: it stops at a common NUL. */
  predicate CompareEqual(l: Label, r: Label)
    requires |l| == |r|
  {
    l == [] || (Lower(l[0]) == Lower(r[0]) && (l[0] == 0 || CompareEqual(l[1..], r[1..])))
  }

  predicate Match(ls: seq<Label>, rs: seq<Label>) {
    if ls == [] || rs == [] then ls == rs
    else |ls[0]| == |rs[0]| && CompareEqual(rs[0], ls[0]) && Match(ls[1..], rs[1..])
  }

  predicate Agree(l: Outcome, r: Outcome) {
    l.Name? && r.Name? && Match(l.labels, r.labels)
  }

  datatype Comparison = Same(endLhs: nat, endRhs: nat) | Different | ComparesOutside | StillComparing

  /** The comparison label by label: the first difference settles it, whatever follows. */
  function Compare(lhs: seq<byte>, l: nat, rhs: seq<byte>, r: nat, rounds: nat): Comparison
    decreases rounds
  {
    if l >= |lhs| || r >= |rhs| then ComparesOutside
    else if rounds == 0 then StillComparing
    else
      var x, y := NextSubstring(lhs, l), NextSubstring(rhs, r);
      if x.Invalid? || y.Invalid? || x.length != y.length then Different
      else if !CompareEqual(rhs[y.offset..y.offset + y.length], lhs[x.offset..x.offset + x.length]) then Different
      else
        var rest := if x.length == 0 then Same(x.offset + 1, y.offset + 1)
                    else Compare(lhs, x.offset + x.length, rhs, y.offset + y.length, rounds - 1);
        EndedAt(if x.ref then l + 2 else INVALID_POS, if y.ref then r + 2 else INVALID_POS, rest)
  }

  /** A comparison that knows where a name ends once it has met a pointer. */
  function EndedAt(endLhs: int, endRhs: int, rest: Comparison): Comparison
    requires endLhs >= -1 && endRhs >= -1
  {
    match rest
    case Same(l, r) => Same(if endLhs == INVALID_POS then l else endLhs, if endRhs == INVALID_POS then r else endRhs)
    case other => other
  }

  /** The comparison succeeds exactly when both names decode and their labels match, and then ends
      where they end. It is led outside, or goes on, only where one name, or both, would be. */
  lemma {:induction false} CompareIsAgreement(lhs: seq<byte>, l: nat, rhs: seq<byte>, r: nat, rounds: nat)
    ensures var left, right := Decode(lhs, l, rounds), Decode(rhs, r, rounds);
      var result := Compare(lhs, l, rhs, r, rounds);
      && (result.Same? <==> Agree(left, right))
      && (result.Same? ==> result == Same(left.end, right.end))
      && (result.ComparesOutside? ==> left.Outside? || right.Outside?)
      && (result.StillComparing? ==> left.Unfinished? && right.Unfinished?)
    decreases rounds
  {
    hide CompareEqual, NextSubstring, Match;
    if l < |lhs| && r < |rhs| && rounds > 0 {
      var x, y := NextSubstring(lhs, l), NextSubstring(rhs, r);
      if x.Substring? && y.Substring? {
        HeadsDecide(lhs, l, rhs, r, rounds);
        if x.length != 0 && x.length == y.length {
          CompareIsAgreement(lhs, x.offset + x.length, rhs, y.offset + y.length, rounds - 1);
        }
      }
    }
  }

  /** Whether two names agree is decided by their first labels and what follows. */
  lemma HeadsDecide(lhs: seq<byte>, l: nat, rhs: seq<byte>, r: nat, rounds: nat)
    requires l < |lhs| && r < |rhs| && rounds > 0
    requires NextSubstring(lhs, l).Substring? && NextSubstring(rhs, r).Substring?
    ensures var agree := Agree(Decode(lhs, l, rounds), Decode(rhs, r, rounds));
      var x, y := NextSubstring(lhs, l), NextSubstring(rhs, r);
      if x.length != y.length then !agree
      else if !CompareEqual(rhs[y.offset..y.offset + y.length], lhs[x.offset..x.offset + x.length]) then !agree
      else if x.length == 0 then agree
      else agree <==> Agree(Decode(lhs, x.offset + x.length, rounds - 1), Decode(rhs, y.offset + y.length, rounds - 1))
  {
    var x, y := NextSubstring(lhs, l), NextSubstring(rhs, r);
    if x.length != 0 && y.length != 0 {
      var restL := Decode(lhs, x.offset + x.length, rounds - 1);
      var restR := Decode(rhs, y.offset + y.length, rounds - 1);
      if restL.Name? && restR.Name? {
        var partL, partR := lhs[x.offset..x.offset + x.length], rhs[y.offset..y.offset + y.length];
        assert ([partL] + restL.labels)[1..] == restL.labels;
        assert ([partR] + restR.labels)[1..] == restR.labels;
      }
    }
  }

  /** A message that ends in a label is compared beyond its end. */
  lemma ComparingReadsPast()
    ensures Compare([1, 65], 0, [1, 97], 0, 2).ComparesOutside?
  {
    var l: seq<byte>, r: seq<byte>, a: Label, b: Label := [1, 65], [1, 97], [65], [97];
    assert a[1..] == [] && b[1..] == [] && CompareEqual(b, a);
    assert l[1..2] == a && r[1..2] == b;
  }

  /** A label followed by a pointer to itself is compared with itself for ever. */
  lemma {:induction false} ComparingGoesOn(b: seq<byte>, rounds: nat)
    requires b == [1, 65, 0xC0, 0]
    ensures Compare(b, 0, b, 0, rounds).StillComparing? && Compare(b, 2, b, 2, rounds).StillComparing?
  {
    hide CompareEqual;
    if rounds > 0 {
      CompareReflexive(b[1..2]);
      assert NextSubstring(b, 0) == Substring(1, 1, false) && NextSubstring(b, 2) == Substring(1, 1, true);
      ComparingGoesOn(b, rounds - 1);
    }
  }

  /** Comparing goes on for ever only if both names do. */
  lemma ComparingEnds(lhs: seq<byte>, l: nat, rhs: seq<byte>, r: nat, rounds: nat)
    requires (rounds >= |lhs| && Ends(lhs, l)) || (rounds >= |rhs| && Ends(rhs, r))
    ensures !Compare(lhs, l, rhs, r, rounds).StillComparing?
  {
    CompareIsAgreement(lhs, l, rhs, r, rounds);
    EndsWithinItsLength(lhs, l);
    EndsWithinItsLength(rhs, r);
  }

  // ---------------------------------------------------------------- what the comparison ignores

  /** The same byte, or an ASCII capital letter and its small letter. */
  ghost predicate SameLetter(a: byte, b: byte) {
    a == b || (65 <= a <= 90 && b == a + 32) || (65 <= b <= 90 && a == b + 32)
  }

  ghost predicate SameIgnoringCase(l: Label, r: Label) {
    |l| == |r| && forall i :: 0 <= i < |l| ==> SameLetter(l[i], r[i])
  }

  /** No byte of the label stands behind a NUL. */
  ghost predicate NulOnlyLast(part: Label) {
    forall i :: 0 <= i < |part| - 1 ==> part[i] != 0
  }

  lemma {:induction false} NulOnlyLastCompares(l: Label, r: Label)
    requires |l| == |r| && NulOnlyLast(l)
    ensures CompareEqual(l, r) <==> SameIgnoringCase(l, r)
  {
    if l != [] {
      NulOnlyLastCompares(l[1..], r[1..]);
      assert l == [l[0]] + l[1..] && r == [r[0]] + r[1..];
    }
  }

  lemma {:induction false} NulStopsComparing(l: Label, r: Label, nul: nat)
    requires |l| == |r| && nul < |l| && l[nul] == 0 && l[..nul + 1] == r[..nul + 1]
    ensures CompareEqual(l, r)
  {
    assert l[0] == l[..nul + 1][0] == r[..nul + 1][0] == r[0];
    if nul > 0 {
      assert l[1..][..nul] == l[..nul + 1][1..] == r[..nul + 1][1..] == r[1..][..nul];
      NulStopsComparing(l[1..], r[1..], nul - 1);
    }
  }

  /** A label with another last byte. */
  function OtherEnd(l: Label): (r: Label)
    requires l != []
    ensures |r| == |l| && r[..|l| - 1] == l[..|l| - 1] && !SameLetter(r[|l| - 1], l[|l| - 1])
  {
    l[|l| - 1 := if l[|l| - 1] == 0 then 1 else 0]
  }

  lemma NulHidesTheEnd(l: Label, nul: nat)
    requires nul < |l| - 1 && l[nul] == 0
    ensures CompareEqual(l, OtherEnd(l)) && !SameIgnoringCase(l, OtherEnd(l))
  {
    var r := OtherEnd(l);
    assert l[..nul + 1] == l[..|l| - 1][..nul + 1] == r[..|l| - 1][..nul + 1] == r[..nul + 1];
    NulStopsComparing(l, r, nul);
  }

  ghost predicate ComparesExactly(l: Label) {
    forall r: Label | |r| == |l| :: CompareEqual(l, r) <==> SameIgnoringCase(l, r)
  }

  /** Comparing with a label is equality up to case if and only if it has no NUL before its last byte. */
  lemma CompareIsExactWhen(l: Label)
    ensures ComparesExactly(l) <==> NulOnlyLast(l)
  {
    if NulOnlyLast(l) {
      forall r: Label | |r| == |l| ensures CompareEqual(l, r) <==> SameIgnoringCase(l, r) {
        NulOnlyLastCompares(l, r);
      }
    } else {
      var nul :| 0 <= nul < |l| - 1 && l[nul] == 0;
      NulHidesTheEnd(l, nul);
    }
  }

  ghost predicate SameNames(ls: seq<Label>, rs: seq<Label>) {
    |ls| == |rs| && forall i :: 0 <= i < |ls| ==> SameIgnoringCase(rs[i], ls[i])
  }

  lemma {:induction false} MatchIsPerLabel(ls: seq<Label>, rs: seq<Label>)
    ensures Match(ls, rs) <==>
      |ls| == |rs| && forall i :: 0 <= i < |ls| ==> |ls[i]| == |rs[i]| && CompareEqual(rs[i], ls[i])
  {
    hide CompareEqual;
    if ls != [] && rs != [] {
      MatchIsPerLabel(ls[1..], rs[1..]);
      assert ls == [ls[0]] + ls[1..] && rs == [rs[0]] + rs[1..];
    }
  }

  lemma {:induction false} CompareReflexive(l: Label)
    ensures CompareEqual(l, l)
  {
    if l != [] { CompareReflexive(l[1..]); }
  }

  ghost predicate MatchesExactly(rs: seq<Label>) {
    forall ls: seq<Label> :: Match(ls, rs) <==> SameNames(ls, rs)
  }

  /** Matching with a list of labels is equality up to case if and only if none of them has a NUL
      before its last byte. */
  lemma MatchIsExactWhen(rs: seq<Label>)
    ensures MatchesExactly(rs) <==> forall i :: 0 <= i < |rs| ==> NulOnlyLast(rs[i])
  {
    hide CompareEqual, SameIgnoringCase, NulOnlyLast, Match;
    if forall i :: 0 <= i < |rs| ==> NulOnlyLast(rs[i]) {
      forall ls: seq<Label> ensures Match(ls, rs) <==> SameNames(ls, rs) {
        MatchIsPerLabel(ls, rs);
        forall i | 0 <= i < |ls| == |rs| ensures SameIgnoringCase(rs[i], ls[i]) <==>
          |ls[i]| == |rs[i]| && CompareEqual(rs[i], ls[i])
        {
          SameLength(rs[i], ls[i]);
          if |ls[i]| == |rs[i]| { NulOnlyLastCompares(rs[i], ls[i]); }
        }
      }
    } else {
      var i :| 0 <= i < |rs| && !NulOnlyLast(rs[i]);
      var nul := NulBeforeLast(rs[i]);
      NulHidesTheEnd(rs[i], nul);
      var ls := rs[i := OtherEnd(rs[i])];
      MatchIsPerLabel(ls, rs);
      forall j | 0 <= j < |rs| ensures |ls[j]| == |rs[j]| && CompareEqual(rs[j], ls[j]) {
        CompareReflexive(rs[j]);
      }
      assert Match(ls, rs) && !SameIgnoringCase(rs[i], ls[i]);
    }
  }

  lemma SameLength(l: Label, r: Label)
    ensures SameIgnoringCase(l, r) ==> |l| == |r|
  {
  }

  lemma NulBeforeLast(l: Label) returns (nul: nat)
    requires !NulOnlyLast(l)
    ensures nul < |l| - 1 && l[nul] == 0
  {
    nul :| 0 <= nul < |l| - 1 && l[nul] == 0;
  }

  /** For instance, two labels that differ after a NUL match. */
  lemma NulHidesTheRestOfALabel()
    ensures Match([[0, 65]], [[0, 66]]) && !SameIgnoringCase([0, 65], [0, 66])
  {
    var l: Label, r: Label := [0, 65], [0, 66];
    assert CompareEqual(r, l);
    assert Match([l][1..], [r][1..]);
    assert l[1] == 65 && r[1] == 66;
  }

  ghost predicate NulFree(labels: seq<Label>) {
    forall k, i :: 0 <= k < |labels| && 0 <= i < |labels[k]| ==> labels[k][i] != 0
  }

  /** Two names without a NUL agree exactly if they have as many labels, of the same lengths, whose
      bytes are the same or a capital letter and its small letter. */
  lemma NamesAgreeUpToCase(l: Outcome, r: Outcome)
    requires l.Name? && r.Name? && NulFree(r.labels)
    ensures Agree(l, r) <==>
      && |l.labels| == |r.labels|
      && (forall k :: 0 <= k < |l.labels| ==> |l.labels[k]| == |r.labels[k]|)
      && (forall k, i :: 0 <= k < |l.labels| && 0 <= i < |l.labels[k]| ==>
            var a, b := l.labels[k][i], r.labels[k][i];
            a == b || (65 <= a <= 90 && b == a + 32) || (65 <= b <= 90 && a == b + 32))
  {
    hide Match, NulOnlyLast;
    forall k | 0 <= k < |r.labels| ensures NulOnlyLast(r.labels[k]) { NoNulAtAll(r.labels[k]); }
    MatchIsExactWhen(r.labels);
    assert Agree(l, r) <==> SameNames(l.labels, r.labels);
  }

  lemma SameNamesAgree(l: Outcome, r: Outcome)
    ensures l.Name? && r.Name? && NulFree(r.labels) ==> (Agree(l, r) <==> SameNames(l.labels, r.labels))
  {
    if l.Name? && r.Name? && NulFree(r.labels) {
      NamesAgreeUpToCase(l, r);
    }
  }

  lemma NoNulAtAll(part: Label)
    requires forall i :: 0 <= i < |part| ==> part[i] != 0
    ensures NulOnlyLast(part)
  {
  }

  // ---------------------------------------------------------------- the comparing loop

  /** Follows the loop for at most `rounds` labels and as far as it reads the messages. */
  method Equal(lhs: seq<byte>, ofsLhs: nat, rhs: seq<byte>, ofsRhs: nat, rounds: nat)
    returns (walk: Walk, newLhs: nat, newRhs: nat)
    ensures walk.StillWalking? <==> Compare(lhs, ofsLhs, rhs, ofsRhs, rounds).StillComparing?
    ensures walk.LeftTheMessage? <==> Compare(lhs, ofsLhs, rhs, ofsRhs, rounds).ComparesOutside?
    ensures walk.Finished? <==> Agree(Decode(lhs, ofsLhs, rounds), Decode(rhs, ofsRhs, rounds))
    ensures walk.Finished? ==>
      newLhs == Decode(lhs, ofsLhs, rounds).end && newRhs == Decode(rhs, ofsRhs, rounds).end
    ensures !walk.Finished? ==> newLhs == ofsLhs && newRhs == ofsRhs
    ensures var left, right := Decode(lhs, ofsLhs, rounds), Decode(rhs, ofsRhs, rounds);
      left.Name? && right.Name? && NulFree(right.labels) ==>
        (walk.Finished? <==> SameNames(left.labels, right.labels))
  {
    hide Decode, NextSubstring, CompareEqual, Match, SameNames;
    SameNamesAgree(Decode(lhs, ofsLhs, rounds), Decode(rhs, ofsRhs, rounds));
    var lCur: nat, rCur: nat, lEnd: int, rEnd: int := ofsLhs, ofsRhs, INVALID_POS, INVALID_POS;
    var l, r, left := Substring(0, 1, false), Substring(0, 1, false), rounds;
    ghost var whole := Compare(lhs, ofsLhs, rhs, ofsRhs, rounds);
    CompareIsAgreement(lhs, ofsLhs, rhs, ofsRhs, rounds);
    while l.length != 0
      invariant l.Substring? && r.Substring? && lEnd >= -1 && rEnd >= -1
      invariant l.length != 0 ==> whole == EndedAt(lEnd, rEnd, Compare(lhs, lCur, rhs, rCur, left))
      invariant l.length == 0 ==> whole == EndedAt(lEnd, rEnd, Same(lCur + 1, rCur + 1))
      decreases l.length != 0, left
    {
      if lCur >= |lhs| || rCur >= |rhs| {
        return LeftTheMessage, ofsLhs, ofsRhs;
      }
      if left == 0 {
        return StillWalking, ofsLhs, ofsRhs;
      }
      l := NextSubstring(lhs, lCur);
      r := NextSubstring(rhs, rCur);
      if l.Invalid? || r.Invalid? {
        return Refused, ofsLhs, ofsRhs;
      }
      if l.length != r.length {
        return Refused, ofsLhs, ofsRhs;
      }
      if !CompareEqual(rhs[r.offset..r.offset + r.length], lhs[l.offset..l.offset + l.length]) {
        return Refused, ofsLhs, ofsRhs;
      }
      if l.ref && lEnd == INVALID_POS {
        lEnd := lCur + 2;
      }
      if r.ref && rEnd == INVALID_POS {
        rEnd := rCur + 2;
      }
      lCur := l.offset + l.length;
      rCur := r.offset + r.length;
      left := left - 1;
    }
    newLhs := if lEnd == INVALID_POS then lCur + 1 else lEnd;
    newRhs := if rEnd == INVALID_POS then rCur + 1 else rEnd;
    walk := Finished;
  }
}
