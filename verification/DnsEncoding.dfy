/** Writing domain names into a message buffer, and reading them back: mdns_string_make,
    mdns_string_make_ref and mdns_string_make_with_ref of include/util/mdns.h. */
module DnsEncoding {

  import opened DnsName

  // ---------------------------------------------------------------- writing into a buffer

  /** `s` with the bytes from `at` on overwritten by `bytes`. */
  ghost function Splice(s: seq<byte>, at: nat, bytes: seq<byte>): (r: seq<byte>)
    requires at + |bytes| <= |s|
    ensures |r| == |s|
  {
    s[..at] + bytes + s[at + |bytes|..]
  }

  lemma SpliceOnward(s: seq<byte>, at: nat, a: seq<byte>, b: seq<byte>)
    requires at + |a| + |b| <= |s|
    ensures Splice(Splice(s, at, a), at + |a|, b) == Splice(s, at, a + b)
  {
  }

  /** Overwriting the last bytes of what was written. */
  lemma SpliceLast(s: seq<byte>, at: nat, a: seq<byte>, b: seq<byte>, c: seq<byte>)
    requires at + |a| + |b| <= |s| && at + |a| + |c| <= |s| && |b| <= |c|
    ensures Splice(Splice(s, at, a + b), at + |a|, c) == Splice(s, at, a + c)
  {
  }

  method Store(data: array<byte>, at: nat, bytes: seq<byte>)
    requires at + |bytes| <= data.Length
    modifies data
    ensures data[..] == Splice(old(data[..]), at, bytes)
  {
    forall i | 0 <= i < |bytes| {
      data[at + i] := bytes[i];
    }
  }

  // ---------------------------------------------------------------- the encoding of a name

  /** memchr: the first dot at or after `from`, or -1. */
  function Find(name: seq<byte>, from: nat): (pos: int)
    ensures pos == INVALID_POS || (from <= pos < |name| && name[pos] == DOT)
    ensures pos == INVALID_POS ==> forall i :: from <= i < |name| ==> name[i] != DOT
    ensures pos != INVALID_POS ==> forall i :: from <= i < pos ==> name[i] != DOT
    decreases |name| - from
  {
    if from >= |name| then INVALID_POS
    else if name[from] == DOT then from
    else Find(name, from + 1)
  }

  /** The labels of a dotted text from an offset on; a dot at the very end adds no label. */
  function SplitFrom(name: seq<byte>, from: nat): seq<Label>
    decreases |name| - from
  {
    if from >= |name| then []
    else
      var pos := Find(name, from);
      if pos == INVALID_POS then [name[from..]]
      else [name[from..pos]] + SplitFrom(name, pos + 1)
  }

  function Split(name: seq<byte>): seq<Label> {
    SplitFrom(name, 0)
  }

  /** A length byte, which keeps only the low eight bits of the length, and the label. */
  function Prefixed(part: Label): seq<byte> {
    [(|part| % 0x100) as byte] + part
  }

  function Encode(labels: seq<Label>): seq<byte> {
    if labels == [] then [] else Prefixed(labels[0]) + Encode(labels[1..])
  }

  lemma {:induction false} EncodeAppend(labels: seq<Label>, part: Label)
    ensures Encode(labels + [part]) == Encode(labels) + Prefixed(part)
  {
    if labels == [] {
      assert ([] + [part])[1..] == [];
    } else {
      EncodeAppend(labels[1..], part);
      assert (labels + [part])[1..] == labels[1..] + [part];
      assert Encode(labels + [part]) == Prefixed(labels[0]) + (Encode(labels[1..]) + Prefixed(part));
    }
  }

  lemma {:induction false} EncodeConcat(a: seq<Label>, b: seq<Label>)
    ensures Encode(a + b) == Encode(a) + Encode(b)
  {
    if a == [] {
      assert [] + b == b;
    } else {
      EncodeConcat(a[1..], b);
      assert (a + b)[1..] == a[1..] + b;
      assert Encode(a + b) == Prefixed(a[0]) + (Encode(a[1..]) + Encode(b));
    }
  }

  /** The two bytes of a pointer: the top two bits set, and the low fourteen of the offset. */
  function Pointer(offset: nat): seq<byte> {
    var low := offset % 0x4000;
    [(0xC0 + low / 0x100) as byte, (low % 0x100) as byte]
  }

  // ---------------------------------------------------------------- mdns_string_make

  /** Writes one label if it fits. */
  method MakeLabel(data: array<byte>, dest: nat, remain: nat, part: Label) returns (newDest: nat)
    requires dest + remain <= data.Length
    requires |part| < remain
    modifies data
    ensures newDest == dest + |Prefixed(part)|
    ensures data[..] == Splice(old(data[..]), dest, Prefixed(part))
  {
    Store(data, dest, [(|part| % 0x100) as byte]);
    Store(data, dest + 1, part);
    SpliceOnward(old(data[..]), dest, [(|part| % 0x100) as byte], part);
    newDest := dest + |part| + 1;
  }

  /** Succeeds, with the offset after the name, exactly when the encoding and its zero byte fit
      in `capacity`; never writes past it. -1 stands for the null pointer. */
  method Make(data: array<byte>, start: nat, capacity: nat, name: seq<byte>)
    returns (end: int, ghost written: seq<byte>)
    requires start + capacity <= data.Length
    modifies data
    ensures |written| <= capacity && data[..] == Splice(old(data[..]), start, written)
    ensures end != INVALID_POS <==> |Encode(Split(name))| + 1 <= capacity
    ensures end != INVALID_POS ==> written == Encode(Split(name)) + [0] && end == start + |written|
  {
    hide Splice, SplitFrom, Find, Encode, Prefixed;
    var lastPos: nat := 0;
    var dest: nat, remain: nat := start, capacity;
    ghost var done: seq<Label> := [];
    ghost var before := data[..];
    written := [];
    NothingWritten(before, start, name);
    var pos: int := Find(name, lastPos);
    while lastPos < |name| && pos != INVALID_POS
      invariant pos == Find(name, lastPos) && lastPos <= |name|
      invariant dest == start + |written| && |written| + remain == capacity
      invariant written == Encode(done) && data[..] == Splice(before, start, written)
      invariant Split(name) == done + SplitFrom(name, lastPos)
      decreases |name| - lastPos
    {
      LabelThenRest(name, done, lastPos);
      var part := name[lastPos..pos];
      if |part| < remain {
        dest := MakeLabel(data, dest, remain, part);
        PrefixedLength(part);
        SpliceOnward(before, start, written, Prefixed(part));
        EncodeAppend(done, part);
        done := done + [part];
        written := Encode(done);
        remain := remain - (|part| + 1);
      } else {
        TooLong(name, done, part, SplitFrom(name, pos + 1));
        return INVALID_POS, written;
      }
      lastPos := pos + 1;
      pos := Find(name, lastPos);
    }
    if lastPos < |name| {
      LabelThenRest(name, done, lastPos);
      var part := name[lastPos..];
      if |part| < remain {
        dest := MakeLabel(data, dest, remain, part);
        PrefixedLength(part);
        SpliceOnward(before, start, written, Prefixed(part));
        EncodeAppend(done, part);
        done := done + [part];
        written := Encode(done);
        remain := remain - (|part| + 1);
      } else {
        TooLong(name, done, part, []);
        return INVALID_POS, written;
      }
    } else {
      NoLabelLeft(name, done, lastPos);
    }
    if remain == 0 {
      return INVALID_POS, written;
    }
    Store(data, dest, [0]);
    SpliceOnward(before, start, written, [0]);
    written := written + [0];
    end := dest + 1;
  }

  lemma NothingWritten(s: seq<byte>, start: nat, name: seq<byte>)
    requires start <= |s|
    ensures Splice(s, start, []) == s && Encode([]) == [] && Split(name) == [] + SplitFrom(name, 0)
  {
  }

  lemma PrefixedLength(part: Label)
    ensures |Prefixed(part)| == |part| + 1
  {
  }

  lemma LabelThenRest(name: seq<byte>, done: seq<Label>, from: nat)
    requires from < |name| && Split(name) == done + SplitFrom(name, from)
    ensures Find(name, from) == INVALID_POS ==> Split(name) == done + [name[from..]]
    ensures Find(name, from) != INVALID_POS ==>
      Split(name) == done + [name[from..Find(name, from)]] + SplitFrom(name, Find(name, from) + 1)
  {
  }

  lemma NoLabelLeft(name: seq<byte>, done: seq<Label>, from: nat)
    requires from >= |name| && Split(name) == done + SplitFrom(name, from)
    ensures Split(name) == done
  {
  }

  /** A label that does not fit makes the whole name too long. */
  lemma TooLong(name: seq<byte>, done: seq<Label>, part: Label, rest: seq<Label>)
    requires Split(name) == done + [part] + rest
    ensures |Encode(Split(name))| >= |Encode(done)| + |part| + 1
  {
    EncodeConcat(done + [part], rest);
    EncodeAppend(done, part);
  }

  // ---------------------------------------------------------------- pointers

  method MakeRef(data: array<byte>, start: nat, capacity: nat, refOffset: nat) returns (end: int)
    requires start + capacity <= data.Length
    modifies data
    ensures end != INVALID_POS <==> 2 <= capacity
    ensures end != INVALID_POS ==>
      end == start + 2 && data[..] == Splice(old(data[..]), start, Pointer(refOffset))
    ensures end == INVALID_POS ==> data[..] == old(data[..])
  {
    if capacity < 2 {
      return INVALID_POS;
    }
    Store(data, start, Pointer(refOffset));
    end := start + 2;
  }

  /** What became of a piece of a message: there was no room, it goes up to `end`, or the code
      went on to store outside the buffer. */
  datatype Written = NoRoom | UpTo(end: nat) | Wild

  /** The labels of a name and then a pointer, which takes the place of the zero byte. The null
      pointer for a name that does not fit is not noticed: the room then counts from address zero,
      and the pointer is stored in front of it. The buffer keeps the labels made until then. */
  method MakeWithRef(data: array<byte>, start: nat, capacity: nat, name: seq<byte>, refOffset: nat)
    returns (r: Written, ghost written: seq<byte>)
    requires start + capacity <= data.Length
    modifies data
    ensures r.Wild? <==> |Encode(Split(name))| + 1 > capacity
    ensures r.NoRoom? <==> |Encode(Split(name))| + 1 == capacity
    ensures |written| <= capacity && data[..] == Splice(old(data[..]), start, written)
    ensures r.NoRoom? ==> written == Encode(Split(name)) + [0]
    ensures r.UpTo? ==> r.end == start + |written| && written == Encode(Split(name)) + Pointer(refOffset)
  {
    hide Encode, Splice, Split, Pointer;
    ghost var before, code := data[..], Encode(Split(name));
    var made: int;
    made, written := Make(data, start, capacity, name);
    if made == INVALID_POS {
      return Wild, written;
    }
    var left := capacity - (made - start);
    if left == 0 {
      return NoRoom, written;
    }
    var end := MakeRef(data, made - 1, left + 1, refOffset);
    PointerLength(refOffset);
    SpliceLast(before, start, code, [0], Pointer(refOffset));
    r, written := UpTo(end), code + Pointer(refOffset);
  }

  lemma PointerLength(offset: nat)
    ensures |Pointer(offset)| == 2
  {
  }

  // ---------------------------------------------------------------- round trips

  /** Lengths that read back as plain labels: not the terminator, and not taken for a pointer. */
  ghost predicate Plain(labels: seq<Label>) {
    forall i :: 0 <= i < |labels| ==> 1 <= |labels[i]| < 0xC0
  }

  ghost predicate Holds(b: seq<byte>, at: nat, bytes: seq<byte>) {
    at + |bytes| <= |b| && b[at..at + |bytes|] == bytes
  }

  /** The labels in front of what follows. */
  ghost function Before(labels: seq<Label>, rest: Outcome): Outcome {
    match rest
    case Name(more, end) => Name(labels + more, end)
    case other => other
  }

  /** Encoded labels are read back one by one, whatever ends the run. */
  lemma {:induction false} EncodedLabelsDecode(b: seq<byte>, at: nat, labels: seq<Label>, steps: nat)
    requires Plain(labels) && Holds(b, at, Encode(labels))
    requires at + |Encode(labels)| < |b|
    ensures Decode(b, at, |labels| + steps) == Before(labels, Decode(b, at + |Encode(labels)|, steps))
    decreases |labels|
  {
    hide NextSubstring, Decode, Before, Plain;
    if labels != [] {
      FirstLabel(b, at, labels);
      var rest := at + 1 + |labels[0]|;
      assert Plain(labels[1..]) && 1 <= |labels[0]| by { PlainParts(labels); }
      EncodedLabelsDecode(b, rest, labels[1..], steps);
      LabelDecodes(b, at, labels[0], |labels| + steps);
      BeforeOneThenRest(labels, Decode(b, at + |Encode(labels)|, steps));
    } else {
      NothingBefore(Decode(b, at, steps));
    }
  }

  lemma PlainParts(labels: seq<Label>)
    requires Plain(labels) && labels != []
    ensures 1 <= |labels[0]| < 0xC0 && Plain(labels[1..])
  {
  }

  lemma NothingBefore(rest: Outcome)
    ensures Before([], rest) == rest
  {
    if rest.Name? { assert [] + rest.labels == rest.labels; }
  }

  lemma BeforeOneThenRest(labels: seq<Label>, rest: Outcome)
    requires labels != []
    ensures Before([labels[0]], Before(labels[1..], rest)) == Before(labels, rest)
  {
    if rest.Name? {
      assert [labels[0]] + (labels[1..] + rest.labels) == labels + rest.labels;
    }
  }

  lemma LabelDecodes(b: seq<byte>, at: nat, part: Label, steps: nat)
    requires at + 1 + |part| < |b| && steps > 0
    requires NextSubstring(b, at) == Substring(at + 1, |part|, false) && |part| >= 1
    requires b[at + 1..at + 1 + |part|] == part
    ensures Decode(b, at, steps) == Before([part], Decode(b, at + 1 + |part|, steps - 1))
  {
    hide NextSubstring;
  }

  lemma FirstLabel(b: seq<byte>, at: nat, labels: seq<Label>)
    requires labels != [] && Plain(labels) && Holds(b, at, Encode(labels))
    ensures var next := at + 1 + |labels[0]|;
      && NextSubstring(b, at) == Substring(at + 1, |labels[0]|, false)
      && b[at + 1..next] == labels[0]
      && Holds(b, next, Encode(labels[1..]))
      && next + |Encode(labels[1..])| == at + |Encode(labels)|
  {
    HoldsParts(b, at, Prefixed(labels[0]), Encode(labels[1..]));
    LabelAt(b, at, labels[0]);
  }

  lemma LabelAt(b: seq<byte>, at: nat, part: Label)
    requires Holds(b, at, Prefixed(part)) && 1 <= |part| < 0xC0
    ensures NextSubstring(b, at) == Substring(at + 1, |part|, false)
    ensures b[at + 1..at + 1 + |part|] == part
  {
    HoldsParts(b, at, [|part| as byte], part);
    assert b[at] == b[at..at + 1][0] == |part|;
  }

  /** A name made with mdns_string_make is read back as its labels. */
  lemma MadeNameDecodes(b: seq<byte>, at: nat, labels: seq<Label>)
    requires Plain(labels) && Holds(b, at, Encode(labels) + [0])
    ensures Decode(b, at, |labels| + 1) == Name(labels, at + |Encode(labels)| + 1)
  {
    HoldsParts(b, at, Encode(labels), [0]);
    var zero := at + |Encode(labels)|;
    assert b[zero] == b[zero..zero + 1][0];
    EncodedLabelsDecode(b, at, labels, 1);
    assert labels + [] == labels;
  }

  lemma HoldsParts(b: seq<byte>, at: nat, x: seq<byte>, y: seq<byte>)
    ensures Holds(b, at, x + y) <==> Holds(b, at, x) && Holds(b, at + |x|, y)
  {
    if at + |x| + |y| <= |b| {
      assert b[at..at + |x| + |y|] == b[at..at + |x|] + b[at + |x|..at + |x| + |y|];
      if Holds(b, at, x + y) {
        assert (x + y)[..|x|] == x && (x + y)[|x|..] == y;
      }
    }
  }

  /** A pointer to a label or to a terminator reads as the name at its target; the name then
      ends after the pointer. Only the low fourteen bits of the target survive. */
  lemma PointerDecodes(b: seq<byte>, at: nat, target: nat, steps: nat)
    requires Holds(b, at, Pointer(target))
    requires target < 0x4000 && target < |b| && !IsRef(b[target])
    ensures Decode(b, at, steps) ==
      match Decode(b, target, steps)
      case Name(labels, _) => Name(labels, at + 2)
      case other => other
  {
    hide Pointer, Be16;
    PointerReadsBack(b, at, target);
    assert NextSubstring(b, at) == LengthPrefixed(b, target, true);
  }

  lemma PointerReadsBack(b: seq<byte>, at: nat, target: nat)
    requires Holds(b, at, Pointer(target))
    ensures at + 2 <= |b| && IsRef(b[at]) && Be16(b, at) % 0x4000 == target % 0x4000
  {
    assert b[at..at + 2][0] == b[at] && b[at..at + 2][1] == b[at + 1];
    var low := target % 0x4000;
    assert Be16(b, at) == 0xC000 + low;
  }

  /** A target behind the low fourteen bits is not the one that is read: the pointer is that of
      the target's remainder, 0x4000 for instance that of the start of the message. */
  lemma PointerKeepsFourteenBits(target: nat, other: nat)
    ensures Pointer(target) == Pointer(other) <==> target % 0x4000 == other % 0x4000
    ensures Holds(Pointer(target), 0, Pointer(target))
    ensures Be16(Pointer(target), 0) % 0x4000 == target <==> target < 0x4000
    ensures Pointer(0x4000) == Pointer(0) == [0xC0, 0]
  {
    HoldsItself(Pointer(target));
    HoldsItself(Pointer(other));
    PointerReadsBack(Pointer(target), 0, target);
    PointerReadsBack(Pointer(other), 0, other);
  }

  lemma HoldsItself(b: seq<byte>)
    ensures Holds(b, 0, b)
  {
  }

  /** A name made with mdns_string_make_with_ref is its labels followed by the referenced name. */
  lemma NameWithRefDecodes(b: seq<byte>, at: nat, labels: seq<Label>, target: nat, steps: nat)
    requires Plain(labels) && Holds(b, at, Encode(labels) + Pointer(target))
    requires target < 0x4000 && target < |b| && !IsRef(b[target])
    requires Decode(b, target, steps).Name?
    ensures Decode(b, at, |labels| + steps) ==
      Name(labels + Decode(b, target, steps).labels, at + |Encode(labels)| + 2)
  {
    hide Pointer, Encode, Decode;
    HoldsParts(b, at, Encode(labels), Pointer(target));
    PointerLength(target);
    EncodedLabelsDecode(b, at, labels, steps);
    PointerDecodes(b, at + |Encode(labels)|, target, steps);
  }

  /** A pointer to a pointer is not followed: the first byte of the target pointer is taken for
      a length of 192 or more. */
  lemma PointerToPointerIsNotFollowed(b: seq<byte>, at: nat, target: nat)
    requires Holds(b, at, Pointer(target))
    requires target < 0x4000 && target < |b| && IsRef(b[target])
    ensures NextSubstring(b, at) == Invalid ||
      (NextSubstring(b, at) == Substring(target + 1, b[target], true) && b[target] >= 0xC0)
  {
    PointerReadsBack(b, at, target);
  }

  // ---------------------------------------------------------------- names without an end

  /** The plain labels from an offset to the end of the message, if nothing else is left there. */
  ghost predicate OnlyLabelsLeft(b: seq<byte>, from: nat) {
    from <= |b| && exists labels: seq<Label> :: Plain(labels) && b[from..] == Encode(labels)
  }

  /** Skipping looks behind the message exactly when nothing but plain labels is left in it: no
      zero byte, no pointer, and no label that is too long. */
  lemma {:induction false} SkipsOutsideWhen(b: seq<byte>, from: nat)
    requires from <= |b|
    ensures SkipFrom(b, from).SkipsOutside? <==> OnlyLabelsLeft(b, from)
    decreases |b| - from
  {
    hide Encode, Plain;
    if from == |b| {
      NoLabels();
      assert b[from..] == Encode([]);
    } else {
      var pair := NextSubstring(b, from);
      if pair.Substring? && !pair.ref && pair.length != 0 {
        SkipsOutsideWhen(b, pair.offset + pair.length);
        OneLabelMore(b, from);
      } else {
        NoPlainLabel(b, from);
      }
    }
  }

  lemma NoLabels()
    ensures Plain([]) && Encode([]) == []
  {
  }

  lemma OneLabelMore(b: seq<byte>, from: nat)
    requires from < |b|
    requires var pair := NextSubstring(b, from); pair.Substring? && !pair.ref && pair.length != 0
    ensures var pair := NextSubstring(b, from);
      OnlyLabelsLeft(b, from) <==> OnlyLabelsLeft(b, pair.offset + pair.length)
  {
    var pair := NextSubstring(b, from);
    var next := pair.offset + pair.length;
    var part := b[pair.offset..next];
    assert b[from..] == Prefixed(part) + b[next..];
    if OnlyLabelsLeft(b, next) {
      var rest: seq<Label> :| Plain(rest) && b[next..] == Encode(rest);
      var labels := [part] + rest;
      assert labels[1..] == rest;
      assert Plain(labels) && b[from..] == Encode(labels);
    }
    if OnlyLabelsLeft(b, from) {
      var labels: seq<Label> :| Plain(labels) && b[from..] == Encode(labels);
      FirstLabelOf(b, from, labels);
      assert b[next..] == b[from..][next - from..] == Encode(labels[1..]);
    }
  }

  lemma FirstLabelOf(b: seq<byte>, from: nat, labels: seq<Label>)
    requires from < |b| && Plain(labels) && b[from..] == Encode(labels)
    ensures labels != [] && NextSubstring(b, from) == Substring(from + 1, |labels[0]|, false) && |labels[0]| >= 1
    ensures Plain(labels[1..]) && Encode(labels)[1 + |labels[0]|..] == Encode(labels[1..])
  {
    assert labels != [];
    assert Holds(b, from, Encode(labels));
    FirstLabel(b, from, labels);
    PlainParts(labels);
  }

  lemma NoPlainLabel(b: seq<byte>, from: nat)
    requires from < |b|
    requires var pair := NextSubstring(b, from); pair.Invalid? || pair.ref || pair.length == 0
    ensures !OnlyLabelsLeft(b, from)
  {
    if OnlyLabelsLeft(b, from) {
      var labels: seq<Label> :| Plain(labels) && b[from..] == Encode(labels);
      FirstLabelOf(b, from, labels);
      assert false;
    }
  }

  /** A run of plain labels, and then a pointer to a label that fits into the message: the walk over
      the name goes on behind that label. */
  ghost predicate LabelsThenPointer(b: seq<byte>, from: nat, labels: seq<Label>, next: nat) {
    var at := from + |Encode(labels)|;
    && Plain(labels) && Holds(b, from, Encode(labels)) && at + 2 <= |b| && IsRef(b[at])
    && var target := Be16(b, at) % 0x4000;
       target < |b| && b[target] != 0 && next == target + 1 + b[target]
  }

  ghost predicate PointsOnTo(b: seq<byte>, from: nat, next: nat) {
    next <= |b| && exists labels: seq<Label> :: LabelsThenPointer(b, from, labels, next)
  }

  /** So many pointers on the way lead to a place where nothing but plain labels is left. */
  ghost predicate LeadsOutside(b: seq<byte>, from: nat, pointers: nat)
    decreases pointers
  {
    if pointers == 0 then OnlyLabelsLeft(b, from)
    else exists next: nat :: PointsOnTo(b, from, next) && LeadsOutside(b, next, pointers - 1)
  }

  /** Extracting looks behind the message exactly when its pointers lead, after some number of them,
      to a run of plain labels up to the end of the message. */
  lemma DecodesOutsideWhen(b: seq<byte>, from: nat)
    requires from <= |b|
    ensures (exists steps: nat :: Decode(b, from, steps).Outside?) <==>
      exists pointers: nat :: LeadsOutside(b, from, pointers)
    ensures Decode(b, from, |b|).Outside? <==> exists pointers: nat :: LeadsOutside(b, from, pointers)
  {
    hide Decode, LeadsOutside;
    if steps: nat :| Decode(b, from, steps).Outside? {
      var pointers := WhereItLeads(b, from, steps);
      EndsWithinItsLength(b, from);
      MoreStepsChangeNothing(b, from, steps, steps + |b|);
      MoreStepsChangeNothing(b, from, |b|, steps + |b|);
    }
    if pointers: nat :| LeadsOutside(b, from, pointers) {
      var steps := StepsOutside(b, from, pointers);
    }
  }

  lemma {:induction false} WhereItLeads(b: seq<byte>, from: nat, steps: nat) returns (pointers: nat)
    requires from <= |b| && Decode(b, from, steps).Outside?
    ensures LeadsOutside(b, from, pointers)
    decreases steps
  {
    hide Encode, Plain, OnlyLabelsLeft, PointsOnTo;
    if from == |b| {
      SkipsOutsideWhen(b, from);
      return 0;
    }
    var pair := NextSubstring(b, from);
    var next := pair.offset + pair.length;
    var rest := WhereItLeads(b, next, steps - 1);
    if pair.ref {
      PointsAtOnce(b, from);
      pointers := rest + 1;
    } else {
      pointers := rest;
      if rest == 0 {
        OneLabelMore(b, from);
      } else {
        var behind: nat :| PointsOnTo(b, next, behind) && LeadsOutside(b, behind, rest - 1);
        OneLabelEarlier(b, from, behind);
      }
    }
  }

  lemma PointsAtOnce(b: seq<byte>, from: nat)
    requires from < |b|
    requires var pair := NextSubstring(b, from); pair.Substring? && pair.ref && pair.length != 0
    ensures var pair := NextSubstring(b, from); PointsOnTo(b, from, pair.offset + pair.length)
  {
    NoLabels();
    assert LabelsThenPointer(b, from, [], NextSubstring(b, from).offset + NextSubstring(b, from).length);
  }

  lemma OneLabelEarlier(b: seq<byte>, from: nat, behind: nat)
    requires from < |b|
    requires var pair := NextSubstring(b, from);
      pair.Substring? && !pair.ref && pair.length != 0 && PointsOnTo(b, pair.offset + pair.length, behind)
    ensures PointsOnTo(b, from, behind)
  {
    hide NextSubstring, Encode, Prefixed, Plain, Holds, Be16, IsRef;
    var pair := NextSubstring(b, from);
    var next := pair.offset + pair.length;
    var rest :| LabelsThenPointer(b, next, rest, behind);
    var part := b[pair.offset..next];
    LabelHere(b, from);
    EncodeOneMore(part, rest);
    HoldsParts(b, from, Prefixed(part), Encode(rest));
    assert LabelsThenPointer(b, from, [part] + rest, behind);
  }

  lemma LabelHere(b: seq<byte>, from: nat)
    requires from < |b|
    requires var pair := NextSubstring(b, from); pair.Substring? && !pair.ref && pair.length != 0
    ensures var pair := NextSubstring(b, from);
      var part := b[pair.offset..pair.offset + pair.length];
      && 1 <= |part| < 0xC0 && Holds(b, from, Prefixed(part))
      && pair.offset + pair.length == from + |Prefixed(part)|
  {
    var next := from + 1 + b[from];
    assert b[from..next] == [b[from]] + b[from + 1..next];
  }

  lemma EncodeOneMore(part: Label, rest: seq<Label>)
    requires 1 <= |part| < 0xC0 && Plain(rest)
    ensures Encode([part] + rest) == Prefixed(part) + Encode(rest) && Plain([part] + rest)
  {
    assert ([part] + rest)[1..] == rest;
  }

  lemma {:induction false} StepsOutside(b: seq<byte>, from: nat, pointers: nat) returns (steps: nat)
    requires from <= |b| && LeadsOutside(b, from, pointers)
    ensures Decode(b, from, steps).Outside?
    decreases pointers
  {
    hide Decode, LabelsThenPointer, OnlyLabelsLeft;
    if pointers == 0 {
      SkipsOutsideWhen(b, from);
      steps := StepsToTheEnd(b, from);
    } else {
      var next: nat :| PointsOnTo(b, from, next) && LeadsOutside(b, next, pointers - 1);
      var labels :| LabelsThenPointer(b, from, labels, next);
      var rest := StepsOutside(b, next, pointers - 1);
      OverThePointer(b, from, labels, next, rest);
      steps := |labels| + rest + 1;
    }
  }

  lemma OverThePointer(b: seq<byte>, from: nat, labels: seq<Label>, next: nat, rest: nat)
    requires LabelsThenPointer(b, from, labels, next) && next <= |b| && Decode(b, next, rest).Outside?
    ensures Decode(b, from, |labels| + rest + 1).Outside?
  {
    hide Encode, Plain, Holds, Be16;
    var at := from + |Encode(labels)|;
    assert Decode(b, at, rest + 1).Outside?;
    EncodedLabelsDecode(b, from, labels, rest + 1);
  }

  lemma {:induction false} StepsToTheEnd(b: seq<byte>, from: nat) returns (steps: nat)
    requires from <= |b| && SkipFrom(b, from).SkipsOutside?
    ensures Decode(b, from, steps).Outside?
    decreases |b| - from
  {
    steps := 0;
    if from < |b| {
      var pair := NextSubstring(b, from);
      var rest := StepsToTheEnd(b, pair.offset + pair.length);
      steps := rest + 1;
    }
  }

  // ---------------------------------------------------------------- dotted texts

  /** A text from an offset on, with a dot added if it is not empty and does not end with one. */
  function EndedByDot(name: seq<byte>, from: nat): seq<byte>
    requires from <= |name|
  {
    if from == |name| || name[|name| - 1] == DOT then name[from..] else name[from..] + [DOT]
  }

  /** The text extracted from an encoded text is that text, ended by a dot. */
  lemma {:induction false} DottedSplit(name: seq<byte>, from: nat)
    requires from <= |name|
    ensures Dotted(SplitFrom(name, from)) == EndedByDot(name, from)
    decreases |name| - from
  {
    hide *;
    SplitOnce(name, from);
    if from == |name| {
      NoDots();
    } else if Find(name, from) == INVALID_POS {
      DottedFirst(name[from..], []);
    } else {
      var pos := Find(name, from);
      DottedSplit(name, pos + 1);
      DottedFirst(name[from..pos], SplitFrom(name, pos + 1));
      CutAtDot(name, from, pos);
    }
  }

  lemma SplitOnce(name: seq<byte>, from: nat)
    requires from <= |name|
    ensures from == |name| ==> SplitFrom(name, from) == [] && EndedByDot(name, from) == []
    ensures from < |name| && Find(name, from) == INVALID_POS ==>
      SplitFrom(name, from) == [name[from..]] && EndedByDot(name, from) == name[from..] + [DOT]
    ensures from < |name| && Find(name, from) != INVALID_POS ==>
      SplitFrom(name, from) == [name[from..Find(name, from)]] + SplitFrom(name, Find(name, from) + 1)
  {
  }

  lemma NoDots()
    ensures Dotted([]) == []
  {
  }

  lemma DottedFirst(part: Label, rest: seq<Label>)
    ensures Dotted([part] + rest) == part + [DOT] + Dotted(rest)
    ensures Dotted([part]) == part + [DOT]
  {
    assert ([part] + rest)[1..] == rest;
    assert [part][1..] == [];
  }

  lemma CutAtDot(name: seq<byte>, from: nat, pos: nat)
    requires from <= pos < |name| && name[pos] == DOT
    ensures EndedByDot(name, from) == name[from..pos] + [DOT] + EndedByDot(name, pos + 1)
  {
    assert name[from..] == name[from..pos] + [DOT] + name[pos + 1..];
    assert name[from..] + [DOT] == name[from..pos] + [DOT] + (name[pos + 1..] + [DOT]);
  }

  ghost predicate DotFree(part: Label) {
    forall i :: 0 <= i < |part| ==> part[i] != DOT
  }

  /** Splitting the dotted text of dot-free labels gives the labels back. */
  lemma {:induction false} SplitDotted(name: seq<byte>, from: nat, labels: seq<Label>)
    requires from <= |name| && name[from..] == Dotted(labels)
    requires forall i :: 0 <= i < |labels| ==> DotFree(labels[i])
    ensures SplitFrom(name, from) == labels
    decreases |labels|
  {
    hide Find, Dotted;
    if labels == [] {
      NoDots();
    } else {
      var first, dot := labels[0], from + |labels[0]|;
      DottedFirst(first, labels[1..]);
      assert [first] + labels[1..] == labels;
      FirstDot(name, from, first, Dotted(labels[1..]));
      SplitDotted(name, dot + 1, labels[1..]);
    }
  }

  lemma FirstDot(name: seq<byte>, from: nat, part: Label, rest: seq<byte>)
    requires from <= |name| && name[from..] == part + [DOT] + rest && DotFree(part)
    ensures var dot := from + |part|;
      Find(name, from) == dot < |name| && name[from..dot] == part && name[dot + 1..] == rest
  {
    var dot := from + |part|;
    var text := name[from..];
    assert |text| == |part| + 1 + |rest|;
    assert name[dot] == text[|part|] == DOT;
    forall i | from <= i < dot ensures name[i] != DOT {
      assert name[i] == text[i - from] == part[i - from];
    }
    assert name[from..dot] == text[..|part|] == part;
    assert name[dot + 1..] == text[|part| + 1..] == rest;
  }

  lemma {:induction false} DottedConcat(a: seq<Label>, b: seq<Label>)
    ensures Dotted(a + b) == Dotted(a) + Dotted(b)
  {
    if a == [] {
      assert [] + b == b;
    } else {
      DottedConcat(a[1..], b);
      assert (a + b)[1..] == a[1..] + b;
      assert Dotted(a + b) == (a[0] + [DOT]) + (Dotted(a[1..]) + Dotted(b));
    }
  }

  /** An encoding is as long as the dotted text of its labels: with its zero byte, one byte more
      than the text ended by a dot. */
  lemma {:induction false} EncodedLength(labels: seq<Label>)
    ensures |Encode(labels)| == |Dotted(labels)|
  {
    if labels != [] {
      EncodedLength(labels[1..]);
    }
  }

  /** mdns_string_extract and mdns_string_skip after mdns_string_make: the text comes back ended
      by a dot, and both stop right after the zero byte. */
  lemma MadeTextReadsBack(b: seq<byte>, at: nat, name: seq<byte>)
    requires Plain(Split(name)) && Holds(b, at, Encode(Split(name)) + [0])
    ensures var end := at + |EndedByDot(name, 0)| + 1;
      && Decode(b, at, |Split(name)| + 1) == Name(Split(name), end)
      && Dotted(Split(name)) == EndedByDot(name, 0)
      && SkipFrom(b, at) == SkippedTo(end)
  {
    MadeNameDecodes(b, at, Split(name));
    DottedSplit(name, 0);
    EncodedLength(Split(name));
    SkipEndsWhereTheNameEnds(b, at, |Split(name)| + 1);
  }

  /** The same after mdns_string_make_with_ref: the text is followed by the referenced name, and
      both stop right after the pointer. */
  lemma MadeTextWithRefReadsBack(b: seq<byte>, at: nat, name: seq<byte>, target: nat, steps: nat)
    requires Plain(Split(name)) && Holds(b, at, Encode(Split(name)) + Pointer(target))
    requires target < 0x4000 && target < |b| && !IsRef(b[target])
    requires Decode(b, target, steps).Name?
    ensures var read := Decode(b, at, |Split(name)| + steps);
      && read == Name(Split(name) + Decode(b, target, steps).labels, at + |EndedByDot(name, 0)| + 2)
      && Dotted(read.labels) == EndedByDot(name, 0) + Dotted(Decode(b, target, steps).labels)
      && SkipFrom(b, at) == SkippedTo(read.end)
  {
    hide Decode, SkipFrom, Encode, Dotted, Pointer, EndedByDot, Plain;
    NameWithRefDecodes(b, at, Split(name), target, steps);
    DottedSplit(name, 0);
    EncodedLength(Split(name));
    DottedConcat(Split(name), Decode(b, target, steps).labels);
    SkipEndsWhereTheNameEnds(b, at, |Split(name)| + steps);
  }
}
