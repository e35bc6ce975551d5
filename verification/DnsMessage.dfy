/** Reading the resource records of a DNS message: mdns_records_parse and the parsing half of
    mdns_query_recv in include/util/mdns.h. A message arrives as the bytes of one datagram. */
module DnsMessage {

  import opened DnsName

  function Be32(b: seq<byte>, i: nat): (v: nat)
    requires i + 4 <= |b|
    ensures v < 0x1_0000_0000
  {
    Be16(b, i) * 0x1_0000 + Be16(b, i + 2)
  }

  /** What a record callback is told: where the name is, the fixed fields, where the data is. */
  datatype Record = Record(rtype: nat, rclass: nat, ttl: nat, nameOffset: nat, nameLength: nat,
                           offset: nat, length: nat)

  datatype Parsed = Parsed(record: Record, next: nat) | ReadsOutside

  /** The record at an offset. A name that cannot be skipped counts as empty. Where the name or
      the ten fixed bytes are not inside the message, what the code reads is unknown. */
  function RecordAt(b: seq<byte>, offset: nat): Parsed {
    var skipped := SkipFrom(b, offset);
    if skipped.SkipsOutside? then ReadsOutside
    else
      var at := if skipped.SkippedTo? then skipped.end else offset;
      if |b| < at + 10 then ReadsOutside
      else
        var length := Be16(b, at + 8);
        Parsed(Record(Be16(b, at), Be16(b, at + 2), Be32(b, at + 4), offset, at - offset, at + 10, length),
               at + 10 + length)
  }

  /** The fields of a record, most significant byte first: type and class, four bytes of lifetime, and
      the length of the data behind them. */
  lemma RecordFields(b: seq<byte>, offset: nat)
    requires RecordAt(b, offset).Parsed?
    ensures var r, next := RecordAt(b, offset).record, RecordAt(b, offset).next;
      var at := r.nameOffset + r.nameLength;
      && r.nameOffset == offset && at + 10 <= |b|
      && (SkipFrom(b, offset) == SkippedTo(at) || (SkipFrom(b, offset).NotAName? && at == offset))
      && r.rtype == b[at] as int * 256 + b[at + 1] && r.rclass == b[at + 2] as int * 256 + b[at + 3]
      && r.ttl == b[at + 4] as int * 16777216 + b[at + 5] as int * 65536 + b[at + 6] as int * 256 + b[at + 7]
      && r.offset == at + 10 && r.length == b[at + 8] as int * 256 + b[at + 9] && next == r.offset + r.length
  {
    hide SkipFrom;
  }

  /** The offsets looked at to parse the record at `offset`: its name and its fixed fields. */
  function RecordReads(b: seq<byte>, offset: nat): set<nat> {
    SkipReads(b, offset) +
    match SkipFrom(b, offset)
    case SkipsOutside => {}
    case NotAName => Stretch(offset, offset + 10)
    case SkippedTo(at) => Stretch(at, at + 10)
  }

  /** Every byte read lies inside the message exactly when the name can be skipped, or refused,
      inside it and ten more bytes are left behind the name; the data itself may be missing. */
  lemma RecordReadsInside(b: seq<byte>, offset: nat)
    ensures RecordAt(b, offset).Parsed? <==> Inside(b, RecordReads(b, offset))
  {
    hide SkipFrom, SkipReads, Stretch;
    SkipReadsInside(b, offset);
    var skipped := SkipFrom(b, offset);
    if !skipped.SkipsOutside? {
      var at := if skipped.SkippedTo? then skipped.end else offset;
      InsideTogether(b, SkipReads(b, offset), Stretch(at, at + 10));
      assert at + 9 in Stretch(at, at + 10);
    }
  }

  /** The records up to the first that is not inside the message. */
  datatype Listing = Listing(records: seq<Record>, end: nat) | Overrun(records: seq<Record>)

  function ReadRecords(b: seq<byte>, offset: nat, count: nat): Listing
    decreases count
  {
    if count == 0 then Listing([], offset)
    else
      match RecordAt(b, offset)
      case ReadsOutside => Overrun([])
      case Parsed(record, next) => After([record], ReadRecords(b, next, count - 1))
  }

  function After(first: seq<Record>, rest: Listing): Listing {
    rest.(records := first + rest.records)
  }

  /** A callback that returns non-zero is not called again for the same section. */
  datatype Callback = NoCallback | Callback(stops: Record -> bool)

  function Heard(records: seq<Record>, callback: Callback): seq<Record> {
    if records == [] || callback.NoCallback? then []
    else if callback.stops(records[0]) then [records[0]]
    else [records[0]] + Heard(records[1..], callback)
  }

  ghost predicate Stopped(records: seq<Record>, callback: Callback) {
    callback.NoCallback? || exists i :: 0 <= i < |records| && callback.stops(records[i])
  }

  lemma {:induction false} HeardAppend(records: seq<Record>, record: Record, callback: Callback)
    ensures Heard(records + [record], callback) ==
      Heard(records, callback) + if Stopped(records, callback) then [] else [record]
  {
    if records == [] {
      assert ([] + [record])[1..] == [];
    } else {
      HeardAppend(records[1..], record, callback);
      assert (records + [record])[1..] == records[1..] + [record];
      if callback.Callback? && Stopped(records, callback) && !callback.stops(records[0]) {
        var i :| 0 <= i < |records| && callback.stops(records[i]);
        assert records[1..][i - 1] == records[i];
      }
    }
  }

  lemma ReadOneMore(b: seq<byte>, whole: Listing, done: seq<Record>, offset: nat, count: nat)
    requires count > 0 && whole == After(done, ReadRecords(b, offset, count))
    ensures match RecordAt(b, offset)
      case ReadsOutside => whole == Overrun(done)
      case Parsed(record, next) => whole == After(done + [record], ReadRecords(b, next, count - 1))
  {
    match RecordAt(b, offset)
    case ReadsOutside => assert done + [] == done;
    case Parsed(record, next) =>
      var rest := ReadRecords(b, next, count - 1);
      assert done + ([record] + rest.records) == done + [record] + rest.records;
  }

  lemma StoppedAppend(records: seq<Record>, record: Record, callback: Callback)
    ensures Stopped(records + [record], callback) <==>
      callback.NoCallback? || Stopped(records, callback) || callback.stops(record)
  {
    var all := records + [record];
    assert all[|records|] == record;
    assert forall i :: 0 <= i < |records| ==> all[i] == records[i];
  }

  /** Walks `count` records, telling the callback of each until it asks to stop; followed as far
      as it stays inside the message. */
  method RecordsParse(b: seq<byte>, offset: nat, count: nat, callback: Callback)
    returns (inside: bool, parsed: nat, newOffset: nat, heard: seq<Record>)
    ensures inside <==> ReadRecords(b, offset, count).Listing?
    ensures inside ==> newOffset == ReadRecords(b, offset, count).end
    ensures heard == Heard(ReadRecords(b, offset, count).records, callback) && parsed == |heard|
  {
    hide ReadRecords, RecordAt, Heard, SkipFrom, Stopped;
    ghost var whole := ReadRecords(b, offset, count);
    ghost var done: seq<Record> := [];
    newOffset := offset;
    parsed := 0;
    heard := [];
    var doCallback := callback.Callback?;
    NothingRead(b, offset, whole, callback);
    for i := 0 to count
      invariant whole == After(done, ReadRecords(b, newOffset, count - i))
      invariant heard == Heard(done, callback) && parsed == |heard|
      invariant doCallback <==> !Stopped(done, callback)
      invariant doCallback ==> callback.Callback?
    {
      ReadOneMore(b, whole, done, newOffset, count - i);
      var step := ReadRecord(b, newOffset);
      if step.ReadsOutside? {
        return false, parsed, newOffset, heard;
      }
      HeardAppend(done, step.record, callback);
      StoppedAppend(done, step.record, callback);
      if doCallback {
        parsed := parsed + 1;
        heard := heard + [step.record];
        if callback.stops(step.record) {
          doCallback := false;
        }
      }
      newOffset := step.next;
      done := done + [step.record];
    }
    AllRead(b, newOffset);
    assert done + [] == done;
    inside := true;
  }

  lemma NothingRead(b: seq<byte>, offset: nat, whole: Listing, callback: Callback)
    ensures whole == After([], whole) && Heard([], callback) == []
    ensures Stopped([], callback) <==> callback.NoCallback?
  {
    assert [] + whole.records == whole.records;
  }

  lemma AllRead(b: seq<byte>, offset: nat)
    ensures ReadRecords(b, offset, 0) == Listing([], offset)
  {
  }

  /** The body of the record loop, without the callback. */
  method ReadRecord(b: seq<byte>, offset: nat) returns (step: Parsed)
    ensures step == RecordAt(b, offset)
  {
    var skipped, at := Skip(b, offset);
    if skipped.SkipsOutside? || |b| < at + 10 {
      return ReadsOutside;
    }
    var length := Be16(b, at + 8);
    var record := Record(Be16(b, at), Be16(b, at + 2), Be32(b, at + 4), offset, at - offset, at + 10, length);
    step := Parsed(record, at + 10 + length);
  }

  // ---------------------------------------------------------------- a whole message

  datatype Opening = RecordsFrom(offset: nat) | Ignored | Truncated

  /** Where the records of a message start. Messages for another query, with more than one
      question, or with a question whose name cannot be skipped, are ignored; a truncated one is
      read behind its end before that is known. */
  function Open(b: seq<byte>, onlyQueryId: int): Opening {
    if |b| == 0 then Ignored
    else if |b| < 12 then Truncated
    else if onlyQueryId > 0 && Be16(b, 0) != onlyQueryId then Ignored
    else if Be16(b, 4) > 1 then Ignored
    else if Be16(b, 4) == 0 then RecordsFrom(12)
    else
      match SkipFrom(b, 12)
      case NotAName => Ignored
      case SkipsOutside => Truncated
      case SkippedTo(end) => if |b| < end + 4 then Truncated else RecordsFrom(end + 4)
  }

  datatype Sections = Sections(answers: Listing, authorities: Listing, additionals: Listing)

  function ReadSections(b: seq<byte>, start: nat): Sections
    requires 12 <= |b|
  {
    var answers := ReadRecords(b, start, Be16(b, 6));
    var authorities := NextSection(b, answers, Be16(b, 8));
    Sections(answers, authorities, NextSection(b, authorities, Be16(b, 10)))
  }

  /** The next section starts where the last one ended, if that was inside the message. */
  function NextSection(b: seq<byte>, last: Listing, count: nat): Listing {
    if last.Overrun? then Overrun([]) else ReadRecords(b, last.end, count)
  }

  /** The header says how many records each section has; each starts where the last one ended. */
  lemma SectionsAreCounted(b: seq<byte>, start: nat)
    requires 12 <= |b|
    ensures var s := ReadSections(b, start);
      && s.answers == ReadRecords(b, start, b[6] as int * 256 + b[7])
      && (s.answers.Listing? ==> s.authorities == ReadRecords(b, s.answers.end, b[8] as int * 256 + b[9]))
      && (s.answers.Overrun? ==> s.authorities == Overrun([]))
      && (s.authorities.Listing? ==> s.additionals == ReadRecords(b, s.authorities.end, b[10] as int * 256 + b[11]))
      && (s.authorities.Overrun? ==> s.additionals == Overrun([]))
  {
    hide ReadRecords;
  }

  /** Which messages are read: of the number asked for, if any, with no question, or with one whose name
      is skipped and which is inside the message. */
  lemma OpensWhen(b: seq<byte>, onlyQueryId: int)
    ensures Open(b, onlyQueryId).RecordsFrom? <==>
      && |b| >= 12 && (onlyQueryId > 0 ==> b[0] as int * 256 + b[1] == onlyQueryId)
      && (b[4] == b[5] == 0 || (b[4] == 0 && b[5] == 1 && SkipFrom(b, 12).SkippedTo? && SkipFrom(b, 12).end + 4 <= |b|))
    ensures Open(b, onlyQueryId).RecordsFrom? ==>
      Open(b, onlyQueryId).offset == if b[5] == 0 then 12 else SkipFrom(b, 12).end + 4
    ensures Open(b, onlyQueryId).Truncated? <==>
      || 1 <= |b| < 12
      || (&& |b| >= 12 && (onlyQueryId > 0 ==> b[0] as int * 256 + b[1] == onlyQueryId) && b[4] == 0 && b[5] == 1
          && (SkipFrom(b, 12).SkipsOutside? || (SkipFrom(b, 12).SkippedTo? && SkipFrom(b, 12).end + 4 > |b|)))
  {
    hide SkipFrom;
  }

  ghost predicate Readable(b: seq<byte>, onlyQueryId: int) {
    match Open(b, onlyQueryId)
    case Ignored => true
    case Truncated => false
    case RecordsFrom(start) => ReadSections(b, start).additionals.Listing?
  }

  /** Tells the callback of the records, section by section, as far as they are inside the message. */
  method QueryRecv(b: seq<byte>, onlyQueryId: int, callback: Callback)
    returns (inside: bool, records: nat, heard: seq<Record>)
    ensures inside <==> Readable(b, onlyQueryId)
    ensures Open(b, onlyQueryId).Ignored? ==> inside
    ensures Open(b, onlyQueryId).Truncated? ==> !inside
    ensures !Open(b, onlyQueryId).RecordsFrom? ==> heard == []
    ensures Open(b, onlyQueryId).RecordsFrom? ==>
      var read := ReadSections(b, Open(b, onlyQueryId).offset);
      heard == Heard(read.answers.records, callback) + Heard(read.authorities.records, callback)
             + Heard(read.additionals.records, callback)
    ensures records == |heard|
  {
    hide SkipFrom, ReadRecords, Heard;
    if |b| == 0 {
      return true, 0, [];
    }
    if |b| < 12 {
      return false, 0, [];
    }
    var queryId, questions := Be16(b, 0), Be16(b, 4);
    if onlyQueryId > 0 && queryId != onlyQueryId {
      return true, 0, [];
    }
    if questions > 1 {
      return true, 0, [];
    }
    var offset := 12;
    if questions == 1 {
      var skipped, end := Skip(b, offset);
      if skipped.NotAName? {
        return true, 0, [];
      }
      if skipped.SkipsOutside? || |b| < end + 4 {
        return false, 0, [];
      }
      offset := end + 4;
    }
    NothingHeard(callback);
    var parsed, seen;
    inside, records, offset, heard := RecordsParse(b, offset, Be16(b, 6), callback);
    if !inside {
      return;
    }
    inside, parsed, offset, seen := RecordsParse(b, offset, Be16(b, 8), callback);
    records, heard := records + parsed, heard + seen;
    if !inside {
      return;
    }
    inside, parsed, offset, seen := RecordsParse(b, offset, Be16(b, 10), callback);
    records, heard := records + parsed, heard + seen;
  }

  lemma NothingHeard(callback: Callback)
    ensures Heard([], callback) == []
  {
  }

  /** Counts in the header that the message does not bear out: a message that is a header alone
      and announces one record is read behind its end. */
  lemma HeaderAloneIsReadPast(b: seq<byte>)
    requires |b| == 12 && Be16(b, 4) == 0 && Be16(b, 6) == 1
    ensures !Readable(b, 0) && 12 in RecordReads(b, 12)
  {
    assert SkipFrom(b, 12).SkipsOutside? && SkipReads(b, 12) == {12};
    assert ReadRecords(b, 12, 1) == Overrun([]);
  }
}
