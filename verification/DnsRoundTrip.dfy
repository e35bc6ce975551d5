/** What the record reader sees in the packet the answer writer sends: the records in order, the
    names they carry, and the end of the packet. */
module DnsRoundTrip {

  import opened DnsName
  import opened DnsEncoding
  import opened DnsMessage
  import opened DnsAnswer

  /** Some number of steps reads `labels` at an offset and ends at `end`. */
  ghost predicate Names(b: seq<byte>, offset: nat, labels: seq<Label>, end: nat) {
    exists steps: nat :: Decode(b, offset, steps) == Name(labels, end)
  }

  function Service(q: Answer): seq<Label> { Split(q.service) }
  function Host(q: Answer): seq<Label> { Split(q.hostname) }

  /** The last label of the service name, which must be five bytes long ("local") for the offset
      computed from the end of the name to be the offset of that label. */
  function Domain(q: Answer): Label
    requires Service(q) != []
  {
    Service(q)[|Service(q)| - 1]
  }

  /** Labels that read back, a service name in the local domain, and every target of a pointer
      within its fourteen bits. */
  ghost predicate Sendable(q: Answer) {
    && q.Valid()
    && Plain(Service(q)) && Plain(Host(q))
    && Service(q) != [] && Host(q) != []
    && |Domain(q)| == 5
    && HostOffset(q) < 0x4000
  }

  // ---------------------------------------------------------------- names

  lemma NamesSkip(b: seq<byte>, offset: nat, labels: seq<Label>, end: nat)
    requires Names(b, offset, labels, end)
    ensures SkipFrom(b, offset) == SkippedTo(end)
  {
    var steps: nat :| Decode(b, offset, steps) == Name(labels, end);
    SkipEndsWhereTheNameEnds(b, offset, steps);
  }

  lemma MadeNames(b: seq<byte>, at: nat, labels: seq<Label>)
    requires Plain(labels) && Holds(b, at, Encode(labels) + [0])
    ensures Names(b, at, labels, at + |Encode(labels)| + 1)
  {
    MadeNameDecodes(b, at, labels);
  }

  lemma PointerNames(b: seq<byte>, at: nat, target: nat, labels: seq<Label>, end: nat)
    requires Holds(b, at, Pointer(target)) && target < 0x4000
    requires target < |b| && !IsRef(b[target]) && Names(b, target, labels, end)
    ensures Names(b, at, labels, at + 2)
  {
    hide Decode, Pointer;
    var steps: nat :| Decode(b, target, steps) == Name(labels, end);
    PointerDecodes(b, at, target, steps);
  }

  lemma WithRefNames(b: seq<byte>, at: nat, labels: seq<Label>, target: nat, more: seq<Label>, end: nat)
    requires Plain(labels) && Holds(b, at, Encode(labels) + Pointer(target)) && target < 0x4000
    requires target < |b| && !IsRef(b[target]) && Names(b, target, more, end)
    ensures Names(b, at, labels + more, at + |Encode(labels)| + 2)
  {
    hide Decode, Pointer;
    var steps: nat :| Decode(b, target, steps) == Name(more, end);
    NameWithRefDecodes(b, at, labels, target, steps);
  }

  /** An encoded name starts with a length byte, not with a pointer. */
  lemma StartsPlain(b: seq<byte>, at: nat, labels: seq<Label>, rest: seq<byte>)
    requires labels != [] && Plain(labels) && Holds(b, at, Encode(labels) + rest)
    ensures at < |b| && !IsRef(b[at])
  {
    hide Prefixed, NextSubstring;
    HoldsParts(b, at, Encode(labels), rest);
    HoldsParts(b, at, Prefixed(labels[0]), Encode(labels[1..]));
    FirstByte(b, at, labels[0]);
  }

  lemma FirstByte(b: seq<byte>, at: nat, part: Label)
    requires Holds(b, at, Prefixed(part)) && |part| < 0xC0
    ensures at < |b| && !IsRef(b[at])
  {
    assert b[at] == b[at..at + |part| + 1][0] == |part|;
  }

  // ---------------------------------------------------------------- fixed fields

  lemma Bytes16Read(b: seq<byte>, at: nat, v: nat)
    requires Holds(b, at, Bytes16(v)) && v < 0x1_0000
    ensures at + 2 <= |b| && Be16(b, at) == v
  {
    assert b[at] == b[at..at + 2][0] && b[at + 1] == b[at..at + 2][1];
  }

  lemma HeadRead(b: seq<byte>, at: nat, q: Answer, rtype: uint16, length: nat)
    requires Holds(b, at, Head(q, rtype, length)) && length < 0x1_0000
    ensures at + 10 <= |b| && Be16(b, at) == rtype && Be16(b, at + 2) == q.Class()
    ensures Be32(b, at + 4) == q.Ttl() && Be16(b, at + 8) == length
  {
    hide Be16, Bytes16;
    var t, c, h, l := Bytes16(rtype), Bytes16(q.Class()), Bytes32(q.Ttl()), Bytes16(length);
    HoldsParts(b, at, t + c + h, l);
    HoldsParts(b, at, t + c, h);
    HoldsParts(b, at, t, c);
    HoldsParts(b, at + 4, Bytes16(q.Ttl() / 0x1_0000), Bytes16(q.Ttl() % 0x1_0000));
    Bytes16Read(b, at, rtype);
    Bytes16Read(b, at + 2, q.Class());
    Bytes16Read(b, at + 4, q.Ttl() / 0x1_0000);
    Bytes16Read(b, at + 6, q.Ttl() % 0x1_0000);
    Bytes16Read(b, at + 8, length);
  }

  function RecordWith(q: Answer, rtype: uint16, nameOffset: nat, nameLength: nat, length: nat): Record {
    Record(rtype, q.Class(), q.Ttl(), nameOffset, nameLength, nameOffset + nameLength + 10, length)
  }

  /** A name, the fixed fields and the data of the stated length read as that record. */
  lemma RecordRead(b: seq<byte>, offset: nat, at: nat, q: Answer, rtype: uint16, length: nat)
    requires SkipFrom(b, offset) == SkippedTo(at) && at > offset
    requires Holds(b, at, Head(q, rtype, length)) && length < 0x1_0000
    ensures RecordAt(b, offset) == Parsed(RecordWith(q, rtype, offset, at - offset, length), at + 10 + length)
  {
    hide Head, SkipFrom, Be16, Be32;
    HeadRead(b, at, q, rtype, length);
  }

  // ---------------------------------------------------------------- where the pieces are

  lemma HoldsAll(b: seq<byte>)
    ensures Holds(b, 0, b)
  {
  }

  lemma Pieces(q: Answer)
    requires q.Valid()
    ensures var b := Packet(q);
      && Holds(b, 0, Header(q)) && Holds(b, 12, Question(q)) && Holds(b, 12 + |Question(q)|, PtrRecord(q))
      && Holds(b, SrvOffset(q), SrvRecord(q))
      && Holds(b, |Required(q)|, Ipv4Record(q))
      && Holds(b, |Required(q) + Ipv4Record(q)|, Ipv6Record(q))
      && Holds(b, |Required(q) + Ipv4Record(q) + Ipv6Record(q)|, TxtRecord(q))
  {
    hide Header, Question, PtrRecord, SrvRecord, Ipv4Record, Ipv6Record, TxtRecord, Holds, SrvOffset;
    var b := Packet(q);
    Sizes(q);
    HoldsAll(b);
    HoldsParts(b, 0, Required(q) + Ipv4Record(q) + Ipv6Record(q), TxtRecord(q));
    HoldsParts(b, 0, Required(q) + Ipv4Record(q), Ipv6Record(q));
    HoldsParts(b, 0, Required(q), Ipv4Record(q));
    HoldsParts(b, 0, Header(q) + Question(q) + PtrRecord(q), SrvRecord(q));
    HoldsParts(b, 0, Header(q) + Question(q), PtrRecord(q));
    HoldsParts(b, 0, Header(q), Question(q));
  }

  lemma PtrPieces(q: Answer)
    requires q.Valid()
    ensures var b := Packet(q);
      && Holds(b, 12, ServiceCode(q) + [0])
      && Holds(b, 12 + |Question(q)|, PtrName(q))
      && Holds(b, 12 + |Question(q)| + |PtrName(q)|, Head(q, PTR, |HostCode(q)| + 2))
      && Holds(b, FullOffset(q), HostCode(q) + Pointer(12))
  {
    hide Header, SrvRecord, Holds, Head, Packet, Bytes16, Pointer, Split, Encode;
    var b, at := Packet(q), 12 + |Question(q)|;
    Pieces(q);
    HoldsParts(b, at, PtrName(q) + Head(q, PTR, |HostCode(q)| + 2), HostCode(q) + Pointer(12));
    HoldsParts(b, at, PtrName(q), Head(q, PTR, |HostCode(q)| + 2));
    if q.unicast {
      HoldsParts(b, 12, ServiceCode(q) + [0] + Bytes16(PTR), Bytes16(q.Class()));
      HoldsParts(b, 12, ServiceCode(q) + [0], Bytes16(PTR));
    }
  }

  lemma SrvPieces(q: Answer)
    requires q.Valid()
    ensures var b := Packet(q);
      && Holds(b, SrvOffset(q), Pointer(FullOffset(q)))
      && Holds(b, SrvOffset(q) + 2, Head(q, SRV, 6 + |HostCode(q)| + 2))
      && Holds(b, SrvOffset(q) + 12, Bytes16(0) + Bytes16(0) + Bytes16(q.port))
      && Holds(b, HostOffset(q), HostCode(q) + Pointer(LocalOffset(q)))
  {
    hide Header, Question, PtrRecord, Holds, Head, Packet, Bytes16, Pointer, Split, Encode, FullOffset, LocalOffset;
    var b, at := Packet(q), SrvOffset(q);
    Pieces(q);
    PointerLength(FullOffset(q));
    HoldsParts(b, at, Pointer(FullOffset(q)) + Head(q, SRV, 6 + |HostCode(q)| + 2), SrvData(q));
    HoldsParts(b, at, Pointer(FullOffset(q)), Head(q, SRV, 6 + |HostCode(q)| + 2));
    HoldsParts(b, at + 12, Bytes16(0) + Bytes16(0) + Bytes16(q.port), HostCode(q) + Pointer(LocalOffset(q)));
  }

  // ---------------------------------------------------------------- the names in the packet

  lemma ServiceName(q: Answer)
    requires Sendable(q)
    ensures var b := Packet(q);
      && !IsRef(b[12])
      && Names(b, 12, Service(q), 12 + |ServiceCode(q)| + 1)
      && Names(b, 12 + |Question(q)|, Service(q), 12 + |Question(q)| + |PtrName(q)|)
  {
    hide Packet, Names, Decode, Pointer, Encode, Split, Header, Holds;
    var b := Packet(q);
    PtrPieces(q);
    StartsPlain(b, 12, Service(q), [0]);
    MadeNames(b, 12, Service(q));
    PointerLength(12);
    if q.unicast {
      PointerNames(b, 12 + |Question(q)|, 12, Service(q), 12 + |ServiceCode(q)| + 1);
    }
  }

  lemma FullName(q: Answer)
    requires Sendable(q)
    ensures var b := Packet(q);
      && FullOffset(q) < |b| && !IsRef(b[FullOffset(q)])
      && Names(b, FullOffset(q), Host(q) + Service(q), SrvOffset(q))
  {
    hide Packet, Names, Decode, Pointer, Encode, Split, Header, Holds, Question, PtrName;
    var b := Packet(q);
    PtrPieces(q);
    ServiceName(q);
    StartsPlain(b, FullOffset(q), Host(q), Pointer(12));
    WithRefNames(b, FullOffset(q), Host(q), 12, Service(q), 12 + |ServiceCode(q)| + 1);
  }

  /** Seven bytes before the end of the service name is its last label. */
  lemma LocalName(q: Answer)
    requires Sendable(q)
    ensures var b := Packet(q);
      && LocalOffset(q) < |b| && !IsRef(b[LocalOffset(q)])
      && Names(b, LocalOffset(q), [Domain(q)], LocalOffset(q) + 7)
  {
    hide Packet, Names, Decode, Pointer, Split, Header, Holds, Question, PtrName;
    var b, front := Packet(q), Service(q)[..|Service(q)| - 1];
    assert Service(q) == front + [Domain(q)];
    EncodeAppend(front, Domain(q));
    EncodeAppend([], Domain(q));
    assert [] + [Domain(q)] == [Domain(q)] && [] + Prefixed(Domain(q)) == Prefixed(Domain(q));
    PtrPieces(q);
    assert ServiceCode(q) + [0] == Encode(front) + (Encode([Domain(q)]) + [0]);
    HoldsParts(b, 12, Encode(front), Encode([Domain(q)]) + [0]);
    MadeNames(b, LocalOffset(q), [Domain(q)]);
    StartsPlain(b, LocalOffset(q), [Domain(q)], [0]);
  }

  lemma HostName(q: Answer)
    requires Sendable(q)
    ensures var b := Packet(q);
      && HostOffset(q) < |b| && !IsRef(b[HostOffset(q)])
      && Names(b, HostOffset(q), Host(q) + [Domain(q)], HostOffset(q) + |HostCode(q)| + 2)
  {
    hide Packet, Names, Decode, Pointer, Encode, Split, Header, Holds, Question, PtrName;
    var b := Packet(q);
    SrvPieces(q);
    LocalName(q);
    LocalBeforeHost(q);
    StartsPlain(b, HostOffset(q), Host(q), Pointer(LocalOffset(q)));
    WithRefNames(b, HostOffset(q), Host(q), LocalOffset(q), [Domain(q)], LocalOffset(q) + 7);
  }

  lemma LocalBeforeHost(q: Answer)
    ensures LocalOffset(q) < HostOffset(q) && FullOffset(q) < HostOffset(q)
  {
    PointerLength(12);
  }

  // ---------------------------------------------------------------- the records in the packet

  function PtrSeen(q: Answer): Record {
    RecordWith(q, PTR, 12 + |Question(q)|, |PtrName(q)|, |HostCode(q)| + 2)
  }

  function SrvSeen(q: Answer): Record {
    RecordWith(q, SRV, SrvOffset(q), 2, 6 + |HostCode(q)| + 2)
  }

  function Ipv4Seen(q: Answer): Record
    requires q.Valid()
  {
    RecordWith(q, A, |Required(q)|, 2, 4)
  }

  function Ipv6Seen(q: Answer): Record
    requires q.Valid()
  {
    RecordWith(q, AAAA, |Required(q) + Ipv4Record(q)|, 2, 16)
  }

  function TxtSeen(q: Answer): Record
    requires q.Valid()
  {
    RecordWith(q, TXT, |Required(q) + Ipv4Record(q) + Ipv6Record(q)|, 2, |q.txt| + 1)
  }

  function Optional(present: bool, record: Record): seq<Record> {
    if present then [record] else []
  }

  /** The additional records, in the order they are written. */
  function AdditionalsSeen(q: Answer): seq<Record>
    requires q.Valid()
  {
    [SrvSeen(q)] + Optional(q.UseIpv4(), Ipv4Seen(q)) + Optional(q.UseIpv6(), Ipv6Seen(q))
    + Optional(q.UseTxt(), TxtSeen(q))
  }

  lemma PtrReads(q: Answer)
    requires Sendable(q)
    ensures RecordAt(Packet(q), 12 + |Question(q)|) == Parsed(PtrSeen(q), SrvOffset(q))
  {
    hide Packet, Names, Pointer, Encode, Split, Header, Holds, Head, RecordAt, Question;
    var b, at := Packet(q), 12 + |Question(q)|;
    PtrPieces(q);
    ServiceName(q);
    NamesSkip(b, at, Service(q), at + |PtrName(q)|);
    PointerLength(12);
    RecordRead(b, at, at + |PtrName(q)|, q, PTR, |HostCode(q)| + 2);
  }

  lemma SrvReads(q: Answer)
    requires Sendable(q)
    ensures RecordAt(Packet(q), SrvOffset(q)) == Parsed(SrvSeen(q), |Required(q)|)
    ensures Names(Packet(q), SrvOffset(q), Host(q) + Service(q), SrvOffset(q) + 2)
  {
    hide Packet, Names, Pointer, Encode, Split, Header, Holds, Head, RecordAt, Question, FullOffset;
    var b, at := Packet(q), SrvOffset(q);
    SrvPieces(q);
    FullName(q);
    LocalBeforeHost(q);
    PointerNames(b, at, FullOffset(q), Host(q) + Service(q), SrvOffset(q));
    NamesSkip(b, at, Host(q) + Service(q), at + 2);
    RecordRead(b, at, at + 2, q, SRV, 6 + |HostCode(q)| + 2);
    Sizes(q);
  }

  /** A record whose name is a pointer. */
  lemma ExtraReads(q: Answer, b: seq<byte>, at: nat, target: nat, labels: seq<Label>, end: nat,
                   rtype: uint16, data: seq<byte>)
    requires Holds(b, at, Pointer(target) + Head(q, rtype, |data|) + data) && |data| < 0x1_0000
    requires target < 0x4000 && target < |b| && !IsRef(b[target]) && Names(b, target, labels, end)
    ensures RecordAt(b, at) == Parsed(RecordWith(q, rtype, at, 2, |data|), at + 12 + |data|)
    ensures Names(b, at, labels, at + 2)
    ensures Holds(b, at + 12, data)
  {
    hide Names, Pointer, Holds, Head, RecordAt;
    PointerLength(target);
    HoldsParts(b, at, Pointer(target) + Head(q, rtype, |data|), data);
    HoldsParts(b, at, Pointer(target), Head(q, rtype, |data|));
    PointerNames(b, at, target, labels, end);
    NamesSkip(b, at, labels, at + 2);
    RecordRead(b, at, at + 2, q, rtype, |data|);
  }

  lemma Ipv4Reads(q: Answer)
    requires Sendable(q) && q.UseIpv4()
    ensures var at := |Required(q)|;
      && RecordAt(Packet(q), at) == Parsed(Ipv4Seen(q), |Required(q) + Ipv4Record(q)|)
      && Names(Packet(q), at, Host(q) + [Domain(q)], at + 2) && Holds(Packet(q), at + 12, q.ipv4)
  {
    hide Packet, Names, Pointer, Holds, Head, RecordAt, HostOffset;
    Pieces(q);
    HostName(q);
    PointerLength(HostOffset(q));
    ExtraReads(q, Packet(q), |Required(q)|, HostOffset(q), Host(q) + [Domain(q)],
               HostOffset(q) + |HostCode(q)| + 2, A, q.ipv4);
  }

  lemma Ipv6Reads(q: Answer)
    requires Sendable(q) && q.UseIpv6()
    ensures var at := |Required(q) + Ipv4Record(q)|;
      && RecordAt(Packet(q), at) == Parsed(Ipv6Seen(q), |Required(q) + Ipv4Record(q) + Ipv6Record(q)|)
      && Names(Packet(q), at, Host(q) + [Domain(q)], at + 2) && Holds(Packet(q), at + 12, q.ipv6)
  {
    hide Packet, Names, Pointer, Holds, Head, RecordAt, HostOffset;
    Pieces(q);
    HostName(q);
    PointerLength(HostOffset(q));
    ExtraReads(q, Packet(q), |Required(q) + Ipv4Record(q)|, HostOffset(q), Host(q) + [Domain(q)],
               HostOffset(q) + |HostCode(q)| + 2, AAAA, q.ipv6);
  }

  lemma TxtPiece(q: Answer)
    requires q.Valid() && q.UseTxt()
    ensures var at, data := |Required(q) + Ipv4Record(q) + Ipv6Record(q)|, [|q.txt| as byte] + q.txt;
      && Holds(Packet(q), at, Pointer(FullOffset(q)) + Head(q, TXT, |data|) + data)
      && at + 12 + |data| == |Packet(q)|
  {
    hide Pointer, Holds, Head, FullOffset, HostOffset, Required, Ipv4Record, Ipv6Record;
    Pieces(q);
    PointerLength(FullOffset(q));
  }

  lemma TxtReads(q: Answer)
    requires Sendable(q) && q.UseTxt()
    ensures var at := |Required(q) + Ipv4Record(q) + Ipv6Record(q)|;
      && RecordAt(Packet(q), at) == Parsed(TxtSeen(q), |Packet(q)|)
      && Names(Packet(q), at, Host(q) + Service(q), at + 2)
      && Holds(Packet(q), at + 12, [|q.txt| as byte] + q.txt)
  {
    hide Packet, Names, Pointer, Holds, Head, RecordAt, FullOffset, HostOffset, Required, Ipv4Record, Ipv6Record;
    TxtPiece(q);
    FullName(q);
    LocalBeforeHost(q);
    ExtraReads(q, Packet(q), |Required(q) + Ipv4Record(q) + Ipv6Record(q)|, FullOffset(q), Host(q) + Service(q),
               SrvOffset(q), TXT, [|q.txt| as byte] + q.txt);
  }

  // ---------------------------------------------------------------- the whole packet

  lemma HeaderReads(q: Answer)
    requires q.Valid()
    ensures var b := Packet(q);
      && |b| >= 12
      && Be16(b, 0) == (if q.unicast then q.queryId else 0)
      && Be16(b, 4) == (if q.unicast then 1 else 0)
      && Be16(b, 6) == 1 && Be16(b, 8) == 0 && Be16(b, 10) == q.Extras()
  {
    hide Packet, Bytes16, Be16, Holds;
    var b := Packet(q);
    Pieces(q);
    var id, flags := Bytes16(if q.unicast then q.queryId else 0), Bytes16(0x8400);
    var questions, one := Bytes16(if q.unicast then 1 else 0), Bytes16(1);
    var none, extras := Bytes16(0), Bytes16(q.Extras());
    HoldsParts(b, 0, id + flags + questions + one + none, extras);
    HoldsParts(b, 0, id + flags + questions + one, none);
    HoldsParts(b, 0, id + flags + questions, one);
    HoldsParts(b, 0, id + flags, questions);
    HoldsParts(b, 0, id, flags);
    Bytes16Read(b, 0, if q.unicast then q.queryId else 0);
    Bytes16Read(b, 4, if q.unicast then 1 else 0);
    Bytes16Read(b, 6, 1);
    Bytes16Read(b, 8, 0);
    Bytes16Read(b, 10, q.Extras());
  }

  lemma OpensAtTheRecords(q: Answer, onlyQueryId: int)
    requires Sendable(q)
    requires onlyQueryId <= 0 || onlyQueryId == if q.unicast then q.queryId else 0
    ensures Open(Packet(q), onlyQueryId) == RecordsFrom(12 + |Question(q)|)
  {
    hide Packet, Names, Be16, Split, Encode, Header, Holds, SkipFrom;
    var b := Packet(q);
    HeaderReads(q);
    if q.unicast {
      ServiceName(q);
      NamesSkip(b, 12, Service(q), 12 + |ServiceCode(q)| + 1);
      PtrPieces(q);
      PtrReads(q);
      Sizes(q);
      InBounds(b, FullOffset(q), HostCode(q) + Pointer(12));
    }
  }

  lemma InBounds(b: seq<byte>, at: nat, x: seq<byte>)
    requires Holds(b, at, x)
    ensures at + |x| <= |b|
  {
  }

  lemma ReadNext(b: seq<byte>, offset: nat, count: nat, record: Record, next: nat)
    requires RecordAt(b, offset) == Parsed(record, next)
    requires ReadRecords(b, next, count).Listing?
    ensures ReadRecords(b, offset, count + 1) ==
      Listing([record] + ReadRecords(b, next, count).records, ReadRecords(b, next, count).end)
  {
  }

  /** A record that may be left out, in front of records already read. */
  lemma ReadOptional(b: seq<byte>, offset: nat, present: bool, record: Record, next: nat,
                     count: nat, rest: seq<Record>, end: nat)
    requires if present then RecordAt(b, offset) == Parsed(record, next) else offset == next
    requires ReadRecords(b, next, count) == Listing(rest, end)
    ensures ReadRecords(b, offset, (if present then 1 else 0) + count) ==
      Listing(Optional(present, record) + rest, end)
  {
    if present {
      ReadNext(b, offset, count, record, next);
    }
  }

  /** Three records that may be left out, one after the other, up to the end of the message. */
  lemma ReadOptionals(b: seq<byte>, at: nat, p: bool, x: Record, at2: nat, p2: bool, x2: Record,
                      at3: nat, p3: bool, x3: Record)
    requires if p then RecordAt(b, at) == Parsed(x, at2) else at == at2
    requires if p2 then RecordAt(b, at2) == Parsed(x2, at3) else at2 == at3
    requires if p3 then RecordAt(b, at3) == Parsed(x3, |b|) else at3 == |b|
    ensures ReadRecords(b, at, (if p then 1 else 0) + (if p2 then 1 else 0) + (if p3 then 1 else 0)) ==
      Listing(Optional(p, x) + Optional(p2, x2) + Optional(p3, x3), |b|)
  {
    hide RecordAt, ReadRecords;
    ReadNone(b, |b|);
    ReadOptional(b, at3, p3, x3, |b|, 0, [], |b|);
    var rest := Optional(p3, x3);
    assert rest + [] == rest;
    ReadOptional(b, at2, p2, x2, at3, if p3 then 1 else 0, rest, |b|);
    ReadOptional(b, at, p, x, at2, (if p2 then 1 else 0) + (if p3 then 1 else 0), Optional(p2, x2) + rest, |b|);
    assert Optional(p, x) + (Optional(p2, x2) + rest) == Optional(p, x) + Optional(p2, x2) + rest;
  }

  lemma NoExtraNoBytes(q: Answer)
    requires q.Valid()
    ensures !q.UseIpv4() ==> |Required(q) + Ipv4Record(q)| == |Required(q)|
    ensures !q.UseIpv6() ==> |Required(q) + Ipv4Record(q) + Ipv6Record(q)| == |Required(q) + Ipv4Record(q)|
    ensures !q.UseTxt() ==> |Required(q) + Ipv4Record(q) + Ipv6Record(q)| == |Packet(q)|
  {
    hide Required;
  }

  lemma OptionalsRead(q: Answer)
    requires Sendable(q)
    ensures ReadRecords(Packet(q), |Required(q)|, q.Extras() - 1) ==
      Listing(Optional(q.UseIpv4(), Ipv4Seen(q)) + Optional(q.UseIpv6(), Ipv6Seen(q))
              + Optional(q.UseTxt(), TxtSeen(q)), |Packet(q)|)
  {
    hide RecordAt, Ipv4Seen, Ipv6Seen, TxtSeen, SrvOffset, Required, Ipv4Record, Ipv6Record, Packet, Names, Holds,
      ReadRecords, Optional;
    if q.UseTxt() { TxtReads(q); }
    if q.UseIpv6() { Ipv6Reads(q); }
    if q.UseIpv4() { Ipv4Reads(q); }
    NoExtraNoBytes(q);
    ReadOptionals(Packet(q), |Required(q)|, q.UseIpv4(), Ipv4Seen(q),
                  |Required(q) + Ipv4Record(q)|, q.UseIpv6(), Ipv6Seen(q),
                  |Required(q) + Ipv4Record(q) + Ipv6Record(q)|, q.UseTxt(), TxtSeen(q));
  }

  lemma AdditionalsRead(q: Answer)
    requires Sendable(q)
    ensures ReadRecords(Packet(q), SrvOffset(q), q.Extras()) == Listing(AdditionalsSeen(q), |Packet(q)|)
  {
    hide RecordAt, Ipv4Seen, Ipv6Seen, TxtSeen, SrvSeen, SrvOffset, Required, Packet, Names, ReadRecords, Optional;
    OptionalsRead(q);
    SrvReads(q);
    ReadNext(Packet(q), SrvOffset(q), q.Extras() - 1, SrvSeen(q), |Required(q)|);
    OneThenOptionals(SrvSeen(q), Optional(q.UseIpv4(), Ipv4Seen(q)), Optional(q.UseIpv6(), Ipv6Seen(q)),
                     Optional(q.UseTxt(), TxtSeen(q)));
  }

  lemma OneThenOptionals(first: Record, a: seq<Record>, b: seq<Record>, c: seq<Record>)
    ensures [first] + (a + b + c) == [first] + a + b + c
  {
  }

  lemma ReadNone(b: seq<byte>, offset: nat)
    ensures ReadRecords(b, offset, 0) == Listing([], offset)
  {
  }

  /** The record reader finds the PTR record, no authority records, then exactly the SRV record
      and the chosen A, AAAA and TXT records, and stops at the end of the packet. */
  lemma PacketReadsBack(q: Answer, onlyQueryId: int)
    requires Sendable(q)
    requires onlyQueryId <= 0 || onlyQueryId == if q.unicast then q.queryId else 0
    ensures Readable(Packet(q), onlyQueryId)
    ensures Open(Packet(q), onlyQueryId).RecordsFrom?
    ensures ReadSections(Packet(q), Open(Packet(q), onlyQueryId).offset) ==
      Sections(Listing([PtrSeen(q)], SrvOffset(q)), Listing([], SrvOffset(q)),
               Listing(AdditionalsSeen(q), |Packet(q)|))
  {
    hide RecordAt, Packet, Open, PtrSeen, AdditionalsSeen, SrvOffset, Question;
    var b, at := Packet(q), 12 + |Question(q)|;
    OpensAtTheRecords(q, onlyQueryId);
    HeaderReads(q);
    PtrReads(q);
    ReadNext(b, at, 0, PtrSeen(q), SrvOffset(q));
    assert [PtrSeen(q)] + [] == [PtrSeen(q)];
    AdditionalsRead(q);
  }

  /** The names and data of the required records: the PTR record maps the service to
      hostname.service, and the SRV record maps that name to the port and to hostname.local. Every
      name ends where its field ends. */
  lemma RequiredNamesReadBack(q: Answer)
    requires Sendable(q)
    ensures var b, ptr, srv := Packet(q), PtrSeen(q), SrvSeen(q);
      && Names(b, ptr.nameOffset, Service(q), ptr.nameOffset + ptr.nameLength)
      && Names(b, ptr.offset, Host(q) + Service(q), ptr.offset + ptr.length)
      && Names(b, srv.nameOffset, Host(q) + Service(q), srv.nameOffset + srv.nameLength)
      && Holds(b, srv.offset, Bytes16(0) + Bytes16(0) + Bytes16(q.port))
      && Names(b, srv.offset + 6, Host(q) + [Domain(q)], srv.offset + srv.length)
  {
    hide Names, Holds, Packet, Pointer, Required, Question, PtrName, Bytes16, Decode;
    ServiceName(q);
    FullName(q);
    SrvReads(q);
    SrvPieces(q);
    HostName(q);
  }

  /** The names and data of the optional records: the address records carry the addresses of
      hostname.local, and the TXT record belongs to hostname.service. */
  lemma OptionalNamesReadBack(q: Answer)
    requires Sendable(q)
    ensures q.UseIpv4() ==> var a := Ipv4Seen(q);
      && Names(Packet(q), a.nameOffset, Host(q) + [Domain(q)], a.nameOffset + a.nameLength)
      && Holds(Packet(q), a.offset, q.ipv4) && a.length == |q.ipv4|
    ensures q.UseIpv6() ==> var aaaa := Ipv6Seen(q);
      && Names(Packet(q), aaaa.nameOffset, Host(q) + [Domain(q)], aaaa.nameOffset + aaaa.nameLength)
      && Holds(Packet(q), aaaa.offset, q.ipv6) && aaaa.length == |q.ipv6|
    ensures q.UseTxt() ==> var txt := TxtSeen(q);
      && Names(Packet(q), txt.nameOffset, Host(q) + Service(q), txt.nameOffset + txt.nameLength)
      && Holds(Packet(q), txt.offset, [|q.txt| as byte] + q.txt) && txt.length == |q.txt| + 1
  {
    hide Names, Holds, Packet, Pointer, Required, Question, PtrName, Bytes16, Decode, RecordAt;
    if q.UseIpv4() { Ipv4Reads(q); }
    if q.UseIpv6() { Ipv6Reads(q); }
    if q.UseTxt() { TxtReads(q); }
  }

  /** The dotted text of the names: the given texts, ended by dots. */
  lemma NamesAsText(q: Answer)
    ensures Dotted(Host(q) + Service(q)) == EndedByDot(q.hostname, 0) + EndedByDot(q.service, 0)
    ensures Service(q) != [] ==> Dotted(Host(q) + [Domain(q)]) == EndedByDot(q.hostname, 0) + Domain(q) + [DOT]
  {
    DottedSplit(q.hostname, 0);
    DottedSplit(q.service, 0);
    DottedConcat(Host(q), Service(q));
    if Service(q) != [] {
      DottedConcat(Host(q), [Domain(q)]);
      DottedFirst(Domain(q), []);
      assert EndedByDot(q.hostname, 0) + (Domain(q) + [DOT]) == EndedByDot(q.hostname, 0) + Domain(q) + [DOT];
    }
  }

  /** The offset seven bytes before the end of the service name is where its last label starts
      exactly when that label has five bytes, as "local" does. */
  lemma LocalOffsetIsTheLastLabel(q: Answer)
    requires Service(q) != []
    ensures LocalOffset(q) == 12 + |Encode(Service(q)[..|Service(q)| - 1])| <==> |Domain(q)| == 5
  {
    var front := Service(q)[..|Service(q)| - 1];
    assert Service(q) == front + [Domain(q)];
    EncodeAppend(front, Domain(q));
  }

  // ---------------------------------------------------------------- the packet by its numbers

  function Types(records: seq<Record>): seq<nat> {
    seq(|records|, i requires 0 <= i < |records| => records[i].rtype)
  }

  /** Which additional records there are depends on the arguments alone. */
  lemma PresentWhen(q: Answer)
    requires q.Valid()
    ensures q.UseIpv4() <==> q.ipv4 != [0, 0, 0, 0]
    ensures q.UseIpv6() <==> q.ipv6 != []
    ensures q.UseTxt() <==> 1 <= |q.txt| <= 255
  {
  }

  lemma TypesAdd(a: seq<Record>, b: seq<Record>)
    ensures Types(a + b) == Types(a) + Types(b)
  {
  }

  lemma TypesSeen(q: Answer)
    requires q.Valid()
    ensures Types(AdditionalsSeen(q)) ==
      [33] + (if q.ipv4 != [0, 0, 0, 0] then [1] else []) + (if q.ipv6 != [] then [28] else [])
      + (if 1 <= |q.txt| <= 255 then [16] else [])
  {
    hide Required, Ipv4Record, Ipv6Record, SrvOffset;
    PresentWhen(q);
    var a, b := Optional(q.UseIpv4(), Ipv4Seen(q)), Optional(q.UseIpv6(), Ipv6Seen(q));
    var c := Optional(q.UseTxt(), TxtSeen(q));
    TypesAdd([SrvSeen(q)] + a + b, c);
    TypesAdd([SrvSeen(q)] + a, b);
    TypesAdd([SrvSeen(q)], a);
    assert Types([SrvSeen(q)]) == [33];
    assert Types(a) == if q.ipv4 != [0, 0, 0, 0] then [1] else [];
    assert Types(b) == if q.ipv6 != [] then [28] else [];
    assert Types(c) == if 1 <= |q.txt| <= 255 then [16] else [];
  }

  /** What the record of a type says: for each type its name and its data. */
  ghost predicate SaysItsPart(b: seq<byte>, q: Answer, r: Record)
    requires Service(q) != []
  {
    && r.rclass == (if q.unicast then 0x8001 else 1) && r.ttl == (if q.unicast then 10 else 60)
    && var nameEnd := r.nameOffset + r.nameLength;
       match r.rtype
       case 12 =>
         && Names(b, r.nameOffset, Service(q), nameEnd)
         && Names(b, r.offset, Host(q) + Service(q), r.offset + r.length)
       case 33 =>
         && Names(b, r.nameOffset, Host(q) + Service(q), nameEnd)
         && Holds(b, r.offset, [0, 0, 0, 0, q.port / 256, q.port % 256])
         && Names(b, r.offset + 6, Host(q) + [Domain(q)], r.offset + r.length)
       case 1 =>
         Names(b, r.nameOffset, Host(q) + [Domain(q)], nameEnd) && r.length == 4 && Holds(b, r.offset, q.ipv4)
       case 28 =>
         Names(b, r.nameOffset, Host(q) + [Domain(q)], nameEnd) && r.length == 16 && Holds(b, r.offset, q.ipv6)
       case 16 =>
         && Names(b, r.nameOffset, Host(q) + Service(q), nameEnd) && r.length == |q.txt| + 1
         && |q.txt| < 256 && Holds(b, r.offset, [|q.txt|] + q.txt)
       case _ => false
  }

  lemma PtrSaysItsPart(q: Answer)
    requires Sendable(q)
    ensures SaysItsPart(Packet(q), q, PtrSeen(q)) && PtrSeen(q).rtype == 12
  {
    hide Names, Holds, Packet, Question, PtrName, HostCode, SrvOffset;
    RequiredNamesReadBack(q);
  }

  lemma SrvSaysItsPart(q: Answer)
    requires Sendable(q)
    ensures SaysItsPart(Packet(q), q, SrvSeen(q))
  {
    hide Names, Holds, Packet, HostCode, SrvOffset;
    RequiredNamesReadBack(q);
    assert Bytes16(0) + Bytes16(0) + Bytes16(q.port) == [0, 0, 0, 0, q.port / 256, q.port % 256];
  }

  lemma OptionalsSayTheirPart(q: Answer)
    requires Sendable(q)
    ensures q.UseIpv4() ==> SaysItsPart(Packet(q), q, Ipv4Seen(q))
    ensures q.UseIpv6() ==> SaysItsPart(Packet(q), q, Ipv6Seen(q))
    ensures q.UseTxt() ==> SaysItsPart(Packet(q), q, TxtSeen(q))
  {
    hide Names, Holds, Packet, Required, Ipv4Record, Ipv6Record;
    OptionalNamesReadBack(q);
  }

  lemma AdditionalsSayTheirPart(q: Answer)
    requires Sendable(q)
    ensures forall r :: r in AdditionalsSeen(q) ==> SaysItsPart(Packet(q), q, r)
  {
    hide SaysItsPart, Packet, SrvSeen, Ipv4Seen, Ipv6Seen, TxtSeen;
    SrvSaysItsPart(q);
    OptionalsSayTheirPart(q);
  }

  lemma HeaderBytes(q: Answer)
    requires q.Valid()
    ensures Header(q) ==
      (if q.unicast then [q.queryId / 256, q.queryId % 256] else [0, 0])
      + [0x84, 0, 0, if q.unicast then 1 else 0, 0, 1, 0, 0, 0, q.Extras()]
  {
  }

  lemma QuestionBytes(q: Answer)
    requires Sendable(q) && q.unicast
    ensures var at := 12 + |ServiceCode(q)| + 1;
      Names(Packet(q), 12, Service(q), at) && Holds(Packet(q), at, [0, 12, 0x80, 1])
  {
    hide Names, Holds, Packet, Header, PtrRecord, SrvRecord, Encode, Split;
    Pieces(q);
    var name, fields: seq<byte> := ServiceCode(q) + [0], [0, 12, 0x80, 1];
    assert Bytes16(PTR) == [0, 12] && Bytes16(q.Class()) == [0x80, 1];
    assert Question(q) == name + fields;
    HoldsParts(Packet(q), 12, name, fields);
    MadeNames(Packet(q), 12, Service(q));
  }

  /** The packet in the numbers of the wire, by the arguments alone. The header holds the query's
      number for a unicast answer, the flags of an authoritative response and the counts. The reader
      finds one record of type 12 (PTR) and no authority, then one of type 33 (SRV), one of type 1 (A)
      if and only if there is an IPv4 address, one of type 28 (AAAA) if and only if there is an IPv6
      address, and one of type 16 (TXT) if and only if the text has 1 to 255 bytes. Each says its part. */
  lemma AnswerByItsNumbers(q: Answer, onlyQueryId: int)
    requires Sendable(q)
    requires onlyQueryId <= 0 || onlyQueryId == if q.unicast then q.queryId else 0
    ensures |Packet(q)| >= 12 && Open(Packet(q), onlyQueryId).RecordsFrom?
    ensures var b := Packet(q);
      var read := ReadSections(b, Open(b, onlyQueryId).offset);
      var additionals := read.additionals.records;
      && Types(read.answers.records) == [12] && SaysItsPart(b, q, read.answers.records[0])
      && read.authorities.records == []
      && Types(additionals) ==
           [33] + (if q.ipv4 != [0, 0, 0, 0] then [1] else []) + (if q.ipv6 != [] then [28] else [])
           + (if 1 <= |q.txt| <= 255 then [16] else [])
      && (forall r :: r in additionals ==> SaysItsPart(b, q, r))
      && b[..12] ==
           (if q.unicast then [q.queryId / 256, q.queryId % 256] else [0, 0])
           + [0x84, 0, 0, if q.unicast then 1 else 0, 0, 1, 0, 0, 0, |additionals|]
    ensures q.unicast ==>
      exists at: nat :: Names(Packet(q), 12, Service(q), at) && Holds(Packet(q), at, [0, 12, 0x80, 1])
  {
    hide Packet, Open, ReadSections, SaysItsPart, PtrSeen, AdditionalsSeen, Names, Holds, Question, Header, SrvOffset;
    PacketReadsBack(q, onlyQueryId);
    PtrSaysItsPart(q);
    TypesSeen(q);
    AdditionalsSayTheirPart(q);
    PresentWhen(q);
    FirstTwelve(q);
    HeaderBytes(q);
    if q.unicast { QuestionBytes(q); }
  }

  lemma FirstTwelve(q: Answer)
    requires q.Valid()
    ensures |Packet(q)| >= 12 && Packet(q)[..12] == Header(q)
  {
    hide Packet, Header;
    Pieces(q);
  }
}
