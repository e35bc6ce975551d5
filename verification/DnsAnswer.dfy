/** The DNS-SD answer packet that mdns_query_answer writes (section 6 of RFC 6763): an optional
    question, a PTR record, and additional SRV, A, AAAA and TXT records, with names compressed by
    pointers to earlier ones. `Packet` is the packet as one piece of text; the writer fills a
    buffer step by step. */
module DnsAnswer {

  import opened DnsName
  import opened DnsEncoding

  const PTR := 12
  const SRV := 33
  const A := 1
  const AAAA := 28
  const TXT := 16

  type uint16 = v: int | 0 <= v < 0x1_0000
  type uint32 = v: int | 0 <= v < 0x1_0000_0000

  /** The arguments. The IPv4 address is the four bytes in memory order, all zero for none. */
  datatype Answer = Answer(queryId: uint16, unicast: bool, service: seq<byte>, hostname: seq<byte>,
                           ipv4: seq<byte>, ipv6: seq<byte>, port: uint16, txt: seq<byte>)
  {
    ghost predicate Valid() {
      |ipv4| == 4 && (ipv6 == [] || |ipv6| == 16)
    }

    function UseIpv4(): bool
      requires |ipv4| == 4
    {
      !(ipv4[0] == 0 && ipv4[1] == 0 && ipv4[2] == 0 && ipv4[3] == 0)
    }

    function UseIpv6(): bool { ipv6 != [] }

    function UseTxt(): bool { 0 < |txt| <= 255 }

    function Class(): uint16 { if unicast then 0x8001 else 1 }

    function Ttl(): uint32 { if unicast then 10 else 60 }

    function Extras(): nat
      requires |ipv4| == 4
    {
      1 + (if UseIpv4() then 1 else 0) + (if UseIpv6() then 1 else 0) + (if UseTxt() then 1 else 0)
    }
  }

  function Bytes16(v: nat): (s: seq<byte>)
    ensures |s| == 2
  {
    [(v / 0x100 % 0x100) as byte, (v % 0x100) as byte]
  }

  function Bytes32(v: uint32): (s: seq<byte>)
    ensures |s| == 4
  {
    Bytes16(v / 0x1_0000) + Bytes16(v % 0x1_0000)
  }

  // ---------------------------------------------------------------- the packet as text

  function Header(q: Answer): (s: seq<byte>)
    requires q.Valid()
    ensures |s| == 12
  {
    Bytes16(if q.unicast then q.queryId else 0) + Bytes16(0x8400) + Bytes16(if q.unicast then 1 else 0)
    + Bytes16(1) + Bytes16(0) + Bytes16(q.Extras())
  }

  function ServiceCode(q: Answer): seq<byte> { Encode(Split(q.service)) }
  function HostCode(q: Answer): seq<byte> { Encode(Split(q.hostname)) }

  function Question(q: Answer): seq<byte> {
    if q.unicast then ServiceCode(q) + [0] + Bytes16(PTR) + Bytes16(q.Class()) else []
  }

  /** The fixed fields of a record. */
  function Head(q: Answer, rtype: uint16, length: nat): (s: seq<byte>)
    ensures |s| == 10
  {
    Bytes16(rtype) + Bytes16(q.Class()) + Bytes32(q.Ttl()) + Bytes16(length)
  }

  function PtrName(q: Answer): seq<byte> {
    if q.unicast then Pointer(12) else ServiceCode(q) + [0]
  }

  function FullOffset(q: Answer): nat { 12 + |Question(q)| + |PtrName(q)| + 10 }

  function LocalOffset(q: Answer): nat { 12 + |ServiceCode(q)| + 1 - 7 }

  function PtrRecord(q: Answer): seq<byte> {
    PtrName(q) + Head(q, PTR, |HostCode(q)| + 2) + (HostCode(q) + Pointer(12))
  }

  function SrvOffset(q: Answer): nat { FullOffset(q) + |HostCode(q)| + 2 }

  function HostOffset(q: Answer): nat { SrvOffset(q) + 18 }

  function SrvData(q: Answer): seq<byte> {
    Bytes16(0) + Bytes16(0) + Bytes16(q.port) + (HostCode(q) + Pointer(LocalOffset(q)))
  }

  function SrvRecord(q: Answer): seq<byte> {
    Pointer(FullOffset(q)) + Head(q, SRV, 6 + |HostCode(q)| + 2) + SrvData(q)
  }

  function Required(q: Answer): seq<byte>
    requires q.Valid()
  {
    Header(q) + Question(q) + PtrRecord(q) + SrvRecord(q)
  }

  function Ipv4Record(q: Answer): seq<byte> {
    if |q.ipv4| == 4 && q.UseIpv4() then Pointer(HostOffset(q)) + Head(q, A, 4) + q.ipv4 else []
  }

  function Ipv6Record(q: Answer): seq<byte> {
    if q.UseIpv6() then Pointer(HostOffset(q)) + Head(q, AAAA, 16) + q.ipv6 else []
  }

  function TxtRecord(q: Answer): seq<byte> {
    if q.UseTxt() then Pointer(FullOffset(q)) + Head(q, TXT, |q.txt| + 1) + ([|q.txt| as byte] + q.txt) else []
  }

  function Packet(q: Answer): seq<byte>
    requires q.Valid()
  {
    Required(q) + Ipv4Record(q) + Ipv6Record(q) + TxtRecord(q)
  }

  // ---------------------------------------------------------------- writing it

  /** The buffer starts with `w`. */
  ghost predicate Starts(s: seq<byte>, w: seq<byte>) {
    |w| <= |s| && s[..|w|] == w
  }

  lemma StartsLonger(s: seq<byte>, w: seq<byte>, x: seq<byte>)
    requires Starts(s, w) && |w| + |x| <= |s|
    ensures Starts(Splice(s, |w|, x), w + x)
  {
  }

  /** Overwriting two bytes in the middle of what is written. */
  lemma StartsPatched(s: seq<byte>, w: seq<byte>, gap: seq<byte>, rest: seq<byte>, x: seq<byte>)
    requires Starts(s, w + gap + rest) && |gap| == |x|
    ensures |w| + |x| <= |s| && Starts(Splice(s, |w|, x), w + x + rest)
  {
    var t := Splice(s, |w|, x);
    assert forall i :: 0 <= i < |w| ==> t[i] == s[i] == (w + gap + rest)[i];
    assert forall i :: |w| + |x| <= i < |w + gap + rest| ==> t[i] == s[i] == (w + gap + rest)[i];
    assert t[..|w + x + rest|] == w + x + rest;
  }

  method Put(buffer: array<byte>, ghost w: seq<byte>, pos: nat, bytes: seq<byte>) returns (next: nat)
    requires Starts(buffer[..], w) && pos == |w| && pos + |bytes| <= buffer.Length
    modifies buffer
    ensures next == pos + |bytes| && Starts(buffer[..], w + bytes)
  {
    Store(buffer, pos, bytes);
    StartsLonger(old(buffer[..]), w, bytes);
    next := pos + |bytes|;
  }

  method PutHeader(buffer: array<byte>, q: Answer) returns (pos: nat)
    requires q.Valid() && 12 <= buffer.Length
    modifies buffer
    ensures pos == 12 && Starts(buffer[..], Header(q))
  {
    hide Bytes16, Starts;
    assert Starts(buffer[..], []) by { StartsEmpty(buffer[..]); }
    ghost var w: seq<byte> := [];
    var id := Bytes16(if q.unicast then q.queryId else 0);
    pos := Put(buffer, w, 0, id);
    w := w + id;
    pos := Put(buffer, w, pos, Bytes16(0x8400));
    w := w + Bytes16(0x8400);
    pos := Put(buffer, w, pos, Bytes16(if q.unicast then 1 else 0));
    w := w + Bytes16(if q.unicast then 1 else 0);
    pos := Put(buffer, w, pos, Bytes16(1));
    w := w + Bytes16(1);
    pos := Put(buffer, w, pos, Bytes16(0));
    w := w + Bytes16(0);
    pos := Put(buffer, w, pos, Bytes16(q.Extras()));
    w := w + Bytes16(q.Extras());
    assert w == Header(q);
  }

  lemma StartsEmpty(s: seq<byte>)
    ensures Starts(s, [])
  {
  }

  lemma StartsMade(s: seq<byte>, w: seq<byte>, x: seq<byte>, t: seq<byte>)
    requires Starts(s, w) && |w| + |x| <= |s| && t == Splice(s, |w|, x)
    ensures Starts(t, w + x)
  {
    StartsLonger(s, w, x);
  }

  /** Type, class and time to live. */
  method PutFields(buffer: array<byte>, ghost w: seq<byte>, pos: nat, q: Answer, rtype: uint16) returns (next: nat)
    requires Starts(buffer[..], w) && pos == |w| && pos + 8 <= buffer.Length
    modifies buffer
    ensures next == pos + 8
    ensures Starts(buffer[..], w + (Bytes16(rtype) + Bytes16(q.Class()) + Bytes32(q.Ttl())))
  {
    hide Bytes16, Bytes32, Starts;
    next := Put(buffer, w, pos, Bytes16(rtype));
    next := Put(buffer, w + Bytes16(rtype), next, Bytes16(q.Class()));
    next := Put(buffer, w + Bytes16(rtype) + Bytes16(q.Class()), next, Bytes32(q.Ttl()));
    assert w + (Bytes16(rtype) + Bytes16(q.Class()) + Bytes32(q.Ttl()))
        == w + Bytes16(rtype) + Bytes16(q.Class()) + Bytes32(q.Ttl());
  }

  method PutHead(buffer: array<byte>, ghost w: seq<byte>, pos: nat, q: Answer, rtype: uint16, length: nat)
    returns (next: nat)
    requires Starts(buffer[..], w) && pos == |w| && pos + 10 <= buffer.Length
    modifies buffer
    ensures next == pos + 10 && Starts(buffer[..], w + Head(q, rtype, length))
  {
    hide Bytes16, Bytes32, Starts;
    next := PutFields(buffer, w, pos, q, rtype);
    ghost var fields := Bytes16(rtype) + Bytes16(q.Class()) + Bytes32(q.Ttl());
    next := Put(buffer, w + fields, next, Bytes16(length));
    assert w + fields + Bytes16(length) == w + Head(q, rtype, length);
  }

  /** The fields of a record whose length is stored after its data: the two length bytes keep
      what the buffer held. */
  method PutFieldsOnly(buffer: array<byte>, ghost w: seq<byte>, pos: nat, q: Answer, rtype: uint16)
    returns (next: nat, lengthAt: nat, ghost fields: seq<byte>, ghost gap: seq<byte>)
    requires Starts(buffer[..], w) && pos == |w| && pos + 10 <= buffer.Length
    modifies buffer
    ensures fields == Bytes16(rtype) + Bytes16(q.Class()) + Bytes32(q.Ttl()) && |gap| == 2
    ensures lengthAt == pos + 8 && next == pos + 10 && Starts(buffer[..], w + fields + gap)
  {
    hide Bytes16, Bytes32;
    lengthAt := PutFields(buffer, w, pos, q, rtype);
    fields := Bytes16(rtype) + Bytes16(q.Class()) + Bytes32(q.Ttl());
    gap := buffer[lengthAt..lengthAt + 2];
    next := lengthAt + 2;
    assert buffer[..][..next] == buffer[..][..lengthAt] + gap;
  }

  /** Stores the length of a record once its data is known. */
  method PatchLength(buffer: array<byte>, ghost w: seq<byte>, lengthAt: nat, q: Answer, rtype: uint16,
                     ghost fields: seq<byte>, ghost gap: seq<byte>, ghost data: seq<byte>, end: nat)
    requires fields == Bytes16(rtype) + Bytes16(q.Class()) + Bytes32(q.Ttl()) && |gap| == 2
    requires Starts(buffer[..], w + fields + gap + data)
    requires lengthAt == |w| + 8 && end == lengthAt + 2 + |data|
    modifies buffer
    ensures Starts(buffer[..], w + Head(q, rtype, |data|) + data)
  {
    hide Bytes16, Bytes32, Starts;
    StartsPatched(buffer[..], w + fields, gap, data, Bytes16(end - (lengthAt + 2)));
    Store(buffer, lengthAt, Bytes16(end - (lengthAt + 2)));
    assert w + fields + Bytes16(|data|) == w + Head(q, rtype, |data|);
  }

  // ---------------------------------------------------------------- the records, in order

  /** The guard at the top of mdns_query_answer. */
  predicate PassesSizeGuard(q: Answer, capacity: nat) {
    capacity >= 12 + 32 + |q.service| + |q.hostname|
  }

  lemma CodeLengths(q: Answer)
    ensures |ServiceCode(q)| <= |q.service| + 1 && |HostCode(q)| <= |q.hostname| + 1
  {
    EncodedLength(Split(q.service));
    DottedSplit(q.service, 0);
    EncodedLength(Split(q.hostname));
    DottedSplit(q.hostname, 0);
  }

  /** Question and name of the PTR record: the service name in full, then, after a question, a
      pointer to it. */
  method PutServiceName(buffer: array<byte>, q: Answer) returns (end: int, localOffset: nat)
    requires q.Valid() && PassesSizeGuard(q, buffer.Length) && Starts(buffer[..], Header(q))
    modifies buffer
    ensures end != INVALID_POS <==> 12 + |Question(q)| + |PtrName(q)| + 10 < buffer.Length
    ensures end != INVALID_POS ==>
      && end == 12 + |Question(q)| + |PtrName(q)| && localOffset == LocalOffset(q)
      && Starts(buffer[..], Header(q) + Question(q) + PtrName(q))
  {
    hide Starts, Splice, Split, Encode, Header, Pointer, Bytes16;
    var capacity := buffer.Length;
    localOffset := 0;
    ghost var w, s, b := Header(q), ServiceCode(q), buffer[..];
    if q.unicast {
      ghost var made;
      end, made := Make(buffer, 12, capacity - 12, q.service);
      if end == INVALID_POS || capacity - end <= 4 {
        return INVALID_POS, 0;
      }
      StartsMade(b, w, s + [0], buffer[..]);
      localOffset := end - 7;
      end := Put(buffer, w + (s + [0]), end, Bytes16(PTR));
      end := Put(buffer, w + (s + [0]) + Bytes16(PTR), end, Bytes16(q.Class()));
      assert w + (s + [0]) + Bytes16(PTR) + Bytes16(q.Class()) == w + Question(q);
      b := buffer[..];
      PointerLength(12);
      ghost var at := end;
      end := MakeRef(buffer, end, capacity - end, 12);
      if end == INVALID_POS || capacity - end <= 10 {
        return INVALID_POS, 0;
      }
      assert at == |w + Question(q)|;
      StartsMade(b, w + Question(q), Pointer(12), buffer[..]);
    } else {
      ghost var made;
      end, made := Make(buffer, 12, capacity - 12, q.service);
      if end == INVALID_POS || capacity - end <= 10 {
        return INVALID_POS, 0;
      }
      StartsMade(b, w, s + [0], buffer[..]);
      localOffset := end - 7;
      assert w + [] == w;
    }
  }

  method PutPtr(buffer: array<byte>, q: Answer)
    returns (end: int, fullOffset: nat, localOffset: nat)
    requires q.Valid() && PassesSizeGuard(q, buffer.Length) && Starts(buffer[..], Header(q))
    modifies buffer
    ensures end != INVALID_POS <==> SrvOffset(q) + 10 < buffer.Length
    ensures end != INVALID_POS ==>
      && end == SrvOffset(q) && fullOffset == FullOffset(q) && localOffset == LocalOffset(q)
      && Starts(buffer[..], Header(q) + Question(q) + PtrRecord(q))
  {
    hide Starts, Splice, Split, Encode, Header, Question, PtrName, Pointer, Bytes16, Bytes32, Head;
    var capacity := buffer.Length;
    end, localOffset := PutServiceName(buffer, q);
    fullOffset := 0;
    if end == INVALID_POS {
      return;
    }
    ghost var w := Header(q) + Question(q) + PtrName(q);
    ghost var data := HostCode(q) + Pointer(12);
    PointerLength(12);
    var lengthAt, made;
    ghost var fields, gap, written;
    fullOffset, lengthAt, fields, gap := PutFieldsOnly(buffer, w, end, q, PTR);
    ghost var b := buffer[..];
    NameHasRoom(q, capacity);
    made, written := MakeWithRef(buffer, fullOffset, capacity - fullOffset, q.hostname, 12);
    if !made.UpTo? || capacity - made.end <= 10 {
      return INVALID_POS, 0, 0;
    }
    end := made.end;
    StartsMade(b, w + fields + gap, data, buffer[..]);
    PatchLength(buffer, w, lengthAt, q, PTR, fields, gap, data, end);
    assert w + Head(q, PTR, |data|) + data == Header(q) + Question(q) + PtrRecord(q);
  }

  /** The guard at the top leaves room for the name of the PTR data, if not for its pointer. */
  lemma NameHasRoom(q: Answer, capacity: nat)
    requires PassesSizeGuard(q, capacity)
    ensures FullOffset(q) + |Encode(Split(q.hostname))| + 1 <= capacity
  {
    CodeLengths(q);
    PointerLength(12);
  }

  /** Where the SRV record is begun although it does not fit: more than ten bytes behind its name
      are asked for, but its fields take sixteen, and then its target is not asked for either. */
  predicate ServiceOverruns(q: Answer, capacity: nat) {
    SrvOffset(q) + 12 < capacity <= HostOffset(q) + |HostCode(q)|
  }

  /** Followed up to the first store outside the buffer. */
  method PutSrv(buffer: array<byte>, ghost w: seq<byte>, q: Answer, pos: nat,
                fullOffset: nat, localOffset: nat)
    returns (r: Written, hostOffset: nat)
    requires q.Valid()
    requires pos == SrvOffset(q) == |w| && pos + 10 < buffer.Length
    requires fullOffset == FullOffset(q) && localOffset == LocalOffset(q)
    requires Starts(buffer[..], w)
    modifies buffer
    ensures r.Wild? <==> ServiceOverruns(q, buffer.Length)
    ensures r.UpTo? <==> HostOffset(q) + |HostCode(q)| + 2 + 10 < buffer.Length
    ensures r.UpTo? ==>
      && r.end == HostOffset(q) + |HostCode(q)| + 2 && hostOffset == HostOffset(q)
      && Starts(buffer[..], w + SrvRecord(q))
  {
    hide Starts, Splice, Split, Encode, Pointer, Bytes16, Bytes32, Head, FullOffset, LocalOffset;
    var capacity := buffer.Length;
    ghost var b, v := buffer[..], w + Pointer(FullOffset(q));
    PointerLength(FullOffset(q));
    PointerLength(LocalOffset(q));
    var named := MakeRef(buffer, pos, capacity - pos, fullOffset);
    if named == INVALID_POS || capacity - named <= 10 {
      return NoRoom, 0;
    }
    StartsMade(b, w, Pointer(FullOffset(q)), buffer[..]);
    var next, lengthAt, fields, gap := PutFieldsOnly(buffer, v, named, q, SRV);
    ghost var u := v + fields + gap;
    if capacity < next + 6 {
      return Wild, 0;
    }
    hostOffset := PutSrvNumbers(buffer, u, next, q.port);
    ghost var numbers := Bytes16(0) + Bytes16(0) + Bytes16(q.port);
    ghost var name := HostCode(q) + Pointer(LocalOffset(q));
    b := buffer[..];
    ghost var written;
    r, written := MakeWithRef(buffer, hostOffset, capacity - hostOffset, q.hostname, localOffset);
    if r.Wild? {
      return;
    }
    if r.NoRoom? || capacity - r.end <= 10 {
      return NoRoom, 0;
    }
    StartsMade(b, u + numbers, name, buffer[..]);
    assert u + numbers + name == u + SrvData(q);
    PatchLength(buffer, v, lengthAt, q, SRV, fields, gap, SrvData(q), r.end);
    assert v + Head(q, SRV, |SrvData(q)|) + SrvData(q) == w + SrvRecord(q);
  }

  method PutSrvNumbers(buffer: array<byte>, ghost w: seq<byte>, pos: nat, port: uint16) returns (next: nat)
    requires Starts(buffer[..], w) && pos == |w| && pos + 6 <= buffer.Length
    modifies buffer
    ensures next == pos + 6
    ensures Starts(buffer[..], w + (Bytes16(0) + Bytes16(0) + Bytes16(port)))
  {
    hide Starts, Bytes16;
    next := Put(buffer, w, pos, Bytes16(0));
    next := Put(buffer, w + Bytes16(0), next, Bytes16(0));
    next := Put(buffer, w + Bytes16(0) + Bytes16(0), next, Bytes16(port));
    assert w + Bytes16(0) + Bytes16(0) + Bytes16(port) == w + (Bytes16(0) + Bytes16(0) + Bytes16(port));
  }

  /** A pointer, the fixed fields and the data, if more than `data` bytes are left after the
      pointer and the fields: the shape of the A, AAAA and TXT records. */
  method PutExtra(buffer: array<byte>, ghost w: seq<byte>, pos: nat, q: Answer, nameOffset: nat,
                  rtype: uint16, data: seq<byte>)
    returns (end: int)
    requires Starts(buffer[..], w) && pos == |w| && pos <= buffer.Length
    modifies buffer
    ensures end != INVALID_POS <==> pos + 12 + |data| < buffer.Length
    ensures end != INVALID_POS ==>
      && end == pos + 12 + |data|
      && Starts(buffer[..], w + (Pointer(nameOffset) + Head(q, rtype, |data|) + data))
  {
    hide Starts, Splice, Pointer, Head;
    var capacity := buffer.Length;
    ghost var b := buffer[..];
    PointerLength(nameOffset);
    end := MakeRef(buffer, pos, capacity - pos, nameOffset);
    if end == INVALID_POS || capacity - end <= 10 + |data| {
      return INVALID_POS;
    }
    ghost var v := w + Pointer(nameOffset);
    StartsMade(b, w, Pointer(nameOffset), buffer[..]);
    end := PutHead(buffer, v, end, q, rtype, |data|);
    end := Put(buffer, v + Head(q, rtype, |data|), end, data);
    assert v + Head(q, rtype, |data|) + data == w + (Pointer(nameOffset) + Head(q, rtype, |data|) + data);
  }

  /** Fills the buffer with the packet and tells how many bytes are to be sent; no room is the
      result -1. The buffer is big enough when it passes the guard at the top and has more than ten
      spare bytes after the SRV record and one after the last record; the code stores outside it
      exactly when its size passes the guard and lies in the gap of the SRV record. */
  method QueryAnswer(buffer: array<byte>, q: Answer) returns (r: Written)
    requires q.Valid()
    modifies buffer
    ensures var guarded := buffer.Length >= 44 + |q.service| + |q.hostname|;
      && (r.Wild? <==> guarded && |Required(q)| - |HostCode(q)| - 8 < buffer.Length <= |Required(q)| - 2)
      && (r.UpTo? <==> guarded && |Required(q)| + 10 < buffer.Length && |Packet(q)| < buffer.Length)
    ensures r.UpTo? ==> r.end == |Packet(q)| <= buffer.Length && buffer[..r.end] == Packet(q)
  {
    hide Starts, Header, Question, PtrRecord, SrvRecord, PtrName, Pointer, Head, FullOffset;
    Sizes(q);
    if !PassesSizeGuard(q, buffer.Length) {
      return NoRoom;
    }
    var start := PutHeader(buffer, q);
    var pos, fullOffset, localOffset := PutPtr(buffer, q);
    if pos == INVALID_POS {
      return NoRoom;
    }
    var hostOffset;
    ghost var required := Header(q) + Question(q) + PtrRecord(q);
    r, hostOffset := PutSrv(buffer, required, q, pos, fullOffset, localOffset);
    if !r.UpTo? {
      return;
    }
    pos := PutExtras(buffer, q, r.end, fullOffset, hostOffset);
    if pos == INVALID_POS {
      return NoRoom;
    }
    StartsMeansEqual(buffer[..], Packet(q));
    r := UpTo(pos);
    assert buffer[..r.end] == buffer[..][..r.end];
  }

  /** The address and text records, as far as they are wanted. */
  method PutExtras(buffer: array<byte>, q: Answer, start: nat, fullOffset: nat, hostOffset: nat)
    returns (pos: int)
    requires q.Valid() && start == |Required(q)| && start + 10 < buffer.Length
    requires fullOffset == FullOffset(q) && hostOffset == HostOffset(q)
    requires Starts(buffer[..], Required(q))
    modifies buffer
    ensures pos != INVALID_POS <==> |Packet(q)| < buffer.Length
    ensures pos != INVALID_POS ==> pos == |Packet(q)| && Starts(buffer[..], Packet(q))
  {
    hide Starts, Required, Pointer, Head, FullOffset, HostOffset;
    Sizes(q);
    pos := start;
    ghost var w := Required(q);
    if q.UseIpv4() {
      pos := PutExtra(buffer, w, pos, q, hostOffset, A, q.ipv4);
      if pos == INVALID_POS {
        return;
      }
    } else {
      assert w + Ipv4Record(q) == w;
    }
    w := w + Ipv4Record(q);
    if q.UseIpv6() {
      pos := PutExtra(buffer, w, pos, q, hostOffset, AAAA, q.ipv6);
      if pos == INVALID_POS {
        return;
      }
    } else {
      assert w + Ipv6Record(q) == w;
    }
    w := w + Ipv6Record(q);
    if q.UseTxt() {
      pos := PutExtra(buffer, w, pos, q, fullOffset, TXT, [|q.txt| as byte] + q.txt);
    } else {
      assert w + TxtRecord(q) == w;
    }
  }

  lemma StartsMeansEqual(s: seq<byte>, w: seq<byte>)
    requires Starts(s, w)
    ensures |w| <= |s| && s[..|w|] == w
  {
  }

  lemma Sizes(q: Answer)
    requires q.Valid()
    ensures |Header(q) + Question(q) + PtrRecord(q)| == SrvOffset(q)
    ensures |Required(q)| == HostOffset(q) + |HostCode(q)| + 2
    ensures |Ipv4Record(q)| == if q.UseIpv4() then 16 else 0
    ensures |Ipv6Record(q)| == if q.UseIpv6() then 28 else 0
    ensures |TxtRecord(q)| == if q.UseTxt() then 13 + |q.txt| else 0
  {
    PointerLength(12);
    PointerLength(FullOffset(q));
    PointerLength(LocalOffset(q));
    PointerLength(HostOffset(q));
  }

  /** The length of the packet, by the lengths of the encoded names. */
  lemma PacketLength(q: Answer)
    requires q.Valid()
    ensures var service, host := |Encode(Split(q.service))|, |Encode(Split(q.hostname))|;
      && |Required(q)| == 45 + service + 2 * host + (if q.unicast then 6 else 0)
      && |Packet(q)| == |Required(q)| + (if q.ipv4 != [0, 0, 0, 0] then 16 else 0)
           + (if q.ipv6 != [] then 28 else 0) + (if 1 <= |q.txt| <= 255 then 13 + |q.txt| else 0)
      && 12 + |Question(q)| + |PtrName(q)| == 13 + service + if q.unicast then 6 else 0
  {
    hide Encode, Split;
    Sizes(q);
    PointerLength(12);
  }

  /** A buffer of this size is always big enough. */
  lemma BigBufferIsEnough(q: Answer, capacity: nat)
    requires q.Valid()
    requires capacity >= 112 + |q.service| + 2 * |q.hostname| + |q.txt|
    ensures capacity >= 44 + |q.service| + |q.hostname|
    ensures |Required(q)| + 10 < capacity && |Packet(q)| < capacity
  {
    hide Header, PtrRecord, SrvRecord, Ipv4Record, Ipv6Record, TxtRecord, Required;
    CodeLengths(q);
    Sizes(q);
    PointerLength(12);
  }

  /** A name of one label with a dot behind it. */
  lemma OneLabel(name: seq<byte>)
    requires name != [] && DotFree(name[..|name| - 1]) && name[|name| - 1] == DOT
    ensures |Encode(Split(name))| == |name|
  {
    EncodedLength(Split(name));
    DottedSplit(name, 0);
    assert name[0..] == name;
  }

  /** The service "a." and the host "bbbbbbbb." in a unicast answer: the guard accepts 55 bytes,
      and the SRV record, which starts at byte 42 and would end at 71, is begun. */
  lemma FiftyFiveBytesAreOverrun(q: Answer)
    requires q.Valid() && q.unicast && q.service == [97, DOT] && q.hostname == seq(8, _ => 98) + [DOT]
    ensures PassesSizeGuard(q, 55) && ServiceOverruns(q, 55)
    ensures SrvOffset(q) == 42 && |Required(q)| == 71
  {
    OneLabel(q.service);
    OneLabel(q.hostname);
    Sizes(q);
    PointerLength(12);
  }
}
