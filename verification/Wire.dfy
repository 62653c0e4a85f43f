/** The two message kinds of the NyanSD protocol as the code prints and parses them
    (src/nyansd.cpp). Messages are strings of bytes; every parser works on a whole receive buffer
    and one index that only moves forward. */
module Wire {
  import opened ByteOrder

  datatype Protocol = All | Tcp | Udp {
    function Code(): uint8 {
      match this
      case All => 0
      case Tcp => 1
      case Udp => 2
    }
  }

  /** The protocol a received code selects: an unknown code leaves the default. */
  function ProtocolOf(code: uint8): Protocol {
    if code == 1 then Tcp else if code == 2 then Udp else All
  }

  datatype Service = Service(ipv4: Word32, ipv6: string, port: uint16, hostname: string, service: string,
                             protocol: Protocol)

  datatype Query = Query(protocol: Protocol, filter: string)

  const SIGNATURE := "NYANSD"
  const BROADCAST: uint8 := 1
  const RESPONSE: uint8 := 2

  /** The most a receive call stores. */
  const BUFFER_SIZE := 2048

  /** What `receiveBytes` leaves of a datagram. */
  function Received(datagram: string): (r: string)
    ensures |r| <= BUFFER_SIZE && r <= datagram
    ensures |r| < BUFFER_SIZE ==> r == datagram
  {
    if |datagram| <= BUFFER_SIZE then datagram else datagram[..BUFFER_SIZE]
  }

  /** A message: signature, length of what follows, type, rest. The length field wraps. */
  function Message(host: Endian, kind: uint8, rest: string): string {
    SIGNATURE + Put16(host, (|rest| + 1) % 0x1_0000) + [Chr(kind)] + rest
  }

  // ----- service sections -----

  /** The tail of a section from its port on. */
  function PortOn(host: Endian, sv: Service): string {
    Put16(host, sv.port) + ([Chr(sv.protocol.Code())] + (Put16(host, |sv.service| % 0x1_0000) + sv.service))
  }

  /** The tail of a section from its host name on. */
  function HostOn(host: Endian, sv: Service): string {
    Put16(host, |sv.hostname| % 0x1_0000) + (sv.hostname + PortOn(host, sv))
  }

  /** One service section. The length fields wrap at their width while the strings are sent whole. */
  function Section(host: Endian, sv: Service): string {
    "S" + (Put32(host, sv.ipv4) + ([Chr(|sv.ipv6| % 0x100)] + (sv.ipv6 + HostOn(host, sv))))
  }

  /** A 16-bit field on the wire: low byte first. */
  function Field(x: nat): string
    requires x < 0x1_0000
  {
    [Chr(x % 0x100), Chr(x / 0x100)]
  }

  /** The bytes of a section, whatever host prints it. */
  lemma SectionLayout(host: Endian, sv: Service)
    ensures Section(host, sv)
         == "S" + ([Chr(sv.ipv4.d), Chr(sv.ipv4.c), Chr(sv.ipv4.b), Chr(sv.ipv4.a)]
            + ([Chr(|sv.ipv6| % 0x100)] + (sv.ipv6
            + (Field(|sv.hostname| % 0x1_0000) + (sv.hostname
            + (Field(sv.port) + ([Chr(if sv.protocol == Tcp then 1 else if sv.protocol == Udp then 2 else 0)]
            + (Field(|sv.service| % 0x1_0000) + sv.service))))))))
  {
    FieldIs(host, |sv.hostname| % 0x1_0000);
    FieldIs(host, sv.port);
    FieldIs(host, |sv.service| % 0x1_0000);
    AddressIs(host, sv.ipv4);
    hide Put16, Put32, Field, Store16, Store32;
  }

  lemma FieldIs(host: Endian, x: uint16)
    ensures Put16(host, x) == Field(x)
  {
    Field16(host, host, x, "", 0);
  }

  lemma AddressIs(host: Endian, w: Word32)
    ensures Put32(host, w) == [Chr(w.d), Chr(w.c), Chr(w.b), Chr(w.a)]
  {
  }

  lemma QuerySectionLayout(q: Query)
    requires |q.filter| < 0x100
    ensures QuerySection(q)
         == "Q" + [Chr(if q.protocol == Tcp then 1 else if q.protocol == Udp then 2 else 0)] + [Chr(|q.filter|)]
            + q.filter
  {
  }

  /** The bytes of a message, whatever host prints it. */
  lemma MessageLayout(host: Endian, kind: uint8, rest: string)
    ensures Message(host, kind, rest) == "NYANSD" + Field((|rest| + 1) % 0x1_0000) + [Chr(kind)] + rest
  {
    hide Put16, Field;
    FieldIs(host, (|rest| + 1) % 0x1_0000);
  }

  lemma SectionLength(host: Endian, sv: Service)
    ensures |Section(host, sv)| == 13 + |sv.ipv6| + |sv.hostname| + |sv.service|
  {
  }

  /** The service read at `i`, where its `S` is, and the index behind it. */
  function ParseSection(host: Endian, buffer: string, i: nat): (r: (Service, nat))
    ensures |r.0.ipv6| < 0x100 && |r.0.hostname| < 0x1_0000 && |r.0.service| < 0x1_0000
    ensures r.1 == i + 13 + |r.0.ipv6| + |r.0.hostname| + |r.0.service|
  {
    var ipv4 := Get32(host, buffer, i + 1);
    var ipv6len := U8(Peek(buffer, i + 5));
    var ipv6 := Slice(buffer, i + 6, ipv6len);
    var j := i + 6 + ipv6len;
    var hostlen := Get16(host, buffer, j);
    var hostname := Slice(buffer, j + 2, hostlen);
    var k := j + 2 + hostlen;
    var port := Get16(host, buffer, k);
    var prot := U8(Peek(buffer, k + 2));
    var snlen := Get16(host, buffer, k + 3);
    var name := Slice(buffer, k + 5, snlen);
    (Service(ipv4, ipv6, port, hostname, name, ProtocolOf(prot)), k + 5 + snlen)
  }

  lemma FieldsWithin(host: Endian, buffer: string, behind: string, i: nat)
    ensures i < |buffer| ==> Peek(buffer + behind, i) == Peek(buffer, i)
    ensures i + 2 <= |buffer| ==> Get16(host, buffer + behind, i) == Get16(host, buffer, i)
    ensures i + 4 <= |buffer| ==> Get32(host, buffer + behind, i) == Get32(host, buffer, i)
  {
  }

  lemma SliceWithin(buffer: string, behind: string, i: nat, len: nat)
    requires i + len <= |buffer|
    ensures Slice(buffer + behind, i, len) == Slice(buffer, i, len)
  {
    forall k | 0 <= k < len
      ensures Slice(buffer + behind, i, len)[k] == Slice(buffer, i, len)[k]
    {
      assert Peek(buffer + behind, i + k) == Peek(buffer, i + k);
    }
  }

  /** A section that ends within `buffer` does not depend on what lies behind, and a section that ends
      there with something behind it ends there without. */
  lemma SectionWithin(host: Endian, buffer: string, behind: string, i: nat)
    requires ParseSection(host, buffer, i).1 <= |buffer| || ParseSection(host, buffer + behind, i).1 <= |buffer|
    ensures ParseSection(host, buffer + behind, i) == ParseSection(host, buffer, i)
  {
    hide Peek, Slice, Get16, Get32;
    var whole := buffer + behind;
    FieldsWithin(host, buffer, behind, i + 1);
    FieldsWithin(host, buffer, behind, i + 5);
    var j := i + 6 + U8(Peek(buffer, i + 5));
    SliceWithin(buffer, behind, i + 6, j - i - 6);
    FieldsWithin(host, buffer, behind, j);
    var k := j + 2 + Get16(host, buffer, j);
    SliceWithin(buffer, behind, j + 2, k - j - 2);
    FieldsWithin(host, buffer, behind, k);
    FieldsWithin(host, buffer, behind, k + 2);
    FieldsWithin(host, buffer, behind, k + 3);
    SliceWithin(buffer, behind, k + 5, Get16(host, buffer, k + 3));
  }

  /** The strings of a service fit their length fields. */
  predicate Fits(sv: Service) {
    |sv.ipv6| < 0x100 && |sv.hostname| < 0x1_0000 && |sv.service| < 0x1_0000
  }

  lemma HoldsByte(buffer: string, i: nat, c: char)
    requires Holds(buffer, i, [c])
    ensures Peek(buffer, i) == c
  {
    HoldsSlice(buffer, i, [c]);
    assert Peek(buffer, i + 0) == [c][0];
  }

  /** A field of characters preceded by its length. */
  lemma SplitHead(buffer: string, i: nat, head: string, tail: string)
    requires Holds(buffer, i, head + tail)
    ensures Holds(buffer, i, head) && Holds(buffer, i + |head|, tail)
  {
    HoldsSplit(buffer, i, head, tail);
  }

  lemma CodeRoundTrip(p: Protocol)
    ensures U8(Chr(p.Code())) == p.Code() && ProtocolOf(p.Code()) == p
  {
  }

  lemma ReadPortOn(server: Endian, client: Endian, sv: Service, buffer: string, k: nat)
    requires Fits(sv) && Holds(buffer, k, PortOn(server, sv))
    ensures Get16(client, buffer, k) == sv.port
    ensures ProtocolOf(U8(Peek(buffer, k + 2))) == sv.protocol
    ensures Get16(client, buffer, k + 3) == |sv.service|
    ensures Slice(buffer, k + 5, |sv.service|) == sv.service
  {
    hide Get16, Put16, Peek, Slice, Holds, ProtocolOf;
    var t2 := Put16(server, |sv.service| % 0x1_0000) + sv.service;
    var t1 := [Chr(sv.protocol.Code())] + t2;
    SplitHead(buffer, k, Put16(server, sv.port), t1);
    Field16(server, client, sv.port, buffer, k);
    SplitHead(buffer, k + 2, [Chr(sv.protocol.Code())], t2);
    HoldsByte(buffer, k + 2, Chr(sv.protocol.Code()));
    CodeRoundTrip(sv.protocol);
    SplitHead(buffer, k + 3, Put16(server, |sv.service| % 0x1_0000), sv.service);
    Field16(server, client, |sv.service| % 0x1_0000, buffer, k + 3);
    HoldsSlice(buffer, k + 5, sv.service);
  }

  lemma ReadHostOn(server: Endian, client: Endian, sv: Service, buffer: string, j: nat)
    requires Fits(sv) && Holds(buffer, j, HostOn(server, sv))
    ensures Get16(client, buffer, j) == |sv.hostname|
    ensures Slice(buffer, j + 2, |sv.hostname|) == sv.hostname
    ensures Holds(buffer, j + 2 + |sv.hostname|, PortOn(server, sv))
  {
    hide Get16, Put16, Peek, Slice, Holds, PortOn;
    SplitHead(buffer, j, Put16(server, |sv.hostname| % 0x1_0000), sv.hostname + PortOn(server, sv));
    Field16(server, client, |sv.hostname| % 0x1_0000, buffer, j);
    SplitHead(buffer, j + 2, sv.hostname, PortOn(server, sv));
    HoldsSlice(buffer, j + 2, sv.hostname);
  }

  lemma ReadAddresses(server: Endian, client: Endian, sv: Service, buffer: string, i: nat)
    requires Fits(sv) && Holds(buffer, i, Section(server, sv))
    ensures Peek(buffer, i) == 'S'
    ensures Get32(client, buffer, i + 1) == sv.ipv4
    ensures U8(Peek(buffer, i + 5)) == |sv.ipv6|
    ensures Slice(buffer, i + 6, |sv.ipv6|) == sv.ipv6
    ensures Holds(buffer, i + 6 + |sv.ipv6|, HostOn(server, sv))
  {
    hide Get32, Put32, Peek, Slice, Holds, HostOn;
    var t3 := sv.ipv6 + HostOn(server, sv);
    var t2 := [Chr(|sv.ipv6| % 0x100)] + t3;
    var t1 := Put32(server, sv.ipv4) + t2;
    SplitHead(buffer, i, "S", t1);
    HoldsByte(buffer, i, 'S');
    SplitHead(buffer, i + 1, Put32(server, sv.ipv4), t2);
    Field32(server, client, sv.ipv4, buffer, i + 1);
    SplitHead(buffer, i + 5, [Chr(|sv.ipv6| % 0x100)], t3);
    HoldsByte(buffer, i + 5, Chr(|sv.ipv6| % 0x100));
    SplitHead(buffer, i + 6, sv.ipv6, HostOn(server, sv));
    HoldsSlice(buffer, i + 6, sv.ipv6);
  }

  /** Wherever a printed section lies, parsing there gives the service back, on any pair of hosts and
      with the index right behind it, exactly when its strings fit their length fields. */
  lemma SectionRoundTrip(server: Endian, client: Endian, sv: Service, buffer: string, i: nat)
    requires Holds(buffer, i, Section(server, sv))
    ensures ParseSection(client, buffer, i) == (sv, i + |Section(server, sv)|) <==> Fits(sv)
    ensures Fits(sv) ==> Peek(buffer, i) == 'S'
  {
    hide Get16, Get32, Put16, Put32, Peek, Slice, Holds, PortOn, HostOn, Section;
    SectionLength(server, sv);
    if Fits(sv) {
      ReadAddresses(server, client, sv, buffer, i);
      ReadHostOn(server, client, sv, buffer, i + 6 + |sv.ipv6|);
      ReadPortOn(server, client, sv, buffer, i + 8 + |sv.ipv6| + |sv.hostname|);
    }
  }

  // ----- lists of sections -----

  function Sections(host: Endian, list: seq<Service>): string {
    if list == [] then "" else Section(host, list[0]) + Sections(host, list[1..])
  }

  datatype SectionsRead = SectionsRead(ok: bool, services: seq<Service>, next: nat)

  /** Reading `rnum` sections from `i` on; reading stops where an `S` is missing. */
  function ParseSections(host: Endian, buffer: string, i: nat, rnum: nat): (r: SectionsRead)
    ensures r.next >= i
    decreases rnum
  {
    if rnum == 0 then SectionsRead(true, [], i)
    else if Peek(buffer, i) != 'S' then SectionsRead(false, [], i)
    else
      var (sv, j) := ParseSection(host, buffer, i);
      var rest := ParseSections(host, buffer, j, rnum - 1);
      SectionsRead(rest.ok, [sv] + rest.services, rest.next)
  }

  predicate AllFit(list: seq<Service>) {
    forall k :: 0 <= k < |list| ==> Fits(list[k])
  }

  lemma {:induction false} SectionsRoundTrip(server: Endian, client: Endian, list: seq<Service>, buffer: string, i: nat)
    requires Holds(buffer, i, Sections(server, list)) && AllFit(list)
    ensures ParseSections(client, buffer, i, |list|) == SectionsRead(true, list, i + |Sections(server, list)|)
  {
    hide ParseSection, Section, Peek, Holds;
    if list == [] {
    } else {
      SplitHead(buffer, i, Section(server, list[0]), Sections(server, list[1..]));
      SectionRoundTrip(server, client, list[0], buffer, i);
      SectionsRoundTrip(server, client, list[1..], buffer, i + |Section(server, list[0])|);
      assert [list[0]] + list[1..] == list;
    }
  }

  /** What is read always fits, and takes exactly the room its printed form takes. */
  lemma {:induction false} SectionsReadFit(host: Endian, buffer: string, i: nat, rnum: nat)
    ensures var r := ParseSections(host, buffer, i, rnum);
            AllFit(r.services) && r.next == i + |Sections(host, r.services)|
    decreases rnum
  {
    hide ParseSection, Section, Peek;
    if rnum > 0 && Peek(buffer, i) == 'S' {
      var (sv, j) := ParseSection(host, buffer, i);
      var rest := ParseSections(host, buffer, j, rnum - 1);
      SectionsReadFit(host, buffer, j, rnum - 1);
      SectionLength(host, sv);
      assert ([sv] + rest.services)[1..] == rest.services;
    }
  }

  lemma {:induction false} SectionsLength(server: Endian, client: Endian, list: seq<Service>)
    ensures |Sections(server, list)| == |Sections(client, list)| >= 13 * |list|
  {
    if list == [] {
    } else {
      SectionLength(server, list[0]);
      SectionLength(client, list[0]);
      SectionsLength(server, client, list[1..]);
    }
  }

  lemma {:induction false} SectionsAppend(host: Endian, a: seq<Service>, b: seq<Service>)
    ensures Sections(host, a + b) == Sections(host, a) + Sections(host, b)
  {
    if a == [] {
      assert a + b == b;
    } else {
      assert (a + b)[1..] == a[1..] + b;
      SectionsAppend(host, a[1..], b);
    }
  }

  // ----- query messages -----

  function QuerySection(q: Query): string {
    "Q" + [Chr(q.protocol.Code()), Chr(|q.filter| % 0x100)] + if |q.filter| % 0x100 > 0 then q.filter else ""
  }

  function QuerySections(queries: seq<Query>): string {
    if queries == [] then "" else QuerySection(queries[0]) + QuerySections(queries[1..])
  }

  /** The broadcast message for at least one and at most 255 queries. */
  function QueryMessage(host: Endian, queries: seq<Query>): string {
    Message(host, BROADCAST, [Chr(|queries| % 0x100)] + QuerySections(queries))
  }

  /** A query as the server reads it. The protocol byte is read and not used. */
  datatype Asked = Asked(protocol: uint8, filter: string)

  datatype QueriesRead = QueriesRead(queries: seq<Asked>, next: nat)

  /** The queries the server answers when `count` rounds are left at `i`. A round that finds no `Q`
      leaves the index where it is. */
  function ParseQueries(buffer: string, i: nat, count: nat): (r: QueriesRead)
    ensures |r.queries| <= count
    ensures forall k :: 0 <= k < |r.queries| ==> |r.queries[k].filter| < 0x100
    decreases count
  {
    if count == 0 then QueriesRead([], i)
    else if Peek(buffer, i) != 'Q' then ParseQueries(buffer, i, count - 1)
    else
      var prot := U8(Peek(buffer, i + 1));
      var qlen := U8(Peek(buffer, i + 2));
      var rest := ParseQueries(buffer, i + 3 + qlen, count - 1);
      QueriesRead([Asked(prot, Slice(buffer, i + 3, qlen))] + rest.queries, rest.next)
  }

  /** The header checks of the server. */
  predicate IsQueryMessage(host: Endian, buffer: string) {
    && |buffer| >= 10
    && Slice(buffer, 0, 6) == SIGNATURE
    && Get16(host, buffer, 6) == |buffer| - 8
    && U8(Peek(buffer, 8)) == BROADCAST
    && U8(Peek(buffer, 9)) != 0
  }

  function QueriesIn(host: Endian, buffer: string): seq<Asked> {
    if IsQueryMessage(host, buffer) then ParseQueries(buffer, 10, U8(Peek(buffer, 9))).queries else []
  }

  function AskedOf(queries: seq<Query>): (r: seq<Asked>)
    ensures |r| == |queries|
  {
    if queries == [] then [] else [Asked(queries[0].protocol.Code(), queries[0].filter)] + AskedOf(queries[1..])
  }

  predicate FiltersFit(queries: seq<Query>) {
    forall k :: 0 <= k < |queries| ==> |queries[k].filter| < 0x100
  }

  lemma ReadQuery(q: Query, buffer: string, i: nat)
    requires |q.filter| < 0x100 && Holds(buffer, i, QuerySection(q))
    ensures Peek(buffer, i) == 'Q' && U8(Peek(buffer, i + 1)) == q.protocol.Code()
    ensures U8(Peek(buffer, i + 2)) == |q.filter| && Slice(buffer, i + 3, |q.filter|) == q.filter
    ensures |QuerySection(q)| == 3 + |q.filter|
  {
    var head := "Q" + [Chr(q.protocol.Code()), Chr(|q.filter| % 0x100)];
    assert QuerySection(q) == head + q.filter;
    SplitHead(buffer, i, head, q.filter);
    HoldsSlice(buffer, i, head);
    assert Peek(buffer, i + 0) == head[0] && Peek(buffer, i + 1) == head[1] && Peek(buffer, i + 2) == head[2];
    HoldsSlice(buffer, i + 3, q.filter);
  }

  lemma {:induction false} QuerySectionsRead(queries: seq<Query>, buffer: string, i: nat, more: nat)
    requires Holds(buffer, i, QuerySections(queries)) && FiltersFit(queries)
    ensures var rest := ParseQueries(buffer, i + |QuerySections(queries)|, more);
            ParseQueries(buffer, i, |queries| + more) == QueriesRead(AskedOf(queries) + rest.queries, rest.next)
  {
    hide Holds, Peek, Slice, QuerySection;
    var rest := ParseQueries(buffer, i + |QuerySections(queries)|, more);
    if queries == [] {
      assert AskedOf(queries) + rest.queries == rest.queries;
    } else {
      var q := queries[0];
      SplitHead(buffer, i, QuerySection(q), QuerySections(queries[1..]));
      ReadQuery(q, buffer, i);
      QuerySectionsRead(queries[1..], buffer, i + 3 + |q.filter|, more);
      assert [Asked(q.protocol.Code(), q.filter)] + (AskedOf(queries[1..]) + rest.queries)
          == AskedOf(queries) + rest.queries;
    }
  }

  lemma ReadHeader(sender: Endian, receiver: Endian, kind: uint8, count: uint8, body: string, buffer: string, i: nat)
    requires Holds(buffer, i, Message(sender, kind, [Chr(count)] + body))
    ensures Holds(buffer, i, SIGNATURE)
    ensures Get16(receiver, buffer, i + 6) == (|body| + 2) % 0x1_0000
    ensures U8(Peek(buffer, i + 8)) == kind && U8(Peek(buffer, i + 9)) == count
    ensures Holds(buffer, i + 10, body)
    ensures |Message(sender, kind, [Chr(count)] + body)| == 10 + |body|
  {
    var len := Put16(sender, (|[Chr(count)] + body| + 1) % 0x1_0000);
    var t2 := [Chr(kind)] + ([Chr(count)] + body);
    assert Message(sender, kind, [Chr(count)] + body) == SIGNATURE + (len + t2);
    SplitHead(buffer, i, SIGNATURE, len + t2);
    SplitHead(buffer, i + 6, len, t2);
    Field16(sender, receiver, (|[Chr(count)] + body| + 1) % 0x1_0000, buffer, i + 6);
    SplitHead(buffer, i + 8, [Chr(kind)], [Chr(count)] + body);
    SplitHead(buffer, i + 9, [Chr(count)], body);
    HoldsByte(buffer, i + 8, Chr(kind));
    HoldsByte(buffer, i + 9, Chr(count));
  }

  lemma HoldsWhole(buffer: string)
    ensures Holds(buffer, 0, buffer)
  {
    assert buffer[0..|buffer|] == buffer;
  }

  lemma NoQueriesLeft(buffer: string, i: nat)
    ensures ParseQueries(buffer, i, 0) == QueriesRead([], i)
  {
  }

  /** The server recovers exactly the queries sent, in order, with its index at the end of the
      message, exactly when every filter fits its length byte. */
  lemma QueryRoundTrip(client: Endian, server: Endian, queries: seq<Query>)
    requires 1 <= |queries| <= 255
    requires |QueryMessage(client, queries)| <= BUFFER_SIZE
    ensures var buffer := Received(QueryMessage(client, queries));
            && (QueriesIn(server, buffer) == AskedOf(queries) <==> FiltersFit(queries))
            && (FiltersFit(queries) ==>
                  && IsQueryMessage(server, buffer)
                  && ParseQueries(buffer, 10, |queries|) == QueriesRead(AskedOf(queries), |buffer|))
  {
    hide Holds, Peek, Slice, Get16, Message, ParseQueries, AskedOf, QuerySections;
    var buffer := QueryMessage(client, queries);
    var body := QuerySections(queries);
    HoldsWhole(buffer);
    ReadHeader(client, server, BROADCAST, |queries|, body, buffer, 0);
    HoldsSlice(buffer, 0, SIGNATURE);
    if FiltersFit(queries) {
      QuerySectionsRead(queries, buffer, 10, 0);
      assert ParseQueries(buffer, 10 + |body|, 0)
          == QueriesRead([], 10 + |body|) by { NoQueriesLeft(buffer, 10 + |body|); }
      assert |queries| + 0 == |queries|;
      assert AskedOf(queries) + [] == AskedOf(queries);
    } else if QueriesIn(server, buffer) == AskedOf(queries) {
      var k :| 0 <= k < |queries| && |queries[k].filter| >= 0x100;
      AskedAt(queries, k);
    }
  }

  lemma {:induction false} AskedAt(queries: seq<Query>, k: nat)
    requires k < |queries|
    ensures AskedOf(queries)[k] == Asked(queries[k].protocol.Code(), queries[k].filter)
  {
    if k == 0 {
    } else {
      AskedAt(queries[1..], k - 1);
    }
  }

  /** Which datagrams are answered at all, by their bytes: those that begin with the signature, their own
      length less eight, low byte first, type 1, a count, and a query mark. A datagram of ten bytes has
      no byte for the mark and is left out. */
  lemma AnsweredExactly(host: Endian, buffer: string)
    requires |buffer| != 10
    ensures QueriesIn(host, buffer) != []
       <==> && |buffer| > 10 && buffer[..6] == "NYANSD"
            && U8(buffer[6]) + 0x100 * U8(buffer[7]) == |buffer| - 8
            && U8(buffer[8]) == 1 && U8(buffer[9]) != 0 && buffer[10] == 'Q'
  {
    hide ParseQueries;
    if |buffer| > 10 {
      assert Slice(buffer, 0, 6) == buffer[..6];
      QueriesStart(buffer, U8(buffer[9]));
    }
  }

  lemma QueriesStart(buffer: string, count: nat)
    ensures ParseQueries(buffer, 10, count).queries != [] <==> count > 0 && Peek(buffer, 10) == 'Q'
  {
    if Peek(buffer, 10) != 'Q' {
      Stalled(buffer, 10, count);
    }
  }

  /** A query message that has lost bytes at its end, or has others behind it, is not answered. */
  lemma OtherLengthRefused(client: Endian, server: Endian, queries: seq<Query>, buffer: string)
    requires |QueryMessage(client, queries)| < 0x1_0000 && buffer != QueryMessage(client, queries)
    requires buffer <= QueryMessage(client, queries) || QueryMessage(client, queries) <= buffer
    ensures QueriesIn(server, buffer) == []
  {
    hide ParseQueries, QuerySections, Message, Get16, Holds, Slice, Peek;
    var m, body := QueryMessage(client, queries), QuerySections(queries);
    HoldsWhole(m);
    ReadHeader(client, server, BROADCAST, |queries| % 0x100, body, m, 0);
    if |buffer| >= 10 {
      if |buffer| < |m| {
        assert m == buffer + m[|buffer|..];
        FieldsWithin(server, buffer, m[|buffer|..], 6);
      } else {
        assert buffer == m + buffer[|m|..];
        FieldsWithin(server, m, buffer[|m|..], 6);
      }
      assert |buffer| != |m|;
    }
  }

  lemma {:induction false} Stalled(buffer: string, i: nat, count: nat)
    requires Peek(buffer, i) != 'Q'
    ensures ParseQueries(buffer, i, count) == QueriesRead([], i)
  {
    if count == 0 {
    } else {
      Stalled(buffer, i, count - 1);
    }
  }

  /** When the sections before some point are well formed and the received byte there is not a `Q`,
      exactly those sections are answered, however many more the count announces, and the index stays. */
  lemma StallsAtMissingMark(queries: seq<Query>, buffer: string, i: nat, count: nat)
    requires Holds(buffer, i, QuerySections(queries)) && FiltersFit(queries)
    requires |queries| <= count
    requires i + |QuerySections(queries)| < |buffer| && buffer[i + |QuerySections(queries)|] != 'Q'
    ensures ParseQueries(buffer, i, count) == QueriesRead(AskedOf(queries), i + |QuerySections(queries)|)
  {
    QuerySectionsRead(queries, buffer, i, count - |queries|);
    Stalled(buffer, i + |QuerySections(queries)|, count - |queries|);
    assert AskedOf(queries) + [] == AskedOf(queries);
  }
}
