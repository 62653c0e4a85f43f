/** The desktop client and the small client, written apart, against each other. */
module ClientsAgree {
  import opened ByteOrder
  import opened Text
  import opened Wire
  import opened Response
  import opened ArduinoClient
  import EndToEnd

  // ----- encoders -----

  function DesktopQueries(queries: seq<CQuery>): (r: seq<Query>)
    ensures |r| == |queries|
  {
    if queries == [] then [] else [Query(queries[0].protocol, queries[0].filter)] + DesktopQueries(queries[1..])
  }

  /** The length given beside a filter and the filter's own length agree as bytes. */
  predicate LengthsAgree(queries: seq<CQuery>) {
    forall k :: 0 <= k < |queries| ==> queries[k].length % 0x100 == |queries[k].filter| % 0x100
  }

  lemma SectionsAgree(q: CQuery, u: string, v: string)
    ensures EncodedSection(q) + u == QuerySection(Query(q.protocol, q.filter)) + v
       <==> q.length % 0x100 == |q.filter| % 0x100 && u == v
  {
    var d := Query(q.protocol, q.filter);
    var a, b := EncodedSection(q) + u, QuerySection(d) + v;
    assert a[2] == Chr(q.length % 0x100) && b[2] == Chr(|q.filter| % 0x100);
    if q.length % 0x100 == |q.filter| % 0x100 {
      assert EncodedSection(q) == QuerySection(d);
      assert a[|QuerySection(d)|..] == u && b[|QuerySection(d)|..] == v;
    } else {
      assert U8(a[2]) != U8(b[2]);
    }
  }

  lemma {:induction false} BodiesAgree(queries: seq<CQuery>)
    ensures EncodedSections(queries) == QuerySections(DesktopQueries(queries)) <==> LengthsAgree(queries)
  {
    hide EncodedSection, QuerySection;
    if queries == [] {
    } else {
      BodiesAgree(queries[1..]);
      assert DesktopQueries(queries)[1..] == DesktopQueries(queries[1..]);
      SectionsAgree(queries[0], EncodedSections(queries[1..]), QuerySections(DesktopQueries(queries[1..])));
      assert LengthsAgree(queries)
          <==> queries[0].length % 0x100 == |queries[0].filter| % 0x100 && LengthsAgree(queries[1..]) by {
        assert forall k :: 0 < k < |queries| ==> queries[k] == queries[1..][k - 1];
      }
    }
  }

  /** For one to 255 queries the two encoders emit the same bytes, whatever host the desktop client
      runs on, exactly when each given length agrees, as a byte, with the length of its filter. */
  lemma EncodersAgree(desktop: Endian, queries: seq<CQuery>)
    requires 1 <= |queries| <= 255
    ensures Encoded(queries) == QueryMessage(desktop, DesktopQueries(queries)) <==> LengthsAgree(queries)
  {
    hide EncodedSections, QuerySections, DesktopQueries, Message, LengthsAgree;
    BodiesAgree(queries);
    EncodedIsMessage(queries);
    MessagesEqual(LittleEndian, desktop, |queries| % 0x100, EncodedSections(queries),
        QuerySections(DesktopQueries(queries)));
  }

  lemma EncodedIsMessage(queries: seq<CQuery>)
    ensures Encoded(queries) == Message(LittleEndian, BROADCAST, [Chr(|queries| % 0x100)] + EncodedSections(queries))
  {
    hide EncodedSections, Store16;
  }

  /** Two messages of the same type and count are equal, on any hosts, exactly when their sections
      are. */
  lemma MessagesEqual(h: Endian, g: Endian, count: uint8, x: string, y: string)
    ensures Message(h, BROADCAST, [Chr(count)] + x) == Message(g, BROADCAST, [Chr(count)] + y) <==> x == y
  {
    hide Put16, Store16;
    var p, q := Message(h, BROADCAST, [Chr(count)] + x), Message(g, BROADCAST, [Chr(count)] + y);
    assert p[10..] == x && q[10..] == y;
    Field16(h, h, (|[Chr(count)] + x| + 1) % 0x1_0000, "", 0);
    Field16(g, g, (|[Chr(count)] + y| + 1) % 0x1_0000, "", 0);
  }

  // ----- decoders -----

  /** What a host of either kind reads as a field does not depend on the host. */
  lemma FieldsReadAlike(host: Endian, buffer: string, i: nat)
    ensures Get16(host, buffer, i) == Load16(LittleEndian, buffer, i).Number()
    ensures Get32(host, buffer, i) == Load32(LittleEndian, buffer, i)
  {
  }

  lemma SectionsReadAlike(host: Endian, buffer: string, i: nat)
    ensures ParseSection(host, buffer, i) == ParseSection(LittleEndian, buffer, i)
  {
    hide Get16, Get32, Load16, Load32, Peek, Slice;
    forall k: nat
      ensures Get16(host, buffer, k) == Get16(LittleEndian, buffer, k)
          && Get32(host, buffer, k) == Get32(LittleEndian, buffer, k)
    {
      FieldsReadAlike(host, buffer, k);
      FieldsReadAlike(LittleEndian, buffer, k);
    }
  }

  /** What the desktop client makes of one datagram. */
  function Desktop(host: Endian, buffer: string): Outcome {
    if |buffer| < 8 then Outcome(false, []) else ParseMessages(host, buffer, 0)
  }

  /** On any bytes at all: a service the small client finds, its section within the datagram, is the
      first the desktop client finds; and where it reports an error other than a foreign message type,
      on a datagram long enough for what it has read, the desktop client fails with nothing found. A
      section that runs past the datagram is left to whatever the two memories hold behind it. */
  lemma FirstServiceAgrees(host: Endian, buffer: string)
    requires |buffer| < 0x1_0000_0000
    ensures var first, all := ParseFirst(buffer), Desktop(host, buffer);
            && (first.service.Some? && ParseSection(LittleEndian, buffer, 10).1 <= |buffer| ==>
                  all.services != [] && all.services[0] == first.service.value)
            && (first.code in {8, 9, 10} || (first.code == 12 && |buffer| > 10) ==> all == Outcome(false, []))
  {
    hide Get16, Load16, Peek, Slice, ParseSection;
    FieldsReadAlike(host, buffer, 6);
    SectionsReadAlike(host, buffer, 10);
    if |buffer| >= 8 {
      assert Remaining(|buffer|, 8) == |buffer| - 8;
      var rnum := U8(Peek(buffer, 9));
      if rnum > 0 {
        FirstOfSections(host, buffer, 10, rnum);
      }
    }
  }

  /** That condition is one on the received bytes alone: whatever two memories hold behind a datagram,
      a section that ends within the datagram in one of them is the same section in the other. */
  lemma BehindIsNotRead(host: Endian, buffer: string, mine: string, yours: string, i: nat)
    ensures ParseSection(host, buffer + mine, i).1 <= |buffer| ==>
              ParseSection(host, buffer + yours, i) == ParseSection(host, buffer + mine, i)
  {
    if ParseSection(host, buffer + mine, i).1 <= |buffer| {
      SectionWithin(host, buffer, mine, i);
      SectionWithin(host, buffer, yours, i);
    }
  }

  lemma FirstOfSections(host: Endian, buffer: string, i: nat, rnum: nat)
    requires rnum > 0
    ensures var r := ParseSections(host, buffer, i, rnum);
            if Peek(buffer, i) != 'S' then r == SectionsRead(false, [], i)
            else r.services != [] && r.services[0] == ParseSection(host, buffer, i).0
  {
    hide ParseSection, Peek;
  }

  /** The first service of each list, empty lists skipped. */
  function Firsts(lists: seq<seq<Service>>): seq<Service> {
    if lists == [] then [] else (if lists[0] == [] then [] else [lists[0][0]]) + Firsts(lists[1..])
  }

  /** One well-formed message from a responder of either kind. */
  datatype OneMessage = OneMessage(host: Endian, list: seq<Service>) {
    function Text(): string {
      ResponseMessage(host, list)
    }

    predicate Good() {
      Sendable(list) && |Text()| <= BUFFER_SIZE
    }
  }

  function Payloads(messages: seq<OneMessage>): (r: seq<string>)
    ensures |r| == |messages|
  {
    if messages == [] then [] else [messages[0].Text()] + Payloads(messages[1..])
  }

  function ListsIn(messages: seq<OneMessage>): (r: seq<seq<Service>>)
    ensures |r| == |messages|
  {
    if messages == [] then [] else [messages[0].list] + ListsIn(messages[1..])
  }

  lemma FirstOfMessage(m: OneMessage)
    requires m.Good()
    ensures ParseFirst(m.Text()) == First(0, if m.list == [] then None else Some(m.list[0]))
  {
    hide Sections, Holds, Slice, Peek, Get16, Load16, ParseSection, Message;
    var buffer, body := m.Text(), Sections(m.host, m.list);
    HoldsWhole(buffer);
    ReadHeader(m.host, LittleEndian, RESPONSE, |m.list| % 0x100, body, buffer, 0);
    HoldsSlice(buffer, 0, SIGNATURE);
    FieldsReadAlike(LittleEndian, buffer, 6);
    if m.list != [] {
      SectionsRoundTrip(m.host, LittleEndian, m.list, buffer, 10);
      FirstOfSections(LittleEndian, buffer, 10, |m.list|);
    }
  }

  /** On datagrams of one well-formed message each, the desktop client's list is the concatenation of
      the message lists, and the small client's is the first service of each, empty messages
      skipped; every datagram is drained and freed. */
  lemma {:induction false} DecodersAgree(desktop: Endian, messages: seq<OneMessage>)
    requires forall k :: 0 <= k < |messages| ==> messages[k].Good()
    ensures ParseDatagrams(desktop, Payloads(messages)) == Outcome(true, Concat(ListsIn(messages)))
    ensures Drain(Payloads(messages)) == Drained(0, Firsts(ListsIn(messages)), |messages|)
  {
    hide ParseFirst, ParseMessages, ResponseMessage, Sendable;
    if messages == [] {
    } else {
      var m := messages[0];
      FirstOfMessage(m);
      EndToEnd.OneMessage(m.host, desktop, m.list);
      ResponseLength(m.host, m.list);
      DecodersAgree(desktop, messages[1..]);
      assert Payloads(messages)[1..] == Payloads(messages[1..]);
      assert ListsIn(messages)[1..] == ListsIn(messages[1..]);
    }
  }
}
