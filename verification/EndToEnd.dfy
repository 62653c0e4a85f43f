/** From a responder's table to a querier's list. */
module EndToEnd {
  import opened ByteOrder
  import opened Text
  import opened Wire
  import opened Response

  /** What it takes to list every service of a table: a local address where the service has none,
      and an IPv6 text that fits its length byte where it has one. */
  predicate Deliverable(table: seq<Service>, local: Option<Word32>) {
    forall k :: 0 <= k < |table| ==> if table[k].ipv4 == ZERO then local.Some? else |table[k].ipv6| < 0x100
  }

  lemma {:induction false} ListedAt(table: seq<Service>, local: Option<Word32>, k: nat)
    requires Resolvable(table, local) && k < |table|
    ensures |Listed(table, local)| == |table|
    ensures Listed(table, local)[k] == Substituted(table[k], local).value
  {
    assert Unresolved(table, local) == 0;
    var before := table[..|table| - 1];
    assert forall h :: 0 <= h < |before| ==> Substituted(before[h], local) == Substituted(table[h], local);
    assert Unresolved(before, local) == 0;
    if k < |before| {
      ListedAt(before, local, k);
    }
  }

  /** What a querier gets for a service: the service itself when it has an address of its own, and
      otherwise the service with the local address and no IPv6 text. */
  predicate IsDelivered(sv: Service, local: Option<Word32>, got: Service) {
    && got.hostname == sv.hostname && got.port == sv.port && got.service == sv.service && got.protocol == sv.protocol
    && (sv.ipv4 != ZERO ==> got.ipv4 == sv.ipv4 && got.ipv6 == sv.ipv6)
    && (sv.ipv4 == ZERO ==> local.Some? && got.ipv4 == local.value && got.ipv6 == "")
  }

  /** One service got for each of a list, in order. */
  predicate AreDelivered(list: seq<Service>, local: Option<Word32>, got: seq<Service>) {
    |got| == |list| && forall k :: 0 <= k < |list| ==> IsDelivered(list[k], local, got[k])
  }

  lemma ListedIsDelivered(table: seq<Service>, local: Option<Word32>)
    requires Resolvable(table, local)
    ensures AreDelivered(table, local, Listed(table, local))
  {
    hide Listed;
    assert Unresolved(table, local) == 0;
    forall k | 0 <= k < |table|
      ensures IsDelivered(table[k], local, Listed(table, local)[k])
    {
      ListedAt(table, local, k);
    }
  }

  lemma OwnAddressesDelivered(table: seq<Service>, local: Option<Word32>, got: seq<Service>)
    requires AreDelivered(table, local, got) && forall k :: 0 <= k < |table| ==> table[k].ipv4 != ZERO
    ensures got == table
  {
  }

  lemma {:induction false} EachSectionInRoom(host: Endian, list: seq<Service>, k: nat)
    requires k < |list|
    ensures |Section(host, list[k])| <= |Sections(host, list)|
  {
    hide Section;
    if k == 0 {
    } else {
      EachSectionInRoom(host, list[1..], k - 1);
    }
  }

  /** In a message that fits a receive buffer only an IPv6 text can be too long for its field, and
      there are never too many sections. */
  lemma RoomBounds(host: Endian, list: seq<Service>)
    requires |Sections(host, list)| <= BUFFER_SIZE - 10
    ensures |list| <= 255
    ensures forall k :: 0 <= k < |list| ==> |list[k].hostname| < 0x1_0000 && |list[k].service| < 0x1_0000
  {
    hide Section, Sections;
    SectionsLength(host, host, list);
    forall k | 0 <= k < |list|
      ensures |list[k].hostname| < 0x1_0000 && |list[k].service| < 0x1_0000
    {
      EachSectionInRoom(host, list, k);
      SectionLength(host, list[k]);
    }
  }

  lemma DeliverableFits(host: Endian, table: seq<Service>, local: Option<Word32>)
    requires |Sections(host, Listed(table, local))| <= BUFFER_SIZE - 10
    ensures Deliverable(table, local) <==> Resolvable(table, local) && Sendable(Listed(table, local))
  {
    hide Sections, Listed;
    var list := Listed(table, local);
    RoomBounds(host, list);
    if Resolvable(table, local) {
      forall k | 0 <= k < |table|
        ensures |list| == |table| && list[k] == Substituted(table[k], local).value
      {
        ListedAt(table, local, k);
      }
      assert Unresolved(table, local) == 0;
      assert |list| == |table|;
    }
  }

  lemma AnswerOfSelected(host: Endian, table: seq<Service>, filter: string, local: Option<Word32>)
    ensures var sel := Selected(table, filter);
            Answer(host, table, filter, local)
                == Reply(host, WildcardBody(host, sel, local), |Listed(sel, local)| % 0x100)
  {
    BranchesAgree(host, table, filter, local);
    CountsListed(Selected(table, filter), local);
  }

  /** One answer, from the responder's table to the querier's list, for any pair of hosts, any table
      and any filter: as long as the datagram fits the receive buffer, the message parses to the
      selected services in table order, with the local address substituted and the index at the end
      of the datagram, exactly when every selected service can be listed. */
  lemma AnswerRead(server: Endian, client: Endian, table: seq<Service>, filter: string, local: Option<Word32>)
    requires |Answer(server, table, filter, local)| <= BUFFER_SIZE
    ensures var sel, datagram := Selected(table, filter), Received(Answer(server, table, filter, local));
            && (ParseSections(client, datagram, 10, U8(Peek(datagram, 9)))
                == SectionsRead(true, Listed(sel, local), |datagram|)
                <==> Deliverable(sel, local))
            && (Deliverable(sel, local) ==> ParseMessages(client, datagram, 0) == Outcome(true, Listed(sel, local)))
            && (Deliverable(sel, local) ==> AreDelivered(sel, local, Listed(sel, local)))
            && |datagram| >= 10
  {
    hide AreDelivered, Answer, ParseSections, ParseMessages, Peek, Sections, Listed, WildcardBody, Holds, Message;
    var sel := Selected(table, filter);
    var list, body := Listed(sel, local), WildcardBody(server, sel, local);
    var datagram := Answer(server, table, filter, local);
    AnswerOfSelected(server, table, filter, local);
    HoldsWhole(datagram);
    ReadHeader(server, client, RESPONSE, |list| % 0x100, body, datagram, 0);
    BodyLength(server, sel, local);
    DeliverableFits(server, sel, local);
    RoomBounds(server, list);
    if Deliverable(sel, local) {
      SectionsRoundTrip(server, client, list, datagram, 10);
      OneMessage(server, client, list);
      ListedIsDelivered(sel, local);
    } else {
      SectionsReadFit(client, datagram, 10, |list|);
      SectionsLength(server, client, list);
    }
  }

  /** The same without a list of the printer's: every selected service arrives once, in table order,
      with all its fields, and a table of services with addresses of their own arrives as it is. */
  lemma AnswerDelivered(server: Endian, client: Endian, table: seq<Service>, filter: string, local: Option<Word32>)
    requires |Answer(server, table, filter, local)| <= BUFFER_SIZE && Deliverable(Selected(table, filter), local)
    ensures var sel, datagram := Selected(table, filter), Received(Answer(server, table, filter, local));
            var outcome := ParseMessages(client, datagram, 0);
            && outcome.ok && AreDelivered(sel, local, outcome.services)
            && ((forall k :: 0 <= k < |sel| ==> sel[k].ipv4 != ZERO) ==> outcome == Outcome(true, sel))
  {
    hide Answer, ParseMessages, ParseSections, Selected, Deliverable, Received, AreDelivered, Listed;
    AnswerRead(server, client, table, filter, local);
    var sel := Selected(table, filter);
    if forall k :: 0 <= k < |sel| ==> sel[k].ipv4 != ZERO {
      OwnAddressesDelivered(sel, local, Listed(sel, local));
    }
  }

  lemma OneMessage(server: Endian, client: Endian, list: seq<Service>)
    requires Sendable(list) && |ResponseMessage(server, list)| < 0x1_0000_0000
    ensures ParseMessages(client, ResponseMessage(server, list), 0) == Outcome(true, list)
  {
    hide ParseMessages, ResponseMessage;
    var lists := [list];
    assert lists[1..] == [];
    assert Concat(lists) == list + [] == list;
    assert Packet(server, lists) == ResponseMessage(server, list) + "" == ResponseMessage(server, list);
    PacketRead(server, client, lists);
  }

  /** One answer on its way: whose it is, over which snapshot of a table, to which filter. */
  datatype Arrival = Arrival(host: Endian, table: seq<Service>, filter: string, local: Option<Word32>) {
    function Datagram(): string {
      Answer(host, table, filter, local)
    }

    function Expected(): seq<Service> {
      Listed(Selected(table, filter), local)
    }

    predicate Good() {
      |Datagram()| <= BUFFER_SIZE && Deliverable(Selected(table, filter), local)
    }
  }

  function Datagrams(arrivals: seq<Arrival>): (r: seq<string>)
    ensures |r| == |arrivals|
  {
    if arrivals == [] then [] else [Received(arrivals[0].Datagram())] + Datagrams(arrivals[1..])
  }

  function ExpectedList(arrivals: seq<Arrival>): seq<Service> {
    if arrivals == [] then [] else arrivals[0].Expected() + ExpectedList(arrivals[1..])
  }

  /** One list for each answer, holding what its responder had selected. */
  predicate ListsDelivered(arrivals: seq<Arrival>, lists: seq<seq<Service>>) {
    && |lists| == |arrivals|
    && forall k :: 0 <= k < |arrivals| ==>
         AreDelivered(Selected(arrivals[k].table, arrivals[k].filter), arrivals[k].local, lists[k])
  }

  ghost predicate Delivered(arrivals: seq<Arrival>, got: seq<Service>) {
    exists lists: seq<seq<Service>> :: ListsDelivered(arrivals, lists) && got == Concat(lists)
  }

  lemma {:induction false} ExpectedIsDelivered(arrivals: seq<Arrival>) returns (lists: seq<seq<Service>>)
    requires forall k :: 0 <= k < |arrivals| ==> arrivals[k].Good()
    ensures ListsDelivered(arrivals, lists) && ExpectedList(arrivals) == Concat(lists)
  {
    hide Answer, Selected, Listed, AreDelivered;
    if arrivals == [] {
      lists := [];
    } else {
      var a := arrivals[0];
      assert a.Good();
      ListedIsDelivered(Selected(a.table, a.filter), a.local);
      var rest := ExpectedIsDelivered(arrivals[1..]);
      lists := [a.Expected()] + rest;
      assert lists[1..] == rest;
    }
  }

  /** Any answers of any responders in any order of arrival: the querier's list is, answer by answer,
      what each responder had selected. */
  lemma {:induction false} ArrivalsRead(client: Endian, arrivals: seq<Arrival>)
    requires forall k :: 0 <= k < |arrivals| ==> arrivals[k].Good()
    ensures ParseDatagrams(client, Datagrams(arrivals)) == Outcome(true, ExpectedList(arrivals))
    ensures Delivered(arrivals, ExpectedList(arrivals))
  {
    hide ParseMessages, ParseSections, Answer, Peek, Deliverable, ListsDelivered, AreDelivered;
    var lists := ExpectedIsDelivered(arrivals);
    if arrivals == [] {
    } else {
      var a := arrivals[0];
      AnswerRead(a.host, client, a.table, a.filter, a.local);
      ArrivalsRead(client, arrivals[1..]);
      assert Datagrams(arrivals)[1..] == Datagrams(arrivals[1..]);
    }
  }

  /** The answers of one responder to a list of queries. */
  function ArrivalsOf(host: Endian, table: seq<Service>, local: Option<Word32>, queries: seq<Query>): (r: seq<Arrival>)
    ensures |r| == |queries|
  {
    if queries == [] then []
    else
      ArrivalsOf(host, table, local, queries[..|queries| - 1])
      + [Arrival(host, table, queries[|queries| - 1].filter, local)]
  }

  lemma {:induction false} AskedAppend(queries: seq<Query>, q: Query)
    ensures AskedOf(queries + [q]) == AskedOf(queries) + [Asked(q.protocol.Code(), q.filter)]
  {
    if queries == [] {
      assert [q][1..] == [];
    } else {
      assert (queries + [q])[1..] == queries[1..] + [q];
      AskedAppend(queries[1..], q);
    }
  }

  lemma {:induction false} DatagramsAppendOne(arrivals: seq<Arrival>, a: Arrival)
    ensures Datagrams(arrivals + [a]) == Datagrams(arrivals) + [Received(a.Datagram())]
  {
    if arrivals == [] {
      assert [a][1..] == [];
    } else {
      assert (arrivals + [a])[1..] == arrivals[1..] + [a];
      DatagramsAppendOne(arrivals[1..], a);
    }
  }

  lemma {:induction false} AnswersArrive(host: Endian, table: seq<Service>, local: Option<Word32>, queries: seq<Query>)
    requires forall k :: 0 <= k < |queries| ==> |Answer(host, table, queries[k].filter, local)| <= BUFFER_SIZE
    ensures Answers(host, table, AskedOf(queries), local) == Datagrams(ArrivalsOf(host, table, local, queries))
  {
    hide Answer;
    if queries == [] {
    } else {
      var before, q := queries[..|queries| - 1], queries[|queries| - 1];
      assert queries == before + [q];
      AskedAppend(before, q);
      AnswersArrive(host, table, local, before);
      DatagramsAppendOne(ArrivalsOf(host, table, local, before), Arrival(host, table, q.filter, local));
    }
  }

  lemma {:induction false} ArrivalsOfAt(host: Endian, table: seq<Service>, local: Option<Word32>,
                                        queries: seq<Query>, k: nat)
    requires k < |queries|
    ensures ArrivalsOf(host, table, local, queries)[k] == Arrival(host, table, queries[k].filter, local)
  {
    if k < |queries| - 1 {
      ArrivalsOfAt(host, table, local, queries[..|queries| - 1], k);
    }
  }

  predicate AllAnswered(table: seq<Service>, local: Option<Word32>, queries: seq<Query>, lists: seq<seq<Service>>) {
    && |lists| == |queries|
    && forall k :: 0 <= k < |queries| ==> AreDelivered(Selected(table, queries[k].filter), local, lists[k])
  }

  /** A list got for queries: one after the other, what each selects from the table. */
  ghost predicate QueriesAnswered(table: seq<Service>, local: Option<Word32>, queries: seq<Query>,
                                  got: seq<Service>)
  {
    exists lists: seq<seq<Service>> :: AllAnswered(table, local, queries, lists) && got == Concat(lists)
  }

  /** Query and answer together: one to 255 queries sent as one message are all answered, in order
      and once each, and the querier ends up with exactly the services each of them selects. */
  lemma QueriesDelivered(client: Endian, server: Endian, table: seq<Service>, local: Option<Word32>,
                         queries: seq<Query>)
    requires 1 <= |queries| <= 255 && FiltersFit(queries)
    requires |QueryMessage(client, queries)| <= BUFFER_SIZE
    requires forall k :: 0 <= k < |queries| ==> Arrival(server, table, queries[k].filter, local).Good()
    ensures var asked := QueriesIn(server, Received(QueryMessage(client, queries)));
            var answers := Answers(server, table, asked, local);
            && |answers| == |queries|
            && ParseDatagrams(client, answers) == Outcome(true, ExpectedList(ArrivalsOf(server, table, local, queries)))
            && QueriesAnswered(table, local, queries, ParseDatagrams(client, answers).services)
  {
    hide ListsDelivered, QueriesIn, AskedOf, Answer, Deliverable, ParseDatagrams, QueryMessage, ParseQueries;
    hide IsQueryMessage;
    QueryRoundTrip(client, server, queries);
    forall k | 0 <= k < |queries|
      ensures |Answer(server, table, queries[k].filter, local)| <= BUFFER_SIZE
    {
      assert Arrival(server, table, queries[k].filter, local).Good();
    }
    AnswersArrive(server, table, local, queries);
    var arrivals := ArrivalsOf(server, table, local, queries);
    forall k | 0 <= k < |arrivals|
      ensures arrivals[k].Good()
    {
      ArrivalsOfAt(server, table, local, queries, k);
    }
    ArrivalsRead(client, arrivals);
    AnsweredByQuery(server, table, local, queries, ExpectedList(arrivals));
  }

  lemma AnsweredByQuery(server: Endian, table: seq<Service>, local: Option<Word32>, queries: seq<Query>,
                        got: seq<Service>)
    requires Delivered(ArrivalsOf(server, table, local, queries), got)
    ensures QueriesAnswered(table, local, queries, got)
  {
    hide AreDelivered, Selected;
    var arrivals := ArrivalsOf(server, table, local, queries);
    var lists: seq<seq<Service>> :| ListsDelivered(arrivals, lists) && got == Concat(lists);
    forall k | 0 <= k < |queries|
      ensures AreDelivered(Selected(table, queries[k].filter), local, lists[k])
    {
      ArrivalsOfAt(server, table, local, queries, k);
    }
    assert AllAnswered(table, local, queries, lists);
  }
}
