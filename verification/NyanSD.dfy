/** The NyanSD library object: its service table, the work of its listener on one received datagram,
    and the query a client sends (src/nyansd.cpp). */
module NyanSD {
  import opened ByteOrder
  import opened Text
  import opened Wire
  import opened Response
  import opened LocalAddress
  import opened EndToEnd

  /** An interface as a query meets it: its first IPv4 address if it has one, whether sending on it
      works, and the datagrams that arrive on it in time. */
  datatype Interface = Interface(firstIPv4: Option<string>, sends: bool, arriving: seq<string>)

  /** The interfaces a query really goes out on. */
  predicate Usable(ifc: Interface) {
    ifc.firstIPv4.Some? && ifc.sends
  }

  /** Where the query message is sent, in order. */
  function BroadcastTo(interfaces: seq<Interface>): seq<string> {
    if interfaces == [] then []
    else
      BroadcastTo(interfaces[..|interfaces| - 1])
      + if Usable(interfaces[|interfaces| - 1])
        then [BroadcastText(interfaces[|interfaces| - 1].firstIPv4.value)] else []
  }

  function ReceivedAll(datagrams: seq<string>): seq<string> {
    if datagrams == [] then []
    else ReceivedAll(datagrams[..|datagrams| - 1]) + [Received(datagrams[|datagrams| - 1])]
  }

  /** The buffers that are filled before parsing starts. */
  function Buffers(interfaces: seq<Interface>): seq<string> {
    if interfaces == [] then []
    else
      Buffers(interfaces[..|interfaces| - 1])
      + if Usable(interfaces[|interfaces| - 1]) then ReceivedAll(interfaces[|interfaces| - 1].arriving) else []
  }

  lemma {:induction false} ConcatLast<T>(lists: seq<seq<T>>)
    requires lists != []
    ensures Concat(lists) == Concat(lists[..|lists| - 1]) + lists[|lists| - 1]
  {
    var before, last := lists[..|lists| - 1], lists[|lists| - 1];
    if before == [] {
      assert lists == [last] && lists[1..] == [];
      assert last + [] == last == [] + last;
    } else {
      ConcatLast(lists[1..]);
      assert lists[1..][..|lists| - 2] == before[1..];
      assert lists[0] + (Concat(before[1..]) + last) == lists[0] + Concat(before[1..]) + last;
    }
  }

  /** How many of the first interfaces the query goes out on. */
  ghost function UsableBefore(interfaces: seq<Interface>, i: nat): nat
    requires i <= |interfaces|
  {
    |set h: nat | h < i && Usable(interfaces[h])|
  }

  lemma UsableStep(interfaces: seq<Interface>, n: nat)
    requires n <= |interfaces|
    ensures n == 0 ==> UsableBefore(interfaces, n) == 0
    ensures n < |interfaces| ==>
              UsableBefore(interfaces, n + 1) == UsableBefore(interfaces, n) + if Usable(interfaces[n]) then 1 else 0
  {
    hide Usable;
    var some := set h: nat | h < n && Usable(interfaces[h]);
    assert n == 0 ==> some == {};
    if n < |interfaces| {
      assert (set h: nat | h < n + 1 && Usable(interfaces[h])) == some + if Usable(interfaces[n]) then {n} else {};
    }
  }

  lemma UsableInFront(interfaces: seq<Interface>, n: nat, i: nat)
    requires i <= n <= |interfaces|
    ensures UsableBefore(interfaces[..n], i) == UsableBefore(interfaces, i)
  {
    hide Usable;
    assert (set h: nat | h < i && Usable(interfaces[..n][h])) == (set h: nat | h < i && Usable(interfaces[h]));
  }

  /** The message goes once to the broadcast address of every usable interface, in order, and nowhere
      else. */
  lemma {:induction false} BroadcastsEach(interfaces: seq<Interface>)
    ensures |BroadcastTo(interfaces)| == UsableBefore(interfaces, |interfaces|)
    ensures forall i :: 0 <= i < |interfaces| && Usable(interfaces[i]) ==>
              && UsableBefore(interfaces, i) < |BroadcastTo(interfaces)|
              && BroadcastTo(interfaces)[UsableBefore(interfaces, i)] == BroadcastText(interfaces[i].firstIPv4.value)
  {
    hide BroadcastText, UsableBefore;
    if interfaces == [] {
      UsableStep(interfaces, 0);
    } else {
      var n := |interfaces| - 1;
      BroadcastsEach(interfaces[..n]);
      UsableStep(interfaces, n);
      UsableInFront(interfaces, n, n);
      forall i | 0 <= i < |interfaces| && Usable(interfaces[i])
        ensures UsableBefore(interfaces, i) < |BroadcastTo(interfaces)|
        ensures BroadcastTo(interfaces)[UsableBefore(interfaces, i)] == BroadcastText(interfaces[i].firstIPv4.value)
      {
        UsableInFront(interfaces, n, i);
        assert i < n ==> interfaces[..n][i] == interfaces[i];
      }
    }
  }

  /** The datagrams of an interface as they are received: those of good answers of any responders. */
  predicate CameFrom(arriving: seq<string>, arrivals: seq<Arrival>) {
    && |arriving| == |arrivals|
    && forall k :: 0 <= k < |arriving| ==> arrivals[k].Good() && arriving[k] == arrivals[k].Datagram()
  }

  /** On each usable interface good answers arrive, and `lists` says what they list; nothing comes from
      the other interfaces. */
  predicate AnswersArriving(interfaces: seq<Interface>, arrivals: seq<seq<Arrival>>, lists: seq<seq<Service>>) {
    && |arrivals| == |interfaces| && |lists| == |interfaces|
    && forall i :: 0 <= i < |interfaces| ==>
         if Usable(interfaces[i])
         then CameFrom(interfaces[i].arriving, arrivals[i]) && lists[i] == ExpectedList(arrivals[i])
         else lists[i] == []
  }

  lemma {:induction false} ReceivedEach(datagrams: seq<string>)
    ensures |ReceivedAll(datagrams)| == |datagrams|
    ensures forall k :: 0 <= k < |datagrams| ==> ReceivedAll(datagrams)[k] == Received(datagrams[k])
  {
    if datagrams == [] {
    } else {
      ReceivedEach(datagrams[..|datagrams| - 1]);
    }
  }

  lemma {:induction false} DatagramsEach(arrivals: seq<Arrival>)
    ensures forall k :: 0 <= k < |arrivals| ==> Datagrams(arrivals)[k] == Received(arrivals[k].Datagram())
  {
    hide Answer;
    if arrivals == [] {
    } else {
      DatagramsEach(arrivals[1..]);
    }
  }

  lemma ReceivedAnswers(client: Endian, arriving: seq<string>, arrivals: seq<Arrival>)
    requires CameFrom(arriving, arrivals)
    ensures ParseDatagrams(client, ReceivedAll(arriving)) == Outcome(true, ExpectedList(arrivals))
  {
    hide ParseDatagrams, Answer, Received, ExpectedList, Deliverable, ReceivedAll, Datagrams, Delivered;
    ReceivedEach(arriving);
    DatagramsEach(arrivals);
    assert ReceivedAll(arriving) == Datagrams(arrivals);
    ArrivalsRead(client, arrivals);
  }

  /** Every datagram of every usable interface is parsed, interface by interface and in order of
      arrival. */
  lemma {:induction false} BuffersParsed(client: Endian, interfaces: seq<Interface>, arrivals: seq<seq<Arrival>>,
                                         lists: seq<seq<Service>>)
    requires AnswersArriving(interfaces, arrivals, lists)
    ensures ParseDatagrams(client, Buffers(interfaces)) == Outcome(true, Concat(lists))
  {
    hide ParseMessages, ReceivedAll, ExpectedList, CameFrom, Concat;
    if interfaces == [] {
      NoLists(lists);
    } else {
      var n := |interfaces| - 1;
      var before := Buffers(interfaces[..n]);
      BuffersParsed(client, interfaces[..n], arrivals[..n], lists[..n]);
      ConcatLast(lists);
      if Usable(interfaces[n]) {
        ReceivedAnswers(client, interfaces[n].arriving, arrivals[n]);
        DatagramsAppend(client, before, ReceivedAll(interfaces[n].arriving));
      } else {
        assert before + [] == before && Concat(lists[..n]) + [] == Concat(lists[..n]);
      }
    }
  }

  lemma NoLists<T>(lists: seq<seq<T>>)
    requires lists == []
    ensures Concat(lists) == []
  {
  }

  /** A service as it is stored: an empty host name is replaced by the system's. */
  function Registered(sv: Service, systemHost: string): Service {
    if sv.hostname == "" then sv.(hostname := systemHost) else sv
  }

  predicate Registrable(sv: Service) {
    sv.port != 0 && sv.service != ""
  }

  class NyanSD {
    const bb: ByteBauble
    var services: seq<Service>

    ghost predicate Valid()
      reads this, bb
    {
      bb.globalEndian == LittleEndian
    }

    ghost function Host(): Endian
      reads this, bb
    {
      bb.hostEndian
    }

    constructor (machine: Endian)
      ensures Valid() && Host() == machine && services == []
      ensures fresh(bb)
    {
      bb := new ByteBauble(machine);
      services := [];
    }

    method AddService(service: Service, systemHost: string) returns (ok: bool)
      modifies this`services
      ensures ok <==> Registrable(service)
      ensures services == old(services) + if ok then [Registered(service, systemHost)] else []
    {
      if service.port == 0 || service.service == "" {
        return false;
      }
      var sv := service;
      if sv.hostname == "" {
        sv := sv.(hostname := systemHost);
      }
      services := services + [sv];
      return true;
    }

    // ----- answering -----

    /** The fields of a section behind its `S` and its addresses. */
    method RestOfSection(sv: Service) returns (rest: string)
      requires Valid()
      ensures rest == HostOn(Host(), sv)
    {
      var he := bb.hostEndian;
      var hlen := bb.ToGlobal16(Word16Of(|sv.hostname| % 0x1_0000), he);
      rest := Store16(he, hlen);
      rest := rest + sv.hostname;
      var port := bb.ToGlobal16(Word16Of(sv.port), he);
      rest := rest + Store16(he, port);
      rest := rest + [Chr(sv.protocol.Code())];
      var snlen := bb.ToGlobal16(Word16Of(|sv.service| % 0x1_0000), he);
      rest := rest + Store16(he, snlen);
      rest := rest + sv.service;
      AssocHostOn(he, sv);
    }

    /** The work of both loops for one selected service. */
    method AppendService(sv: Service, sender: string, interfaces: seq<seq<Address>>, servicesBody: string,
                         scount: uint8)
      returns (body: string, count: uint8)
      requires Valid()
      ensures var local := LocalIPv4(Host(), UpToLast(sender, '.'), interfaces);
              && body == servicesBody + Entry(Host(), sv, local)
              && count == if Substituted(sv, local).Some? then (scount + 1) % 0x100 else scount
    {
      var he := bb.hostEndian;
      body, count := servicesBody + "S", scount;
      var ipv4: Word32;
      var ipv6: string;
      if sv.ipv4 == ZERO {
        var found := RemoteToLocalIP(he, sender, interfaces);
        if found == None {
          return;
        }
        ipv4, ipv6 := found.value, "";
      } else {
        ipv4, ipv6 := sv.ipv4, sv.ipv6;
      }
      body := body + Store32(he, bb.ToGlobal32(ipv4, he));
      body := body + [Chr(|ipv6| % 0x100)];
      body := body + ipv6;
      var rest := RestOfSection(sv);
      body := body + rest;
      count := (count + 1) % 0x100;
      AssocSection(he, sv, ipv4, ipv6, servicesBody);
    }

    method FilteredServices(filter: string, sender: string, interfaces: seq<seq<Address>>)
      returns (servicesBody: string, scount: uint8)
      requires Valid()
      ensures var local := LocalIPv4(Host(), UpToLast(sender, '.'), interfaces);
              && servicesBody == FilteredBody(Host(), services, filter, local)
              && scount == FilteredCount(services, filter, local)
    {
      ghost var local := LocalIPv4(Host(), UpToLast(sender, '.'), interfaces);
      servicesBody, scount := "", 0;
      for i := 0 to |services|
        invariant servicesBody == FilteredBody(Host(), services[..i], filter, local)
        invariant scount == FilteredCount(services[..i], filter, local)
      {
        assert services[..i + 1][..i] == services[..i];
        if filter == services[i].service {
          servicesBody, scount := AppendService(services[i], sender, interfaces, servicesBody, scount);
        }
      }
      assert services[..|services|] == services;
    }

    method AllServices(sender: string, interfaces: seq<seq<Address>>) returns (servicesBody: string, scount: uint8)
      requires Valid()
      ensures var local := LocalIPv4(Host(), UpToLast(sender, '.'), interfaces);
              servicesBody == WildcardBody(Host(), services, local) && scount == WildcardCount(services, local)
    {
      ghost var local := LocalIPv4(Host(), UpToLast(sender, '.'), interfaces);
      servicesBody, scount := "", 0;
      for i := 0 to |services|
        invariant servicesBody == WildcardBody(Host(), services[..i], local)
        invariant scount == WildcardCount(services[..i], local)
      {
        assert services[..i + 1][..i] == services[..i];
        servicesBody, scount := AppendService(services[i], sender, interfaces, servicesBody, scount);
      }
      assert services[..|services|] == services;
    }

    method ComposeReply(servicesBody: string, scount: uint8) returns (msg: string)
      requires Valid()
      ensures msg == Reply(Host(), servicesBody, scount)
    {
      msg := "NYANSD";
      var msglen: uint16 := 1;
      msglen := (msglen + (|servicesBody| + 1)) % 0x1_0000;
      var field := bb.ToGlobal16(Word16Of(msglen), bb.hostEndian);
      msg := msg + Store16(bb.hostEndian, field);
      msg := msg + [Chr(RESPONSE)];
      msg := msg + [Chr(scount)];
      msg := msg + servicesBody;
      assert |[Chr(scount)] + servicesBody| + 1 == 1 + (|servicesBody| + 1);
    }

    /** What the listener sends back for one datagram, message by message. */
    method HandleDatagram(buffer: string, sender: string, interfaces: seq<seq<Address>>) returns (sent: seq<string>)
      requires Valid()
      ensures sent == Answers(Host(), services, QueriesIn(Host(), buffer),
          LocalIPv4(Host(), UpToLast(sender, '.'), interfaces))
    {
      hide Answers, ParseQueries, LocalIPv4, UpToLast, Peek, Slice, Get16;
      var n := |buffer|;
      sent := [];
      if n < 10 {
        return;
      }
      var index := 0;
      var signature := Slice(buffer, 0, 6);
      index := index + 6;
      if signature != "NYANSD" {
        return;
      }
      var len := Get16Field(buffer, index);
      index := index + 2;
      if n - 8 != len {
        return;
      }
      var kind := U8(Peek(buffer, index));
      index := index + 1;
      if kind != BROADCAST {
        return;
      }
      var rnum := U8(Peek(buffer, index));
      index := index + 1;
      if rnum == 0 {
        return;
      }
      sent := AnswerQueries(buffer, index, rnum, sender, interfaces);
    }

    /** Answers the query sections of a message, `rnum` rounds from `start` on. */
    method AnswerQueries(buffer: string, start: nat, rnum: uint8, sender: string, interfaces: seq<seq<Address>>)
      returns (sent: seq<string>)
      requires Valid()
      ensures sent == Answers(Host(), services, ParseQueries(buffer, start, rnum).queries,
                              LocalIPv4(Host(), UpToLast(sender, '.'), interfaces))
    {
      hide Answer, Answers, ParseQueries, Slice, Peek, LocalIPv4, UpToLast;
      ghost var local := LocalIPv4(Host(), UpToLast(sender, '.'), interfaces);
      ghost var asked: seq<Asked> := [];
      NothingAsked(Host(), services, local);
      sent := [];
      var index: nat := start;
      NoRoundsLeft(buffer, index);
      for i := 0 to rnum
        invariant asked + ParseQueries(buffer, index, rnum - i).queries == ParseQueries(buffer, start, rnum).queries
        invariant sent == Answers(Host(), services, asked, local)
      {
        QueryStep(buffer, index, rnum - i, asked);
        if Peek(buffer, index) != 'Q' {
          continue;
        }
        ghost var before := asked;
        index := index + 1;
        var prot := U8(Peek(buffer, index));
        index := index + 1;
        var qlen := U8(Peek(buffer, index));
        index := index + 1;
        var filter := "";
        if qlen != 0 {
          filter := Slice(buffer, index, qlen);
          index := index + qlen;
        }
        assert filter == Slice(buffer, index - qlen, qlen);
        var msg := AnswerQuery(filter, sender, interfaces);
        sent := sent + [msg];
        AnswersAppend(Host(), services, before, Asked(prot, filter), local);
        asked := asked + [Asked(prot, filter)];
      }
      NoRoundsLeft(buffer, index);
      assert asked + [] == asked;
    }

    method AnswerQuery(filter: string, sender: string, interfaces: seq<seq<Address>>) returns (msg: string)
      requires Valid()
      ensures msg == Answer(Host(), services, filter, LocalIPv4(Host(), UpToLast(sender, '.'), interfaces))
    {
      var servicesBody: string;
      var scount: uint8;
      if |filter| != 0 {
        servicesBody, scount := FilteredServices(filter, sender, interfaces);
      } else {
        servicesBody, scount := AllServices(sender, interfaces);
      }
      msg := ComposeReply(servicesBody, scount);
    }

    // ----- asking -----

    method ComposeQuery(queries: seq<Query>) returns (msg: string)
      requires Valid() && |queries| <= 255
      ensures msg == QueryMessage(Host(), queries)
    {
      msg := "NYANSD";
      var body: string := "";
      var qnum: uint8 := |queries| % 0x100;
      body := body + [Chr(qnum)];
      for i := 0 to qnum
        invariant body == [Chr(qnum)] + QuerySections(queries[..i])
      {
        hide QuerySections;
        var section := ComposeQuerySection(queries[i]);
        QuerySectionsAppend(queries[..i], queries[i]);
        assert queries[..i + 1] == queries[..i] + [queries[i]];
        body := body + section;
      }
      assert queries[..qnum] == queries;
      var len := (|body| + 1) % 0x1_0000;
      var field := bb.ToGlobal16(Word16Of(len), bb.hostEndian);
      msg := msg + Store16(bb.hostEndian, field);
      msg := msg + [Chr(BROADCAST)];
      msg := msg + body;
    }

    method ComposeQuerySection(query: Query) returns (section: string)
      ensures section == QuerySection(query)
    {
      section := "Q";
      var prot := query.protocol.Code();
      var qlen: uint8 := |query.filter| % 0x100;
      section := section + [Chr(prot)];
      section := section + [Chr(qlen)];
      if qlen > 0 {
        section := section + query.filter;
      }
    }

    /** Sends the queries on every usable interface, then parses everything that came back. */
    method SendQuery(queries: seq<Query>, interfaces: seq<Interface>, responses: seq<Service>)
      returns (ok: bool, sent: seq<(string, string)>, all: seq<Service>)
      requires Valid()
      ensures 1 <= |queries| <= 255 ==>
                var outcome := ParseDatagrams(Host(), Buffers(interfaces));
                && |sent| == |BroadcastTo(interfaces)|
                && (forall k :: 0 <= k < |sent| ==>
                      sent[k] == (BroadcastTo(interfaces)[k], QueryMessage(Host(), queries)))
                && ok == outcome.ok && all == responses + outcome.services
      ensures 1 <= |queries| <= 255 ==>
                forall arrivals: seq<seq<Arrival>>, lists: seq<seq<Service>> ::
                  AnswersArriving(interfaces, arrivals, lists) ==> ok && all == responses + Concat(lists)
      ensures !(1 <= |queries| <= 255) ==> !ok && sent == [] && all == responses
    {
      sent, all := [], responses;
      if |queries| > 255 {
        return false, [], responses;
      } else if |queries| < 1 {
        return false, [], responses;
      }
      hide AnswersArriving, ParseDatagrams, Concat;
      var msg := ComposeQuery(queries);
      var buffers: seq<string> := [];
      for it := 0 to |interfaces|
        invariant |sent| == |BroadcastTo(interfaces[..it])|
        invariant forall k :: 0 <= k < |sent| ==> sent[k] == (BroadcastTo(interfaces[..it])[k], msg)
        invariant buffers == Buffers(interfaces[..it])
      {
        hide BroadcastText;
        var ifc := interfaces[it];
        assert interfaces[..it + 1][..it] == interfaces[..it];
        if ifc.firstIPv4 == None {
          continue;
        }
        var ipStr := BroadcastText(ifc.firstIPv4.value);
        if !ifc.sends {
          continue;
        }
        sent := sent + [(ipStr, msg)];
        ghost var before := buffers;
        for k := 0 to |ifc.arriving|
          invariant buffers == before + ReceivedAll(ifc.arriving[..k])
        {
          assert ifc.arriving[..k + 1][..k] == ifc.arriving[..k];
          buffers := buffers + [Received(ifc.arriving[k])];
        }
        assert ifc.arriving[..|ifc.arriving|] == ifc.arriving;
      }
      assert interfaces[..|interfaces|] == interfaces;
      var parsed: seq<Service>;
      ok, parsed := ReadDatagrams(buffers);
      all := responses + parsed;
      forall arrivals: seq<seq<Arrival>>, lists: seq<seq<Service>> | AnswersArriving(interfaces, arrivals, lists)
        ensures ok && parsed == Concat(lists)
      {
        BuffersParsed(Host(), interfaces, arrivals, lists);
      }
    }

    method ReadDatagrams(buffers: seq<string>) returns (ok: bool, responses: seq<Service>)
      requires Valid()
      ensures Outcome(ok, responses) == ParseDatagrams(Host(), buffers)
    {
      responses := [];
      for i := 0 to |buffers|
        invariant ParseDatagrams(Host(), buffers) == After(responses, ParseDatagrams(Host(), buffers[i..]))
      {
        hide ParseMessages;
        ghost var rest := buffers[i..];
        assert rest[0] == buffers[i] && rest[1..] == buffers[i + 1..];
        if |buffers[i]| < 8 {
          assert responses + [] == responses;
          return false, responses;
        }
        var good, more := ReadMessages(buffers[i]);
        ghost var before := responses;
        responses := responses + more;
        if !good {
          return false, responses;
        }
        AfterAfter(before, more, ParseDatagrams(Host(), rest[1..]));
      }
      assert responses + [] == responses;
      return true, responses;
    }

    method ReadMessages(buffer: string) returns (ok: bool, responses: seq<Service>)
      requires Valid()
      ensures Outcome(ok, responses) == ParseMessages(Host(), buffer, 0)
    {
      var n := |buffer|;
      var index := 0;
      responses := [];
      while index < n
        invariant ParseMessages(Host(), buffer, 0) == After(responses, ParseMessages(Host(), buffer, index))
        decreases n - index
      {
        hide ParseSections, Slice, Get16, Load16, Convert16, Peek, Remaining;
        ghost var at := index;
        assert responses + [] == responses;
        var signature := Slice(buffer, 0, 6);
        index := index + 6;
        if signature != "NYANSD" {
          return false, responses;
        }
        var len := Get16Field(buffer, index);
        index := index + 2;
        if len > Remaining(n, index) {
          return false, responses;
        }
        var kind := U8(Peek(buffer, index));
        index := index + 1;
        if kind != RESPONSE {
          continue;
        }
        var rnum := U8(Peek(buffer, index));
        index := index + 1;
        ghost var before := responses;
        var good, more, next := ReadSections(buffer, index, rnum);
        responses := responses + more;
        if !good {
          return false, responses;
        }
        index := next;
        AfterAfter(before, more, ParseMessages(Host(), buffer, index));
      }
      assert responses + [] == responses;
      return true, responses;
    }

    /** A 16-bit field read in place: raw memory, then the host's order. */
    method Get16Field(buffer: string, index: nat) returns (x: uint16)
      requires Valid()
      ensures x == Get16(Host(), buffer, index)
    {
      var field := Load16(bb.hostEndian, buffer, index);
      x := bb.ToHost16(field, LittleEndian).Number();
    }

    method Get32Field(buffer: string, index: nat) returns (x: Word32)
      requires Valid()
      ensures x == Get32(Host(), buffer, index)
    {
      x := Load32(bb.hostEndian, buffer, index);
      x := bb.ToHost32(x, LittleEndian);
    }

    method ReadSections(buffer: string, start: nat, rnum: uint8) returns (ok: bool, responses: seq<Service>, index: nat)
      requires Valid()
      ensures SectionsRead(ok, responses, index) == ParseSections(Host(), buffer, start, rnum)
    {
      index, responses := start, [];
      for i := 0 to rnum
        invariant var rest := ParseSections(Host(), buffer, index, rnum - i);
                  ParseSections(Host(), buffer, start, rnum)
                      == SectionsRead(rest.ok, responses + rest.services, rest.next)
      {
        hide ParseSection;
        if Peek(buffer, index) != 'S' {
          assert responses + [] == responses;
          return false, responses, index;
        }
        ghost var before := responses;
        var sv, next := ReadSection(buffer, index);
        ghost var rest := ParseSections(Host(), buffer, next, rnum - i - 1);
        assert before + ([sv] + rest.services) == before + [sv] + rest.services;
        index := next;
        responses := responses + [sv];
      }
      assert responses + [] == responses;
      return true, responses, index;
    }

    method ReadSection(buffer: string, start: nat) returns (sv: Service, index: nat)
      requires Valid()
      ensures (sv, index) == ParseSection(Host(), buffer, start)
    {
      hide Get16, Get32, Peek, Slice;
      index := start + 1;
      var ipv4 := Get32Field(buffer, index);
      index := index + 4;
      var ipv6len := U8(Peek(buffer, index));
      index := index + 1;
      var ipv6 := Slice(buffer, index, ipv6len);
      index := index + ipv6len;
      var hostlen := Get16Field(buffer, index);
      index := index + 2;
      var hostname := Slice(buffer, index, hostlen);
      index := index + hostlen;
      var port := Get16Field(buffer, index);
      index := index + 2;
      var prot := U8(Peek(buffer, index));
      index := index + 1;
      var snlen := Get16Field(buffer, index);
      index := index + 2;
      var svname := Slice(buffer, index, snlen);
      index := index + snlen;
      var protocol := All;
      if prot == 0 { protocol := All; }
      else if prot == 1 { protocol := Tcp; }
      else if prot == 2 { protocol := Udp; }
      sv := Service(ipv4, ipv6, port, hostname, svname, protocol);
    }
  }

  lemma AssocHostOn(he: Endian, sv: Service)
    ensures Put16(he, |sv.hostname| % 0x1_0000) + sv.hostname + Put16(he, sv.port) + [Chr(sv.protocol.Code())]
            + Put16(he, |sv.service| % 0x1_0000) + sv.service
         == HostOn(he, sv)
  {
    hide Put16;
  }

  lemma AssocSection(he: Endian, sv: Service, ipv4: Word32, ipv6: string, before: string)
    ensures before + "S" + Put32(he, ipv4) + [Chr(|ipv6| % 0x100)] + ipv6 + HostOn(he, sv)
         == before + Section(he, sv.(ipv4 := ipv4, ipv6 := ipv6))
  {
    hide Put32, Put16;
  }

  lemma NoRoundsLeft(buffer: string, i: nat)
    ensures ParseQueries(buffer, i, 0).queries == []
  {
  }

  lemma NothingAsked(host: Endian, table: seq<Service>, local: Option<Word32>)
    ensures Answers(host, table, [], local) == []
  {
  }

  lemma AnswersAppend(host: Endian, table: seq<Service>, asked: seq<Asked>, next: Asked, local: Option<Word32>)
    ensures Answers(host, table, asked + [next], local)
         == Answers(host, table, asked, local) + [Answer(host, table, next.filter, local)]
  {
    hide Answer;
    assert (asked + [next])[..|asked + [next]| - 1] == asked;
  }

  lemma QueryStep(buffer: string, i: nat, count: nat, before: seq<Asked>)
    requires count > 0
    ensures var qlen := U8(Peek(buffer, i + 2));
            var asked := Asked(U8(Peek(buffer, i + 1)), Slice(buffer, i + 3, qlen));
            if Peek(buffer, i) != 'Q' then ParseQueries(buffer, i, count) == ParseQueries(buffer, i, count - 1)
            else
              before + ParseQueries(buffer, i, count).queries
              == before + [asked] + ParseQueries(buffer, i + 3 + qlen, count - 1).queries
  {
    hide Peek, Slice;
  }

  lemma AfterAfter(a: seq<Service>, b: seq<Service>, rest: Outcome)
    ensures After(a, After(b, rest)) == After(a + b, rest)
  {
    assert a + (b + rest.services) == a + b + rest.services;
  }

  lemma {:induction false} QuerySectionsAppend(queries: seq<Query>, q: Query)
    ensures QuerySections(queries + [q]) == QuerySections(queries) + QuerySection(q)
  {
    hide QuerySection;
    if queries == [] {
      assert [q][1..] == [];
      assert QuerySections([q]) == QuerySection(q) + "" == QuerySection(q);
    } else {
      assert (queries + [q])[1..] == queries[1..] + [q];
      QuerySectionsAppend(queries[1..], q);
    }
  }
}
