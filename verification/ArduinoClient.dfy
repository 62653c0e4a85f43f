/** The client for small devices (arduino/client/nyansd_client.cpp): a linked queue of received
    datagrams filled by a callback, drained and freed by a second parser, and a second encoder. It
    assumes a little-endian host. */
module ArduinoClient {
  import opened ByteOrder
  import opened Text
  import opened Wire

  // ----- the second encoder and decoder, on values -----

  /** A query of this client: a C string and a length given beside it. */
  datatype CQuery = CQuery(protocol: Protocol, filter: string, length: uint16)

  function EncodedSection(q: CQuery): string {
    "Q" + [Chr(q.protocol.Code()), Chr(q.length % 0x100)] + if q.length % 0x100 > 0 then q.filter else ""
  }

  function EncodedSections(queries: seq<CQuery>): string {
    if queries == [] then "" else EncodedSection(queries[0]) + EncodedSections(queries[1..])
  }

  function EncodedBody(queries: seq<CQuery>): string {
    [Chr(|queries| % 0x100)] + EncodedSections(queries)
  }

  function Encoded(queries: seq<CQuery>): string {
    SIGNATURE + Store16(LittleEndian, Word16Of((|EncodedBody(queries)| + 1) % 0x1_0000)) + [Chr(BROADCAST)]
        + EncodedBody(queries)
  }

  /** What one datagram gives: an error code or 0, and then its first service if it has any. */
  datatype First = First(code: nat, service: Option<Service>)

  function ParseFirst(buffer: string): First {
    if |buffer| < 8 then First(8, None)
    else if Slice(buffer, 0, 6) != SIGNATURE then First(9, None)
    else if Load16(LittleEndian, buffer, 6).Number() > |buffer| - 8 then First(10, None)
    else if U8(Peek(buffer, 8)) != RESPONSE then First(11, None)
    else if U8(Peek(buffer, 9)) == 0 then First(0, None)
    else if Peek(buffer, 10) != 'S' then First(12, None)
    else First(0, Some(ParseSection(LittleEndian, buffer, 10).0))
  }

  /** The codes by the bytes: too short, another signature, a length beyond the datagram, another type,
      no mark where a section is due, and 0 for the rest; a service is found exactly with code 0 and a
      count. */
  lemma CodesExactly(buffer: string)
    requires |buffer| > 10
    ensures var first := ParseFirst(buffer);
            var signed := buffer[..6] == "NYANSD";
            var long := U8(buffer[6]) + 0x100 * U8(buffer[7]) > |buffer| - 8;
            && (first.code == 9 <==> !signed)
            && (first.code == 10 <==> signed && long)
            && (first.code == 11 <==> signed && !long && U8(buffer[8]) != 2)
            && (first.code == 12 <==> signed && !long && U8(buffer[8]) == 2 && U8(buffer[9]) != 0 && buffer[10] != 'S')
            && first.code in {0, 9, 10, 11, 12}
            && (first.service.Some? <==> first.code == 0 && U8(buffer[9]) != 0)
  {
    hide ParseSection;
    assert Slice(buffer, 0, 6) == buffer[..6];
  }

  lemma ShortCodes(buffer: string)
    requires |buffer| <= 10
    ensures ParseFirst(buffer).code == 8 <==> |buffer| < 8
    ensures |buffer| >= 8 ==> (ParseFirst(buffer).code == 9 <==> buffer[..6] != "NYANSD")
    ensures |buffer| >= 8 ==>
              (ParseFirst(buffer).code == 10
               <==> buffer[..6] == "NYANSD" && U8(buffer[6]) + 0x100 * U8(buffer[7]) > |buffer| - 8)
  {
    hide ParseSection;
    if |buffer| >= 8 {
      assert Slice(buffer, 0, 6) == buffer[..6];
    }
  }

  lemma LittleEndianFields(buffer: string)
    ensures forall i: nat :: Get16(LittleEndian, buffer, i) == Load16(LittleEndian, buffer, i).Number()
    ensures forall i: nat :: Get32(LittleEndian, buffer, i) == Load32(LittleEndian, buffer, i)
  {
  }

  /** Draining a list of datagrams: the code, the services found, and how many were drained. */
  datatype Drained = Drained(code: nat, services: seq<Service>, freed: nat)

  function Drain(payloads: seq<string>): (r: Drained)
    ensures r.freed <= |payloads|
    ensures r.code == 0 <==> r.freed == |payloads|
  {
    if payloads == [] then Drained(0, [], 0)
    else
      var first := ParseFirst(payloads[0]);
      if first.code != 0 then Drained(first.code, [], 0)
      else
        var rest := Drain(payloads[1..]);
        Drained(rest.code, (if first.service.Some? then [first.service.value] else []) + rest.services, rest.freed + 1)
  }

  // ----- the queue -----

  /** A queue node with its own copy of a payload. */
  class ListNode {
    var next: ListNode?
    const data: string

    constructor (data: string)
      ensures this.data == data && next == null
    {
      this.data := data;
      next := null;
    }
  }

  class ServiceNode {
    var next: ServiceNode?
    const service: Service

    constructor (service: Service)
      ensures this.service == service && next == null
    {
      this.service := service;
      next := null;
    }
  }

  /** The nodes are linked in order and all different. */
  ghost predicate Linked(nodes: seq<ListNode>)
    reads nodes
  {
    && (forall i :: 0 <= i < |nodes| ==> nodes[i].next == if i + 1 < |nodes| then nodes[i + 1] else null)
    && (forall i, j :: 0 <= i < j < |nodes| ==> nodes[i] != nodes[j])
  }

  lemma NextOf(nodes: seq<ListNode>, i: nat)
    requires Linked(nodes) && i < |nodes|
    ensures nodes[i].next == if i + 1 < |nodes| then nodes[i + 1] else null
  {
  }

  lemma LinkedTail(nodes: seq<ListNode>, rest: seq<ListNode>, i: nat)
    requires Linked(nodes) && i + |rest| == |nodes|
    requires forall k :: 0 <= k < |rest| ==> rest[k] == nodes[i + k]
    ensures Linked(rest)
  {
    forall k | 0 <= k < |rest|
      ensures rest[k].next == if k + 1 < |rest| then rest[k + 1] else null
    {
      NextOf(nodes, i + k);
      if k + 1 < |rest| {
        assert rest[k + 1] == nodes[i + (k + 1)];
      }
    }
  }

  /** A result list: linked nodes that start at `head`. */
  ghost predicate IsResult(head: ServiceNode?, nodes: seq<ServiceNode>)
    reads nodes
  {
    && head == (if nodes == [] then null else nodes[0])
    && (forall i :: 0 <= i < |nodes| ==> nodes[i].next == if i + 1 < |nodes| then nodes[i + 1] else null)
    && (forall i, j :: 0 <= i < j < |nodes| ==> nodes[i] != nodes[j])
  }

  ghost function ServicesOf(nodes: seq<ServiceNode>): seq<Service> {
    seq(|nodes|, i requires 0 <= i < |nodes| => nodes[i].service)
  }

  ghost function PayloadsOf(nodes: seq<ListNode>): (r: seq<string>)
    ensures |r| == |nodes|
    ensures forall i :: 0 <= i < |nodes| ==> r[i] == nodes[i].data
  {
    if nodes == [] then [] else [nodes[0].data] + PayloadsOf(nodes[1..])
  }

  class NyanSDClient {
    var response: ListNode?
    var last: ListNode?
    var count: nat
    var received: bool
    var port: uint16

    /** The queue: the nodes that can be reached from `response`. */
    ghost var nodes: seq<ListNode>
    /** Every node deleted so far, in order. */
    ghost var freed: seq<ListNode>
    /** A deleted node has been read or written; nothing is said of what happens then. */
    ghost var faulted: bool

    /** The queue is intact and none of its nodes has been deleted. The count is that of its nodes, or
        more behind a collection that failed: then the first node is the one it failed at. */
    ghost predicate Live()
      reads this, nodes
    {
      && (count == |nodes| || (nodes != [] && count > |nodes| && ParseFirst(nodes[0].data).code != 0))
      && (nodes != [] ==> received)
      && response == (if nodes == [] then null else nodes[0])
      && (nodes != [] ==> last == nodes[|nodes| - 1])
      && Linked(nodes)
      && (forall i :: 0 <= i < |nodes| ==> nodes[i] !in freed)
    }

    /** The queue has been drained to its end: `response` and `last` point at a deleted node. */
    ghost predicate Dangling()
      reads this
    {
      && nodes == [] && count > 0 && received
      && response != null && response in freed && last != null && last in freed
    }

    ghost predicate Usable()
      reads this, nodes
    {
      !faulted && (Live() || Dangling())
    }

    /** The received datagrams in order of arrival. */
    ghost function Payloads(): (r: seq<string>)
      reads this
      ensures |r| == |nodes|
    {
      PayloadsOf(nodes)
    }

    constructor ()
      ensures Usable() && Live() && nodes == [] && freed == [] && last == null && !received && port == 0
    {
      response, last, count, received, port := null, null, 0, false, 0;
      nodes, freed, faulted := [], [], false;
    }

    /** A datagram arrives. Foreign ports are ignored, every other payload is copied to the end of
        the queue. Behind a queue drained to its end that writes to a deleted node. */
    method UdpReceiveCallback(data: string, remotePort: uint16)
      requires Usable()
      modifies this, if response != null then {last} else {}
      ensures port == old(port) && freed == old(freed)
      ensures faulted <==> old(Dangling()) && remotePort == port
      ensures remotePort != port ==>
                && nodes == old(nodes) && Payloads() == old(Payloads()) && received == old(received)
                && last == old(last)
                && (old(Live()) ==> Live()) && (old(Dangling()) ==> Dangling())
      ensures remotePort == port && !faulted ==>
                && received && Live()
                && |nodes| == |old(nodes)| + 1 && nodes[..|old(nodes)|] == old(nodes) && fresh(nodes[|old(nodes)|])
                && Payloads() == old(Payloads()) + [data]
    {
      hide PayloadsOf, ParseFirst, Drain, Linked;
      if remotePort != port {
        return;
      }
      var node := new ListNode(data);
      Enqueue(node);
      assert !faulted ==> Payloads() == old(Payloads()) + [data];
    }

    /** Hangs a node behind the last one. */
    method Enqueue(node: ListNode)
      requires Usable() && node !in nodes && node !in freed && node.next == null
      modifies this, if response != null then {last} else {}
      ensures port == old(port) && freed == old(freed) && faulted == old(Dangling())
      ensures !faulted ==> received && Live() && nodes == old(nodes) + [node]
    {
      hide PayloadsOf, ParseFirst, Drain;
      if response == null {
        response := node;
        last := node;
      } else {
        faulted := last in freed;
        last.next := node;
        last := node;
      }
      ghost var before := nodes;
      nodes := nodes + [node];
      count := count + 1;
      received := true;
      if !faulted {
        assert nodes[|before|] == node && forall i :: 0 <= i < |before| ==> nodes[i] == before[i] && nodes[i] != node;
        assert Linked(nodes);
      }
    }

    /** Composes and sends the queries and starts with an empty queue; whatever the old one held is
        forgotten, not freed. */
    method SendQuery(port: uint16, queries: seq<CQuery>, qnum: uint8, sends: bool)
      returns (code: nat, sent: Option<string>)
      requires qnum <= |queries|
      modifies this
      ensures this.port == port && freed == old(freed) && received == old(received) && last == old(last)
      ensures faulted == old(faulted)
      ensures qnum == 0 ==>
                && code == 2 && sent == None && nodes == old(nodes) && count == old(count) && response == old(response)
                && (old(Live()) ==> Live()) && (old(Dangling()) ==> Dangling())
      ensures qnum > 0 ==>
                Live() && nodes == [] && sent == Some(Encoded(queries[..qnum])) && code == if sends then 0 else 4
    {
      this.port := port;
      sent := None;
      if qnum < 1 {
        return 2, None;
      }
      var msg := ComposeMessage(queries, qnum);
      response := null;
      count := 0;
      nodes := [];
      sent := Some(msg);
      return if sends then 0 else 4, Some(msg);
    }

    method ComposeMessage(queries: seq<CQuery>, qnum: uint8) returns (msg: string)
      requires 0 < qnum <= |queries|
      ensures msg == Encoded(queries[..qnum])
    {
      msg := "NYANSD";
      var body: string := "";
      body := body + [Chr(qnum)];
      var qptr := 0;
      for i := 0 to qnum
        invariant body == [Chr(qnum)] + EncodedSections(queries[..i])
        invariant qptr == if i < qnum then i else qnum - 1
      {
        hide EncodedSections, EncodedSection;
        var section := ComposeSection(queries[qptr]);
        body := body + section;
        assert queries[..i + 1] == queries[..i] + [queries[i]];
        EncodedAppend(queries[..i], queries[i]);
        if i != qnum - 1 {
          qptr := qptr + 1;
        }
      }
      var len := (|body| + 1) % 0x1_0000;
      var memory := Store16(LittleEndian, Word16Of(len));
      assert memory == [memory[0], memory[1]];
      assert |queries[..qnum]| % 0x100 == qnum;
      assert body == EncodedBody(queries[..qnum]);
      msg := msg + [memory[0]];
      msg := msg + [memory[1]];
      msg := msg + [Chr(BROADCAST)];
      msg := msg + body;
    }

    method ComposeSection(query: CQuery) returns (section: string)
      ensures section == EncodedSection(query)
    {
      section := "Q";
      var prot := query.protocol.Code();
      var qlen: uint8 := query.length % 0x100;
      section := section + [Chr(prot)];
      section := section + [Chr(qlen)];
      if qlen > 0 {
        section := section + query.filter;
      }
    }

    /** Parses one datagram; the header checks and the first section. */
    method ParseOne(buffer: string) returns (code: nat, service: Option<Service>)
      ensures First(code, service) == ParseFirst(buffer)
    {
      hide Load16, Load32, Peek, Slice;
      service := None;
      var n := |buffer|;
      if n < 8 {
        return 8, None;
      }
      var index := 0;
      var signature := Slice(buffer, index, 6);
      index := index + 6;
      if signature != "NYANSD" {
        return 9, None;
      }
      var len := Load16(LittleEndian, buffer, index).Number();
      index := index + 2;
      if len > n - index {
        return 10, None;
      }
      var kind := U8(Peek(buffer, index));
      index := index + 1;
      if kind != RESPONSE {
        return 11, None;
      }
      var rnum := U8(Peek(buffer, index));
      index := index + 1;
      for i := 0 to rnum
        invariant i == 0
      {
        if Peek(buffer, index) != 'S' {
          return 12, None;
        }
        var sv := FirstSection(buffer, index);
        return 0, Some(sv);
      }
      return 0, None;
    }

    method FirstSection(buffer: string, start: nat) returns (sv: Service)
      ensures sv == ParseSection(LittleEndian, buffer, start).0
    {
      hide Load16, Load32, Get16, Get32, Peek, Slice;
      LittleEndianFields(buffer);
      var index: nat := start + 1;
      var ipv4 := Load32(LittleEndian, buffer, index);
      index := index + 4;
      var ipv6len := U8(Peek(buffer, index));
      index := index + 1;
      var ipv6 := Slice(buffer, index, ipv6len);
      index := index + ipv6len;
      var hostlen := Load16(LittleEndian, buffer, index).Number();
      index := index + 2;
      var hostname := Slice(buffer, index, hostlen);
      index := index + hostlen;
      var p := Load16(LittleEndian, buffer, index).Number();
      index := index + 2;
      var prot := U8(Peek(buffer, index));
      index := index + 1;
      var snlen := Load16(LittleEndian, buffer, index).Number();
      index := index + 2;
      var svname := Slice(buffer, index, snlen);
      index := index + snlen;
      var protocol := All;
      if prot == 0 { protocol := All; }
      else if prot == 1 { protocol := Tcp; }
      else if prot == 2 { protocol := Udp; }
      sv := Service(ipv4, ipv6, p, hostname, svname, protocol);
    }

    /** `drained` nodes of `queue` have been freed, each once, and `response` is at the next one; with
        all of them freed it is left at the last, which is gone. */
    ghost predicate Draining(queue: seq<ListNode>, before: seq<ListNode>, drained: nat)
      reads this, queue
    {
      && Linked(queue) && drained <= |queue|
      && (count == |queue|
          || (queue != [] && count > |queue| && drained == 0 && ParseFirst(queue[0].data).code != 0))
      && (forall k :: 0 <= k < |queue| ==> queue[k] !in before)
      && nodes == queue[drained..] && freed == before + queue[..drained]
      && (queue == [] ==> response == null)
      && (drained < |queue| ==> response == queue[drained])
      && (drained == |queue| > 0 ==> response == queue[drained - 1])
      && (queue != [] ==> received && last == queue[|queue| - 1])
    }

    /** Drains the queue into a list of services. Every node read is still there, unless the queue had
        been drained to its end before; every drained node is freed once, in order; a full drain
        leaves `response` at the last node, which is gone. An error stops at its datagram and leaves
        the rest of the queue. */
    method GetResponses(responses: ServiceNode?, resnum: nat)
      returns (code: nat, head: ServiceNode?, found: nat, ghost list: seq<ServiceNode>)
      requires Usable()
      modifies this
      ensures port == old(port) && count == old(count) && received == old(received) && last == old(last)
      ensures faulted <==> old(Dangling())
      ensures !old(received) ==>
                && code == 1 && Live() && nodes == old(nodes) && freed == old(freed)
                && head == responses && found == resnum && list == []
      ensures old(received) && !faulted ==>
                var drained := Drain(old(Payloads()));
                && code == drained.code
                && Draining(old(nodes), old(freed), drained.freed)
                && (forall n <- list :: fresh(n)) && ServicesOf(list) == drained.services
                && (if list == [] then head == responses else IsResult(head, list))
                && found == (if code == 0 then |list| else resnum)
                && (if code == 0 && old(nodes) != [] then Dangling() else Live())
    {
      list := [];
      head, found := responses, resnum;
      if !received {
        return 1, responses, resnum, [];
      }
      hide Drain, PayloadsOf, Linked, ParseFirst;
      ghost var queue, before := nodes, freed;
      if Live() {
        LiveIsUndrained();
      }
      var parsecount;
      code, head, parsecount, list := DrainQueue(responses, queue, before);
      if code == 0 {
        found := parsecount;
      }
      if !faulted {
        if code == 0 && queue != [] {
          DrainedIsDangling(queue, before);
        } else {
          StoppedIsLive(queue, before);
        }
      }
    }

    lemma LiveIsUndrained()
      requires Live()
      ensures Draining(nodes, freed, 0)
    {
    }

    lemma DrainedIsDangling(queue: seq<ListNode>, before: seq<ListNode>)
      requires Draining(queue, before, |queue|) && queue != []
      ensures Dangling()
    {
      assert response == queue[..|queue|][|queue| - 1];
    }

    lemma StoppedIsLive(queue: seq<ListNode>, before: seq<ListNode>)
      requires var d := Drain(PayloadsOf(queue)); Draining(queue, before, d.freed) && (d.code == 0 ==> queue == [])
      ensures Live()
    {
      hide ParseFirst, Drain, PayloadsOf;
      var d := Drain(PayloadsOf(queue));
      LinkedTail(queue, nodes, d.freed);
      if queue != [] {
        DrainStopsAt(PayloadsOf(queue));
        assert nodes[0] == queue[d.freed] && PayloadsOf(queue)[d.freed] == queue[d.freed].data;
        forall i | 0 <= i < |nodes|
          ensures nodes[i] == queue[d.freed + i] && nodes[i] !in freed
        {
          assert nodes[i] == queue[d.freed + i];
          assert nodes[i] !in queue[..d.freed];
        }
      }
    }

    /** The loop over the queue. */
    method DrainQueue(responses: ServiceNode?, ghost queue: seq<ListNode>, ghost before: seq<ListNode>)
      returns (code: nat, head: ServiceNode?, parsecount: nat, ghost list: seq<ServiceNode>)
      requires !faulted && queue == nodes && before == freed
      requires Draining(queue, before, 0) || Dangling()
      modifies this`response, this`nodes, this`freed, this`faulted
      ensures faulted <==> old(Dangling())
      ensures !faulted ==>
                var drained := Drain(PayloadsOf(queue));
                && code == drained.code && Draining(queue, before, drained.freed)
                && (forall n <- list :: fresh(n)) && ServicesOf(list) == drained.services
                && (if list == [] then head == responses else IsResult(head, list)) && parsecount == |list|
    {
      hide Drain, PayloadsOf, ParseFirst, NyanSDClient.Draining;
      list, head, parsecount := [], responses, 0;
      var pres: ServiceNode? := null;
      ghost var all, dangling := PayloadsOf(queue), Dangling();
      FreshDrain(all);
      NotBoth(queue, before);
      for i := 0 to count
        invariant count == old(count) && (faulted <==> dangling && i > 0)
        invariant dangling ==> response != null && (i == 0 ==> response in freed)
        invariant !dangling ==> i <= |queue| && Draining(queue, before, i)
        invariant !dangling ==> Drain(all) == After(ServicesOf(list), i, Drain(all[i..]))
        invariant (forall n <- list :: fresh(n)) && (pres != null ==> fresh(pres))
        invariant Growing(responses, head, pres, parsecount, list)
      {
        hide After, ServicesOf, Linked, Growing;
        if !dangling {
          DrainStep(all, i, ServicesOf(list));
          NotYetDeleted(queue, before, i);
        }
        faulted := faulted || response in freed;
        var bad, service := ParseOne(response.data);
        if bad != 0 {
          GrowingResult(responses, head, pres, parsecount, list);
          return bad, head, parsecount, list;
        }
        if service.Some? {
          head, pres, parsecount, list := AppendResult(responses, head, pres, parsecount, list, service.value);
        }
        NothingAppended(ServicesOf(list));
        FreeFirst(queue, before, i, dangling);
      }
      if !dangling {
        AllDrained(queue, before);
        DrainStep(all, |all|, ServicesOf(list));
      }
      GrowingResult(responses, head, pres, parsecount, list);
      code := 0;
    }

    lemma GrowingResult(responses: ServiceNode?, head: ServiceNode?, pres: ServiceNode?, parsecount: nat,
                        list: seq<ServiceNode>)
      requires Growing(responses, head, pres, parsecount, list)
      ensures (if list == [] then head == responses else IsResult(head, list)) && parsecount == |list|
    {
    }

    /** After a full drain every node of the queue has been freed exactly once, in order. */
    lemma FreedOnce(queue: seq<ListNode>, before: seq<ListNode>)
      requires Draining(queue, before, |queue|)
      ensures freed == before + queue
      ensures forall i, j :: |before| <= i < j < |freed| ==> freed[i] != freed[j]
    {
      assert queue[..|queue|] == queue;
    }

    lemma NotYetDeleted(queue: seq<ListNode>, before: seq<ListNode>, i: nat)
      requires Draining(queue, before, i) && i < count
      ensures i < |queue| && response == queue[i] && response !in freed
      ensures ParseFirst(queue[i].data).code == 0 ==> count == |queue|
    {
      hide ParseFirst;
    }

    lemma NotBoth(queue: seq<ListNode>, before: seq<ListNode>)
      ensures Draining(queue, before, 0) && queue == nodes ==> !Dangling()
    {
      hide ParseFirst;
    }

    lemma AllDrained(queue: seq<ListNode>, before: seq<ListNode>)
      requires Draining(queue, before, count)
      ensures count == |queue|
    {
      hide ParseFirst;
    }

    /** Moves on to the next node, if there is one, and deletes the one just read. */
    method FreeFirst(ghost queue: seq<ListNode>, ghost before: seq<ListNode>, ghost i: nat, ghost dangling: bool)
      requires response != null
      requires !dangling ==> Draining(queue, before, i) && i < |queue| == count
      modifies this`response, this`nodes, this`freed
      ensures response != null
      ensures !dangling ==> Draining(queue, before, i + 1)
    {
      hide ParseFirst;
      var drained := response;
      if !dangling {
        assert queue[i].next == if i + 1 < |queue| then queue[i + 1] else null;
      }
      if response.next != null {
        response := response.next;
      }
      freed := freed + [drained];
      if !dangling {
        nodes := nodes[1..];
        assert queue[i..][1..] == queue[i + 1..];
        assert queue[..i + 1] == queue[..i] + [drained];
        assert before + queue[..i] + [drained] == before + queue[..i + 1];
      }
    }

    /** Hangs one more service behind the result list. */
    method AppendResult(responses: ServiceNode?, head: ServiceNode?, pres: ServiceNode?, parsecount: nat,
                        ghost list: seq<ServiceNode>, service: Service)
      returns (head': ServiceNode?, pres': ServiceNode?, parsecount': nat, ghost list': seq<ServiceNode>)
      requires Growing(responses, head, pres, parsecount, list)
      modifies if pres != null then {pres} else {}
      ensures Growing(responses, head', pres', parsecount', list') && pres' != null && fresh(pres')
      ensures list' == list + [pres']
      ensures ServicesOf(list') == ServicesOf(list) + [service]
    {
      var sn := new ServiceNode(service);
      head', pres' := head, pres;
      if parsecount == 0 {
        head' := sn;
        pres' := head';
      } else {
        pres'.next := sn;
        pres' := sn;
      }
      list' := list + [sn];
      parsecount' := parsecount + 1;
    }
  }

  /** The result list while it is being built: `pres` is its last node. */
  ghost predicate Growing(responses: ServiceNode?, head: ServiceNode?, pres: ServiceNode?, parsecount: nat,
                          list: seq<ServiceNode>)
    reads list
  {
    && parsecount == |list|
    && (if list == [] then head == responses && pres == null else IsResult(head, list) && pres == list[|list| - 1])
  }

  function After(services: seq<Service>, n: nat, rest: Drained): Drained {
    Drained(rest.code, services + rest.services, n + rest.freed)
  }

  lemma {:induction false} DrainStopsAt(payloads: seq<string>)
    ensures var d := Drain(payloads); d.code != 0 ==> ParseFirst(payloads[d.freed]).code == d.code
  {
    hide ParseFirst;
    if payloads == [] {
    } else if ParseFirst(payloads[0]).code == 0 {
      DrainStopsAt(payloads[1..]);
      var d := Drain(payloads);
      assert d.code != 0 ==> payloads[1..][d.freed - 1] == payloads[d.freed];
    }
  }

  lemma FreshDrain(all: seq<string>)
    ensures Drain(all) == After(ServicesOf([]), 0, Drain(all[0..]))
  {
    assert all[0..] == all;
    assert ServicesOf([]) + Drain(all).services == Drain(all).services;
  }

  lemma NothingAppended(services: seq<Service>)
    ensures services + [] == services
  {
  }

  /** One datagram drained, in front of the rest. */
  lemma DrainStep(all: seq<string>, i: nat, services: seq<Service>)
    requires i <= |all|
    ensures var d := After(services, i, Drain(all[i..]));
            if i == |all| then d == Drained(0, services, i)
            else
              var first := ParseFirst(all[i]);
              if first.code != 0 then d == Drained(first.code, services, i)
              else
                var found := if first.service.Some? then [first.service.value] else [];
                d == After(services + found, i + 1, Drain(all[i + 1..]))
  {
    hide ParseFirst;
    if i < |all| {
      assert all[i..][0] == all[i] && all[i..][1..] == all[i + 1..];
    }
    assert services + [] == services;
  }

  lemma {:induction false} EncodedAppend(queries: seq<CQuery>, q: CQuery)
    ensures EncodedSections(queries + [q]) == EncodedSections(queries) + EncodedSection(q)
  {
    hide EncodedSection;
    if queries == [] {
      assert [q][1..] == [];
      assert EncodedSections([q]) == EncodedSection(q) + "" == EncodedSection(q);
    } else {
      assert (queries + [q])[1..] == queries[1..] + [q];
      EncodedAppend(queries[1..], q);
    }
  }

  // ----- whole sessions -----

  datatype Arriving = Arriving(data: string, remotePort: uint16)

  /** The payloads from the queried port, in order of arrival. */
  function FromPort(events: seq<Arriving>, port: uint16): seq<string> {
    if events == [] then []
    else
      var last := events[|events| - 1];
      FromPort(events[..|events| - 1], port) + if last.remotePort == port then [last.data] else []
  }

  /** One use of the client: a query, whether its sending succeeds or not, datagrams from any ports in
      any order, then collecting. The result is that of draining exactly the payloads from the queried
      port in order of arrival, and on success every node of the queue is freed exactly once. */
  method QueryAndCollect(client: NyanSDClient, port: uint16, queries: seq<CQuery>, qnum: uint8, sends: bool,
                         events: seq<Arriving>)
    returns (code: nat, head: ServiceNode?, found: nat, ghost list: seq<ServiceNode>)
    requires 0 < qnum <= |queries| && !client.faulted
    modifies client
    ensures !client.faulted
    ensures var payloads := FromPort(events, port);
            && (client.received <==> old(client.received) || payloads != [])
            && (client.received ==>
                  && code == Drain(payloads).code && ServicesOf(list) == Drain(payloads).services
                  && (list != [] ==> IsResult(head, list))
                  && (code == 0 ==> found == |list|))
            && (!client.received ==> code == 1)
    ensures client.received && code == 0 ==>
              && |client.freed| == |old(client.freed)| + |FromPort(events, port)|
              && client.freed[..|old(client.freed)|] == old(client.freed)
    ensures client.received && code == 0 ==>
              forall i, j :: |old(client.freed)| <= i < j < |client.freed| ==> client.freed[i] != client.freed[j]
  {
    hide PayloadsOf, Drain, Linked, ParseFirst;
    var failed, message := client.SendQuery(port, queries, qnum, sends);
    for k := 0 to |events|
      invariant client.Live() && !client.faulted && client.port == port && client.freed == old(client.freed)
      invariant forall h :: 0 <= h < |client.nodes| ==> fresh(client.nodes[h])
      invariant client.Payloads() == FromPort(events[..k], port)
      invariant client.received <==> old(client.received) || FromPort(events[..k], port) != []
    {
      assert events[..k + 1][..k] == events[..k];
      client.UdpReceiveCallback(events[k].data, events[k].remotePort);
    }
    assert events[..|events|] == events;
    ghost var nodes, freed := client.nodes, client.freed;
    code, head, found, list := client.GetResponses(null, 0);
    if client.received && code == 0 {
      client.FreedOnce(nodes, freed);
    }
  }

  /** What happens to a client over its life. */
  datatype Event =
    | Querying(port: uint16, queries: seq<CQuery>, qnum: uint8, sends: bool)
    | Datagram(data: string, remotePort: uint16)
    | Collecting

  predicate Possible(e: Event) {
    e.Querying? ==> e.qnum <= |e.queries|
  }

  /** Only a query with at least one section starts a new queue. */
  predicate StartsQueue(e: Event) {
    e.Querying? && e.qnum > 0
  }

  function PortAfter(events: seq<Event>): uint16 {
    if events == [] then 0
    else
      var last := events[|events| - 1];
      if last.Querying? then last.port else PortAfter(events[..|events| - 1])
  }

  /** The datagrams taken since the last new queue. */
  function Taken(events: seq<Event>): seq<string> {
    if events == [] then []
    else
      var before, last := events[..|events| - 1], events[|events| - 1];
      if StartsQueue(last) then []
      else Taken(before) + if last.Datagram? && last.remotePort == PortAfter(before) then [last.data] else []
  }

  /** A datagram was taken at any time. */
  predicate EverTaken(events: seq<Event>) {
    events != []
    && var before, last := events[..|events| - 1], events[|events| - 1];
       EverTaken(before) || (last.Datagram? && last.remotePort == PortAfter(before))
  }

  /** The event needs the queue: a collection, or a datagram from the queried port. */
  predicate NeedsQueue(before: seq<Event>, e: Event) {
    e.Collecting? || (e.Datagram? && e.remotePort == PortAfter(before))
  }

  /** The queue is not empty and collecting drains it to its end. */
  predicate DrainsDry(before: seq<Event>, e: Event) {
    e.Collecting? && Taken(before) != [] && Drain(Taken(before)).code == 0
  }

  /** The last queue has been drained to its end. */
  predicate Dry(events: seq<Event>) {
    events != []
    && var before, last := events[..|events| - 1], events[|events| - 1];
       !StartsQueue(last) && (Dry(before) || DrainsDry(before, last))
  }

  /** A deleted node is read or written. */
  predicate TouchesDeleted(events: seq<Event>) {
    events != []
    && var before, last := events[..|events| - 1], events[|events| - 1];
       TouchesDeleted(before) || (Dry(before) && NeedsQueue(before, last))
  }

  ghost predicate DryFrom(events: seq<Event>, i: nat, j: nat) {
    i < j <= |events| && DrainsDry(events[..i], events[i]) && forall k :: i < k < j ==> !StartsQueue(events[k])
  }

  lemma {:induction false} DryIs(events: seq<Event>)
    ensures Dry(events) <==> exists i: nat :: DryFrom(events, i, |events|)
  {
    hide Drain, Taken;
    if events == [] {
    } else {
      var n := |events| - 1;
      var before := events[..n];
      DryIs(before);
      forall i: nat | i < n
        ensures DryFrom(events, i, |events|) <==> DryFrom(before, i, n) && !StartsQueue(events[n])
      {
        assert before[..i] == events[..i];
      }
      assert DryFrom(events, n, |events|) <==> DrainsDry(before, events[n]);
      if Dry(before) {
        var i: nat :| DryFrom(before, i, n);
        assert DryFrom(events, i, |events|) <==> !StartsQueue(events[n]);
      }
      if i: nat :| DryFrom(events, i, |events|) {
        if i < n {
          assert DryFrom(before, i, n);
        }
      }
    }
  }

  /** The event at `j` needs a queue that the collection at `i` has drained to its end. */
  ghost predicate TouchedAt(events: seq<Event>, i: nat, j: nat) {
    j < |events| && DryFrom(events, i, j) && NeedsQueue(events[..j], events[j])
  }

  lemma TouchedAtBefore(events: seq<Event>, n: nat, i: nat, j: nat)
    requires j < n <= |events|
    ensures TouchedAt(events[..n], i, j) <==> TouchedAt(events, i, j)
  {
    hide DrainsDry, NeedsQueue;
    assert events[..n][..j] == events[..j];
    assert i < j ==> events[..n][..i] == events[..i];
  }

  lemma TouchedLast(events: seq<Event>, i: nat)
    requires events != []
    ensures var n := |events| - 1;
            TouchedAt(events, i, n) <==> DryFrom(events[..n], i, n) && NeedsQueue(events[..n], events[n])
  {
    hide DrainsDry, NeedsQueue;
    assert i < |events| - 1 ==> events[..|events| - 1][..i] == events[..i];
  }

  /** Exactly when a deleted node is touched: some collection drains a queue that is not empty to its
      end, and another collection or a datagram from the queried port follows before the next query
      that starts a new queue. */
  lemma {:induction false} TouchesDeletedExactly(events: seq<Event>)
    ensures TouchesDeleted(events) <==> exists i: nat, j: nat :: TouchedAt(events, i, j)
  {
    hide Dry, DryFrom, NeedsQueue, TouchedAt;
    if events == [] {
      NeverTouched();
    } else {
      var n := |events| - 1;
      var before := events[..n];
      TouchesDeletedExactly(before);
      DryIs(before);
      var now := Dry(before) && NeedsQueue(before, events[n]);
      assert TouchesDeleted(events) <==> TouchesDeleted(before) || now;
      if TouchesDeleted(before) {
        var i: nat, j: nat :| TouchedAt(before, i, j);
        TouchedInside(before, i, j);
        TouchedAtBefore(events, n, i, j);
      }
      if now {
        var i: nat :| DryFrom(before, i, n);
        TouchedLast(events, i);
        assert TouchedAt(events, i, n);
      }
      if i: nat, j: nat :| TouchedAt(events, i, j) {
        TouchedInside(events, i, j);
        if j < n {
          TouchedAtBefore(events, n, i, j);
          assert TouchedAt(before, i, j);
        } else {
          TouchedLast(events, i);
          assert now;
        }
        assert TouchesDeleted(events);
      }
      assert TouchesDeleted(events) ==> exists i: nat, j: nat :: TouchedAt(events, i, j);
    }
  }

  lemma TouchedInside(events: seq<Event>, i: nat, j: nat)
    requires TouchedAt(events, i, j)
    ensures j < |events|
  {
  }

  lemma NeverTouched()
    ensures forall i: nat, j: nat :: !TouchedAt([], i, j)
  {
  }

  /** The first such event after a single query: a late datagram, or a second collection; while a new
      query in between makes both harmless. */
  lemma LateDatagram(q: CQuery, port: uint16, data: string)
    requires ParseFirst(data).code == 0
    ensures var once := [Querying(port, [q], 1, true), Datagram(data, port), Collecting];
            && !TouchesDeleted(once)
            && TouchesDeleted(once + [Datagram(data, port)]) && TouchesDeleted(once + [Collecting])
            && !TouchesDeleted(once + [Querying(port, [q], 1, true)] + [Datagram(data, port)])
  {
    hide ParseFirst;
    var query, datagram := Querying(port, [q], 1, true), Datagram(data, port);
    var one, two, once := [query], [query, datagram], [query, datagram, Collecting];
    var again := once + [query];
    assert one[..0] == [] && two[..1] == one && once[..2] == two && again[..3] == once;
    assert (once + [datagram])[..3] == once && (once + [Collecting])[..3] == once;
    assert (again + [datagram])[..4] == again;
    assert PortAfter(one) == port && Taken(one) == [] && !Dry([]) && !Dry(one);
    assert PortAfter(two) == port && Taken(two) == [data] && !Dry(two);
    assert [data][1..] == [] && Drain([data]).code == 0;
    assert PortAfter(once) == port && Dry(once) && !Dry(again);
    assert !TouchesDeleted([]) && !TouchesDeleted(one) && !TouchesDeleted(two);
    assert !TouchesDeleted(once) && !TouchesDeleted(again);
  }

  lemma {:induction false} DrainMore(payloads: seq<string>, data: string)
    requires Drain(payloads).code != 0
    ensures Drain(payloads + [data]).code == Drain(payloads).code
  {
    hide ParseFirst;
    if payloads == [] {
    } else {
      assert (payloads + [data])[1..] == payloads[1..] + [data];
      if ParseFirst(payloads[0]).code == 0 {
        DrainMore(payloads[1..], data);
      }
    }
  }

  /** The queue holds what was taken, or, behind a collection that failed, what it left of that: a
      queue every further collection fails at in the same way. */
  predicate Left(queue: seq<string>, taken: seq<string>) {
    || queue == taken
    || (queue != [] && Drain(taken).code != 0 && ParseFirst(queue[0]).code == Drain(taken).code)
  }

  lemma LeftMore(queue: seq<string>, taken: seq<string>, data: string)
    requires Left(queue, taken)
    ensures Left(queue + [data], taken + [data])
  {
    hide ParseFirst, Drain;
    if queue != taken {
      DrainMore(taken, data);
    }
  }

  lemma LeftDrained(queue: seq<string>, taken: seq<string>)
    requires Left(queue, taken)
    ensures Drain(queue).code == Drain(taken).code
    ensures Drain(queue).code != 0 ==> Left(queue[Drain(queue).freed..], taken)
    ensures Drain(queue).code == 0 ==> queue == taken
  {
    hide ParseFirst;
    if Drain(queue).code != 0 {
      DrainStopsAt(queue);
    }
  }

  /** The client is where the events have brought it. */
  ghost predicate Follows(client: NyanSDClient, events: seq<Event>)
    reads client, client.nodes
  {
    && client.Usable() && client.port == PortAfter(events) && client.received == EverTaken(events)
    && (if Dry(events) then client.Dangling() else client.Live() && Left(client.Payloads(), Taken(events)))
  }

  lemma PayloadsFrom(nodes: seq<ListNode>, i: nat)
    requires i <= |nodes|
    ensures PayloadsOf(nodes[i..]) == PayloadsOf(nodes)[i..]
  {
    hide PayloadsOf;
  }

  /** What one more event changes in what is said of all of them. */
  lemma OneMore(events: seq<Event>, e: Event)
    ensures PortAfter(events + [e]) == if e.Querying? then e.port else PortAfter(events)
    ensures EverTaken(events + [e]) <==> EverTaken(events) || (e.Datagram? && e.remotePort == PortAfter(events))
    ensures Taken(events + [e])
         == if StartsQueue(e) then []
            else if e.Datagram? && e.remotePort == PortAfter(events) then Taken(events) + [e.data]
            else Taken(events)
    ensures Dry(events + [e]) <==> !StartsQueue(e) && (Dry(events) || DrainsDry(events, e))
    ensures TouchesDeleted(events + [e]) <==> TouchesDeleted(events) || (Dry(events) && NeedsQueue(events, e))
  {
    hide Drain, DrainsDry;
    assert (events + [e])[..|events + [e]| - 1] == events;
    assert Taken(events) + [] == Taken(events);
  }

  /** A query. */
  method HandleQuery(client: NyanSDClient, ghost events: seq<Event>, e: Event) returns (code: nat)
    requires Follows(client, events) && Possible(e) && e.Querying?
    modifies client
    ensures !client.faulted && Follows(client, events + [e])
    ensures client.last == old(client.last) && (client.nodes == [] || client.nodes == old(client.nodes))
  {
    hide ParseFirst, Drain, Linked;
    OneMore(events, e);
    var sent;
    code, sent := client.SendQuery(e.port, e.queries, e.qnum, e.sends);
  }

  /** A datagram. */
  method HandleDatagram(client: NyanSDClient, ghost events: seq<Event>, e: Event)
    requires Follows(client, events) && e.Datagram?
    modifies client, if client.response != null then {client.last} else {}
    ensures client.faulted <==> Dry(events) && NeedsQueue(events, e)
    ensures !client.faulted ==> Follows(client, events + [e])
    ensures !client.faulted ==> forall n <- client.nodes :: n in old(client.nodes) || fresh(n)
    ensures !client.faulted && client.last != null ==> client.last == old(client.last) || fresh(client.last)
  {
    hide ParseFirst, Drain, PayloadsOf, Linked, Left, Dry;
    OneMore(events, e);
    if !Dry(events) {
      LeftMore(client.Payloads(), Taken(events), e.data);
    }
    client.UdpReceiveCallback(e.data, e.remotePort);
  }

  /** A collection. */
  method HandleCollection(client: NyanSDClient, ghost events: seq<Event>)
    returns (code: nat, ghost list: seq<ServiceNode>)
    requires Follows(client, events)
    modifies client
    ensures client.faulted <==> Dry(events)
    ensures !client.faulted ==> Follows(client, events + [Collecting])
    ensures !client.faulted ==> forall n <- client.nodes :: n in old(client.nodes)
    ensures client.last == old(client.last)
    ensures !client.faulted ==> code == if EverTaken(events) then Drain(Taken(events)).code else 1
    ensures !client.faulted && EverTaken(events) && code == 0 ==> ServicesOf(list) == Drain(Taken(events)).services
  {
    hide ParseFirst, Drain, PayloadsOf, Linked, Left, Dry;
    OneMore(events, Collecting);
    ghost var nodes, d := client.nodes, Drain(client.Payloads());
    if !Dry(events) {
      LeftDrained(client.Payloads(), Taken(events));
      PayloadsFrom(nodes, d.freed);
      NothingLeft(client.Payloads(), Taken(events));
    }
    var head, found;
    code, head, found, list := client.GetResponses(null, 0);
  }

  lemma NothingLeft(queue: seq<string>, taken: seq<string>)
    requires Left(queue, taken)
    ensures queue == [] ==> taken == []
    ensures queue == taken ==> Left(queue, taken)
  {
  }

  lemma {:induction false} TouchedBefore(events: seq<Event>, k: nat)
    requires k <= |events| && TouchesDeleted(events[..k])
    ensures TouchesDeleted(events)
    decreases |events| - k
  {
    if k == |events| {
      assert events[..k] == events;
    } else {
      assert events[..k + 1][..k] == events[..k];
      TouchedBefore(events, k + 1);
    }
  }

  lemma NothingYet(client: NyanSDClient)
    requires client.Usable() && client.Live() && client.nodes == [] && !client.received && client.port == 0
    ensures Follows(client, []) && !TouchesDeleted([])
  {
    hide ParseFirst, Drain, Linked;
  }

  /** What a collection behind `before` has given. */
  ghost predicate Collected(before: seq<Event>, code: nat, list: seq<ServiceNode>)
    reads list
  {
    && code == (if EverTaken(before) then Drain(Taken(before)).code else 1)
    && (EverTaken(before) && code == 0 ==> ServicesOf(list) == Drain(Taken(before)).services)
  }

  /** A client's whole life, up to the first event that touches a deleted node, is what the events say:
      a deleted node is touched exactly when they say so, and until then every collection gives the
      code of the datagrams taken since the last new queue, and their services when it succeeds. */
  method WholeLife(events: seq<Event>) returns (client: NyanSDClient, code: nat, ghost list: seq<ServiceNode>)
    requires forall e <- events :: Possible(e)
    requires events != [] ==> !TouchesDeleted(events[..|events| - 1])
    ensures client.faulted <==> TouchesDeleted(events)
    ensures !client.faulted ==> Follows(client, events)
    ensures !client.faulted && events != [] && events[|events| - 1].Collecting? ==>
              Collected(events[..|events| - 1], code, list)
  {
    hide ParseFirst, Drain, Taken, EverTaken, Dry, TouchesDeleted, Follows, NeedsQueue, Collected;
    client := new NyanSDClient();
    code, list := 0, [];
    NothingYet(client);
    assert events[..0] == [];
    for k := 0 to |events|
      invariant fresh(client) && (client.faulted <==> TouchesDeleted(events[..k]))
      invariant !client.faulted ==>
                  && Follows(client, events[..k])
                  && (forall n <- client.nodes :: fresh(n)) && (client.last != null ==> fresh(client.last))
      invariant !client.faulted && k > 0 && events[k - 1].Collecting? ==> Collected(events[..k - 1], code, list)
    {
      ghost var before := events[..k];
      assert events[..k + 1] == before + [events[k]];
      assert events[..|events| - 1][..k] == before;
      if TouchesDeleted(before) {
        TouchedBefore(events[..|events| - 1], k);
      }
      code, list := Handle(client, before, events[k]);
      OneMore(before, events[k]);
    }
    assert events[..|events|] == events;
  }

  /** One event. */
  method Handle(client: NyanSDClient, ghost before: seq<Event>, e: Event)
    returns (code: nat, ghost list: seq<ServiceNode>)
    requires Follows(client, before) && Possible(e)
    modifies client, if client.response != null then {client.last} else {}
    ensures client.faulted <==> Dry(before) && NeedsQueue(before, e)
    ensures !client.faulted ==>
              && Follows(client, before + [e])
              && (forall n <- client.nodes :: n in old(client.nodes) || fresh(n))
              && (client.last != null ==> client.last == old(client.last) || fresh(client.last))
    ensures !client.faulted && e.Collecting? ==> Collected(before, code, list)
  {
    hide ParseFirst, Drain, Taken, EverTaken, Dry, Follows;
    code, list := 0, [];
    match e
    case Querying(_, _, _, _) =>
      code := HandleQuery(client, before, e);
    case Datagram(_, _) =>
      HandleDatagram(client, before, e);
    case Collecting =>
      code, list := HandleCollection(client, before);
  }
}
