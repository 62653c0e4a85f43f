/** What a responder prints for a query, and what a querier makes of the datagrams it receives
    (src/nyansd.cpp). */
module Response {
  import opened ByteOrder
  import opened Text
  import opened Wire

  // ----- printing -----

  /** A registered service as it is listed to a sender: a zero IPv4 address is replaced by the local
      address offered to that sender, and then the IPv6 text is left empty. `None` when there is no
      such local address. */
  function Substituted(sv: Service, local: Option<Word32>): Option<Service> {
    if sv.ipv4 != ZERO then Some(sv)
    else if local == None then None
    else Some(sv.(ipv4 := local.value, ipv6 := ""))
  }

  /** What one service adds to a body. Without an address its `S` is already written and stays. */
  function Entry(host: Endian, sv: Service, local: Option<Word32>): string {
    match Substituted(sv, local)
    case None => "S"
    case Some(listed) => Section(host, listed)
  }

  /** The services a body really lists. */
  function Listed(table: seq<Service>, local: Option<Word32>): seq<Service> {
    if table == [] then []
    else
      var last := Substituted(table[|table| - 1], local);
      Listed(table[..|table| - 1], local) + if last.Some? then [last.value] else []
  }

  /** The body and the section count of the branch for an empty filter. */
  function WildcardBody(host: Endian, table: seq<Service>, local: Option<Word32>): string {
    if table == [] then ""
    else WildcardBody(host, table[..|table| - 1], local) + Entry(host, table[|table| - 1], local)
  }

  function WildcardCount(table: seq<Service>, local: Option<Word32>): uint8 {
    if table == [] then 0
    else
      var before := WildcardCount(table[..|table| - 1], local);
      if Substituted(table[|table| - 1], local).Some? then (before + 1) % 0x100 else before
  }

  /** The same of the branch for a filter, which repeats the loop with a test in front. */
  function FilteredBody(host: Endian, table: seq<Service>, filter: string, local: Option<Word32>): string {
    if table == [] then ""
    else
      FilteredBody(host, table[..|table| - 1], filter, local)
      + if filter == table[|table| - 1].service then Entry(host, table[|table| - 1], local) else ""
  }

  function FilteredCount(table: seq<Service>, filter: string, local: Option<Word32>): uint8 {
    if table == [] then 0
    else
      var before := FilteredCount(table[..|table| - 1], filter, local);
      if filter == table[|table| - 1].service && Substituted(table[|table| - 1], local).Some?
      then (before + 1) % 0x100 else before
  }

  function Reply(host: Endian, body: string, count: uint8): string {
    Message(host, RESPONSE, [Chr(count)] + body)
  }

  /** The message sent for one query. */
  function Answer(host: Endian, table: seq<Service>, filter: string, local: Option<Word32>): string {
    if filter == "" then Reply(host, WildcardBody(host, table, local), WildcardCount(table, local))
    else Reply(host, FilteredBody(host, table, filter, local), FilteredCount(table, filter, local))
  }

  /** All messages sent for one received datagram. */
  function Answers(host: Endian, table: seq<Service>, asked: seq<Asked>, local: Option<Word32>): (r: seq<string>)
    ensures |r| == |asked|
  {
    if asked == [] then []
    else Answers(host, table, asked[..|asked| - 1], local) + [Answer(host, table, asked[|asked| - 1].filter, local)]
  }

  // ----- the two branches -----

  /** The services a filter selects: all of them when it is empty, else those with exactly that
      name. */
  function Selected(table: seq<Service>, filter: string): seq<Service> {
    if filter == "" then table
    else if table == [] then []
    else
      Selected(table[..|table| - 1], filter)
      + if table[|table| - 1].service == filter then [table[|table| - 1]] else []
  }

  lemma WildcardAppend(host: Endian, table: seq<Service>, sv: Service, local: Option<Word32>)
    ensures WildcardBody(host, table + [sv], local) == WildcardBody(host, table, local) + Entry(host, sv, local)
    ensures WildcardCount(table + [sv], local)
         == if Substituted(sv, local).Some? then (WildcardCount(table, local) + 1) % 0x100
             else WildcardCount(table, local)
    ensures Listed(table + [sv], local)
         == Listed(table, local) + if Substituted(sv, local).Some? then [Substituted(sv, local).value] else []
  {
    hide Entry;
    assert (table + [sv])[..|table + [sv]| - 1] == table;
  }

  lemma NothingPrinted(host: Endian, filter: string, local: Option<Word32>)
    ensures FilteredBody(host, [], filter, local) == "" && WildcardBody(host, [], local) == ""
    ensures FilteredCount([], filter, local) == 0 && WildcardCount([], local) == 0
  {
  }

  lemma FilteredLast(host: Endian, table: seq<Service>, filter: string, local: Option<Word32>)
    requires table != []
    ensures var before, last := table[..|table| - 1], table[|table| - 1];
            && FilteredBody(host, table, filter, local)
            == FilteredBody(host, before, filter, local)
               + (if filter == last.service then Entry(host, last, local) else "")
            && FilteredCount(table, filter, local)
            == if filter == last.service && Substituted(last, local).Some?
               then (FilteredCount(before, filter, local) + 1) % 0x100 else FilteredCount(before, filter, local)
  {
    hide Entry, Substituted;
  }

  lemma {:induction false} FilteredIsWildcardOfSelected(host: Endian, table: seq<Service>, filter: string,
                                                        local: Option<Word32>)
    requires filter != ""
    ensures FilteredBody(host, table, filter, local) == WildcardBody(host, Selected(table, filter), local)
    ensures FilteredCount(table, filter, local) == WildcardCount(Selected(table, filter), local)
  {
    hide Entry, Substituted, FilteredBody, FilteredCount, WildcardBody, WildcardCount, Listed, Selected;
    SelectedLast(table, filter);
    if table == [] {
      NothingPrinted(host, filter, local);
    } else {
      var before, last := table[..|table| - 1], table[|table| - 1];
      FilteredIsWildcardOfSelected(host, before, filter, local);
      FilteredLast(host, table, filter, local);
      if last.service == filter {
        WildcardAppend(host, Selected(before, filter), last, local);
      } else {
        assert Selected(before, filter) + [] == Selected(before, filter);
        assert FilteredBody(host, before, filter, local) + "" == FilteredBody(host, before, filter, local);
      }
    }
  }

  /** The answer to a named query is the answer to the wildcard query over the sub-table of services
      of exactly that name, in table order. */
  lemma BranchesAgree(host: Endian, table: seq<Service>, filter: string, local: Option<Word32>)
    ensures Answer(host, table, filter, local) == Answer(host, Selected(table, filter), "", local)
  {
    if filter != "" {
      FilteredIsWildcardOfSelected(host, table, filter, local);
    }
  }

  /** The selected services are the matching ones in table order: an element is selected once for
      each place it has in the table. */
  lemma {:induction false} SelectsByName(table: seq<Service>, filter: string, sv: Service)
    ensures multiset(Selected(table, filter))[sv]
         == if filter == "" || sv.service == filter then multiset(table)[sv] else 0
  {
    if table != [] && filter != "" {
      var before, last := table[..|table| - 1], table[|table| - 1];
      SelectsByName(before, filter, sv);
      assert table == before + [last];
    }
  }

  predicate Matches(filter: string, sv: Service) {
    filter == "" || sv.service == filter
  }

  /** They are selected in table order: `places` are the places of the matching services. */
  lemma {:induction false} SelectedInOrder(table: seq<Service>, filter: string) returns (places: seq<nat>)
    ensures |places| == |Selected(table, filter)|
    ensures forall i :: 0 <= i < |table| ==> (i in places <==> Matches(filter, table[i]))
    ensures forall k :: 0 <= k < |places| ==> places[k] < |table| && Selected(table, filter)[k] == table[places[k]]
    ensures forall h, k :: 0 <= h < k < |places| ==> places[h] < places[k]
  {
    hide Selected, Matches;
    SelectedLast(table, filter);
    if table == [] {
      places := [];
    } else {
      var n := |table| - 1;
      var before, last := table[..n], table[n];
      var inner := SelectedInOrder(before, filter);
      places := inner + if Matches(filter, last) then [n] else [];
      forall i | 0 <= i < |table|
        ensures i in places <==> Matches(filter, table[i])
      {
        if i < n {
          assert before[i] == table[i];
          assert i in inner <==> Matches(filter, before[i]);
        }
      }
      forall k | 0 <= k < |places|
        ensures Selected(table, filter)[k] == table[places[k]]
      {
        assert k < |inner| ==> Selected(table, filter)[k] == Selected(before, filter)[k] == before[inner[k]];
      }
    }
  }

  lemma SelectedLast(table: seq<Service>, filter: string)
    ensures if table == [] then Selected(table, filter) == []
            else
              var before, last := table[..|table| - 1], table[|table| - 1];
              Selected(table, filter) == Selected(before, filter) + if Matches(filter, last) then [last] else []
  {
    assert table != [] ==> table == table[..|table| - 1] + [table[|table| - 1]];
  }

  // ----- when a body is well formed -----

  /** Every service has an address to list: its own, or a local one. */
  predicate Resolvable(table: seq<Service>, local: Option<Word32>) {
    forall k :: 0 <= k < |table| ==> Substituted(table[k], local).Some?
  }

  /** The number of services left out, each leaving one stray byte behind. */
  function Unresolved(table: seq<Service>, local: Option<Word32>): (n: nat)
    ensures n + |Listed(table, local)| == |table|
    ensures n == 0 <==> Resolvable(table, local)
  {
    if table == [] then 0
    else
      Unresolved(table[..|table| - 1], local) + if Substituted(table[|table| - 1], local).Some? then 0 else 1
  }

  lemma SectionsOfOne(host: Endian, sv: Service)
    ensures Sections(host, [sv]) == Section(host, sv)
  {
    hide Section;
    assert Sections(host, [sv][1..]) == "";
  }

  lemma {:induction false} CountsListed(table: seq<Service>, local: Option<Word32>)
    ensures WildcardCount(table, local) == |Listed(table, local)| % 0x100
  {
    if table == [] {
    } else {
      CountsListed(table[..|table| - 1], local);
      CountUp(|Listed(table[..|table| - 1], local)|);
    }
  }

  lemma CountUp(n: nat)
    ensures (n % 0x100 + 1) % 0x100 == (n + 1) % 0x100
  {
  }

  lemma {:induction false} BodyLength(host: Endian, table: seq<Service>, local: Option<Word32>)
    ensures |WildcardBody(host, table, local)| == |Sections(host, Listed(table, local))| + Unresolved(table, local)
    ensures Unresolved(table, local) == 0 ==> WildcardBody(host, table, local) == Sections(host, Listed(table, local))
  {
    hide Section, Sections, Substituted;
    if table == [] {
      NoSections(host);
    } else {
      var before, last := table[..|table| - 1], Substituted(table[|table| - 1], local);
      BodyLength(host, before, local);
      if last.Some? {
        SectionsOfOne(host, last.value);
        SectionsAppend(host, Listed(before, local), [last.value]);
      } else {
        assert Listed(table, local) == Listed(before, local) + [] == Listed(before, local);
      }
    }
  }

  lemma NoSections(host: Endian)
    ensures Sections(host, []) == ""
  {
  }

  /** A body is the well-formed list of its counted services exactly when none was left out. */
  lemma WellFormedBody(host: Endian, table: seq<Service>, local: Option<Word32>)
    ensures WildcardBody(host, table, local) == Sections(host, Listed(table, local)) <==> Resolvable(table, local)
  {
    BodyLength(host, table, local);
  }

  // ----- parsing -----

  datatype Outcome = Outcome(ok: bool, services: seq<Service>)

  function After(services: seq<Service>, rest: Outcome): Outcome {
    Outcome(rest.ok, services + rest.services)
  }

  /** `buffers[i].length - index` in 32-bit unsigned arithmetic. */
  function Remaining(n: nat, index: nat): uint32 {
    (n - index) % 0x1_0000_0000
  }

  /** Parsing one datagram from `i` on. The signature is looked up at the start of the buffer, not
      at `i`. A message of another type is stepped over by its type byte only. */
  function ParseMessages(host: Endian, buffer: string, i: nat): Outcome
    decreases |buffer| - i
  {
    if i >= |buffer| then Outcome(true, [])
    else if Slice(buffer, 0, 6) != SIGNATURE then Outcome(false, [])
    else if Get16(host, buffer, i + 6) > Remaining(|buffer|, i + 8) then Outcome(false, [])
    else if U8(Peek(buffer, i + 8)) != RESPONSE then ParseMessages(host, buffer, i + 9)
    else
      var read := ParseSections(host, buffer, i + 10, U8(Peek(buffer, i + 9)));
      if !read.ok then Outcome(false, read.services)
      else After(read.services, ParseMessages(host, buffer, read.next))
  }

  /** The rounds of the message loop from `i` on. */
  function Rounds(host: Endian, buffer: string, i: nat): nat
    decreases |buffer| - i
  {
    if i >= |buffer| then 0
    else if Slice(buffer, 0, 6) != SIGNATURE || Get16(host, buffer, i + 6) > Remaining(|buffer|, i + 8) then 1
    else if U8(Peek(buffer, i + 8)) != RESPONSE then 1 + Rounds(host, buffer, i + 9)
    else
      var read := ParseSections(host, buffer, i + 10, U8(Peek(buffer, i + 9)));
      if !read.ok then 1 else 1 + Rounds(host, buffer, read.next)
  }

  /** On arbitrary bytes every round but a failing last one moves at least nine bytes ahead. */
  lemma {:induction false} RoundsBounded(host: Endian, buffer: string, i: nat)
    ensures 9 * Rounds(host, buffer, i) <= if i >= |buffer| then 0 else |buffer| - i + 8
    decreases |buffer| - i
  {
    hide Slice, Get16, Remaining, Peek, ParseSections;
    if i < |buffer| {
      if U8(Peek(buffer, i + 8)) != RESPONSE {
        RoundsBounded(host, buffer, i + 9);
      } else {
        RoundsBounded(host, buffer, ParseSections(host, buffer, i + 10, U8(Peek(buffer, i + 9))).next);
      }
    }
  }

  /** Parsing all datagrams: a failure ends it, and keeps what was read. */
  function ParseDatagrams(host: Endian, buffers: seq<string>): Outcome {
    if buffers == [] then Outcome(true, [])
    else if |buffers[0]| < 8 then Outcome(false, [])
    else
      var first := ParseMessages(host, buffers[0], 0);
      if !first.ok then first else After(first.services, ParseDatagrams(host, buffers[1..]))
  }

  // ----- reading back what was printed -----

  /** A well-formed response message for a list of services. */
  function ResponseMessage(host: Endian, list: seq<Service>): string {
    Reply(host, Sections(host, list), |list| % 0x100)
  }

  predicate Sendable(list: seq<Service>) {
    AllFit(list) && |list| <= 255
  }

  /** A response message at `i` is read whole, and reading goes on right behind it. */
  lemma MessageRead(server: Endian, client: Endian, list: seq<Service>, buffer: string, i: nat)
    requires Holds(buffer, i, ResponseMessage(server, list)) && Sendable(list)
    requires Slice(buffer, 0, 6) == SIGNATURE && |buffer| < 0x1_0000_0000
    ensures ParseMessages(client, buffer, i)
         == After(list, ParseMessages(client, buffer, i + |ResponseMessage(server, list)|))
  {
    hide Holds, Slice, Get16, Peek, ParseSections, Sections, Message;
    var body := Sections(server, list);
    ReadHeader(server, client, RESPONSE, |list|, body, buffer, i);
    FitsBuffer(buffer, i, Message(server, RESPONSE, [Chr(|list|)] + body));
    SectionsRoundTrip(server, client, list, buffer, i + 10);
  }

  /** A message of another kind with a count and a body, a query message for one, is stepped over by its
      nine bytes of header only: its own count and body are taken for the next message. */
  lemma ForeignMessageStep(sender: Endian, client: Endian, kind: uint8, count: uint8, body: string, buffer: string,
                           i: nat)
    requires kind != RESPONSE && Holds(buffer, i, Message(sender, kind, [Chr(count)] + body))
    requires Slice(buffer, 0, 6) == SIGNATURE && |buffer| < 0x1_0000_0000
    ensures ParseMessages(client, buffer, i) == ParseMessages(client, buffer, i + 9)
  {
    hide Holds, Slice, Get16, Peek, ParseSections, Message;
    ReadHeader(sender, client, kind, count, body, buffer, i);
    FitsBuffer(buffer, i, Message(sender, kind, [Chr(count)] + body));
  }

  lemma FitsBuffer(buffer: string, i: nat, piece: string)
    requires Holds(buffer, i, piece)
    ensures i + |piece| <= |buffer|
  {
  }

  /** Response messages packed into one datagram one behind the other. */
  function Packet(host: Endian, lists: seq<seq<Service>>): string {
    if lists == [] then "" else ResponseMessage(host, lists[0]) + Packet(host, lists[1..])
  }

  function Concat<T>(lists: seq<seq<T>>): seq<T> {
    if lists == [] then [] else lists[0] + Concat(lists[1..])
  }

  predicate AllSendable(lists: seq<seq<Service>>) {
    forall k :: 0 <= k < |lists| ==> Sendable(lists[k])
  }

  /** Messages packed behind each other are read one by one, and reading goes on behind the last. */
  lemma {:induction false} PacketReadFrom(server: Endian, client: Endian, lists: seq<seq<Service>>, buffer: string,
                                          i: nat)
    requires Holds(buffer, i, Packet(server, lists)) && AllSendable(lists)
    requires Slice(buffer, 0, 6) == SIGNATURE && |buffer| < 0x1_0000_0000
    ensures ParseMessages(client, buffer, i)
         == After(Concat(lists), ParseMessages(client, buffer, i + |Packet(server, lists)|))
  {
    hide Holds, Slice, Get16, Peek, ParseMessages, ResponseMessage;
    var rest := ParseMessages(client, buffer, i + |Packet(server, lists)|);
    if lists == [] {
      assert [] + rest.services == rest.services;
    } else {
      SplitHead(buffer, i, ResponseMessage(server, lists[0]), Packet(server, lists[1..]));
      MessageRead(server, client, lists[0], buffer, i);
      PacketReadFrom(server, client, lists[1..], buffer, i + |ResponseMessage(server, lists[0])|);
      assert lists[0] + (Concat(lists[1..]) + rest.services) == lists[0] + Concat(lists[1..]) + rest.services;
    }
  }

  lemma ResponseLength(host: Endian, list: seq<Service>)
    ensures |ResponseMessage(host, list)| == 10 + |Sections(host, list)|
    ensures Slice(ResponseMessage(host, list), 0, 6) == SIGNATURE
  {
    hide Sections;
    var m := ResponseMessage(host, list);
    assert Slice(m, 0, 6) == m[..6];
  }

  /** One datagram holding any number of response messages parses to the concatenation of their
      lists. */
  lemma PacketRead(server: Endian, client: Endian, lists: seq<seq<Service>>)
    requires AllSendable(lists) && |Packet(server, lists)| < 0x1_0000_0000
    ensures ParseMessages(client, Packet(server, lists), 0) == Outcome(true, Concat(lists))
    ensures lists != [] ==> |Packet(server, lists)| >= 10
  {
    hide Holds, ParseMessages, ResponseMessage;
    var buffer := Packet(server, lists);
    HoldsWhole(buffer);
    NothingToParse(client, buffer, |buffer|);
    if lists != [] {
      ResponseLength(server, lists[0]);
      SamePrefix(buffer, ResponseMessage(server, lists[0]));
      PacketReadFrom(server, client, lists, buffer, 0);
      assert Concat(lists) + [] == Concat(lists);
    }
  }

  /** A datagram that is cut off behind some whole messages, so that the length of the next message is
      more than the bytes left, fails and keeps what the whole ones list. */
  lemma CutOffKeeps(server: Endian, client: Endian, lists: seq<seq<Service>>, tail: string)
    requires AllSendable(lists) && lists != [] && |Packet(server, lists) + tail| < 0x1_0000_0000
    requires |tail| >= 8 && U8(tail[6]) + 0x100 * U8(tail[7]) > |tail| - 8
    ensures ParseMessages(client, Packet(server, lists) + tail, 0) == Outcome(false, Concat(lists))
    ensures |Packet(server, lists)| >= 10
  {
    hide Holds, ParseMessages, ResponseMessage;
    var buffer, n := Packet(server, lists) + tail, |Packet(server, lists)|;
    ResponseLength(server, lists[0]);
    SamePrefix(buffer, ResponseMessage(server, lists[0]));
    HoldsWhole(buffer);
    SplitHead(buffer, 0, Packet(server, lists), tail);
    PacketReadFrom(server, client, lists, buffer, 0);
    TooLongFails(client, buffer, n, tail);
    assert Concat(lists) + [] == Concat(lists);
  }

  lemma TooLongFails(client: Endian, buffer: string, i: nat, tail: string)
    requires i + |tail| == |buffer| && buffer[i..] == tail && |buffer| < 0x1_0000_0000
    requires |tail| >= 8 && U8(tail[6]) + 0x100 * U8(tail[7]) > |tail| - 8
    ensures ParseMessages(client, buffer, i) == Outcome(false, [])
  {
    hide ParseSections, Slice;
    assert buffer[i + 6] == tail[6] && buffer[i + 7] == tail[7];
  }

  /** So among any datagrams: what came before the cut-off message is kept, and what comes behind its
      datagram is not looked at. */
  lemma CutOffEnds(server: Endian, client: Endian, sent: seq<Sent>, lists: seq<seq<Service>>, tail: string,
                   behind: seq<string>)
    requires forall k :: 0 <= k < |sent| ==> WellSent(sent[k])
    requires AllSendable(lists) && lists != [] && |Packet(server, lists) + tail| < 0x1_0000_0000
    requires |tail| >= 8 && U8(tail[6]) + 0x100 * U8(tail[7]) > |tail| - 8
    ensures ParseDatagrams(client, Packets(sent) + [Packet(server, lists) + tail] + behind)
         == Outcome(false, ListsOf(sent) + Concat(lists))
  {
    hide ParseMessages, Packet, Concat, AllSendable, WellSent, Packets, ListsOf;
    var bad := Packet(server, lists) + tail;
    DatagramsRead(client, sent);
    CutOffKeeps(server, client, lists, tail);
    assert ([bad] + behind)[1..] == behind;
    DatagramsAppend(client, Packets(sent), [bad] + behind);
    assert Packets(sent) + ([bad] + behind) == Packets(sent) + [bad] + behind;
  }

  lemma SamePrefix(buffer: string, head: string)
    requires |head| >= 6 && head <= buffer
    ensures Slice(buffer, 0, 6) == Slice(head, 0, 6)
  {
    assert Slice(buffer, 0, 6) == buffer[..6] == head[..6] == Slice(head, 0, 6);
  }

  lemma NothingToParse(host: Endian, buffer: string, i: nat)
    requires i >= |buffer|
    ensures ParseMessages(host, buffer, i) == Outcome(true, [])
  {
  }

  /** Datagrams from any senders, on hosts of either kind, each holding at least one message. */
  datatype Sent = Sent(host: Endian, lists: seq<seq<Service>>)

  function Packets(sent: seq<Sent>): seq<string> {
    if sent == [] then [] else [Packet(sent[0].host, sent[0].lists)] + Packets(sent[1..])
  }

  function ListsOf(sent: seq<Sent>): seq<Service> {
    if sent == [] then [] else Concat(sent[0].lists) + ListsOf(sent[1..])
  }

  predicate WellSent(s: Sent) {
    s.lists != [] && AllSendable(s.lists) && |Packet(s.host, s.lists)| < 0x1_0000_0000
  }

  /** Any number of well-formed datagrams parses to the concatenation of all their lists. */
  lemma {:induction false} DatagramsRead(client: Endian, sent: seq<Sent>)
    requires forall k :: 0 <= k < |sent| ==> WellSent(sent[k])
    ensures ParseDatagrams(client, Packets(sent)) == Outcome(true, ListsOf(sent))
  {
    hide ParseMessages, Packet, Concat, AllSendable;
    if sent == [] {
    } else {
      PacketRead(sent[0].host, client, sent[0].lists);
      DatagramsRead(client, sent[1..]);
      assert Packets(sent)[1..] == Packets(sent[1..]);
    }
  }

  /** A failing datagram hides the ones behind it; a good prefix is kept. */
  lemma {:induction false} DatagramsAppend(host: Endian, a: seq<string>, b: seq<string>)
    ensures ParseDatagrams(host, a + b)
         == if ParseDatagrams(host, a).ok then After(ParseDatagrams(host, a).services, ParseDatagrams(host, b))
            else ParseDatagrams(host, a)
  {
    hide ParseMessages;
    if a == [] {
      assert a + b == b;
      assert After([], ParseDatagrams(host, b)) == ParseDatagrams(host, b);
    } else {
      assert (a + b)[1..] == a[1..] + b;
      DatagramsAppend(host, a[1..], b);
      if |a[0]| >= 8 {
        var first, mid, last := ParseMessages(host, a[0], 0).services, ParseDatagrams(host, a[1..]).services,
            ParseDatagrams(host, b).services;
        assert first + (mid + last) == (first + mid) + last;
      }
    }
  }
}
