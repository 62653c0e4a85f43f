/** The listener thread and the threads that use the library beside it, as a system of steps
    (src/nyansd.cpp). The mutex makes `addService` and the table scans exclude each other; every
    other interleaving of the steps below is possible. */
module Listener {
  import opened ByteOrder
  import opened Text
  import opened Wire
  import opened Response
  import opened NyanSD

  /** Where the listener thread is. `pending` are the filters of the received datagram still to be
      answered, `local` is the address offered to its sender. */
  datatype Handler =
    | Idle
    | Starting
    | Checking
    | Polling
    | Answering(pending: seq<string>, local: Option<Word32>)
    | Scanning(pending: seq<string>, local: Option<Word32>, i: nat, body: string, count: uint8)
    | Exited

  datatype Lock = Free | ByHandler | ByAdder(service: Service)

  /** One reply sent, and how many services the table held then. */
  datatype Logged = Logged(filter: string, local: Option<Word32>, message: string, size: nat)

  datatype State = State(services: seq<Service>, running: bool, lock: Lock, handler: Handler, log: seq<Logged>,
                         received: nat)

  datatype Step =
    | StartListener
    | StopListener
    | Join
    | AddLock(service: Service)
    | AddPush
    | SetRunning
    | Check
    | Quiet
    | Receive(filters: seq<string>, local: Option<Word32>)
    | ScanLock
    | ScanOne
    | ScanUnlock
    | DatagramDone

  const INITIAL := State([], false, Free, Idle, [], 0)

  predicate Enabled(s: State, step: Step) {
    match step
    case StartListener => !s.running && s.handler.Idle?
    case StopListener => !s.handler.Idle?
    case Join => s.handler.Exited?
    case AddLock(sv) => s.lock.Free? && Registrable(sv)
    case AddPush => s.lock.ByAdder?
    case SetRunning => s.handler.Starting?
    case Check => s.handler.Checking?
    case Quiet => s.handler.Polling?
    case Receive(_, _) => s.handler.Polling?
    case ScanLock => s.handler.Answering? && s.handler.pending != [] && s.lock.Free?
    case ScanOne => s.handler.Scanning? && s.handler.i < |s.services|
    case ScanUnlock => s.handler.Scanning? && s.handler.pending != [] && s.handler.i >= |s.services|
    case DatagramDone => s.handler.Answering? && s.handler.pending == []
  }

  /** One round of either scan loop of the handler. */
  function Scanned(host: Endian, h: Handler, sv: Service): (r: Handler)
    requires h.Scanning? && h.pending != []
    ensures r.Scanning? && r.pending == h.pending && r.local == h.local && r.i == h.i + 1
  {
    if h.pending[0] != "" && h.pending[0] != sv.service then h.(i := h.i + 1)
    else h.(i := h.i + 1, body := h.body + Entry(host, sv, h.local),
            count := if Substituted(sv, h.local).Some? then (h.count + 1) % 0x100 else h.count)
  }

  function Do(host: Endian, s: State, step: Step): State
    requires Enabled(s, step)
  {
    match step
    case StartListener => s.(handler := Starting)
    case StopListener => s.(running := false)
    case Join => s.(handler := Idle)
    case AddLock(sv) => s.(lock := ByAdder(sv))
    case AddPush => s.(services := s.services + [s.lock.service], lock := Free)
    case SetRunning => s.(running := true, handler := Checking)
    case Check => s.(handler := if s.running then Polling else Exited)
    case Quiet => s.(handler := Checking)
    case Receive(filters, local) => s.(handler := Answering(filters, local), received := s.received + 1)
    case ScanLock => s.(lock := ByHandler, handler := Scanning(s.handler.pending, s.handler.local, 0, "", 0))
    case ScanOne =>
      if s.handler.pending == [] then s else s.(handler := Scanned(host, s.handler, s.services[s.handler.i]))
    case ScanUnlock =>
      var h := s.handler;
      s.(lock := Free, handler := Answering(h.pending[1..], h.local),
         log := s.log + [Logged(h.pending[0], h.local, Reply(host, h.body, h.count), |s.services|)])
    case DatagramDone => s.(handler := Checking)
  }

  /** Every step of the list can be taken, one after the other. */
  predicate CanRun(host: Endian, s: State, steps: seq<Step>)
    decreases |steps|
  {
    steps == [] || (Enabled(s, steps[0]) && CanRun(host, Do(host, s, steps[0]), steps[1..]))
  }

  function Run(host: Endian, s: State, steps: seq<Step>): State
    requires CanRun(host, s, steps)
    decreases |steps|
  {
    if steps == [] then s else Run(host, Do(host, s, steps[0]), steps[1..])
  }

  // ----- replies are atomic -----

  function BodyOf(host: Endian, table: seq<Service>, filter: string, local: Option<Word32>): string {
    if filter == "" then WildcardBody(host, table, local) else FilteredBody(host, table, filter, local)
  }

  function CountOf(table: seq<Service>, filter: string, local: Option<Word32>): uint8 {
    if filter == "" then WildcardCount(table, local) else FilteredCount(table, filter, local)
  }

  /** A reply is the answer over the first `size` services of the table. */
  predicate IsSnapshotReply(host: Endian, table: seq<Service>, entry: Logged) {
    entry.size <= |table| && entry.message == Answer(host, table[..entry.size], entry.filter, entry.local)
  }

  predicate InOrder(log: seq<Logged>) {
    forall a, b :: 0 <= a < b < |log| ==> log[a].size <= log[b].size
  }

  predicate LogIsSnapshots(host: Endian, table: seq<Service>, log: seq<Logged>) {
    InOrder(log) && forall a :: 0 <= a < |log| ==> IsSnapshotReply(host, table, log[a])
  }

  /** Nothing but registrable services gets into the table or waits to. */
  predicate OnlyRegistrable(s: State) {
    && (forall k :: 0 <= k < |s.services| ==> Registrable(s.services[k]))
    && (s.lock.ByAdder? ==> Registrable(s.lock.service))
  }

  /** What holds in every state: the handler holds the lock exactly while it scans, what it has
      collected is the answer over the part of the table it has passed, and so the replies sent are
      answers over growing snapshots of the table. */
  predicate Inv(host: Endian, s: State) {
    && OnlyRegistrable(s)
    && (s.lock.ByHandler? <==> s.handler.Scanning?)
    && (s.handler.Scanning? ==>
          var h := s.handler;
          && h.pending != [] && h.i <= |s.services|
          && h.body == BodyOf(host, s.services[..h.i], h.pending[0], h.local)
          && h.count == CountOf(s.services[..h.i], h.pending[0], h.local))
    && LogIsSnapshots(host, s.services, s.log)
  }

  lemma ScanOneKeeps(host: Endian, s: State)
    requires Inv(host, s) && Enabled(s, ScanOne)
    ensures Inv(host, Do(host, s, ScanOne))
  {
    hide Entry, Substituted, Answer;
    var h := s.handler;
    var next := s.services[..h.i + 1];
    assert next[..|next| - 1] == s.services[..h.i];
    assert next[|next| - 1] == s.services[h.i];
    if h.pending[0] != "" && h.pending[0] != s.services[h.i].service {
      var before := FilteredBody(host, s.services[..h.i], h.pending[0], h.local);
      assert before + "" == before;
    }
  }

  lemma ScanUnlockKeeps(host: Endian, s: State)
    requires Inv(host, s) && Enabled(s, ScanUnlock)
    ensures Inv(host, Do(host, s, ScanUnlock))
  {
    hide WildcardBody, FilteredBody, WildcardCount, FilteredCount, Reply;
    assert s.services[..|s.services|] == s.services;
    assert s.services[..s.handler.i] == s.services;
  }

  lemma AddPushKeeps(host: Endian, s: State)
    requires Inv(host, s) && Enabled(s, AddPush)
    ensures Inv(host, Do(host, s, AddPush))
  {
    hide Answer;
    var after := s.services + [s.lock.service];
    forall a | 0 <= a < |s.log|
      ensures IsSnapshotReply(host, after, s.log[a])
    {
      assert IsSnapshotReply(host, s.services, s.log[a]);
      assert after[..s.log[a].size] == s.services[..s.log[a].size];
    }
  }

  lemma StepKeeps(host: Endian, s: State, step: Step)
    requires Inv(host, s) && Enabled(s, step)
    ensures Inv(host, Do(host, s, step))
    ensures s.services <= Do(host, s, step).services && s.log <= Do(host, s, step).log
  {
    match step
    case ScanOne => ScanOneKeeps(host, s);
    case ScanUnlock => ScanUnlockKeeps(host, s);
    case AddPush => AddPushKeeps(host, s);
    case ScanLock =>
      assert s.services[..0] == [];
      hide Answer;
    case _ =>
      hide Answer, BodyOf, CountOf;
  }

  /** In every interleaving from the initial state: the table only grows, replies are only added,
      and each reply is the answer over one atomic snapshot of the table, snapshots never getting
      smaller. */
  lemma {:induction false} RunKeeps(host: Endian, s: State, steps: seq<Step>)
    requires Inv(host, s) && CanRun(host, s, steps)
    ensures var t := Run(host, s, steps);
            Inv(host, t) && s.services <= t.services && s.log <= t.log
    decreases |steps|
  {
    hide Inv, Do, Enabled;
    if steps == [] {
    } else {
      StepKeeps(host, s, steps[0]);
      RunKeeps(host, Do(host, s, steps[0]), steps[1..]);
    }
  }

  lemma RepliesAreSnapshots(host: Endian, steps: seq<Step>)
    requires CanRun(host, INITIAL, steps)
    ensures var t := Run(host, INITIAL, steps); LogIsSnapshots(host, t.services, t.log) && OnlyRegistrable(t)
  {
    assert Inv(host, INITIAL);
    RunKeeps(host, INITIAL, steps);
  }

  lemma {:induction false} SelectedGrows(table: seq<Service>, size: nat, filter: string)
    requires size <= |table|
    ensures Selected(table[..size], filter) <= Selected(table, filter)
  {
    if size < |table| {
      var before := table[..|table| - 1];
      assert before[..size] == table[..size];
      SelectedGrows(before, size, filter);
    } else {
      assert table[..size] == table;
    }
  }

  lemma {:induction false} ListedGrows(table: seq<Service>, size: nat, local: Option<Word32>)
    requires size <= |table|
    ensures Listed(table[..size], local) <= Listed(table, local)
  {
    if size < |table| {
      var before := table[..|table| - 1];
      assert before[..size] == table[..size];
      ListedGrows(before, size, local);
    } else {
      assert table[..size] == table;
    }
  }

  /** The same query asked again, with any amount of registering in between, is answered with a list
      that extends the earlier one. */
  lemma RepeatedQueryExtends(host: Endian, steps: seq<Step>, a: nat, b: nat)
    requires CanRun(host, INITIAL, steps)
    requires var log := Run(host, INITIAL, steps).log;
             a < b < |log| && log[a].filter == log[b].filter && log[a].local == log[b].local
    ensures var t := Run(host, INITIAL, steps);
            && t.log[a].size <= t.log[b].size <= |t.services|
            && var first, second := t.services[..t.log[a].size], t.services[..t.log[b].size];
            && t.log[a].message == Answer(host, first, t.log[a].filter, t.log[a].local)
            && t.log[b].message == Answer(host, second, t.log[a].filter, t.log[a].local)
            && Listed(Selected(first, t.log[a].filter), t.log[a].local)
            <= Listed(Selected(second, t.log[a].filter), t.log[a].local)
  {
    hide Answer, Listed, Selected;
    RepliesAreSnapshots(host, steps);
    var t := Run(host, INITIAL, steps);
    assert IsSnapshotReply(host, t.services, t.log[a]) && IsSnapshotReply(host, t.services, t.log[b]);
    var second := t.services[..t.log[b].size];
    assert second[..t.log[a].size] == t.services[..t.log[a].size];
    SelectedGrows(second, t.log[a].size, t.log[a].filter);
    var sel := Selected(second, t.log[a].filter);
    var size := |Selected(second[..t.log[a].size], t.log[a].filter)|;
    assert sel[..size] == Selected(second[..t.log[a].size], t.log[a].filter);
    ListedGrows(sel, size, t.log[a].local);
  }

  // ----- every query is answered, every service is added -----

  datatype Asking = Asking(filter: string, local: Option<Word32>)

  function QueriesOf(filters: seq<string>, local: Option<Word32>): (r: seq<Asking>)
    ensures |r| == |filters| && forall k :: 0 <= k < |r| ==> r[k] == Asking(filters[k], local)
  {
    seq(|filters|, k requires 0 <= k < |filters| => Asking(filters[k], local))
  }

  /** The queries of all datagrams taken in during a run, in order. */
  function Arrived(steps: seq<Step>): seq<Asking> {
    if steps == [] then []
    else (if steps[0].Receive? then QueriesOf(steps[0].filters, steps[0].local) else []) + Arrived(steps[1..])
  }

  /** The queries still to be answered. */
  function Pending(h: Handler): seq<Asking> {
    if h.Answering? || h.Scanning? then QueriesOf(h.pending, h.local) else []
  }

  /** The queries the replies were sent for. */
  function Replied(log: seq<Logged>): (r: seq<Asking>)
    ensures |r| == |log| && forall k :: 0 <= k < |r| ==> r[k] == Asking(log[k].filter, log[k].local)
  {
    seq(|log|, k requires 0 <= k < |log| => Asking(log[k].filter, log[k].local))
  }

  /** The services whose registration has begun during a run, in order. */
  function Offered(steps: seq<Step>): seq<Service> {
    if steps == [] then [] else (if steps[0].AddLock? then [steps[0].service] else []) + Offered(steps[1..])
  }

  function Waiting(lock: Lock): seq<Service> {
    if lock.ByAdder? then [lock.service] else []
  }

  lemma OneMoreReply(log: seq<Logged>, entry: Logged)
    ensures Replied(log + [entry]) == Replied(log) + [Asking(entry.filter, entry.local)]
  {
    hide Replied;
  }

  lemma FirstQuery(filters: seq<string>, local: Option<Word32>)
    requires filters != []
    ensures QueriesOf(filters, local) == [Asking(filters[0], local)] + QueriesOf(filters[1..], local)
  {
    hide QueriesOf;
  }

  lemma UnlockConserves(host: Endian, s: State)
    requires Enabled(s, ScanUnlock)
    ensures var t := Do(host, s, ScanUnlock);
            Replied(t.log) + Pending(t.handler) == Replied(s.log) + Pending(s.handler)
  {
    hide Reply, Replied, QueriesOf;
    var t, h := Do(host, s, ScanUnlock), s.handler;
    OneMoreReply(s.log, t.log[|s.log|]);
    FirstQuery(h.pending, h.local);
    var first := [Asking(h.pending[0], h.local)];
    assert Replied(s.log) + (first + Pending(t.handler)) == Replied(s.log) + first + Pending(t.handler);
  }

  /** What one step adds to the queries that are answered or pending. */
  lemma StepKeepsQueries(host: Endian, s: State, step: Step)
    requires Enabled(s, step)
    ensures var t := Do(host, s, step);
            Replied(t.log) + Pending(t.handler)
            == Replied(s.log) + Pending(s.handler) + if step.Receive? then QueriesOf(step.filters, step.local) else []
  {
    hide Entry, Substituted, Reply, Replied, QueriesOf;
    var t := Do(host, s, step);
    if step.ScanUnlock? {
      UnlockConserves(host, s);
      hide Do;
    } else if step.Receive? {
      assert Replied(s.log) + [] == Replied(s.log);
    } else if step.DatagramDone? {
      NoQueries(s.handler.pending, s.handler.local);
    } else {
      assert Pending(t.handler) == Pending(s.handler);
    }
    assert Replied(s.log) + Pending(s.handler) + [] == Replied(s.log) + Pending(s.handler);
  }

  lemma NoQueries(filters: seq<string>, local: Option<Word32>)
    requires filters == []
    ensures QueriesOf(filters, local) == []
  {
  }

  /** What one step adds to the services that are in the table or about to be. */
  lemma StepKeepsServices(host: Endian, s: State, step: Step)
    requires Enabled(s, step) && (s.lock.ByHandler? <==> s.handler.Scanning?)
    ensures var t := Do(host, s, step);
            t.services + Waiting(t.lock)
            == s.services + Waiting(s.lock) + if step.AddLock? then [step.service] else []
  {
    hide Scanned, Reply;
  }

  lemma {:induction false} RunKeepsQueries(host: Endian, s: State, steps: seq<Step>)
    requires CanRun(host, s, steps)
    ensures var t := Run(host, s, steps);
            Replied(t.log) + Pending(t.handler) == Replied(s.log) + Pending(s.handler) + Arrived(steps)
    decreases |steps|
  {
    hide Do, Enabled, Replied, Pending, QueriesOf;
    var had := Replied(s.log) + Pending(s.handler);
    if steps == [] {
      assert had + [] == had;
    } else {
      StepKeepsQueries(host, s, steps[0]);
      RunKeepsQueries(host, Do(host, s, steps[0]), steps[1..]);
      var one := if steps[0].Receive? then QueriesOf(steps[0].filters, steps[0].local) else [];
      assert had + one + Arrived(steps[1..]) == had + (one + Arrived(steps[1..]));
    }
  }

  lemma {:induction false} RunKeepsServices(host: Endian, s: State, steps: seq<Step>)
    requires Inv(host, s) && CanRun(host, s, steps)
    ensures var t := Run(host, s, steps);
            t.services + Waiting(t.lock) == s.services + Waiting(s.lock) + Offered(steps)
    decreases |steps|
  {
    hide Do, Enabled, OnlyRegistrable, BodyOf, CountOf, LogIsSnapshots, Waiting;
    var had := s.services + Waiting(s.lock);
    if steps == [] {
      assert had + [] == had;
    } else {
      StepKeepsServices(host, s, steps[0]);
      StepKeeps(host, s, steps[0]);
      RunKeepsServices(host, Do(host, s, steps[0]), steps[1..]);
      var one := if steps[0].AddLock? then [steps[0].service] else [];
      assert had + one + Offered(steps[1..]) == had + (one + Offered(steps[1..]));
    }
  }

  /** In every interleaving from the start the queries answered, followed by those still to be
      answered, are exactly the queries of the datagrams taken in, in order. So between two datagrams
      every query has had exactly one reply. */
  lemma EveryQueryAnswered(host: Endian, steps: seq<Step>)
    requires CanRun(host, INITIAL, steps)
    ensures var t := Run(host, INITIAL, steps);
            && Replied(t.log) + Pending(t.handler) == Arrived(steps)
            && (!t.handler.Answering? && !t.handler.Scanning? ==> Replied(t.log) == Arrived(steps))
  {
    hide Do, Enabled, Run;
    RunKeepsQueries(host, INITIAL, steps);
    var t := Run(host, INITIAL, steps);
    assert Replied([]) == [] && Pending(Idle) == [];
    assert [] + [] + Arrived(steps) == Arrived(steps);
    assert Replied(t.log) + [] == Replied(t.log);
  }

  /** And the table, with the service a thread is about to push, holds exactly the services offered, in
      order: no registration is lost or repeated. */
  lemma EveryServiceAdded(host: Endian, steps: seq<Step>)
    requires CanRun(host, INITIAL, steps)
    ensures var t := Run(host, INITIAL, steps);
            && t.services + Waiting(t.lock) == Offered(steps)
            && (!t.lock.ByAdder? ==> t.services == Offered(steps))
  {
    hide Do, Enabled, Run;
    assert Inv(host, INITIAL);
    RunKeepsServices(host, INITIAL, steps);
    var t := Run(host, INITIAL, steps);
    assert [] + [] + Offered(steps) == Offered(steps);
    assert t.services + [] == t.services;
  }

  // ----- stopping -----

  /** The thread has stored `running = true` already. */
  predicate Started(h: Handler) {
    !h.Idle? && !h.Starting?
  }

  predicate NoStart(steps: seq<Step>) {
    forall k :: 0 <= k < |steps| ==> steps[k] != StartListener
  }

  predicate NoStop(steps: seq<Step>) {
    forall k :: 0 <= k < |steps| ==> steps[k] != StopListener
  }

  lemma {:induction false} StoppedRun(host: Endian, s: State, steps: seq<Step>)
    requires !s.running && !s.handler.Starting?
    requires CanRun(host, s, steps) && NoStart(steps)
    ensures var t := Run(host, s, steps);
            && !t.running && !t.handler.Starting?
            && t.received + (if t.handler.Polling? then 1 else 0) <= s.received + if s.handler.Polling? then 1 else 0
    decreases |steps|
  {
    hide Scanned;
    if steps == [] {
    } else {
      assert steps[0] != StartListener;
      assert NoStart(steps[1..]);
      StoppedRun(host, Do(host, s, steps[0]), steps[1..]);
    }
  }

  /** A stop that comes after the thread's own `running = true` is final: until the next start no
      more than the datagram being waited for is still taken in, and none if the thread was not
      waiting. */
  lemma StopIsFinal(host: Endian, s: State, steps: seq<Step>)
    requires Started(s.handler) && NoStart(steps)
    requires CanRun(host, s, [StopListener] + steps)
    ensures var t := Run(host, s, [StopListener] + steps);
            !t.running && t.received <= s.received + if s.handler.Polling? then 1 else 0
  {
    assert ([StopListener] + steps)[1..] == steps;
    StoppedRun(host, Do(host, s, StopListener), steps);
  }

  /** How far a stopped handler is from its exit: a phase, work left in the datagram, services left in
      the scan. */
  function Distance(s: State): (nat, nat, nat) {
    match s.handler
    case Idle => (0, 0, 0)
    case Exited => (0, 1, 0)
    case Starting => (0, 2, 0)
    case Checking => (0, 2, 0)
    case Answering(pending, _) => (1, 2 * |pending|, 0)
    case Scanning(pending, _, i, _, _) =>
      (1, if pending == [] then 0 else 2 * |pending| - 1, if i < |s.services| then |s.services| - i else 0)
    case Polling => (2, 0, 0)
  }

  predicate Closer(a: (nat, nat, nat), b: (nat, nat, nat)) {
    a.0 < b.0 || (a.0 == b.0 && (a.1 < b.1 || (a.1 == b.1 && a.2 < b.2)))
  }

  /** A step of the listener thread, or the join that waits for its end. */
  predicate OfHandler(step: Step) {
    !step.StartListener? && !step.StopListener? && !step.AddLock? && !step.AddPush? && !step.SetRunning?
  }

  /** After a stop every step of the handler brings it closer to its exit and no step of another
      thread takes it further away; how many steps that can take is bounded below. */
  lemma StoppedHandlerNearsExit(host: Endian, s: State, step: Step)
    requires Inv(host, s) && !s.running && !s.handler.Starting?
    requires Enabled(s, step) && step != StartListener
    ensures OfHandler(step) ==> Closer(Distance(Do(host, s, step)), Distance(s))
    ensures !OfHandler(step) ==> Distance(Do(host, s, step)) == Distance(s)
  {
    hide BodyOf, CountOf, LogIsSnapshots, Entry, Substituted, Reply;
  }

  lemma HandlerCanStep(host: Endian, s: State)
    requires Inv(host, s)
    ensures s.handler.Idle? || s.lock.ByAdder?
            || exists step :: Enabled(s, step) && (OfHandler(step) || step == SetRunning)
  {
    hide BodyOf, CountOf, LogIsSnapshots;
    match s.handler
    case Idle =>
    case Starting => assert Enabled(s, SetRunning);
    case Checking => assert Enabled(s, Check);
    case Polling => assert Enabled(s, Quiet);
    case Answering(pending, _) =>
      if pending == [] {
        assert Enabled(s, DatagramDone);
      } else if s.lock.Free? {
        assert Enabled(s, ScanLock);
      }
    case Scanning(_, _, _, _, _) =>
      assert Enabled(s, ScanOne) || Enabled(s, ScanUnlock);
    case Exited => assert Enabled(s, Join);
  }

  lemma {:induction false} RunningNeverExits(host: Endian, s: State, steps: seq<Step>)
    requires s.running && Started(s.handler) && !s.handler.Exited?
    requires CanRun(host, s, steps) && NoStop(steps)
    ensures var t := Run(host, s, steps); t.running && Started(t.handler) && !t.handler.Exited?
    decreases |steps|
  {
    if steps == [] {
    } else {
      assert steps[0] != StopListener;
      assert NoStop(steps[1..]);
      RunningNeverExits(host, Do(host, s, steps[0]), steps[1..]);
    }
  }

  // ----- how long a stopped handler goes on -----

  function HandlerSteps(steps: seq<Step>): nat {
    if steps == [] then 0 else (if OfHandler(steps[0]) then 1 else 0) + HandlerSteps(steps[1..])
  }

  /** No datagram of the run holds more than `most` queries. */
  predicate AskAtMost(steps: seq<Step>, most: nat) {
    forall k :: 0 <= k < |steps| && steps[k].Receive? ==> |steps[k].filters| <= most
  }

  /** The steps it takes to answer so many queries over a table of at most `size` services: locking,
      scanning and replying each time. */
  function Rounds(queries: nat, size: nat): nat {
    if queries == 0 then 0 else size + 2 + Rounds(queries - 1, size)
  }

  lemma {:induction false} RoundsMonotone(a: nat, b: nat, size: nat)
    requires a <= b
    ensures Rounds(a, size) <= Rounds(b, size)
    decreases b
  {
    if a == b {
    } else {
      RoundsMonotone(a, b - 1, size);
    }
  }

  /** The steps a stopped handler has left at most, while the table stays within `size` services and
      datagrams within `most` queries. */
  function Budget(s: State, size: nat, most: nat): nat {
    match s.handler
    case Idle => 0
    case Exited => 1
    case Starting => 2
    case Checking => 2
    case Polling => 4 + Rounds(most, size)
    case Answering(pending, _) => 3 + Rounds(|pending|, size)
    case Scanning(pending, _, i, _, _) =>
      4 + Rounds(if pending == [] then 0 else |pending| - 1, size) + if i < size then size - i else 0
  }

  lemma StepSpends(host: Endian, s: State, step: Step, size: nat, most: nat)
    requires Inv(host, s) && !s.running && !s.handler.Starting? && |s.services| <= size
    requires Enabled(s, step) && step != StartListener && (step.Receive? ==> |step.filters| <= most)
    ensures Budget(Do(host, s, step), size, most) + (if OfHandler(step) then 1 else 0) <= Budget(s, size, most)
  {
    hide BodyOf, CountOf, LogIsSnapshots, Entry, Substituted, Reply;
    if step.Receive? {
      RoundsMonotone(|step.filters|, most, size);
    }
  }

  /** After a stop the handler takes a bounded number of steps in any run up to the next start,
      whatever is interleaved: at most two from a check, at most those of the queries left in its
      datagram and three more while answering, and at most those of one more datagram and four more
      when it was waiting for one. */
  lemma {:induction false} StoppedHandlerSteps(host: Endian, s: State, steps: seq<Step>, most: nat)
    requires Inv(host, s) && !s.running && !s.handler.Starting?
    requires CanRun(host, s, steps) && NoStart(steps) && AskAtMost(steps, most)
    ensures var size := |Run(host, s, steps).services|;
            HandlerSteps(steps) + Budget(Run(host, s, steps), size, most) <= Budget(s, size, most)
    decreases |steps|
  {
    hide Inv, Do, Enabled, Budget, OfHandler;
    if steps == [] {
    } else {
      var next, t := Do(host, s, steps[0]), Run(host, s, steps);
      assert steps[0] != StartListener;
      StepKeeps(host, s, steps[0]);
      RunKeeps(host, next, steps[1..]);
      StepSpends(host, s, steps[0], |t.services|, most);
      StaysStopped(host, s, steps[0]);
      assert NoStart(steps[1..]) && AskAtMost(steps[1..], most);
      StoppedHandlerSteps(host, next, steps[1..], most);
    }
  }

  lemma StaysStopped(host: Endian, s: State, step: Step)
    requires !s.running && !s.handler.Starting? && Enabled(s, step) && step != StartListener
    ensures !Do(host, s, step).running && !Do(host, s, step).handler.Starting?
  {
    hide Scanned;
  }

  // ----- when a stop is honoured -----

  /** In the opposite order the stop is lost. While the thread is created but has not stored its flag,
      a stop changes nothing: in every continuation without another stop the thread is still about to
      start, or it has started, runs, and has not ended, so that a pending join never returns. */
  lemma {:induction false} StopIsLost(host: Endian, s: State, steps: seq<Step>)
    requires s.handler.Starting? && NoStop(steps)
    requires CanRun(host, s, [StopListener] + steps)
    ensures var t := Run(host, s, [StopListener] + steps);
            && (t.handler.Starting? || (t.running && Started(t.handler) && !t.handler.Exited?))
            && !Enabled(t, Join)
  {
    assert ([StopListener] + steps)[1..] == steps;
    StartingRunsOn(host, Do(host, s, StopListener), steps);
  }

  lemma {:induction false} StartingRunsOn(host: Endian, s: State, steps: seq<Step>)
    requires s.handler.Starting? || (s.running && Started(s.handler) && !s.handler.Exited?)
    requires CanRun(host, s, steps) && NoStop(steps)
    ensures var t := Run(host, s, steps);
            t.handler.Starting? || (t.running && Started(t.handler) && !t.handler.Exited?)
    decreases |steps|
  {
    hide Scanned;
    if steps == [] {
    } else {
      assert steps[0] != StopListener;
      assert NoStop(steps[1..]);
      StartingRunsOn(host, Do(host, s, steps[0]), steps[1..]);
    }
  }

  /** A stop is honoured when the listener's flag never comes back before the next start. */
  ghost predicate Honoured(host: Endian, s: State)
    requires Enabled(s, StopListener)
  {
    var stopped := Do(host, s, StopListener);
    forall steps :: NoStart(steps) && CanRun(host, stopped, steps) ==> !Run(host, stopped, steps).running
  }

  /** The thread ends, in at least one continuation without another stop or start. */
  ghost predicate CanEnd(host: Endian, s: State)
    requires Enabled(s, StopListener)
  {
    var stopped := Do(host, s, StopListener);
    exists steps ::
      NoStart(steps) && NoStop(steps) && CanRun(host, stopped, steps) && Run(host, stopped, steps).handler.Exited?
  }

  /** The step a stopped listener takes next on its own: a registering thread first gives back the
      lock, and a handler that waits for datagrams gets none. */
  function NextAlone(s: State): Step {
    if s.lock.ByAdder? then AddPush
    else match s.handler
      case Checking => Check
      case Polling => Quiet
      case Answering(pending, _) => if pending == [] then DatagramDone else ScanLock
      case Scanning(_, _, i, _, _) => if i < |s.services| then ScanOne else ScanUnlock
      case _ => Join
  }

  lemma NextAloneNearsExit(host: Endian, s: State)
    requires Inv(host, s) && !s.running && Started(s.handler) && !s.handler.Exited?
    ensures var step := NextAlone(s);
            && Enabled(s, step) && step != StartListener && step != StopListener
            && var next := Do(host, s, step);
            && Inv(host, next) && !next.running && Started(next.handler)
            && (step == AddPush <==> s.lock.ByAdder?)
            && (step == AddPush ==> Distance(next) == Distance(s) && !next.lock.ByAdder?)
            && (step != AddPush ==> Closer(Distance(next), Distance(s)))
  {
    StepKeeps(host, s, NextAlone(s));
    StoppedHandlerNearsExit(host, s, NextAlone(s));
    hide BodyOf, CountOf, LogIsSnapshots, Entry, Substituted, Reply;
  }

  lemma {:induction false} EndReached(host: Endian, s: State) returns (steps: seq<Step>)
    requires Inv(host, s) && !s.running && Started(s.handler)
    ensures NoStart(steps) && NoStop(steps) && CanRun(host, s, steps) && Run(host, s, steps).handler.Exited?
    decreases Distance(s).0, Distance(s).1, Distance(s).2, if s.lock.ByAdder? then 1 else 0
  {
    hide Inv, Do, Enabled, Distance, NextAlone;
    if s.handler.Exited? {
      steps := [];
    } else {
      NextAloneNearsExit(host, s);
      var rest := EndReached(host, Do(host, s, NextAlone(s)));
      steps := [NextAlone(s)] + rest;
      assert steps[1..] == rest;
    }
  }

  /** A stop is honoured exactly when it comes behind the thread's own `running = true`; in every
      other state it is lost, and the thread it was meant for cannot end without another one. */
  lemma HonouredExactlyWhenStarted(host: Endian, s: State)
    requires Inv(host, s) && Enabled(s, StopListener)
    ensures Honoured(host, s) <==> Started(s.handler)
    ensures CanEnd(host, s) <==> Started(s.handler)
  {
    hide Inv, Scanned;
    var stopped := Do(host, s, StopListener);
    StepKeeps(host, s, StopListener);
    if Started(s.handler) {
      forall steps | NoStart(steps) && CanRun(host, stopped, steps)
        ensures !Run(host, stopped, steps).running
      {
        StoppedRun(host, stopped, steps);
      }
      var steps := EndReached(host, stopped);
    } else {
      LostOnce(host, stopped);
      forall steps | NoStart(steps) && NoStop(steps) && CanRun(host, stopped, steps)
        ensures !Run(host, stopped, steps).handler.Exited?
      {
        StartingRunsOn(host, stopped, steps);
      }
    }
  }

  lemma LostOnce(host: Endian, s: State)
    requires s.handler.Starting?
    ensures NoStart([SetRunning]) && CanRun(host, s, [SetRunning]) && Run(host, s, [SetRunning]).running
  {
    hide Scanned;
    var started := Do(host, s, SetRunning);
    assert CanRun(host, started, []);
    assert [SetRunning][1..] == [];
  }
}
