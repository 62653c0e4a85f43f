/** The daemon's start: service files become entries of the table (daemon/nyansd_daemon.cpp). */
module Daemon {
  import opened ByteOrder
  import opened Text
  import opened DottedQuad
  import opened Wire
  import opened Response
  import opened NyanSD
  import opened Ini
  import opened IniReader
  import opened IniLines

  // ----- the order of a std::set -----

  /** `operator<` of strings. */
  predicate Less(a: string, b: string) {
    b != "" && (a == "" || a[0] < b[0] || (a[0] == b[0] && Less(a[1..], b[1..])))
  }

  /** The order of strings by their characters: `a` is a proper prefix of `b`, or at the first place
      where they differ its character is the smaller one. */
  predicate Precedes(a: string, b: string) {
    a < b || exists k :: 0 <= k < |a| && k < |b| && a[..k] == b[..k] && a[k] < b[k]
  }

  lemma {:induction false} LessIsPrecedes(a: string, b: string)
    ensures Less(a, b) <==> Precedes(a, b)
  {
    hide Precedes;
    if a == "" || b == "" {
      EmptyPrecedes(a, b);
    } else if a[0] == b[0] {
      LessIsPrecedes(a[1..], b[1..]);
      PrecedesBehind(a, b);
    } else {
      FirstCharacters(a, b);
    }
  }

  lemma EmptyPrecedes(a: string, b: string)
    requires a == "" || b == ""
    ensures Precedes(a, b) <==> a == "" && b != ""
  {
  }

  lemma PrecedesBehind(a: string, b: string)
    requires a != "" && b != "" && a[0] == b[0]
    ensures Precedes(a, b) <==> Precedes(a[1..], b[1..])
  {
    var x, y := a[1..], b[1..];
    assert a == [a[0]] + x && b == [b[0]] + y;
    assert a < b <==> x < y;
    if k :| 0 <= k < |x| && k < |y| && x[..k] == y[..k] && x[k] < y[k] {
      assert a[..k + 1] == [a[0]] + x[..k] && b[..k + 1] == [b[0]] + y[..k];
      assert a[k + 1] < b[k + 1];
    }
    if k :| 0 <= k < |a| && k < |b| && a[..k] == b[..k] && a[k] < b[k] {
      assert x[..k - 1] == a[..k][1..] && y[..k - 1] == b[..k][1..];
      assert x[k - 1] < y[k - 1];
    }
  }

  lemma FirstCharacters(a: string, b: string)
    requires a != "" && b != "" && a[0] != b[0]
    ensures Precedes(a, b) <==> a[0] < b[0]
  {
    if a[0] < b[0] {
      assert a[..0] == b[..0];
    }
    forall k | 0 < k < |a| && k < |b|
      ensures a[..k] != b[..k]
    {
      assert a[..k][0] == a[0] && b[..k][0] == b[0];
    }
  }

  lemma {:induction false} LessTotal(a: string, b: string)
    ensures Less(a, b) || Less(b, a) || a == b
    ensures !(Less(a, b) && Less(b, a)) && !Less(a, a)
  {
    if a != "" && b != "" {
      LessTotal(a[1..], b[1..]);
      LessTotal(a[1..], a[1..]);
      if a[0] == b[0] && a[1..] == b[1..] {
        assert a == [a[0]] + a[1..] == b;
      }
    } else if a != "" {
      LessTotal(a[1..], a[1..]);
    }
  }

  lemma {:induction false} LessTransitive(a: string, b: string, c: string)
    requires Less(a, b) && Less(b, c)
    ensures Less(a, c)
  {
    if a != "" && a[0] == b[0] && b[0] == c[0] {
      LessTransitive(a[1..], b[1..], c[1..]);
    }
  }

  predicate IsLeast(m: string, s: set<string>) {
    m in s && forall x :: x in s && x != m ==> Less(m, x)
  }

  lemma {:induction false} LeastExists(s: set<string>) returns (m: string)
    requires s != {}
    ensures IsLeast(m, s)
    decreases |s|
  {
    var x :| x in s;
    if s == {x} {
      m := x;
    } else {
      var rest := s - {x};
      var r := LeastExists(rest);
      LessTotal(x, r);
      m := if Less(x, r) then x else r;
      forall y | y in s && y != m
        ensures Less(m, y)
      {
        if y != x && y != r && m == x {
          LessTransitive(x, r, y);
        }
      }
    }
  }

  lemma LeastUnique(m: string, n: string, s: set<string>)
    requires IsLeast(m, s) && IsLeast(n, s)
    ensures m == n
  {
    LessTotal(m, n);
  }

  /** The elements of a set in the order its iterator visits them. */
  ghost function InSetOrder(s: set<string>): (r: seq<string>)
    ensures |r| == |s|
  {
    if s == {} then []
    else
      var least := LeastOf(s);
      [least] + InSetOrder(s - {least})
  }

  ghost function LeastOf(s: set<string>): (m: string)
    requires s != {}
    ensures IsLeast(m, s)
  {
    var w := WitnessOfLeast(s);
    var m :| IsLeast(m, s);
    m
  }

  ghost function WitnessOfLeast(s: set<string>): (b: bool)
    requires s != {}
    ensures exists m :: IsLeast(m, s)
  {
    assert exists m :: IsLeast(m, s) by {
      var m := LeastExists(s);
    }
    true
  }

  /** The listing holds exactly the elements, each preceding those behind it. */
  lemma {:induction false} InSetOrderIs(s: set<string>)
    ensures forall x :: x in s <==> x in InSetOrder(s)
    ensures forall i, j :: 0 <= i < j < |s| ==> Precedes(InSetOrder(s)[i], InSetOrder(s)[j])
    decreases |s|
  {
    hide Less, Precedes;
    if s != {} {
      var m := LeastOf(s);
      var rest := InSetOrder(s - {m});
      InSetOrderIs(s - {m});
      forall i, j | 0 <= i < j < |s|
        ensures Precedes(InSetOrder(s)[i], InSetOrder(s)[j])
      {
        assert rest[j - 1] in s - {m};
        LessIsPrecedes(m, rest[j - 1]);
      }
    }
  }

  // ----- one section -----

  datatype Loaded = Ignored | Thrown | Record(service: Service)

  function Lookup(values: map<string, string>, section: string, name: string): string {
    Stored(values, MakeKey(section, name))
  }

  /** `GetInteger(.., 0)` converted to `uint16_t`. */
  function PortOf(text: string): uint16 {
    (match Strtol(CStr(text))
     case None => 0
     case Some(n) => n) % 0x1_0000
  }

  function ProtocolNamed(text: string): Option<Protocol> {
    if text == "tcp" then Some(Tcp)
    else if text == "udp" then Some(Udp)
    else if text == "all" then Some(All)
    else None
  }

  /** The address field: an empty text is 0; `None` where the conversion throws. */
  function AddressOf(host: Endian, text: string): Option<Word32> {
    if text == "" then Some(ZERO) else StringToUint(host, text)
  }

  /** What one section of a service file becomes. */
  function LoadSection(host: Endian, values: map<string, string>, section: string): Loaded {
    var name := Lookup(values, section, "name");
    var protocol := ProtocolNamed(Lookup(values, section, "protocol"));
    if name == "" || protocol == None then Ignored
    else
      match AddressOf(host, Lookup(values, section, "ipv4"))
      case None => Thrown
      case Some(ipv4) =>
        Record(Service(ipv4, Lookup(values, section, "ipv6"), PortOf(Lookup(values, section, "port")),
                       Lookup(values, section, "host"), name, protocol.value))
  }

  // ----- all of it -----

  /** The entries added to the table, and whether the daemon gets as far as its listener. */
  datatype Loading = Loading(ok: bool, table: seq<Service>)

  function Before(table: seq<Service>, rest: Loading): Loading {
    Loading(rest.ok, table + rest.table)
  }

  /** Sections in order: one without a name or a valid protocol is ignored, one that cannot be
      registered ends the daemon. */
  function LoadSections(host: Endian, systemHost: string, values: map<string, string>, sections: seq<string>): Loading {
    if sections == [] then Loading(true, [])
    else
      match LoadSection(host, values, sections[0])
      case Ignored => LoadSections(host, systemHost, values, sections[1..])
      case Thrown => Loading(false, [])
      case Record(sv) =>
        if !Registrable(sv) then Loading(false, [])
        else Before([Registered(sv, systemHost)], LoadSections(host, systemHost, values, sections[1..]))
  }

  ghost function LoadFile(host: Endian, systemHost: string, content: string): Loading {
    var p := ParseFile(content);
    if p.error != 0 then Loading(false, [])
    else LoadSections(host, systemHost, Values(p.reports), InSetOrder(SectionsOf(p.reports)))
  }

  ghost function LoadFiles(host: Endian, systemHost: string, files: seq<string>): Loading {
    if files == [] then Loading(true, [])
    else
      var first := LoadFile(host, systemHost, files[0]);
      if !first.ok then first else Before(first.table, LoadFiles(host, systemHost, files[1..]))
  }

  // ----- what becomes of a file -----

  /** A section without a name or without one of the three protocol names. */
  predicate Skipped(values: map<string, string>, section: string) {
    Lookup(values, section, "name") == "" || Lookup(values, section, "protocol") !in {"tcp", "udp", "all"}
  }

  /** A section that is not skipped and has port 0, or an address that is not empty and cannot be
      converted. */
  predicate Fails(host: Endian, values: map<string, string>, section: string) {
    && !Skipped(values, section)
    && (PortOf(Lookup(values, section, "port")) == 0
        || (Lookup(values, section, "ipv4") != "" && StringToUint(host, Lookup(values, section, "ipv4")) == None))
  }

  /** The entry holds the texts of the section, field by field. */
  predicate IsRecordOf(host: Endian, systemHost: string, values: map<string, string>, section: string, sv: Service) {
    && sv.service == Lookup(values, section, "name")
    && sv.port == PortOf(Lookup(values, section, "port"))
    && (sv.protocol == Tcp <==> Lookup(values, section, "protocol") == "tcp")
    && (sv.protocol == Udp <==> Lookup(values, section, "protocol") == "udp")
    && sv.hostname == (if Lookup(values, section, "host") == "" then systemHost else Lookup(values, section, "host"))
    && (Lookup(values, section, "ipv4") == "" ==> sv.ipv4 == ZERO)
    && (Lookup(values, section, "ipv4") != "" ==> Some(sv.ipv4) == StringToUint(host, Lookup(values, section, "ipv4")))
    && sv.ipv6 == Lookup(values, section, "ipv6")
  }

  lemma SectionBecomes(host: Endian, systemHost: string, values: map<string, string>, section: string)
    ensures var loaded := LoadSection(host, values, section);
            && (loaded == Ignored <==> Skipped(values, section))
            && (loaded == Thrown || (loaded.Record? && !Registrable(loaded.service)) <==> Fails(host, values, section))
            && (loaded.Record? ==>
                  IsRecordOf(host, systemHost, values, section, Registered(loaded.service, systemHost)))
  {
    hide Lookup, PortOf, StringToUint;
  }

  /** `end` is the place of the first section that fails, or the end, and the start goes on exactly when
      none does. */
  predicate EndsAt(host: Endian, values: map<string, string>, sections: seq<string>, ok: bool, end: nat) {
    && end <= |sections| && (ok <==> end == |sections|)
    && (forall i :: 0 <= i < end ==> !Fails(host, values, sections[i]))
    && (end < |sections| ==> Fails(host, values, sections[end]))
  }

  /** The sections before `end` that are not skipped are those at `places`, in order. */
  predicate ArePlaces(values: map<string, string>, sections: seq<string>, end: nat, places: seq<nat>)
    requires end <= |sections|
  {
    && (forall i :: 0 <= i < end ==> (i in places <==> !Skipped(values, sections[i])))
    && (forall k :: 0 <= k < |places| ==> places[k] < end)
    && (forall h, k :: 0 <= h < k < |places| ==> places[h] < places[k])
  }

  /** One entry for each of those places. */
  predicate AreRecords(host: Endian, systemHost: string, values: map<string, string>, sections: seq<string>,
                       places: seq<nat>, table: seq<Service>)
    requires forall k :: 0 <= k < |places| ==> places[k] < |sections|
  {
    && |table| == |places|
    && forall k :: 0 <= k < |places| ==> IsRecordOf(host, systemHost, values, sections[places[k]], table[k])
  }

  /** Places one further on. */
  function Shifted(places: seq<nat>): (r: seq<nat>)
    ensures |r| == |places| && forall k :: 0 <= k < |r| ==> r[k] == places[k] + 1
  {
    seq(|places|, k requires 0 <= k < |places| => places[k] + 1)
  }

  lemma InShifted(places: seq<nat>, i: nat)
    ensures i in Shifted(places) <==> i > 0 && i - 1 in places
  {
    if i > 0 && i - 1 in places {
      var k :| 0 <= k < |places| && places[k] == i - 1;
      assert Shifted(places)[k] == i;
    }
  }

  lemma PlacesBehind(values: map<string, string>, sections: seq<string>, end: nat, places: seq<nat>)
    requires end < |sections| && ArePlaces(values, sections[1..], end, places)
    ensures ArePlaces(values, sections, end + 1,
                      (if Skipped(values, sections[0]) then [] else [0]) + Shifted(places))
  {
    hide Skipped;
    var all := (if Skipped(values, sections[0]) then [] else [0]) + Shifted(places);
    forall i | 0 <= i < end + 1
      ensures i in all <==> !Skipped(values, sections[i])
    {
      InShifted(places, i);
      assert i > 0 ==> sections[1..][i - 1] == sections[i];
    }
  }

  lemma RecordsBehind(host: Endian, systemHost: string, values: map<string, string>, sections: seq<string>,
                      places: seq<nat>, table: seq<Service>, first: seq<Service>)
    requires sections != [] && forall k :: 0 <= k < |places| ==> places[k] < |sections| - 1
    requires AreRecords(host, systemHost, values, sections[1..], places, table)
    requires first == [] || (|first| == 1 && IsRecordOf(host, systemHost, values, sections[0], first[0]))
    ensures var all := (if first == [] then [] else [0]) + Shifted(places);
            && (forall k :: 0 <= k < |all| ==> all[k] < |sections|)
            && AreRecords(host, systemHost, values, sections, all, first + table)
  {
    hide IsRecordOf, Shifted;
    var all := (if first == [] then [] else [0]) + Shifted(places);
    forall k | 0 <= k < |all|
      ensures all[k] < |sections| && IsRecordOf(host, systemHost, values, sections[all[k]], (first + table)[k])
    {
      var h := k - |first|;
      if h >= 0 {
        assert sections[1..][places[h]] == sections[places[h] + 1];
      }
    }
  }

  lemma EndBehind(host: Endian, values: map<string, string>, sections: seq<string>, ok: bool, end: nat)
    requires sections != [] && !Fails(host, values, sections[0]) && EndsAt(host, values, sections[1..], ok, end)
    ensures EndsAt(host, values, sections, ok, end + 1)
  {
    hide Fails;
    forall i | 0 <= i < end + 1
      ensures !Fails(host, values, sections[i])
    {
      assert i > 0 ==> sections[1..][i - 1] == sections[i];
    }
  }

  /** The sections up to the first that fails become one entry each, in order, but for the skipped
      ones. */
  lemma {:induction false} SectionsBecome(host: Endian, systemHost: string, values: map<string, string>,
                                          sections: seq<string>)
    returns (end: nat, places: seq<nat>)
    ensures var loading := LoadSections(host, systemHost, values, sections);
            && EndsAt(host, values, sections, loading.ok, end)
            && ArePlaces(values, sections, end, places)
            && (forall k :: 0 <= k < |places| ==> places[k] < end)
            && AreRecords(host, systemHost, values, sections, places, loading.table)
  {
    hide LoadSection, Skipped, Fails, IsRecordOf, Registered, Registrable, ArePlaces, Shifted;
    if sections == [] {
      end, places := 0, [];
      NoPlaces(values, sections);
    } else {
      SectionBecomes(host, systemHost, values, sections[0]);
      if Fails(host, values, sections[0]) {
        end, places := 0, [];
        NoPlaces(values, sections);
      } else {
        hide EndsAt, AreRecords;
        var n, rest := SectionsBecome(host, systemHost, values, sections[1..]);
        var later := LoadSections(host, systemHost, values, sections[1..]);
        var loaded := LoadSection(host, values, sections[0]);
        var first := if loaded == Ignored then [] else [Registered(loaded.service, systemHost)];
        end := n + 1;
        places := (if first == [] then [] else [0]) + Shifted(rest);
        EndInside(host, values, sections[1..], later.ok, n);
        EndBehind(host, values, sections, later.ok, n);
        PlacesBehind(values, sections, n, rest);
        PlacesInside(values, sections, end, places);
        RecordsBehind(host, systemHost, values, sections, rest, later.table, first);
        assert first + later.table == LoadSections(host, systemHost, values, sections).table;
      }
    }
  }

  lemma EndInside(host: Endian, values: map<string, string>, sections: seq<string>, ok: bool, end: nat)
    requires EndsAt(host, values, sections, ok, end)
    ensures end <= |sections|
  {
  }

  lemma NoPlaces(values: map<string, string>, sections: seq<string>)
    ensures ArePlaces(values, sections, 0, [])
  {
  }

  lemma PlacesInside(values: map<string, string>, sections: seq<string>, end: nat, places: seq<nat>)
    requires end <= |sections| && ArePlaces(values, sections, end, places)
    ensures forall k :: 0 <= k < |places| ==> places[k] < end
  {
  }

  /** A file with a line that is malformed by its characters adds nothing and ends the start. */
  lemma MalformedFileRefused(host: Endian, systemHost: string, content: string, k: nat)
    requires k < |Lines(content)| && MalformedIn(Lines(content), k)
    ensures LoadFile(host, systemHost, content) == Loading(false, [])
  {
    hide MalformedIn, ParseLines, LoadSections, Lines;
    ErrorIsFirstMalformedLine(Lines(content));
  }

  /** The files up to and with the first that fails are loaded, each behind those before it, and the start
      goes on exactly when none fails. */
  lemma {:induction false} FilesBecome(host: Endian, systemHost: string, files: seq<string>) returns (end: nat)
    ensures end <= |files| && (LoadFiles(host, systemHost, files).ok <==> end == |files|)
    ensures forall i :: 0 <= i < end ==> LoadFile(host, systemHost, files[i]).ok
    ensures end < |files| ==> !LoadFile(host, systemHost, files[end]).ok
    ensures exists tables: seq<seq<Service>> ::
              && |tables| == (if end < |files| then end + 1 else end)
              && (forall i :: 0 <= i < |tables| ==> tables[i] == LoadFile(host, systemHost, files[i]).table)
              && LoadFiles(host, systemHost, files).table == Concat(tables)
  {
    hide LoadFile;
    if files == [] {
      end := 0;
      assert Concat<Service>([]) == [];
    } else {
      var first := LoadFile(host, systemHost, files[0]);
      if !first.ok {
        end := 0;
        assert [first.table][1..] == [];
        assert Concat([first.table]) == first.table + [] == first.table;
      } else {
        end := FilesBecome(host, systemHost, files[1..]);
        var tables: seq<seq<Service>> :|
          && |tables| == (if end < |files[1..]| then end + 1 else end)
          && (forall i :: 0 <= i < |tables| ==> tables[i] == LoadFile(host, systemHost, files[1..][i]).table)
          && LoadFiles(host, systemHost, files[1..]).table == Concat(tables);
        end := end + 1;
        var all := [first.table] + tables;
        assert all[1..] == tables;
        assert Concat(all) == first.table + Concat(tables);
      }
    }
  }

  lemma BeforeBefore(a: seq<Service>, b: seq<Service>, rest: Loading)
    ensures Before(a, Before(b, rest)) == Before(a + b, rest)
  {
    assert a + (b + rest.table) == a + b + rest.table;
  }

  lemma BeforeNothing(a: seq<Service>, rest: Loading)
    ensures Before([], rest) == rest && a + [] == a
  {
    assert [] + rest.table == rest.table;
  }

  /** The next section of the iterator: the least of those left. */
  method NextSection(left: set<string>) returns (least: string)
    requires left != {}
    ensures IsLeast(least, left)
    ensures forall x :: x in left && x != least ==> Precedes(least, x)
  {
    least :| least in left;
    var rest := left - {least};
    while rest != {}
      invariant rest < left && least in left && least !in rest
      invariant forall y :: y in left && y !in rest && y != least ==> Less(least, y)
      decreases |rest|
    {
      var x :| x in rest;
      LessTotal(least, x);
      if Less(x, least) {
        forall y | y in left && y !in rest && y != least
          ensures Less(x, y)
        {
          LessTransitive(x, least, y);
        }
        least := x;
      }
      rest := rest - {x};
    }
    forall x | x in left && x != least
      ensures Precedes(least, x)
    {
      LessIsPrecedes(least, x);
    }
  }

  /** The daemon's start on the contents of its service files. */
  method LoadServices(server: NyanSD, systemHost: string, files: seq<string>) returns (ok: bool)
    requires server.Valid()
    modifies server`services
    ensures server.Valid()
    ensures var loading := LoadFiles(server.Host(), systemHost, files);
            ok == loading.ok && server.services == old(server.services) + loading.table
  {
    hide LoadFile, LoadFiles;
    ghost var added: seq<Service> := [];
    ghost var all := LoadFiles(server.Host(), systemHost, files);
    BeforeNothing([], all);
    assert files[0..] == files;
    for f := 0 to |files|
      invariant server.Valid() && server.Host() == old(server.Host())
      invariant server.services == old(server.services) + added
      invariant Before(added, LoadFiles(server.Host(), systemHost, files[f..])) == all
    {
      LoadFilesStep(server.Host(), systemHost, added, files, f);
      ghost var one := LoadFile(server.Host(), systemHost, files[f]);
      var good := LoadOne(server, systemHost, files[f]);
      assert old(server.services) + added + one.table == old(server.services) + (added + one.table);
      added := added + one.table;
      if !good {
        return false;
      }
    }
    LoadFilesStep(server.Host(), systemHost, added, files, |files|);
    return true;
  }

  lemma LoadFilesStep(host: Endian, systemHost: string, added: seq<Service>, files: seq<string>, f: nat)
    requires f <= |files|
    ensures var all := Before(added, LoadFiles(host, systemHost, files[f..]));
            if f == |files| then all == Loading(true, added)
            else
              var one := LoadFile(host, systemHost, files[f]);
              all == if one.ok then Before(added + one.table, LoadFiles(host, systemHost, files[f + 1..]))
                     else Loading(false, added + one.table)
  {
    hide LoadFile;
    if f == |files| {
      assert files[f..] == [];
      BeforeNothing(added, Loading(true, []));
    } else {
      assert files[f..][0] == files[f] && files[f..][1..] == files[f + 1..];
      BeforeBefore(added, LoadFile(host, systemHost, files[f]).table, LoadFiles(host, systemHost, files[f + 1..]));
    }
  }

  method LoadOne(server: NyanSD, systemHost: string, content: string) returns (ok: bool)
    requires server.Valid()
    modifies server`services
    ensures server.Valid()
    ensures var loading := LoadFile(server.Host(), systemHost, content);
            ok == loading.ok && server.services == old(server.services) + loading.table
  {
    hide LoadSection, InSetOrder, Less, ParseLines, Lines, Values, SectionsOf;
    var serviceFile := new INIReader(content);
    if serviceFile.error != 0 {
      return false;
    }
    var left := serviceFile.sections;
    ghost var values, added := serviceFile.values, [];
    ghost var all := LoadSections(server.Host(), systemHost, values, InSetOrder(left));
    BeforeNothing([], all);
    while left != {}
      invariant server.Valid() && server.services == old(server.services) + added
      invariant serviceFile.values == values
      invariant Before(added, LoadSections(server.Host(), systemHost, values, InSetOrder(left))) == all
      decreases |left|
    {
      var it := NextSection(left);
      LeastFirst(left, it);
      left := left - {it};
      var loaded := ReadSection(server, serviceFile, it);
      if loaded == Ignored {
        continue;
      }
      if loaded == Thrown {
        BeforeNothing(added, Loading(false, []));
        return false;
      }
      var sv := loaded.service;
      var added1 := server.AddService(sv, systemHost);
      if !added1 {
        BeforeNothing(added, Loading(false, []));
        return false;
      }
      BeforeBefore(added, [Registered(sv, systemHost)],
          LoadSections(server.Host(), systemHost, values, InSetOrder(left)));
      assert old(server.services) + added + [Registered(sv, systemHost)]
          == old(server.services) + (added + [Registered(sv, systemHost)]);
      added := added + [Registered(sv, systemHost)];
    }
    NothingLeft();
    BeforeNothing(added, Loading(true, []));
    return true;
  }

  lemma NothingLeft()
    ensures InSetOrder({}) == []
  {
  }

  lemma LeastFirst(s: set<string>, m: string)
    requires IsLeast(m, s)
    ensures InSetOrder(s) == [m] + InSetOrder(s - {m})
    ensures |InSetOrder(s)| > 0 && InSetOrder(s)[0] == m && InSetOrder(s)[1..] == InSetOrder(s - {m})
  {
    LeastUnique(m, LeastOf(s), s);
  }

  /** The fields of one section, filled in one after the other. */
  method ReadSection(server: NyanSD, file: INIReader, section: string) returns (loaded: Loaded)
    requires server.Valid()
    ensures loaded == LoadSection(server.Host(), file.values, section)
  {
    hide MakeKey, Strtol;
    var name := file.Get(section, "name", "");
    if name == "" {
      return Ignored;
    }
    var port: uint16 := file.GetInteger(section, "port", 0) % 0x1_0000;
    var text := file.Get(section, "protocol", "");
    var protocol := All;
    if text == "tcp" {
      protocol := Tcp;
    } else if text == "udp" {
      protocol := Udp;
    } else if text == "all" {
      protocol := All;
    } else {
      return Ignored;
    }
    var hostname := file.Get(section, "host", "");
    var ipv4 := ZERO;
    var ipv4Text := file.Get(section, "ipv4", "");
    if ipv4Text != "" {
      var parsed := Ipv4StringToUint(server.bb.hostEndian, ipv4Text);
      if parsed == None {
        return Thrown;
      }
      ipv4 := parsed.value;
    }
    var ipv6 := file.Get(section, "ipv6", "");
    return Record(Service(ipv4, ipv6, port, hostname, name, protocol));
  }
}
