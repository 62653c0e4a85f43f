/** A service file in its documented form, from its text to a querier's list
    (doc/NyanSD_daemon.md, daemon/nyansd_daemon.cpp, src/nyansd.cpp). */
module ServiceFile {
  import opened ByteOrder
  import opened Text
  import opened DottedQuad
  import opened Wire
  import opened Response
  import opened EndToEnd
  import opened NyanSD
  import opened Ini
  import opened IniRoundTrip
  import opened IniLines
  import opened IniDocument
  import opened Daemon

  datatype Quad = Quad(a: uint8, b: uint8, c: uint8, d: uint8) {
    function ToString(): string {
      QuadText(a, b, c, d)
    }
  }

  /** One section of a service file. Host name, IPv4 and IPv6 address may be left out. */
  datatype Description = Description(
    title: string, name: string, port: uint16, protocol: Protocol, hostname: string, ipv4: Option<Quad>, ipv6: string)

  function ProtocolText(p: Protocol): string {
    match p
    case All => "all"
    case Tcp => "tcp"
    case Udp => "udp"
  }

  function AddressText(d: Description): string {
    if d.ipv4.Some? then d.ipv4.value.ToString() else ""
  }

  function Optionally(name: string, value: string): seq<Entry> {
    if value == "" then [] else [Entry(name, [value])]
  }

  function SectionOf(d: Description): IniDocument.Section {
    IniDocument.Section(d.title,
      [Entry("name", [d.name]), Entry("port", [ToText(d.port)]), Entry("protocol", [ProtocolText(d.protocol)])]
      + (Optionally("host", d.hostname) + (Optionally("ipv4", AddressText(d)) + Optionally("ipv6", d.ipv6))))
  }

  function DocOf(file: seq<Description>): (r: seq<IniDocument.Section>)
    ensures |r| == |file|
    ensures forall k :: 0 <= k < |file| ==> r[k] == SectionOf(file[k])
  {
    if file == [] then [] else [SectionOf(file[0])] + DocOf(file[1..])
  }

  /** A text that can stand as the value of a name of a service file, on one line with it. */
  predicate GoodText(name: string, v: string) {
    GoodValue(v) && OneLine(v) && |name| + 1 + |v| < MAX_LINE - 1
  }

  predicate GoodDescription(d: Description) {
    && GoodTitle(d.title) && OneLine(d.title) && |d.title| < MAX_SECTION
    && d.name != "" && GoodText("name", d.name) && d.port > 0
    && GoodText("host", d.hostname) && GoodText("ipv6", d.ipv6)
  }

  predicate GoodFile(file: seq<Description>) {
    && (forall k :: 0 <= k < |file| ==> GoodDescription(file[k]))
    && (forall h, k :: 0 <= h < k < |file| ==> Lower(file[h].title) != Lower(file[k].title))
  }

  /** The table entry a section stands for. */
  function ServiceOf(host: Endian, systemHost: string, d: Description): Service {
    Service(if d.ipv4.Some? then StringToUint(host, AddressText(d)).GetOr(ZERO) else ZERO,
            d.ipv6, d.port, if d.hostname == "" then systemHost else d.hostname, d.name, d.protocol)
  }

  // ----- the printed form is a good document -----

  predicate PlainChar(c: char) {
    'a' <= c <= 'z' || '0' <= c <= '9' || c == '.'
  }

  predicate Plain(s: string) {
    forall i :: 0 <= i < |s| ==> PlainChar(s[i])
  }

  lemma PlainCharIs(c: char)
    requires PlainChar(c)
    ensures !IsSpace(c) && ToLower(c) == c && c != '\n' && c != '\0'
    ensures c != ';' && c != '#' && c != '[' && c != '=' && c != ':'
  {
  }

  lemma PlainLacks(s: string)
    requires Plain(s)
    ensures NoComment(s) && Trimmed(s) && OneLine(s)
    ensures Lacks(s, '=') && Lacks(s, ':') && Lower(s) == s
    ensures s != "" ==> s[0] != ';' && s[0] != '#' && s[0] != '['
  {
    hide IsSpace, ToLower, PlainChar;
    forall i | 0 <= i < |s|
      ensures !IsSpace(s[i]) && ToLower(s[i]) == s[i] && s[i] != '\n' && s[i] != '\0'
      ensures s[i] != ';' && s[i] != '#' && s[i] != '[' && s[i] != '=' && s[i] != ':'
    {
      PlainCharIs(s[i]);
    }
  }

  lemma PlainIsGood(s: string)
    requires Plain(s) && |s| <= 15
    ensures GoodValue(s) && OneLine(s) && Lower(s) == s && Lacks(s, '=')
    ensures s != "" ==> GoodName(s)
  {
    hide Plain, NoComment, Trimmed, OneLine, Lacks, Lower;
    PlainLacks(s);
  }

  lemma {:induction false} ShortNumber(n: nat)
    requires n < 0x1_0000
    ensures |ToText(n)| <= 5
  {
    assert |ToText(n / 10 / 10 / 10 / 10)| == 1;
    assert |ToText(n / 10 / 10 / 10)| <= 2;
    assert |ToText(n / 10 / 10)| <= 3;
    assert |ToText(n / 10)| <= 4;
  }

  lemma NumbersPlain(d: Description)
    ensures GoodText("port", ToText(d.port)) && GoodText("protocol", ProtocolText(d.protocol))
    ensures GoodText("ipv4", AddressText(d))
    ensures ToText(d.port) != "" && ProtocolText(d.protocol) != "" && (d.ipv4.Some? ==> AddressText(d) != "")
    ensures OneLine(ToText(d.port))
  {
    hide GoodValue, OneLine, ToText, QuadText;
    ToTextReadsBack(d.port);
    ShortNumber(d.port);
    PlainIsGood(ToText(d.port));
    PlainIsGood(ProtocolText(d.protocol));
    PlainIsGood("");
    if d.ipv4.Some? {
      QuadPlain(d.ipv4.value);
      PlainIsGood(d.ipv4.value.ToString());
    }
  }

  lemma QuadPlain(q: Quad)
    ensures Plain(q.ToString()) && 0 < |q.ToString()| <= 15
  {
    hide ToText, RunValue;
    var parts := [ToText(q.a), ToText(q.b), ToText(q.c), ToText(q.d)];
    OctetPart(q.a);
    OctetPart(q.b);
    OctetPart(q.c);
    OctetPart(q.d);
    assert parts[1..] == [ToText(q.b), ToText(q.c), ToText(q.d)];
    assert parts[1..][1..] == [ToText(q.c), ToText(q.d)];
    assert parts[1..][1..][1..] == [ToText(q.d)];
    assert JoinDots(parts[1..][1..]) == ToText(q.c) + "." + ToText(q.d);
    assert JoinDots(parts[1..]) == ToText(q.b) + "." + (ToText(q.c) + "." + ToText(q.d));
    assert JoinDots(parts) == ToText(q.a) + "." + (ToText(q.b) + "." + (ToText(q.c) + "." + ToText(q.d)));
  }

  predicate IsKey(name: string) {
    name in {"name", "port", "protocol", "host", "ipv4", "ipv6"}
  }

  lemma KeysAreGood(name: string)
    requires IsKey(name)
    ensures Lower(name) == name && GoodName(name) && OneLine(name) && 0 < |name| <= 8 && Lacks(name, '=')
  {
    hide GoodName, OneLine, Lower, GoodValue, Lacks;
    if name == "name" { PlainIsGood("name"); }
    else if name == "port" { PlainIsGood("port"); }
    else if name == "protocol" { PlainIsGood("protocol"); }
    else if name == "host" { PlainIsGood("host"); }
    else if name == "ipv4" { PlainIsGood("ipv4"); }
    else { PlainIsGood("ipv6"); }
  }

  /** An entry of the printed form: a known name with one line that can stand there. */
  predicate KeyEntry(e: Entry) {
    IsKey(e.name) && |e.lines| == 1 && GoodText(e.name, e.lines[0])
  }

  lemma KeyEntryGood(e: Entry)
    requires KeyEntry(e)
    ensures GoodEntry(e)
  {
    hide GoodName, GoodValue, OneLine;
    KeysAreGood(e.name);
  }

  lemma OptionallyKey(name: string, value: string)
    requires IsKey(name) && GoodText(name, value)
    ensures var o := Optionally(name, value);
            forall k :: 0 <= k < |o| ==> KeyEntry(o[k]) && o[k].name == name
  {
  }

  /** The printed entries: known names, all different, each with its value. */
  lemma EntriesOf(d: Description)
    requires GoodDescription(d)
    ensures var entries := SectionOf(d).entries;
            && (forall k :: 0 <= k < |entries| ==> KeyEntry(entries[k]))
            && (forall h, k :: 0 <= h < k < |entries| ==> entries[h].name != entries[k].name)
  {
    hide GoodText, ToText, AddressText;
    NumbersPlain(d);
    OptionallyKey("host", d.hostname);
    OptionallyKey("ipv4", AddressText(d));
    OptionallyKey("ipv6", d.ipv6);
    assert KeyEntry(Entry("name", [d.name]));
    assert KeyEntry(Entry("port", [ToText(d.port)]));
    assert KeyEntry(Entry("protocol", [ProtocolText(d.protocol)]));
  }

  lemma SectionGood(d: Description)
    requires GoodDescription(d)
    ensures GoodSection(SectionOf(d))
  {
    hide KeyEntry, SectionOf, GoodLines, NameFits, GoodText, GoodTitle, OneLine, Lower;
    EntriesOf(d);
    var s := SectionOf(d);
    assert s.title == d.title by { TitleOf(d); }
    forall k | 0 <= k < |s.entries|
      ensures GoodEntry(s.entries[k]) && Lower(s.entries[k].name) == s.entries[k].name
    {
      KeyEntryGood(s.entries[k]);
      KeyEntryName(s.entries[k]);
    }
  }

  lemma TitleOf(d: Description)
    ensures SectionOf(d).title == d.title
  {
  }

  lemma KeyEntryName(e: Entry)
    requires KeyEntry(e)
    ensures Lower(e.name) == e.name && IsKey(e.name)
  {
    KeysAreGood(e.name);
  }

  lemma DocGood(file: seq<Description>)
    requires GoodFile(file)
    ensures GoodDoc(DocOf(file))
  {
    hide GoodSection, SectionOf, GoodDescription, Lower;
    var doc := DocOf(file);
    forall k | 0 <= k < |doc|
      ensures GoodSection(doc[k]) && doc[k].title == file[k].title
    {
      SectionGood(file[k]);
      TitleOf(file[k]);
    }
  }

  // ----- what the daemon looks up -----

  /** The value a description gives for a name; empty when it leaves the name out. */
  function FieldText(d: Description, name: string): string {
    if name == "name" then d.name
    else if name == "port" then ToText(d.port)
    else if name == "protocol" then ProtocolText(d.protocol)
    else if name == "host" then d.hostname
    else if name == "ipv4" then AddressText(d)
    else if name == "ipv6" then d.ipv6
    else ""
  }

  lemma OptionallyIs(name: string, value: string)
    ensures var o := Optionally(name, value);
            && (forall k :: 0 <= k < |o| ==> o[k] == Entry(name, [value]))
            && (value != "" ==> o == [Entry(name, [value])])
  {
  }

  lemma FieldsOf(d: Description)
    ensures FieldText(d, "name") == d.name && FieldText(d, "port") == ToText(d.port)
    ensures FieldText(d, "protocol") == ProtocolText(d.protocol) && FieldText(d, "host") == d.hostname
    ensures FieldText(d, "ipv4") == AddressText(d) && FieldText(d, "ipv6") == d.ipv6
  {
    hide ToText, ProtocolText, AddressText;
  }

  /** Every entry of the printed form holds its field, and every field with a text has its entry. */
  lemma FieldsInEntries(d: Description, name: string)
    requires IsKey(name)
    ensures var entries := SectionOf(d).entries;
            && (forall k :: 0 <= k < |entries| ==> entries[k].lines == [FieldText(d, entries[k].name)])
            && (FieldText(d, name) != "" ==> exists k :: 0 <= k < |entries| && entries[k].name == name)
  {
    hide ToText, ProtocolText, AddressText, FieldText, Optionally;
    FieldsOf(d);
    var h, a, x := Optionally("host", d.hostname), Optionally("ipv4", AddressText(d)), Optionally("ipv6", d.ipv6);
    OptionallyIs("host", d.hostname);
    OptionallyIs("ipv4", AddressText(d));
    OptionallyIs("ipv6", d.ipv6);
    var first := [Entry("name", [d.name]), Entry("port", [ToText(d.port)]),
        Entry("protocol", [ProtocolText(d.protocol)])];
    var entries := SectionOf(d).entries;
    assert entries == first + (h + (a + x));
    assert entries[0].name == "name" && entries[1].name == "port" && entries[2].name == "protocol";
    if name == "host" && FieldText(d, name) != "" {
      assert entries[3] == h[0];
    } else if name == "ipv4" && FieldText(d, name) != "" {
      assert entries[3 + |h|] == a[0];
    } else if name == "ipv6" && FieldText(d, name) != "" {
      assert entries[3 + |h| + |a|] == x[0];
    }
  }

  lemma LookedUp(file: seq<Description>, i: nat, name: string)
    requires GoodFile(file) && i < |file| && IsKey(name)
    ensures Lookup(Values(DocReports(DocOf(file))), file[i].title, name) == FieldText(file[i], name)
  {
    hide Values, DocReports, SectionOf, Lower, MakeKey, GoodDescription, FieldText, GoodDoc, KeyEntry, IsKey;
    var d, doc := file[i], DocOf(file);
    var entries := doc[i].entries;
    DocGood(file);
    assert GoodDescription(d);
    EntriesOf(d);
    TitleOf(d);
    KeysAreGood(name);
    FieldsInEntries(d, name);
    ValuesRoundTrip(doc, i, d.title, name);
    forall k | 0 <= k < |entries|
      ensures Lower(entries[k].name) == entries[k].name
    {
      KeyEntryName(entries[k]);
    }
    OneLineJoined(FieldText(d, name));
    if FieldText(d, name) != "" {
      var k :| 0 <= k < |entries| && entries[k].name == name;
    }
  }

  lemma OneLineJoined(v: string)
    ensures JoinLines(DropEmpty([v])) == v
  {
    if v == "" {
      assert [v][1..] == [];
    }
  }

  /** A positive decimal number without leading zeros becomes the port it names modulo 2 to the 16th,
      so exactly itself when it is a port. */
  lemma PortReadsBack(n: nat)
    requires 0 < n <= LONG_MAX
    ensures PortOf(ToText(n)) == n % 0x1_0000
  {
    hide ToText;
    ToTextReadsBack(n);
    NoNul(ToText(n));
    StrtolOfDecimal(n);
  }

  lemma PortKept(port: uint16)
    requires port > 0
    ensures PortOf(ToText(port)) == port
  {
    hide PortOf, ToText;
    PortReadsBack(port);
  }

  /** A port written with any digits, leading zeros included, is kept exactly when it has no leading
      zero or is below 8; behind a leading zero it is read as octal up to the first 8 or 9. */
  lemma PortKeptExactly(s: string)
    requires s != "" && AllDigits(s) && RunValue(s, 10, 0) < 0x1_0000
    ensures PortOf(s) == RunValue(s, 10, 0) <==> s[0] != '0' || RunValue(s, 10, 0) < 8
    ensures s[0] == '0' ==> PortOf(s) == RunValue(s, 8, 0)
  {
    hide RunValue, Strtol;
    NoNul(s);
    OctalBelow(s, 0, 0);
    StrtolOfDigits(s);
    OctalIsDecimal(s);
  }

  /** A port text that is empty, or begins neither with a digit nor with white space or a sign, gives
      port 0, which no entry may have. */
  lemma PortWithoutNumber(s: string)
    requires s == "" || (!('0' <= s[0] <= '9') && !IsSpace(s[0]) && s[0] != '+' && s[0] != '-')
    ensures PortOf(s) == 0
  {
    assert s != "" ==> CStr(s) == "" || CStr(s)[0] == s[0];
  }

  /** Two such ports. */
  lemma LeadingZeroIsOctal()
    ensures PortOf("080") == 0 && PortOf("010") == 8
  {
    NoNul("080");
    NoNul("010");
    assert "080"[1..] == "80" && "010"[1..] == "10" && "10"[1..] == "0";
    assert RunValue("80", 8, 0) == 0 && RunValue("10", 8, 0) == 8;
  }

  lemma AddressReadsBack(host: Endian, d: Description)
    ensures AddressOf(host, AddressText(d))
        == Some(if d.ipv4.Some? then StringToUint(host, AddressText(d)).GetOr(ZERO) else ZERO)
  {
    hide StringToUint, QuadText;
    if d.ipv4.Some? {
      var q := d.ipv4.value;
      QuadPlain(q);
      QuadRoundTrip(host, q.a, q.b, q.c, q.d);
    }
  }

  lemma ProtocolReadsBack(p: Protocol)
    ensures ProtocolNamed(ProtocolText(p)) == Some(p)
  {
  }

  lemma SectionLoaded(host: Endian, file: seq<Description>, i: nat, systemHost: string)
    requires GoodFile(file) && i < |file|
    ensures var loaded := LoadSection(host, Values(DocReports(DocOf(file))), file[i].title);
            && loaded.Record? && Registrable(loaded.service)
            && Registered(loaded.service, systemHost) == ServiceOf(host, systemHost, file[i])
  {
    hide Values, DocReports, Lookup, PortOf, AddressOf, StringToUint, GoodText, GoodTitle, AddressText, ToText,
        FieldText, ProtocolText, ProtocolNamed;
    var d := file[i];
    assert GoodDescription(d);
    FieldsOf(d);
    LookedUp(file, i, "name");
    LookedUp(file, i, "port");
    LookedUp(file, i, "protocol");
    LookedUp(file, i, "host");
    LookedUp(file, i, "ipv4");
    LookedUp(file, i, "ipv6");
    PortKept(d.port);
    ProtocolReadsBack(d.protocol);
    AddressReadsBack(host, d);
  }

  // ----- the whole file -----

  function Titles(file: seq<Description>): (r: set<string>) {
    set d | d in file :: d.title
  }

  /** The description with a title. */
  function ByTitle(file: seq<Description>, title: string): Description
    requires title in Titles(file)
  {
    if file[0].title == title then file[0] else ByTitle(file[1..], title)
  }

  lemma {:induction false} ByTitleAt(file: seq<Description>, title: string) returns (i: nat)
    requires title in Titles(file)
    ensures i < |file| && file[i] == ByTitle(file, title) && file[i].title == title
  {
    if file[0].title == title {
      i := 0;
    } else {
      i := ByTitleAt(file[1..], title);
      i := i + 1;
    }
  }

  /** The table entries in the order the daemon adds them: by title. */
  function EntriesInOrder(host: Endian, systemHost: string, file: seq<Description>,
                          titles: seq<string>): (r: seq<Service>)
    requires forall k :: 0 <= k < |titles| ==> titles[k] in Titles(file)
    ensures |r| == |titles|
  {
    if titles == [] then []
    else [ServiceOf(host, systemHost, ByTitle(file, titles[0]))] + EntriesInOrder(host, systemHost, file, titles[1..])
  }

  lemma {:induction false} TitlesLoaded(host: Endian, systemHost: string, file: seq<Description>, titles: seq<string>)
    requires GoodFile(file)
    requires forall k :: 0 <= k < |titles| ==> titles[k] in Titles(file)
    ensures LoadSections(host, systemHost, Values(DocReports(DocOf(file))), titles)
         == Loading(true, EntriesInOrder(host, systemHost, file, titles))
  {
    hide Values, DocReports, LoadSection, ServiceOf, GoodFile, Registered, Registrable;
    if titles == [] {
    } else {
      var i := ByTitleAt(file, titles[0]);
      SectionLoaded(host, file, i, systemHost);
      TitlesLoaded(host, systemHost, file, titles[1..]);
    }
  }

  lemma SectionTitles(file: seq<Description>)
    requires GoodFile(file) && AllHaveLines(DocOf(file))
    ensures SectionsOf(DocReports(DocOf(file))) == Titles(file)
  {
    hide SectionsOf, DocReports, SectionOf, GoodFile;
    var doc := DocOf(file);
    forall t
      ensures t in SectionsOf(DocReports(doc)) <==> t in Titles(file)
    {
      IniDocument.SectionsRoundTrip(doc, t);
      forall k | 0 <= k < |doc|
        ensures doc[k].title == file[k].title && doc[k].entries != []
      {
        TitleOf(file[k]);
        HasEntries(file[k]);
      }
      if t in Titles(file) {
        var i := ByTitleAt(file, t);
        assert doc[i].title == t && doc[i].entries != [];
      }
    }
  }

  lemma HasEntries(d: Description)
    ensures SectionOf(d).entries != []
  {
  }

  lemma InOrderTitles(file: seq<Description>)
    ensures forall k :: 0 <= k < |InSetOrder(Titles(file))| ==> InSetOrder(Titles(file))[k] in Titles(file)
  {
    InSetOrderIs(Titles(file));
  }

  /** What a file in the documented form loads to. */
  ghost function TableOf(host: Endian, systemHost: string, file: seq<Description>): seq<Service> {
    InOrderTitles(file);
    EntriesInOrder(host, systemHost, file, InSetOrder(Titles(file)))
  }

  /** The entry has the fields of the description: the name, the port and the protocol, the host name
      of the system when none is given, the address given, which prints as it was written, and the
      IPv6 text. */
  predicate IsEntryOf(host: Endian, systemHost: string, d: Description, sv: Service) {
    && sv.service == d.name && sv.port == d.port && sv.protocol == d.protocol && sv.ipv6 == d.ipv6
    && sv.hostname == (if d.hostname == "" then systemHost else d.hostname)
    && (d.ipv4 == None ==> sv.ipv4 == ZERO)
    && (d.ipv4.Some? ==> UintToString(host, sv.ipv4) == AddressText(d))
  }

  /** One entry for each title, in the order of the characters of the titles. */
  predicate HasTitles(host: Endian, systemHost: string, file: seq<Description>, table: seq<Service>,
                      titles: seq<string>)
  {
    && |titles| == |table| && (forall d :: d in file ==> d.title in titles)
    && (forall i, j :: 0 <= i < j < |titles| ==> Precedes(titles[i], titles[j]))
    && (forall k :: 0 <= k < |table| ==>
          exists d :: d in file && d.title == titles[k] && IsEntryOf(host, systemHost, d, table[k]))
  }

  ghost predicate InTitleOrder(host: Endian, systemHost: string, file: seq<Description>, table: seq<Service>) {
    exists titles: seq<string> :: HasTitles(host, systemHost, file, table, titles)
  }

  lemma ServiceIsEntry(host: Endian, systemHost: string, d: Description)
    ensures IsEntryOf(host, systemHost, d, ServiceOf(host, systemHost, d))
  {
    hide StringToUint, UintToString, QuadText;
    if d.ipv4.Some? {
      var q := d.ipv4.value;
      QuadRoundTrip(host, q.a, q.b, q.c, q.d);
    }
  }

  lemma {:induction false} EntriesAt(host: Endian, systemHost: string, file: seq<Description>, titles: seq<string>,
                                     k: nat)
    requires forall h :: 0 <= h < |titles| ==> titles[h] in Titles(file)
    requires k < |titles|
    ensures EntriesInOrder(host, systemHost, file, titles)[k] == ServiceOf(host, systemHost, ByTitle(file, titles[k]))
  {
    hide ServiceOf;
    if k > 0 {
      EntriesAt(host, systemHost, file, titles[1..], k - 1);
    }
  }

  lemma TableInTitleOrder(host: Endian, systemHost: string, file: seq<Description>)
    ensures InTitleOrder(host, systemHost, file, TableOf(host, systemHost, file))
  {
    hide ServiceOf, EntriesInOrder, InSetOrder, IsEntryOf, Precedes;
    var titles, table := InSetOrder(Titles(file)), TableOf(host, systemHost, file);
    InOrderTitles(file);
    InSetOrderIs(Titles(file));
    forall k | 0 <= k < |table|
      ensures exists d :: d in file && d.title == titles[k] && IsEntryOf(host, systemHost, d, table[k])
    {
      EntriesAt(host, systemHost, file, titles, k);
      var i := ByTitleAt(file, titles[k]);
      ServiceIsEntry(host, systemHost, file[i]);
    }
    assert HasTitles(host, systemHost, file, table, titles);
  }

  /** A service file in the documented form, with any blank and comment lines, loads without error to
      exactly one table entry per section, in the order of the section titles. */
  lemma FileLoads(host: Endian, systemHost: string, file: seq<Description>, lines: seq<string>)
    requires GoodFile(file) && AllHaveLines(DocOf(file)) && LaidOut(lines, DocOf(file))
    ensures LoadFile(host, systemHost, Flatten(lines)) == Loading(true, TableOf(host, systemHost, file))
    ensures |TableOf(host, systemHost, file)| == |Titles(file)|
    ensures InTitleOrder(host, systemHost, file, TableOf(host, systemHost, file))
  {
    hide GoodFile, Values, SectionsOf, DocReports, LaidOut, Flatten, ParseFile, InSetOrder, EntriesInOrder;
    hide LoadSections, InTitleOrder;
    DocGood(file);
    GoodDocIs(DocOf(file));
    LaidOutParses(DocOf(file), lines);
    TableInTitleOrder(host, systemHost, file);
    SectionTitles(file);
    var titles := InSetOrder(Titles(file));
    InOrderTitles(file);
    TitlesLoaded(host, systemHost, file, titles);
  }

  lemma {:induction false} OneEntryEach(file: seq<Description>)
    requires forall h, k :: 0 <= h < k < |file| ==> file[h].title != file[k].title
    ensures |Titles(file)| == |file|
  {
    if file == [] {
    } else {
      OneEntryEach(file[1..]);
      TitlesOfRest(file);
      assert file[0].title !in Titles(file[1..]);
    }
  }

  lemma TitlesOfRest(file: seq<Description>)
    requires file != []
    ensures Titles(file) == Titles(file[1..]) + {file[0].title}
  {
    assert forall d :: d in file <==> d == file[0] || d in file[1..];
  }

  /** From a service file on the daemon's host to the list at a querier: the wildcard query delivers
      one service per section of the file, in the order of the section titles, with all its fields, and
      with the local address where the file gives none. */
  lemma FileToList(server: Endian, client: Endian, systemHost: string, file: seq<Description>, lines: seq<string>,
                   local: Option<Word32>)
    requires GoodFile(file) && AllHaveLines(DocOf(file)) && LaidOut(lines, DocOf(file))
    requires var table := LoadFile(server, systemHost, Flatten(lines)).table;
             |Answer(server, table, "", local)| <= BUFFER_SIZE && Deliverable(table, local)
    ensures var table := LoadFile(server, systemHost, Flatten(lines)).table;
            var outcome := ParseDatagrams(client, [Received(Answer(server, table, "", local))]);
            && InTitleOrder(server, systemHost, file, table) && |table| == |file|
            && outcome.ok && AreDelivered(table, local, outcome.services)
  {
    hide LoadFile, LaidOut, Flatten, Answer, Deliverable, TableOf, Listed, ParseDatagrams, Titles, Lower, AreDelivered;
    hide InTitleOrder, Delivered;
    FileLoads(server, systemHost, file, lines);
    OneEntryEach(file);
    var table := TableOf(server, systemHost, file);
    var a := Arrival(server, table, "", local);
    ArrivalsRead(client, [a]);
    OneArrival(a);
    ListsAll(table, local);
  }

  lemma OneArrival(a: Arrival)
    ensures Datagrams([a]) == [Received(a.Datagram())] && ExpectedList([a]) == a.Expected()
  {
    hide Answer, Listed, Received;
    assert [a][1..] == [];
    assert a.Expected() + [] == a.Expected();
  }

  lemma ListsAll(table: seq<Service>, local: Option<Word32>)
    requires Deliverable(table, local)
    ensures AreDelivered(table, local, Listed(table, local))
  {
    hide Listed;
    ListedIsDelivered(table, local);
  }
}
