/** Whole INI files: printing sections of names and multi-line values, and reading them back
    (daemon/INIReader.h). */
module IniDocument {
  import opened Text
  import opened Ini
  import opened IniReader
  import opened IniRoundTrip
  import opened IniLines

  /** A name with the lines of its value. */
  datatype Entry = Entry(name: string, lines: seq<string>)

  datatype Section = Section(title: string, entries: seq<Entry>)

  // ----- printing -----

  function EntryLines(e: Entry): seq<string>
    requires e.lines != []
  {
    [PairLine(e.name, e.lines[0])] + Continuations(e.lines[1..])
  }

  function Continuations(lines: seq<string>): seq<string> {
    if lines == [] then [] else [ContinuationLine(lines[0])] + Continuations(lines[1..])
  }

  predicate HaveLines(entries: seq<Entry>) {
    forall k :: 0 <= k < |entries| ==> entries[k].lines != []
  }

  function EntriesLines(entries: seq<Entry>): seq<string>
    requires HaveLines(entries)
  {
    if entries == [] then [] else EntryLines(entries[0]) + EntriesLines(entries[1..])
  }

  function SectionLines(s: Section): seq<string>
    requires HaveLines(s.entries)
  {
    [HeaderLine(s.title)] + EntriesLines(s.entries)
  }

  predicate AllHaveLines(doc: seq<Section>) {
    forall k :: 0 <= k < |doc| ==> HaveLines(doc[k].entries)
  }

  function DocLines(doc: seq<Section>): seq<string>
    requires AllHaveLines(doc)
  {
    if doc == [] then [] else SectionLines(doc[0]) + DocLines(doc[1..])
  }

  function Flatten(lines: seq<string>): string {
    if lines == [] then "" else lines[0] + Flatten(lines[1..])
  }

  /** The file a document is printed to. */
  function Printed(doc: seq<Section>): string
    requires AllHaveLines(doc)
  {
    Flatten(DocLines(doc))
  }

  // ----- conditions -----

  /** No line feed and no NUL. */
  predicate OneLine(s: string) {
    Lacks(s, '\n') && Lacks(s, '\0')
  }

  /** Every line of the entry reads back by itself and fits the line buffer. */
  predicate GoodLines(e: Entry) {
    && e.lines != [] && GoodName(e.name) && OneLine(e.name)
    && GoodValue(e.lines[0]) && OneLine(e.lines[0]) && |e.name| + 1 + |e.lines[0]| < MAX_LINE - 1
    && forall k :: 1 <= k < |e.lines| ==>
         GoodContinuation(e.lines[k]) && OneLine(e.lines[k]) && 1 + |e.lines[k]| < MAX_LINE - 1
  }

  /** A name that is continued is not empty and fits its buffer; other names may be of any length. */
  predicate NameFits(e: Entry) {
    |e.lines| > 1 ==> 0 < |e.name| < MAX_NAME
  }

  predicate GoodEntry(e: Entry) {
    GoodLines(e) && NameFits(e)
  }

  predicate LinesGood(entries: seq<Entry>) {
    forall k :: 0 <= k < |entries| ==> GoodLines(entries[k])
  }

  predicate NamesFit(entries: seq<Entry>) {
    forall k :: 0 <= k < |entries| ==> NameFits(entries[k])
  }

  /** Every line of the section reads back by itself and fits its buffers. */
  predicate GoodSectionLines(s: Section) {
    GoodTitle(s.title) && OneLine(s.title) && |s.title| < MAX_SECTION && LinesGood(s.entries)
  }

  predicate GoodDocLines(doc: seq<Section>) {
    forall k :: 0 <= k < |doc| ==> GoodSectionLines(doc[k])
  }

  predicate DocNamesFit(doc: seq<Section>) {
    forall k :: 0 <= k < |doc| ==> NamesFit(doc[k].entries)
  }

  /** Titles and names are told apart without regard to case. */
  predicate GoodSection(s: Section) {
    && GoodSectionLines(s) && NamesFit(s.entries)
    && (forall h, k :: 0 <= h < k < |s.entries| ==> Lower(s.entries[h].name) != Lower(s.entries[k].name))
  }

  predicate GoodDoc(doc: seq<Section>) {
    && (forall k :: 0 <= k < |doc| ==> GoodSection(doc[k]))
    && (forall h, k :: 0 <= h < k < |doc| ==> Lower(doc[h].title) != Lower(doc[k].title))
  }

  // ----- cutting a file into lines -----

  predicate WholeLine(l: string) {
    0 < |l| < MAX_LINE && l[|l| - 1] == '\n' && Lacks(l[..|l| - 1], '\n') && Lacks(l, '\0')
  }

  lemma {:induction false} OneChunk(body: string, rest: string, limit: nat)
    requires Lacks(body, '\n') && |body| < limit
    ensures ChunkLength(body + ("\n" + rest), limit) == |body| + 1
  {
    if body == "" {
      assert body + ("\n" + rest) == "\n" + rest;
    } else {
      assert (body + ("\n" + rest))[1..] == body[1..] + ("\n" + rest);
      OneChunk(body[1..], rest, limit - 1);
    }
  }

  lemma {:induction false} LinesRecovered(lines: seq<string>)
    requires forall k :: 0 <= k < |lines| ==> WholeLine(lines[k])
    ensures Lines(Flatten(lines)) == lines
  {
    hide CStr;
    if lines == [] {
    } else {
      var l, rest := lines[0], Flatten(lines[1..]);
      assert WholeLine(l);
      var body := l[..|l| - 1];
      OneChunk(body, rest, MAX_LINE - 1);
      assert l + rest == body + ("\n" + rest);
      assert (l + rest)[..|l|] == l && (l + rest)[|l|..] == rest;
      NoNul(l);
      LinesRecovered(lines[1..]);
    }
  }

  predicate WholeLines(lines: seq<string>) {
    forall k :: 0 <= k < |lines| ==> WholeLine(lines[k])
  }

  lemma {:induction false} ContinuationsWhole(lines: seq<string>)
    requires forall k :: 0 <= k < |lines| ==> OneLine(lines[k]) && 1 + |lines[k]| < MAX_LINE - 1
    ensures WholeLines(Continuations(lines))
  {
    if lines == [] {
    } else {
      ContinuationsWhole(lines[1..]);
    }
  }

  lemma EntryWhole(e: Entry)
    requires GoodLines(e)
    ensures WholeLines(EntryLines(e))
  {
    hide WholeLine, Continuations, GoodName, GoodValue, GoodContinuation;
    ContinuationsWhole(e.lines[1..]);
    PairWhole(e.name, e.lines[0]);
  }

  lemma PairWhole(n: string, v: string)
    requires OneLine(n) && OneLine(v) && |n| + 1 + |v| < MAX_LINE - 1
    ensures WholeLine(PairLine(n, v))
  {
    var l := PairLine(n, v);
    assert l == n + "=" + v + "\n";
    assert l[..|l| - 1] == n + "=" + v;
  }

  lemma {:induction false} EntriesWhole(entries: seq<Entry>)
    requires LinesGood(entries)
    ensures HaveLines(entries) && WholeLines(EntriesLines(entries))
  {
    hide GoodLines, WholeLine, EntryLines;
    assert HaveLines(entries) by {
      forall k | 0 <= k < |entries| ensures entries[k].lines != [] { GoodHasLines(entries[k]); }
    }
    if entries == [] {
    } else {
      EntryWhole(entries[0]);
      EntriesWhole(entries[1..]);
    }
  }

  lemma GoodHasLines(e: Entry)
    requires GoodLines(e)
    ensures e.lines != []
  {
  }

  lemma HeaderWhole(t: string)
    requires OneLine(t) && |t| < MAX_SECTION
    ensures WholeLine(HeaderLine(t))
  {
    var l := HeaderLine(t);
    assert l[..|l| - 1] == "[" + t + "]";
  }

  lemma {:induction false} DocWhole(doc: seq<Section>)
    requires GoodDocLines(doc)
    ensures AllHaveLines(doc) && WholeLines(DocLines(doc))
  {
    hide LinesGood, WholeLine, EntriesLines, HeaderLine, GoodTitle, HaveLines;
    forall k | 0 <= k < |doc|
      ensures HaveLines(doc[k].entries)
    {
      EntriesWhole(doc[k].entries);
    }
    if doc == [] {
    } else {
      EntriesWhole(doc[0].entries);
      HeaderWhole(doc[0].title);
      DocWhole(doc[1..]);
    }
  }

  // ----- what is reported -----

  /** One report per line of the value. */
  function EntryReports(title: string, name: string, lines: seq<string>): seq<Report> {
    if lines == [] then [] else [Report(title, name, lines[0])] + EntryReports(title, name, lines[1..])
  }

  function EntriesReports(title: string, entries: seq<Entry>): seq<Report> {
    if entries == [] then []
    else EntryReports(title, entries[0].name, entries[0].lines) + EntriesReports(title, entries[1..])
  }

  function DocReports(doc: seq<Section>): seq<Report> {
    if doc == [] then [] else EntriesReports(doc[0].title, doc[0].entries) + DocReports(doc[1..])
  }

  /** `q` is `p` behind some lines that reported `reports` and nothing else. */
  predicate Advanced(p: Parser, q: Parser, section: string, reports: seq<Report>) {
    q.section == section && q.error == p.error && q.reports == p.reports + reports && q.lineno > 0
  }

  lemma ContinuationStep(p: Parser, l: string)
    requires p.lineno > 0 && p.prevName != "" && GoodContinuation(l)
    ensures Step(p, ContinuationLine(l))
         == p.(lineno := p.lineno + 1, reports := p.reports + [Report(p.section, p.prevName, l)])
  {
    hide Classify, ContinuationLine, GoodContinuation;
    ContinuationForm(l, p.prevName);
  }

  lemma {:induction false} ContinuationsParsed(p: Parser, name: string, lines: seq<string>)
    requires p.lineno > 0 && p.prevName == name && name != ""
    requires forall k :: 0 <= k < |lines| ==> GoodContinuation(lines[k])
    ensures var q := ParseLines(p, Continuations(lines));
            q.prevName == name && Advanced(p, q, p.section, EntryReports(p.section, name, lines))
    decreases |lines|
  {
    hide Step, ContinuationLine, GoodContinuation;
    if lines == [] {
      assert p.reports + [] == p.reports;
    } else {
      ContinuationStep(p, lines[0]);
      var q, rest := Step(p, ContinuationLine(lines[0])), lines[1..];
      assert Continuations(lines) == [ContinuationLine(lines[0])] + Continuations(rest);
      assert Continuations(lines)[1..] == Continuations(rest);
      ContinuationsParsed(q, name, rest);
      assert ParseLines(p, Continuations(lines)) == ParseLines(q, Continuations(rest));
      var one, more := [Report(p.section, name, lines[0])], EntryReports(p.section, name, rest);
      assert p.reports + one + more == p.reports + (one + more);
    }
  }

  lemma PairStep(p: Parser, e: Entry)
    requires p.lineno > 0 && GoodLines(e)
    ensures Step(p, PairLine(e.name, e.lines[0]))
         == p.(lineno := p.lineno + 1, prevName := Take(e.name, MAX_NAME - 1),
               reports := p.reports + [Report(p.section, e.name, e.lines[0])])
  {
    hide Classify, PairLine, GoodName, GoodValue, GoodContinuation;
    PairForm(e.name, e.lines[0], false, p.prevName);
  }

  lemma EntryParsed(p: Parser, e: Entry)
    requires p.lineno > 0 && GoodEntry(e)
    ensures Advanced(p, ParseLines(p, EntryLines(e)), p.section, EntryReports(p.section, e.name, e.lines))
  {
    hide Step, PairLine, GoodName, GoodValue, GoodContinuation, Continuations;
    PairStep(p, e);
    var q := Step(p, PairLine(e.name, e.lines[0]));
    assert EntryLines(e)[1..] == Continuations(e.lines[1..]);
    if |e.lines| == 1 {
      NoContinuations(e.lines[1..]);
    } else {
      ContinuationsParsed(q, e.name, e.lines[1..]);
    }
    assert p.reports + [Report(p.section, e.name, e.lines[0])] + EntryReports(p.section, e.name, e.lines[1..])
        == p.reports + EntryReports(p.section, e.name, e.lines);
  }

  lemma NoContinuations(lines: seq<string>)
    requires lines == []
    ensures Continuations(lines) == []
  {
  }

  lemma {:induction false} EntriesParsed(p: Parser, entries: seq<Entry>)
    requires p.lineno > 0 && HaveLines(entries) && LinesGood(entries) && NamesFit(entries)
    ensures Advanced(p, ParseLines(p, EntriesLines(entries)), p.section, EntriesReports(p.section, entries))
    decreases |entries|
  {
    hide GoodLines, NameFits, EntryLines, EntryReports, Step;
    if entries == [] {
      assert p.reports + [] == p.reports;
    } else {
      var e := entries[0];
      EntryParsed(p, e);
      var q := ParseLines(p, EntryLines(e));
      EntriesParsed(q, entries[1..]);
      ParseAppend(p, EntryLines(e), EntriesLines(entries[1..]));
      assert p.reports + EntryReports(p.section, e.name, e.lines) + EntriesReports(p.section, entries[1..])
          == p.reports + EntriesReports(p.section, entries);
    }
  }

  lemma HeaderStep(p: Parser, s: Section)
    requires GoodSectionLines(s)
    ensures Step(p, HeaderLine(s.title)) == p.(lineno := p.lineno + 1, section := s.title, prevName := "")
  {
    hide LinesGood, Classify, HeaderLine, GoodTitle;
    HeaderForm(s.title, p.lineno == 0, p.prevName);
  }

  lemma SectionParsed(p: Parser, s: Section)
    requires GoodSectionLines(s) && NamesFit(s.entries) && HaveLines(s.entries)
    ensures Advanced(p, ParseLines(p, SectionLines(s)), s.title, EntriesReports(s.title, s.entries))
  {
    hide LinesGood, NamesFit, EntriesLines, EntriesReports, Step, HeaderLine, GoodTitle;
    HeaderStep(p, s);
    EntriesParsed(Step(p, HeaderLine(s.title)), s.entries);
    assert SectionLines(s)[1..] == EntriesLines(s.entries);
  }

  lemma {:induction false} DocParsed(p: Parser, doc: seq<Section>)
    requires AllHaveLines(doc) && GoodDocLines(doc) && DocNamesFit(doc)
    ensures var q := ParseLines(p, DocLines(doc));
            q.error == p.error && q.reports == p.reports + DocReports(doc)
    decreases |doc|
  {
    hide GoodSectionLines, NamesFit, SectionLines, EntriesReports, Step, HaveLines;
    if doc == [] {
      assert p.reports + [] == p.reports;
    } else {
      var s := doc[0];
      SectionParsed(p, s);
      var q := ParseLines(p, SectionLines(s));
      DocParsed(q, doc[1..]);
      ParseAppend(p, SectionLines(s), DocLines(doc[1..]));
      assert p.reports + EntriesReports(s.title, s.entries) + DocReports(doc[1..]) == p.reports + DocReports(doc);
    }
  }

  // ----- when a name does not fit -----

  lemma {:induction false} ReportsGrow(p: Parser, lines: seq<string>)
    ensures p.reports <= ParseLines(p, lines).reports
    ensures |ParseLines(p, lines).reports| <= |p.reports| + |lines|
    decreases |lines|
  {
    hide LineOf;
    if lines == [] {
    } else {
      ReportsGrow(Step(p, lines[0]), lines[1..]);
    }
  }

  lemma PairValueShorter(u: string)
    ensures ClassifyPair(u).Pair? ==> |ClassifyPair(u).value| < |u|
  {
    hide FindStop, RStrip;
    var e := FindStop(u, "=:", false);
    if e < |u| {
      SkipSpaceIs(u[e + 1..]);
    }
  }

  /** The first continuation of a name that does not fit is not reported under that name as it is. */
  lemma MisreadLine(p: Parser, name: string, l: string)
    requires p.lineno > 0 && p.prevName == Take(name, MAX_NAME - 1) && GoodContinuation(l)
    requires !(0 < |name| < MAX_NAME)
    ensures var q := Step(p, ContinuationLine(l));
            || q.reports == p.reports
            || (|q.reports| == |p.reports| + 1 && q.reports[|p.reports|] != Report(p.section, name, l))
  {
    hide ClassifyPair, ClassifyHeader, RStrip, SkipSpace, FindStop, ContinuationLine, Cut;
    if name == "" {
      ContinuationBody(l);
      WholeBody(l);
      PairValueShorter(l);
    } else {
      ContinuationForm(l, p.prevName);
    }
  }

  lemma EntryMisread(p: Parser, e: Entry)
    requires p.lineno > 0 && GoodLines(e) && !NameFits(e)
    ensures !(p.reports + EntryReports(p.section, e.name, e.lines) <= ParseLines(p, EntryLines(e)).reports)
  {
    hide Step, PairLine, GoodName, GoodValue, GoodContinuation;
    PairStep(p, e);
    var q1 := Step(p, PairLine(e.name, e.lines[0]));
    MisreadLine(q1, e.name, e.lines[1]);
    var q2 := Step(q1, ContinuationLine(e.lines[1]));
    var rest := Continuations(e.lines[1..][1..]);
    ContinuationsCount(e.lines[1..][1..]);
    ReportsGrow(q2, rest);
    assert EntryLines(e)[1..] == Continuations(e.lines[1..]);
    assert Continuations(e.lines[1..])[1..] == rest;
    assert ParseLines(p, EntryLines(e)) == ParseLines(q1, Continuations(e.lines[1..])) == ParseLines(q2, rest);
    var want := p.reports + EntryReports(p.section, e.name, e.lines);
    EntryReportsAre(p.section, e.name, e.lines);
    assert want[|p.reports| + 1] == Report(p.section, e.name, e.lines[1]);
  }

  lemma {:induction false} ContinuationsCount(lines: seq<string>)
    ensures |Continuations(lines)| == |lines|
  {
    if lines == [] {
    } else {
      ContinuationsCount(lines[1..]);
    }
  }

  lemma {:induction false} EntryReportsAre(title: string, name: string, lines: seq<string>)
    ensures |EntryReports(title, name, lines)| == |lines|
    ensures forall k :: 0 <= k < |lines| ==> EntryReports(title, name, lines)[k] == Report(title, name, lines[k])
  {
    if lines == [] {
    } else {
      EntryReportsAre(title, name, lines[1..]);
    }
  }

  /** As many lines as reports, apart from section lines. */
  lemma {:induction false} EntriesCount(title: string, entries: seq<Entry>)
    requires HaveLines(entries)
    ensures |EntriesLines(entries)| == |EntriesReports(title, entries)|
  {
    hide Continuations, EntryReports;
    if entries == [] {
    } else {
      var e := entries[0];
      ContinuationsCount(e.lines[1..]);
      EntryReportsAre(title, e.name, e.lines);
      EntriesCount(title, entries[1..]);
    }
  }

  lemma SectionCount(p: Parser, s: Section)
    requires GoodSectionLines(s) && HaveLines(s.entries)
    ensures p.reports <= ParseLines(p, SectionLines(s)).reports
    ensures |ParseLines(p, SectionLines(s)).reports| <= |p.reports| + |EntriesReports(s.title, s.entries)|
  {
    hide LinesGood, EntriesLines, EntriesReports, Step, HeaderLine, GoodTitle;
    HeaderStep(p, s);
    ReportsGrow(Step(p, HeaderLine(s.title)), EntriesLines(s.entries));
    EntriesCount(s.title, s.entries);
    assert SectionLines(s)[1..] == EntriesLines(s.entries);
  }

  lemma {:induction false} DocCount(p: Parser, doc: seq<Section>)
    requires AllHaveLines(doc) && GoodDocLines(doc)
    ensures p.reports <= ParseLines(p, DocLines(doc)).reports
    ensures |ParseLines(p, DocLines(doc)).reports| <= |p.reports| + |DocReports(doc)|
    decreases |doc|
  {
    hide GoodSectionLines, SectionLines, EntriesReports, Step, HaveLines;
    if doc == [] {
    } else {
      SectionCount(p, doc[0]);
      DocCount(ParseLines(p, SectionLines(doc[0])), doc[1..]);
      ParseAppend(p, SectionLines(doc[0]), DocLines(doc[1..]));
    }
  }

  /** Reports that have gone wrong stay wrong: those behind add too few. */
  lemma StaysWrong<T>(want: seq<T>, got: seq<T>, rest: seq<T>, final: seq<T>)
    requires !(want <= got) && got <= final && |final| <= |got| + |rest|
    ensures final != want + rest
  {
    if |want| <= |got| {
      assert (want + rest)[..|want|] == want;
      assert final[..|want|] == got[..|want|];
    }
  }

  lemma {:induction false} EntriesExactly(p: Parser, entries: seq<Entry>)
    requires p.lineno > 0 && HaveLines(entries) && LinesGood(entries)
    ensures ParseLines(p, EntriesLines(entries)).reports == p.reports + EntriesReports(p.section, entries)
       <==> NamesFit(entries)
    decreases |entries|
  {
    hide GoodLines, NameFits, EntryLines, EntryReports, Step;
    if NamesFit(entries) {
      EntriesParsed(p, entries);
    } else {
      var e := entries[0];
      var q, mine, rest := ParseLines(p, EntryLines(e)), EntryReports(p.section, e.name, e.lines), entries[1..];
      var more := EntriesReports(p.section, rest);
      ParseAppend(p, EntryLines(e), EntriesLines(rest));
      assert p.reports + (mine + more) == p.reports + mine + more;
      if NameFits(e) {
        EntryParsed(p, e);
        EntriesExactly(q, rest);
      } else {
        EntryMisread(p, e);
        ReportsGrow(q, EntriesLines(rest));
        EntriesCount(p.section, rest);
        StaysWrong(p.reports + mine, q.reports, more, ParseLines(q, EntriesLines(rest)).reports);
      }
    }
  }

  lemma {:induction false} DocExactly(p: Parser, doc: seq<Section>)
    requires AllHaveLines(doc) && GoodDocLines(doc)
    ensures ParseLines(p, DocLines(doc)).reports == p.reports + DocReports(doc) <==> DocNamesFit(doc)
    decreases |doc|
  {
    hide GoodSectionLines, NamesFit, SectionLines, EntriesReports, Step, HaveLines;
    if DocNamesFit(doc) {
      DocParsed(p, doc);
    } else {
      var s, rest := doc[0], doc[1..];
      var q, mine, more := ParseLines(p, SectionLines(s)), EntriesReports(s.title, s.entries), DocReports(rest);
      ParseAppend(p, SectionLines(s), DocLines(rest));
      assert p.reports + (mine + more) == p.reports + mine + more;
      if NamesFit(s.entries) {
        SectionParsed(p, s);
        DocExactly(q, rest);
      } else {
        SectionMisread(p, s);
        DocCount(q, rest);
        StaysWrong(p.reports + mine, q.reports, more, ParseLines(q, DocLines(rest)).reports);
      }
    }
  }

  lemma WholePrefix<T>(a: seq<T>, b: seq<T>)
    requires |b| <= |a|
    ensures a <= b ==> a == b
  {
  }

  lemma SectionMisread(p: Parser, s: Section)
    requires GoodSectionLines(s) && HaveLines(s.entries) && !NamesFit(s.entries)
    ensures !(p.reports + EntriesReports(s.title, s.entries) <= ParseLines(p, SectionLines(s)).reports)
  {
    hide LinesGood, NamesFit, EntriesLines, EntriesReports, Step, HeaderLine, GoodTitle;
    HeaderStep(p, s);
    var q := Step(p, HeaderLine(s.title));
    EntriesExactly(q, s.entries);
    SectionCount(p, s);
    assert SectionLines(s)[1..] == EntriesLines(s.entries);
    WholePrefix(p.reports + EntriesReports(s.title, s.entries), ParseLines(p, SectionLines(s)).reports);
  }

  // ----- blank lines and comments in between -----

  /** The file holds the lines of the document with any blank and comment lines between them. */
  predicate LaidOut(lines: seq<string>, doc: seq<Section>)
    requires AllHaveLines(doc)
  {
    WholeLines(lines) && Kept(lines) == DocLines(doc)
  }

  lemma NoBomInFront(doc: seq<Section>)
    requires AllHaveLines(doc)
    ensures DocLines(doc) == [] || !HasBom(DocLines(doc)[0])
  {
    hide EntriesLines, HaveLines;
    if doc != [] {
      assert DocLines(doc)[0] == HeaderLine(doc[0].title);
      assert HeaderLine(doc[0].title)[0] == '[';
    }
  }

  /** A document whose lines each read back by themselves, with any blank and comment lines between
      them, parses without error and reports exactly its lines, exactly when every name that is
      continued is not empty and fits its buffer. */
  lemma LaidOutParses(doc: seq<Section>, lines: seq<string>)
    requires GoodDocLines(doc) && AllHaveLines(doc) && LaidOut(lines, doc)
    ensures ParseFile(Flatten(lines)).reports == DocReports(doc) <==> DocNamesFit(doc)
    ensures DocNamesFit(doc) ==> ParseFile(Flatten(lines)).error == 0
  {
    hide GoodSectionLines, NamesFit, DocLines, Flatten, Lines, WholeLine, HaveLines, DocReports, ParseLines, HasBom;
    LinesRecovered(lines);
    NoBomInFront(doc);
    KeptParses(START, START, lines);
    DocExactly(START, doc);
    assert [] + DocReports(doc) == DocReports(doc);
    if DocNamesFit(doc) {
      DocParsed(START, doc);
    }
  }

  predicate NoneIgnorable(lines: seq<string>) {
    forall k :: 0 <= k < |lines| ==> !Ignorable(lines[k])
  }

  lemma {:induction false} KeptAll(lines: seq<string>)
    requires NoneIgnorable(lines)
    ensures Kept(lines) == lines
  {
    hide Ignorable;
    if lines == [] {
    } else {
      KeptAll(lines[1..]);
      assert [lines[0]] + lines[1..] == lines;
    }
  }

  lemma NotNothing(raw: string, prevName: string)
    requires Classify(raw, false, prevName) != Nothing
    ensures !Ignorable(raw)
  {
    hide Classify, Ignorable;
    NothingExactly(raw, false, prevName);
  }

  lemma {:induction false} ContinuationsSay(lines: seq<string>)
    requires forall k :: 0 <= k < |lines| ==> GoodContinuation(lines[k])
    ensures NoneIgnorable(Continuations(lines))
  {
    hide Ignorable, Classify, ContinuationLine, GoodContinuation;
    if lines == [] {
    } else {
      ContinuationForm(lines[0], "name");
      NotNothing(ContinuationLine(lines[0]), "name");
      ContinuationsSay(lines[1..]);
    }
  }

  lemma {:induction false} EntriesSay(entries: seq<Entry>)
    requires LinesGood(entries) && HaveLines(entries)
    ensures NoneIgnorable(EntriesLines(entries))
  {
    hide Ignorable, Classify, PairLine, Continuations, GoodName, GoodValue, GoodContinuation;
    if entries == [] {
    } else {
      var e := entries[0];
      PairForm(e.name, e.lines[0], false, "");
      NotNothing(PairLine(e.name, e.lines[0]), "");
      ContinuationsSay(e.lines[1..]);
      EntriesSay(entries[1..]);
    }
  }

  lemma {:induction false} DocSays(doc: seq<Section>)
    requires GoodDocLines(doc) && AllHaveLines(doc)
    ensures NoneIgnorable(DocLines(doc))
  {
    hide Ignorable, Classify, HeaderLine, EntriesLines, GoodTitle, LinesGood, HaveLines;
    if doc == [] {
    } else {
      HeaderForm(doc[0].title, false, "");
      NotNothing(HeaderLine(doc[0].title), "");
      EntriesSay(doc[0].entries);
      DocSays(doc[1..]);
    }
  }

  lemma {:induction false} KeptAppend(a: seq<string>, b: seq<string>)
    ensures Kept(a + b) == Kept(a) + Kept(b)
  {
    hide Ignorable;
    if a == [] {
      assert a + b == b;
    } else {
      assert (a + b)[1..] == a[1..] + b;
      KeptAppend(a[1..], b);
    }
  }

  lemma {:induction false} DocLinesAppend(first: seq<Section>, behind: seq<Section>)
    requires AllHaveLines(first) && AllHaveLines(behind)
    ensures AllHaveLines(first + behind) && DocLines(first + behind) == DocLines(first) + DocLines(behind)
  {
    hide SectionLines, HaveLines;
    if first == [] {
      assert first + behind == behind;
    } else {
      assert (first + behind)[1..] == first[1..] + behind;
      DocLinesAppend(first[1..], behind);
    }
  }

  /** A blank or comment line between two sections, as in the documented example, leaves the document as
      it is; `firstLines` and `behindLines` may hold such lines again. */
  lemma LineBetween(first: seq<Section>, firstLines: seq<string>, line: string, behind: seq<Section>,
                    behindLines: seq<string>)
    requires AllHaveLines(first) && LaidOut(firstLines, first)
    requires AllHaveLines(behind) && LaidOut(behindLines, behind)
    requires WholeLine(line) && Ignorable(line)
    ensures AllHaveLines(first + behind) && LaidOut(firstLines + [line] + behindLines, first + behind)
  {
    hide DocLines, HaveLines, WholeLine, Ignorable;
    DocLinesAppend(first, behind);
    KeptAppend(firstLines + [line], behindLines);
    KeptAppend(firstLines, [line]);
    OneIgnored(line);
    assert Kept(firstLines) + [] == Kept(firstLines);
  }

  lemma OneIgnored(line: string)
    requires Ignorable(line)
    ensures Kept([line]) == []
  {
    hide Ignorable;
    assert [line][1..] == [];
  }

  lemma BlankLine()
    ensures WholeLine("\n") && Ignorable("\n")
  {
    assert SpacesUpTo("\n", 1);
    assert "\n"[..0] == "";
  }

  /** The same of the document printed without anything between its lines. */
  lemma PrintedParses(doc: seq<Section>)
    requires GoodDocLines(doc)
    ensures AllHaveLines(doc) && LaidOut(DocLines(doc), doc)
    ensures ParseFile(Printed(doc)).reports == DocReports(doc) <==> DocNamesFit(doc)
    ensures DocNamesFit(doc) ==> ParseFile(Printed(doc)).error == 0
  {
    hide GoodDocLines, DocNamesFit, DocLines, Flatten, WholeLines, AllHaveLines, DocReports, ParseFile;
    DocWhole(doc);
    DocSays(doc);
    KeptAll(DocLines(doc));
    LaidOutParses(doc, DocLines(doc));
  }

  lemma GoodDocIs(doc: seq<Section>)
    requires GoodDoc(doc)
    ensures GoodDocLines(doc) && DocNamesFit(doc)
  {
    hide GoodSectionLines, NamesFit;
  }

  // ----- what is stored -----

  lemma {:induction false} ReportedForAppend(a: seq<Report>, b: seq<Report>, key: string)
    ensures ReportedFor(a + b, key) == ReportedFor(a, key) + ReportedFor(b, key)
  {
    hide MakeKey;
    if b == [] {
      assert a + b == a;
      assert ReportedFor(a, key) + [] == ReportedFor(a, key);
    } else {
      assert (a + b)[..|a + b| - 1] == a + b[..|b| - 1];
      ReportedForAppend(a, b[..|b| - 1], key);
    }
  }

  lemma ReportedForOne(r: Report, key: string)
    ensures ReportedFor([r], key) == if MakeKey(r.section, r.name) == key then [r.value] else []
  {
    hide MakeKey;
    assert [r][..0] == [];
  }

  lemma {:induction false} ReportedForEntry(title: string, name: string, lines: seq<string>, key: string)
    ensures ReportedFor(EntryReports(title, name, lines), key) == if MakeKey(title, name) == key then lines else []
  {
    hide MakeKey;
    if lines == [] {
    } else {
      var r := Report(title, name, lines[0]);
      ReportedForAppend([r], EntryReports(title, name, lines[1..]), key);
      ReportedForOne(r, key);
      ReportedForEntry(title, name, lines[1..], key);
      assert [lines[0]] + lines[1..] == lines;
    }
  }

  /** The value lines of a name in a section: of the only entry of that name, or none. */
  predicate OnlyEntry(entries: seq<Entry>, k: nat) {
    k < |entries| && forall h :: 0 <= h < |entries| && h != k ==> Lower(entries[h].name) != Lower(entries[k].name)
  }

  predicate NamesPlain(entries: seq<Entry>) {
    forall k :: 0 <= k < |entries| ==> Lacks(entries[k].name, '=')
  }

  lemma {:induction false} NotInEntries(title: string, entries: seq<Entry>, section: string, name: string)
    requires NamesPlain(entries) && Lacks(name, '=')
    requires Lower(title) != Lower(section) || forall k :: 0 <= k < |entries| ==> Lower(entries[k].name) != Lower(name)
    ensures ReportedFor(EntriesReports(title, entries), MakeKey(section, name)) == []
  {
    hide MakeKey, Lower, ReportedFor, EntryReports;
    var key := MakeKey(section, name);
    if entries == [] {
      NothingReported(key);
    } else {
      var e := entries[0];
      KeyInjective(title, e.name, section, name);
      ReportedForAppend(EntryReports(title, e.name, e.lines), EntriesReports(title, entries[1..]), key);
      ReportedForEntry(title, e.name, e.lines, key);
      NotInEntries(title, entries[1..], section, name);
    }
  }

  lemma NothingReported(key: string)
    ensures ReportedFor([], key) == []
  {
  }

  lemma {:induction false} InEntries(title: string, entries: seq<Entry>, k: nat, section: string, name: string)
    requires NamesPlain(entries) && Lacks(name, '=') && k < |entries|
    requires Lower(title) == Lower(section) && Lower(entries[k].name) == Lower(name)
    requires OnlyEntry(entries, k)
    ensures ReportedFor(EntriesReports(title, entries), MakeKey(section, name)) == entries[k].lines
  {
    hide MakeKey, Lower, ReportedFor, EntryReports;
    var key := MakeKey(section, name);
    var e := entries[0];
    KeyInjective(title, e.name, section, name);
    ReportedForAppend(EntryReports(title, e.name, e.lines), EntriesReports(title, entries[1..]), key);
    ReportedForEntry(title, e.name, e.lines, key);
    if k == 0 {
      NotInEntries(title, entries[1..], section, name);
      assert e.lines + [] == e.lines;
    } else {
      assert OnlyEntry(entries[1..], k - 1) by {
        assert forall h :: 0 <= h < |entries| - 1 ==> entries[1..][h] == entries[h + 1];
      }
      InEntries(title, entries[1..], k - 1, section, name);
    }
  }

  predicate AllNamesPlain(doc: seq<Section>) {
    forall k :: 0 <= k < |doc| ==> NamesPlain(doc[k].entries)
  }

  lemma {:induction false} NotInDoc(doc: seq<Section>, section: string, name: string)
    requires AllNamesPlain(doc) && Lacks(name, '=')
    requires forall k :: 0 <= k < |doc| ==> Lower(doc[k].title) != Lower(section)
    ensures ReportedFor(DocReports(doc), MakeKey(section, name)) == []
  {
    hide MakeKey, Lower, ReportedFor, EntriesReports, NamesPlain;
    var key := MakeKey(section, name);
    if doc == [] {
      NothingReported(key);
    } else {
      ReportedForAppend(EntriesReports(doc[0].title, doc[0].entries), DocReports(doc[1..]), key);
      NotInEntries(doc[0].title, doc[0].entries, section, name);
      NotInDoc(doc[1..], section, name);
    }
  }

  /** In a document what is reported under a section's title is what that section alone reports. */
  lemma {:induction false} OnlyItsSection(doc: seq<Section>, i: nat, section: string, name: string)
    requires AllNamesPlain(doc) && Lacks(name, '=') && i < |doc|
    requires Lower(doc[i].title) == Lower(section)
    requires forall h :: 0 <= h < |doc| && h != i ==> Lower(doc[h].title) != Lower(section)
    ensures ReportedFor(DocReports(doc), MakeKey(section, name))
         == ReportedFor(EntriesReports(doc[i].title, doc[i].entries), MakeKey(section, name))
  {
    hide MakeKey, Lower, ReportedFor, EntriesReports, NamesPlain;
    var key := MakeKey(section, name);
    ReportedForAppend(EntriesReports(doc[0].title, doc[0].entries), DocReports(doc[1..]), key);
    if i == 0 {
      NotInDoc(doc[1..], section, name);
    } else {
      NotInEntries(doc[0].title, doc[0].entries, section, name);
      OnlyItsSection(doc[1..], i - 1, section, name);
    }
  }

  lemma GoodIsPlain(doc: seq<Section>)
    requires GoodDoc(doc)
    ensures AllNamesPlain(doc)
  {
    hide GoodValue, GoodContinuation, NoComment, Trimmed;
  }

  // ----- the round trip -----

  /** Everything stored for an entry of a document is its value, line by line; the first line is
      dropped when it is empty and others follow. Names not in the section have nothing stored. */
  lemma ValuesRoundTrip(doc: seq<Section>, i: nat, section: string, name: string)
    requires GoodDoc(doc) && i < |doc| && Lower(section) == Lower(doc[i].title) && Lacks(name, '=')
    ensures var key, values, entries := MakeKey(section, name), Values(DocReports(doc)), doc[i].entries;
            && (forall k :: 0 <= k < |entries| && Lower(entries[k].name) == Lower(name) ==>
                  key in values && values[key] == JoinLines(DropEmpty(entries[k].lines)))
            && ((forall k :: 0 <= k < |entries| ==> Lower(entries[k].name) != Lower(name)) ==> key !in values)
  {
    hide MakeKey, Lower, ReportedFor, EntriesReports, Values, DocReports, GoodEntry, JoinLines, DropEmpty, NamesPlain;
    var key, entries := MakeKey(section, name), doc[i].entries;
    GoodIsPlain(doc);
    assert NamesPlain(entries);
    assert GoodSection(doc[i]) && LinesGood(entries);
    StoredIsJoin(DocReports(doc), key);
    OnlyItsSection(doc, i, section, name);
    forall k | 0 <= k < |entries| && Lower(entries[k].name) == Lower(name)
      ensures key in Values(DocReports(doc)) && Values(DocReports(doc))[key] == JoinLines(DropEmpty(entries[k].lines))
    {
      assert OnlyEntry(entries, k);
      InEntries(doc[i].title, entries, k, section, name);
      GoodHasLines(entries[k]);
    }
    if forall k :: 0 <= k < |entries| ==> Lower(entries[k].name) != Lower(name) {
      NotInEntries(doc[i].title, entries, section, name);
    }
  }

  /** The lines come back joined as they were printed exactly when the first is not empty or is the
      only one. */
  lemma JoinedAsPrinted(e: Entry)
    requires GoodEntry(e)
    ensures JoinLines(DropEmpty(e.lines)) == JoinLines(e.lines) <==> e.lines[0] != "" || |e.lines| == 1
  {
    hide GoodName, GoodValue, GoodContinuation, OneLine;
    if e.lines[0] == "" && |e.lines| > 1 {
      assert e.lines[1] != "" by { ContinuationNotEmpty(e, 1); }
      assert DropEmpty(e.lines) == e.lines[1..];
    }
  }

  lemma ContinuationNotEmpty(e: Entry, k: nat)
    requires GoodEntry(e) && 1 <= k < |e.lines|
    ensures e.lines[k] != ""
  {
  }

  lemma {:induction false} SectionsOfAppend(a: seq<Report>, b: seq<Report>)
    ensures SectionsOf(a + b) == SectionsOf(a) + SectionsOf(b)
  {
    assert forall r :: r in a + b <==> r in a || r in b;
  }

  lemma {:induction false} SectionsOfEntry(title: string, name: string, lines: seq<string>)
    ensures SectionsOf(EntryReports(title, name, lines)) == if lines == [] then {} else {title}
  {
    if lines == [] {
    } else {
      SectionsOfEntry(title, name, lines[1..]);
      SectionsOfAppend([Report(title, name, lines[0])], EntryReports(title, name, lines[1..]));
      assert SectionsOf([Report(title, name, lines[0])]) == {title} by {
        assert Report(title, name, lines[0]) in [Report(title, name, lines[0])];
      }
    }
  }

  lemma {:induction false} SectionsOfEntries(title: string, entries: seq<Entry>)
    requires HaveLines(entries)
    ensures SectionsOf(EntriesReports(title, entries)) == if entries == [] then {} else {title}
  {
    hide SectionsOf, EntryReports;
    if entries == [] {
      NoSections();
    } else {
      var e := entries[0];
      SectionsOfEntry(title, e.name, e.lines);
      SectionsOfEntries(title, entries[1..]);
      SectionsOfAppend(EntryReports(title, e.name, e.lines), EntriesReports(title, entries[1..]));
    }
  }

  lemma NoSections()
    ensures SectionsOf([]) == {}
  {
  }

  /** The sections a reader lists are exactly those with at least one entry. */
  lemma {:induction false} SectionsRoundTrip(doc: seq<Section>, title: string)
    requires AllHaveLines(doc)
    ensures title in SectionsOf(DocReports(doc))
        <==> exists k :: 0 <= k < |doc| && doc[k].title == title && doc[k].entries != []
  {
    hide SectionsOf, EntriesReports, HaveLines;
    if doc == [] {
      NoSections();
    } else {
      SectionsOfEntries(doc[0].title, doc[0].entries);
      SectionsRoundTrip(doc[1..], title);
      SectionsOfAppend(EntriesReports(doc[0].title, doc[0].entries), DocReports(doc[1..]));
      if exists k :: 0 <= k < |doc| && doc[k].title == title && doc[k].entries != [] {
        var k :| 0 <= k < |doc| && doc[k].title == title && doc[k].entries != [];
        if k > 0 {
          assert doc[1..][k - 1] == doc[k];
        }
      }
    }
  }

  /** An entry of that section and name, up to case. */
  predicate Holds(doc: seq<Section>, section: string, name: string) {
    exists i, k :: 0 <= i < |doc| && 0 <= k < |doc[i].entries|
      && Lower(doc[i].title) == Lower(section) && Lower(doc[i].entries[k].name) == Lower(name)
  }

  /** In a document no other section or name, up to case, has anything stored. */
  lemma NothingElseStored(doc: seq<Section>, section: string, name: string)
    requires GoodDoc(doc) && Lacks(name, '=')
    requires !Holds(doc, section, name)
    ensures MakeKey(section, name) !in Values(DocReports(doc))
  {
    hide GoodSection, MakeKey, Lower, Values, DocReports, AllNamesPlain;
    if i: nat :| i < |doc| && Lower(doc[i].title) == Lower(section) {
      ValuesRoundTrip(doc, i, section, name);
    } else {
      GoodIsPlain(doc);
      NotInDoc(doc, section, name);
      StoredIsJoin(DocReports(doc), MakeKey(section, name));
    }
  }

  /** A reader built on a printed document, blank and comment lines allowed: no error, every value back
      under its section and name in any case, the default for every other section or name, and exactly
      the non-empty sections listed. A name with `=` in it is left out: it can make the key of another
      section and name. */
  lemma ReaderRoundTrip(reader: INIReader, doc: seq<Section>, lines: seq<string>)
    requires reader.Valid() && GoodDoc(doc) && AllHaveLines(doc) && LaidOut(lines, doc)
    requires reader.reports == ParseFile(Flatten(lines)).reports && reader.error == ParseFile(Flatten(lines)).error
    ensures reader.error == 0
    ensures forall i, k, section, name, default ::
              0 <= i < |doc| && 0 <= k < |doc[i].entries| && Lower(section) == Lower(doc[i].title)
              && Lower(name) == Lower(doc[i].entries[k].name) && Lacks(name, '=') ==>
                reader.Get(section, name, default) == JoinLines(DropEmpty(doc[i].entries[k].lines))
    ensures forall section, name, default ::
              Lacks(name, '=') && !Holds(doc, section, name) ==> reader.Get(section, name, default) == default
    ensures forall title :: title in reader.sections <==>
              exists k :: 0 <= k < |doc| && doc[k].title == title && doc[k].entries != []
  {
    hide Values, SectionsOf, DocReports, JoinLines, DropEmpty, Lower, MakeKey, GoodEntry, HaveLines, GoodSection, Lacks;
    hide LaidOut, Flatten;
    GoodDocIs(doc);
    LaidOutParses(doc, lines);
    forall i, k, section, name, default |
      0 <= i < |doc| && 0 <= k < |doc[i].entries| && Lower(section) == Lower(doc[i].title)
      && Lower(name) == Lower(doc[i].entries[k].name) && Lacks(name, '=')
      ensures reader.Get(section, name, default) == JoinLines(DropEmpty(doc[i].entries[k].lines))
    {
      ValuesRoundTrip(doc, i, section, name);
    }
    forall section, name, default | Lacks(name, '=') && !Holds(doc, section, name)
      ensures reader.Get(section, name, default) == default
    {
      NothingElseStored(doc, section, name);
    }
    forall title
      ensures title in reader.sections <==> exists k :: 0 <= k < |doc| && doc[k].title == title && doc[k].entries != []
    {
      SectionsRoundTrip(doc, title);
    }
  }
}
