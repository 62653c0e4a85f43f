/** The line grammar of the INI parser (daemon/INIReader.h) on values: what each line of a file
    means, what a whole file reports, and what the reader stores of it. */
module Ini {
  import opened Text

  const MAX_LINE := 200
  const MAX_SECTION := 50
  const MAX_NAME := 50

  // ----- C strings -----

  /** The C string at the start of a buffer: everything before the first NUL. */
  function CStr(s: string): (r: string)
    ensures |r| <= |s| && r == s[..|r|]
    ensures |r| < |s| ==> s[|r|] == '\0'
    ensures forall i :: 0 <= i < |r| ==> r[i] != '\0'
  {
    if s == [] || s[0] == '\0' then [] else [s[0]] + CStr(s[1..])
  }

  /** `rstrip`. */
  function RStrip(s: string): (r: string)
    ensures |r| <= |s| && r == s[..|r|]
    ensures r != "" ==> !IsSpace(r[|r| - 1])
    ensures forall i :: |r| <= i < |s| ==> IsSpace(s[i])
  {
    if s != [] && IsSpace(s[|s| - 1]) then RStrip(s[..|s| - 1]) else s
  }

  /** `find_chars_or_comment`: how many characters come before the first of `chars` or the first
      comment, a `;` behind white space. */
  function FindStop(s: string, chars: string, wasSpace: bool): (r: nat)
    ensures r <= |s|
  {
    if s == [] || s[0] in chars || (wasSpace && s[0] == ';') then 0
    else 1 + FindStop(s[1..], chars, IsSpace(s[0]))
  }

  /** A text without its inline comment. */
  function Cut(s: string): string {
    s[..FindStop(s, "", false)]
  }

  function Take(s: string, n: nat): string {
    if |s| <= n then s else s[..n]
  }

  // ----- one line -----

  datatype Line =
    | Nothing
    | Continuation(text: string)
    | Header(title: string)
    | Pair(name: string, value: string)
    | Malformed

  predicate HasBom(raw: string) {
    |raw| >= 3 && raw[0] == '\U{EF}' && raw[1] == '\U{BB}' && raw[2] == '\U{BF}'
  }

  /** A line that starts a section: up to the closing bracket, nothing stripped. */
  function ClassifyHeader(u: string): (r: Line)
    requires u != ""
    ensures r.Header? || r.Malformed?
  {
    var rest := u[1..];
    var e := FindStop(rest, "]", false);
    if e < |rest| && rest[e] == ']' then Header(rest[..e]) else Malformed
  }

  function ClassifyPair(u: string): (r: Line)
    ensures r.Pair? || r.Malformed?
  {
    var e := FindStop(u, "=:", false);
    if e < |u| && (u[e] == '=' || u[e] == ':')
    then Pair(RStrip(u[..e]), RStrip(Cut(SkipSpace(u[e + 1..]))))
    else Malformed
  }

  /** A line without a byte order mark, which only the first line may have. */
  function WithoutBom(raw: string, first: bool): string {
    if first && HasBom(raw) then raw[3..] else raw
  }

  /** A line without the white space around it. */
  function Body(raw: string, first: bool): string {
    SkipSpace(RStrip(WithoutBom(raw, first)))
  }

  /** Something was skipped in front of the body. */
  predicate Indented(raw: string, first: bool) {
    |WithoutBom(raw, first)| < |raw| || |Body(raw, first)| < |RStrip(WithoutBom(raw, first))|
  }

  /** What one line is. `prevName` is the name a continuation line would continue. */
  function Classify(raw: string, first: bool, prevName: string): Line {
    var u := Body(raw, first);
    if u == "" || u[0] == ';' || u[0] == '#' then Nothing
    else if prevName != "" && Indented(raw, first) then Continuation(RStrip(Cut(u)))
    else if u[0] == '[' then ClassifyHeader(u)
    else ClassifyPair(u)
  }

  // ----- a whole file -----

  /** One call of the value handler. */
  datatype Report = Report(section: string, name: string, value: string)

  datatype Parser = Parser(section: string, prevName: string, lineno: nat, error: nat, reports: seq<Report>)

  const START := Parser("", "", 0, 0, [])

  function LineOf(p: Parser, raw: string): Line {
    Classify(raw, p.lineno == 0, p.prevName)
  }

  function Step(p: Parser, raw: string): Parser {
    var q := p.(lineno := p.lineno + 1);
    match LineOf(p, raw)
    case Nothing => q
    case Continuation(text) => q.(reports := q.reports + [Report(p.section, p.prevName, text)])
    case Header(title) => q.(section := Take(title, MAX_SECTION - 1), prevName := "")
    case Pair(name, value) =>
      q.(prevName := Take(name, MAX_NAME - 1), reports := q.reports + [Report(p.section, name, value)])
    case Malformed => q.(error := if p.error == 0 then q.lineno else p.error)
  }

  function ParseLines(p: Parser, lines: seq<string>): Parser
    decreases |lines|
  {
    if lines == [] then p else ParseLines(Step(p, lines[0]), lines[1..])
  }

  /** How much one `fgets` takes: up to and with a line feed, at most `limit` characters. */
  function ChunkLength(content: string, limit: nat): (r: nat)
    ensures r <= |content| && r <= limit
    ensures content != "" && limit > 0 ==> r > 0
  {
    if content == "" || limit == 0 then 0
    else if content[0] == '\n' then 1
    else 1 + ChunkLength(content[1..], limit - 1)
  }

  /** The C strings the parser sees, one per `fgets`. */
  function Lines(content: string): seq<string>
    decreases |content|
  {
    if content == "" then []
    else
      var k := ChunkLength(content, MAX_LINE - 1);
      [CStr(content[..k])] + Lines(content[k..])
  }

  function ParseFile(content: string): Parser {
    ParseLines(START, Lines(content))
  }

  // ----- errors -----

  lemma {:induction false} ParseAppend(p: Parser, a: seq<string>, b: seq<string>)
    ensures ParseLines(p, a + b) == ParseLines(ParseLines(p, a), b)
    decreases |a|
  {
    hide Step;
    if a == [] {
      assert a + b == b;
    } else {
      assert (a + b)[1..] == a[1..] + b;
      ParseAppend(Step(p, a[0]), a[1..], b);
    }
  }

  /** Line `k` is malformed where it stands: it opens a section without closing the bracket, or it is
      neither blank, a comment, a continuation nor a section line, and has no separator. */
  predicate MalformedAt(lines: seq<string>, k: nat)
    requires k < |lines|
  {
    LineOf(ParseLines(START, lines[..k]), lines[k]).Malformed?
  }

  lemma {:induction false} LinesCounted(lines: seq<string>)
    ensures ParseLines(START, lines).lineno == |lines|
  {
    hide LineOf;
    if lines == [] {
    } else {
      var before := lines[..|lines| - 1];
      LinesCounted(before);
      assert lines == before + [lines[|lines| - 1]];
      ParseAppend(START, before, [lines[|lines| - 1]]);
    }
  }

  /** Parsing goes on behind an error, and the result is the number of the first malformed line, or 0
      when there is none. */
  lemma {:induction false} ErrorIsFirstMalformed(lines: seq<string>)
    ensures var e := ParseLines(START, lines).error;
            && e <= |lines|
            && (e == 0 <==> forall k :: 0 <= k < |lines| ==> !MalformedAt(lines, k))
            && (e > 0 ==> MalformedAt(lines, e - 1) && forall k :: 0 <= k < e - 1 ==> !MalformedAt(lines, k))
  {
    hide LineOf;
    if lines == [] {
    } else {
      var before, last := lines[..|lines| - 1], lines[|lines| - 1];
      ErrorIsFirstMalformed(before);
      LinesCounted(before);
      assert lines == before + [last];
      ParseAppend(START, before, [last]);
      forall k | 0 <= k < |before|
        ensures MalformedAt(lines, k) <==> MalformedAt(before, k)
      {
        assert before[..k] == lines[..k];
      }
      assert MalformedAt(lines, |before|) <==> LineOf(ParseLines(START, before), last).Malformed?;
      assert ParseLines(START, lines) == Step(ParseLines(START, before), last) by {
        assert [last][1..] == [];
      }
    }
  }

  // ----- what the reader stores -----

  function ToLower(c: char): char {
    if 'A' <= c <= 'Z' then c - 'A' + 'a' else c
  }

  function Lower(s: string): (r: string)
    ensures |r| == |s|
    ensures forall i :: 0 <= i < |s| ==> r[i] == ToLower(s[i])
  {
    if s == [] then [] else [ToLower(s[0])] + Lower(s[1..])
  }

  function MakeKey(section: string, name: string): string {
    Lower(section + "=" + name)
  }

  /** What `ValueHandler` makes of the stored value when another one is reported. */
  function Joined(stored: string, value: string): string {
    if |stored| > 0 then stored + "\n" + value else stored + value
  }

  function Stored(values: map<string, string>, key: string): string {
    if key in values then values[key] else ""
  }

  function Store(values: map<string, string>, r: Report): map<string, string> {
    var key := MakeKey(r.section, r.name);
    values[key := Joined(Stored(values, key), r.value)]
  }

  function Values(reports: seq<Report>): map<string, string> {
    if reports == [] then map[] else Store(Values(reports[..|reports| - 1]), reports[|reports| - 1])
  }

  function SectionsOf(reports: seq<Report>): set<string> {
    set r | r in reports :: r.section
  }

  /** The values reported for a key, in order. */
  function ReportedFor(reports: seq<Report>, key: string): seq<string> {
    if reports == [] then []
    else
      var last := reports[|reports| - 1];
      ReportedFor(reports[..|reports| - 1], key) + if MakeKey(last.section, last.name) == key then [last.value] else []
  }

  function DropEmpty(values: seq<string>): seq<string> {
    if values != [] && values[0] == "" then DropEmpty(values[1..]) else values
  }

  function JoinLines(values: seq<string>): string {
    if values == [] then "" else if |values| == 1 then values[0] else values[0] + "\n" + JoinLines(values[1..])
  }

  lemma {:induction false} JoinOneMore(values: seq<string>, v: string)
    requires values != []
    ensures JoinLines(values + [v]) == JoinLines(values) + "\n" + v
  {
    if |values| == 1 {
      assert (values + [v])[1..] == [v];
      assert JoinLines([v]) == v;
      assert JoinLines(values + [v]) == values[0] + "\n" + v;
    } else {
      assert (values + [v])[1..] == values[1..] + [v];
      JoinOneMore(values[1..], v);
      assert values[0] + "\n" + (JoinLines(values[1..]) + "\n" + v)
          == values[0] + "\n" + JoinLines(values[1..]) + "\n" + v;
    }
  }

  lemma {:induction false} DropOneMore(values: seq<string>, v: string)
    ensures DropEmpty(values + [v]) == if DropEmpty(values) == [] then DropEmpty([v]) else DropEmpty(values) + [v]
  {
    if values == [] {
      assert values + [v] == [v];
    } else if values[0] == "" {
      assert (values + [v])[1..] == values[1..] + [v];
      DropOneMore(values[1..], v);
    }
  }

  lemma {:induction false} NothingJoined(values: seq<string>)
    ensures JoinLines(DropEmpty(values)) == "" <==> DropEmpty(values) == []
  {
    if values != [] && values[0] == "" {
      NothingJoined(values[1..]);
    }
  }

  /** A key is stored exactly when something was reported for it, and then what is stored is the
      newline join of everything reported for it, leading empty values dropped. */
  lemma {:induction false} StoredIsJoin(reports: seq<Report>, key: string)
    ensures key in Values(reports) <==> ReportedFor(reports, key) != []
    ensures Stored(Values(reports), key) == JoinLines(DropEmpty(ReportedFor(reports, key)))
  {
    hide MakeKey;
    if reports == [] {
    } else {
      var before, last := reports[..|reports| - 1], reports[|reports| - 1];
      StoredIsJoin(before, key);
      if MakeKey(last.section, last.name) == key {
        var vs := ReportedFor(before, key);
        DropOneMore(vs, last.value);
        NothingJoined(vs);
        if DropEmpty(vs) != [] {
          JoinOneMore(DropEmpty(vs), last.value);
        } else {
          assert DropEmpty([last.value]) == if last.value == "" then [] else [last.value];
        }
      } else {
        assert ReportedFor(reports, key) == ReportedFor(before, key) + [] == ReportedFor(before, key);
      }
    }
  }

  // ----- keys -----

  predicate Lacks(s: string, c: char) {
    forall i :: 0 <= i < |s| ==> s[i] != c
  }

  lemma {:induction false} LowerAppend(a: string, b: string)
    ensures Lower(a + b) == Lower(a) + Lower(b)
  {
    if a == [] {
      assert a + b == b;
    } else {
      assert (a + b)[1..] == a[1..] + b;
      LowerAppend(a[1..], b);
    }
  }

  lemma LastSeparator(s: string, n: string, s': string, n': string)
    requires s + "=" + n == s' + "=" + n'
    requires Lacks(n, '=') && Lacks(n', '=')
    ensures s == s' && n == n'
  {
    var k, k' := s + "=" + n, s' + "=" + n';
    assert k[|s|] == '=' && k'[|s'|] == '=';
    assert forall i :: |s| < i < |k| ==> k[i] == n[i - |s| - 1];
    assert forall i :: |s'| < i < |k'| ==> k'[i] == n'[i - |s'| - 1];
    assert |s| == |s'|;
    assert s == k[..|s|] && s' == k'[..|s|];
    assert n == k[|s| + 1..] && n' == k'[|s| + 1..];
  }

  /** The same letter in the other case. */
  predicate OtherCase(c: char, d: char) {
    ('A' <= c <= 'Z' && d as int == c as int + 32) || ('A' <= d <= 'Z' && c as int == d as int + 32)
  }

  /** Equal but for the case of ASCII letters. */
  predicate SameLetters(s: string, t: string) {
    |s| == |t| && forall i :: 0 <= i < |s| ==> s[i] == t[i] || OtherCase(s[i], t[i])
  }

  lemma LowerIsSameLetters(s: string, t: string)
    ensures Lower(s) == Lower(t) <==> SameLetters(s, t)
  {
    hide Lower, ToLower, OtherCase;
    forall i | 0 <= i < |s| && i < |t|
      ensures ToLower(s[i]) == ToLower(t[i]) <==> s[i] == t[i] || OtherCase(s[i], t[i])
    {
      SameLetter(s[i], t[i]);
    }
    if Lower(s) == Lower(t) {
      assert forall i :: 0 <= i < |s| ==> ToLower(s[i]) == Lower(s)[i] == Lower(t)[i] == ToLower(t[i]);
    }
  }

  lemma SameLetter(c: char, d: char)
    ensures ToLower(c) == ToLower(d) <==> c == d || OtherCase(c, d)
  {
  }

  lemma KeyParts(s: string, n: string)
    requires Lacks(n, '=')
    ensures MakeKey(s, n) == Lower(s) + "=" + Lower(n) && Lacks(Lower(n), '=')
  {
    LowerAppend(s + "=", n);
    LowerAppend(s, "=");
    assert Lower("=") == "=";
  }

  /** Two pairs of section and name, the names without `=`, share a key exactly when they are equal
      up to ASCII case. */
  lemma KeyInjective(s: string, n: string, s': string, n': string)
    requires Lacks(n, '=') && Lacks(n', '=')
    ensures MakeKey(s, n) == MakeKey(s', n') <==> Lower(s) == Lower(s') && Lower(n) == Lower(n')
    ensures MakeKey(s, n) == MakeKey(s', n') <==> SameLetters(s, s') && SameLetters(n, n')
  {
    hide MakeKey, Lower, SameLetters;
    LowerIsSameLetters(s, s');
    LowerIsSameLetters(n, n');
    KeyParts(s, n);
    KeyParts(s', n');
    if MakeKey(s, n) == MakeKey(s', n') {
      LastSeparator(Lower(s), Lower(n), Lower(s'), Lower(n'));
    }
  }

  lemma {:induction false} StopsBeforeChars(s: string, chars: string, wasSpace: bool)
    ensures var r := FindStop(s, chars, wasSpace); forall i :: 0 <= i < r ==> s[i] !in chars
  {
    if s != [] && s[0] !in chars && !(wasSpace && s[0] == ';') {
      StopsBeforeChars(s[1..], chars, IsSpace(s[0]));
    }
  }

  predicate NamesLack(p: Parser, c: char) {
    Lacks(p.prevName, c) && forall k :: 0 <= k < |p.reports| ==> Lacks(p.reports[k].name, c)
  }

  lemma PairNameLacks(u: string, c: char)
    requires c == '=' || c == ':'
    ensures ClassifyPair(u).Pair? ==> Lacks(ClassifyPair(u).name, c)
  {
    StopsBeforeChars(u, "=:", false);
  }

  lemma LineNameLacks(raw: string, first: bool, prevName: string, c: char)
    requires c == '=' || c == ':'
    ensures Classify(raw, first, prevName).Pair? ==> Lacks(Classify(raw, first, prevName).name, c)
  {
    PairNameLacks(Body(raw, first), c);
    hide ClassifyPair, ClassifyHeader, Body, Indented, RStrip, Cut;
  }

  lemma StepNamesLack(p: Parser, raw: string, c: char)
    requires (c == '=' || c == ':') && NamesLack(p, c)
    ensures NamesLack(Step(p, raw), c)
  {
    hide Classify;
    LineNameLacks(raw, p.lineno == 0, p.prevName, c);
  }

  /** No name the parser ever reports has a separator in it. */
  lemma {:induction false} NoSeparatorInNames(p: Parser, lines: seq<string>, c: char)
    requires (c == '=' || c == ':') && NamesLack(p, c)
    ensures NamesLack(ParseLines(p, lines), c)
    decreases |lines|
  {
    hide Step, NamesLack;
    if lines == [] {
    } else {
      StepNamesLack(p, lines[0], c);
      NoSeparatorInNames(Step(p, lines[0]), lines[1..], c);
    }
  }
}
