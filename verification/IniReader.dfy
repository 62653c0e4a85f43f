/** The INI parser as it runs: C strings in fixed buffers that are cut in place, and the reader object
    that collects what is reported (daemon/INIReader.h). Every method is proved against the grammar on
    values. */
module IniReader {
  import opened Text
  import opened Ini

  // ----- C strings in buffers -----

  /** The C string that starts at `p`. */
  ghost function TextAt(b: array<char>, p: nat): string
    requires p <= b.Length
    reads b
  {
    CStr(b[p..])
  }

  /** A C string that ends inside its buffer starts at `p`. */
  ghost predicate Terminated(b: array<char>, p: nat)
    reads b
  {
    p <= b.Length && p + |TextAt(b, p)| < b.Length
  }

  lemma {:induction false} CStrIs(s: string, t: string)
    requires |t| < |s| && s[..|t|] == t && s[|t|] == '\0'
    requires forall i :: 0 <= i < |t| ==> t[i] != '\0'
    ensures CStr(s) == t
  {
    if t == [] {
    } else {
      assert s[0] == s[..|t|][0] == t[0];
      assert s[1..][..|t[1..]|] == s[..|t|][1..] == t[1..];
      CStrIs(s[1..], t[1..]);
    }
  }

  lemma CharAt(b: array<char>, p: nat, i: nat)
    requires Terminated(b, p) && i <= |TextAt(b, p)|
    ensures b[p + i] == if i < |TextAt(b, p)| then TextAt(b, p)[i] else '\0'
  {
    assert b[p..][i] == b[p + i];
    if i < |TextAt(b, p)| {
      assert b[p..][..|TextAt(b, p)|][i] == b[p..][i];
    }
  }

  lemma TextFrom(b: array<char>, p: nat, i: nat)
    requires Terminated(b, p) && i <= |TextAt(b, p)|
    ensures Terminated(b, p + i) && TextAt(b, p + i) == TextAt(b, p)[i..]
  {
    var t := TextAt(b, p);
    assert b[p + i..] == b[p..][i..];
    assert b[p..][i..][..|t| - i] == b[p..][..|t|][i..];
    CStrIs(b[p + i..], t[i..]);
  }

  lemma SameText(b: array<char>, before: string, p: nat)
    requires p <= |before| == b.Length && p + |CStr(before[p..])| < |before|
    requires forall k :: p <= k <= p + |CStr(before[p..])| ==> b[k] == before[k]
    ensures Terminated(b, p) && TextAt(b, p) == CStr(before[p..])
  {
    var t := CStr(before[p..]);
    assert b[p..][..|t|] == before[p..][..|t|] == t;
    assert b[p..][|t|] == before[p..][|t|] == '\0';
    CStrIs(b[p..], t);
  }

  /** `*end = '\0'` inside the C string at `p`. */
  method CutAt(b: array<char>, end: nat, ghost p: nat)
    requires Terminated(b, p) && p <= end <= p + |TextAt(b, p)|
    modifies b
    ensures Terminated(b, p) && TextAt(b, p) == old(TextAt(b, p))[..end - p]
    ensures forall i :: 0 <= i < b.Length && i != end ==> b[i] == old(b[i])
  {
    ghost var t, k := TextAt(b, p), end - p;
    b[end] := '\0';
    assert b[p..][..k] == old(b[p..])[..|t|][..k] == t[..k];
    assert b[p..][k] == '\0';
    CStrIs(b[p..], t[..k]);
  }

  /** `strlen`, as the end of the string. */
  method EndOf(b: array<char>, s: nat) returns (p: nat)
    requires Terminated(b, s)
    ensures p == s + |TextAt(b, s)|
  {
    p := s;
    CharAt(b, s, 0);
    while b[p] != '\0'
      invariant s <= p <= s + |TextAt(b, s)|
      invariant b[p] == if p < s + |TextAt(b, s)| then TextAt(b, s)[p - s] else '\0'
      decreases b.Length - p
    {
      p := p + 1;
      CharAt(b, s, p - s);
    }
  }

  lemma RStripStep(s: string, k: nat)
    requires 0 < k <= |s| && IsSpace(s[k - 1])
    ensures RStrip(s[..k]) == RStrip(s[..k - 1])
  {
    assert s[..k][..k - 1] == s[..k - 1];
  }

  method Rstrip(b: array<char>, s: nat)
    requires Terminated(b, s)
    modifies b
    ensures Terminated(b, s) && TextAt(b, s) == RStrip(old(TextAt(b, s)))
    ensures forall i :: 0 <= i < b.Length && !(s <= i < s + old(|TextAt(b, s)|)) ==> b[i] == old(b[i])
  {
    hide RStrip, CStr;
    ghost var t := TextAt(b, s);
    var p := EndOf(b, s);
    assert t[..|t|] == t;
    while p > s && IsSpace(b[p - 1])
      invariant s <= p <= s + |t|
      invariant Terminated(b, s) && TextAt(b, s) == t[..p - s]
      invariant RStrip(t) == RStrip(t[..p - s])
      invariant forall i :: 0 <= i < b.Length && !(p <= i < s + |t|) ==> b[i] == old(b[i])
    {
      CharAt(b, s, p - 1 - s);
      RStripStep(t, p - s);
      p := p - 1;
      CutAt(b, p, s);
      assert t[..p + 1 - s][..p - s] == t[..p - s];
    }
    if p > s {
      CharAt(b, s, p - 1 - s);
    }
    StripsNothing(t[..p - s]);
  }

  lemma StripsNothing(s: string)
    ensures s == "" || !IsSpace(s[|s| - 1]) ==> RStrip(s) == s
  {
  }

  method Lskip(b: array<char>, s: nat) returns (p: nat)
    requires Terminated(b, s)
    ensures s <= p && Terminated(b, p)
    ensures TextAt(b, p) == SkipSpace(TextAt(b, s)) && p - s == |TextAt(b, s)| - |TextAt(b, p)|
  {
    p := s;
    while b[p] != '\0' && IsSpace(b[p])
      invariant s <= p && Terminated(b, p)
      invariant SkipSpace(TextAt(b, p)) == SkipSpace(TextAt(b, s)) && p - s == |TextAt(b, s)| - |TextAt(b, p)|
      decreases b.Length - p
    {
      CharAt(b, p, 0);
      TextFrom(b, p, 1);
      p := p + 1;
    }
    CharAt(b, p, 0);
  }

  method FindCharsOrComment(b: array<char>, s: nat, chars: string) returns (p: nat)
    requires Terminated(b, s)
    ensures p == s + FindStop(TextAt(b, s), chars, false)
    ensures p < b.Length
  {
    p := s;
    var wasSpace := false;
    while b[p] != '\0' && b[p] !in chars && !(wasSpace && b[p] == ';')
      invariant s <= p && Terminated(b, p)
      invariant s + FindStop(TextAt(b, s), chars, false) == p + FindStop(TextAt(b, p), chars, wasSpace)
      decreases b.Length - p
    {
      CharAt(b, p, 0);
      TextFrom(b, p, 1);
      wasSpace := IsSpace(b[p]);
      p := p + 1;
    }
    CharAt(b, p, 0);
  }

  /** `strncpy0`: the copy is cut to the size of its buffer. */
  method Strncpy0(dest: array<char>, src: array<char>, p: nat)
    requires dest != src && dest.Length > 0 && Terminated(src, p)
    modifies dest
    ensures Terminated(dest, 0) && TextAt(dest, 0) == Take(TextAt(src, p), dest.Length - 1)
  {
    var size := dest.Length;
    ghost var t := TextAt(src, p);
    var i := 0;
    CharAt(src, p, 0);
    while i < size && src[p + i] != '\0'
      invariant 0 <= i <= size && i <= |t| && TextAt(src, p) == t
      invariant dest[..i] == t[..i]
      invariant src[p + i] == if i < |t| then t[i] else '\0'
    {
      ghost var before := dest[..i];
      dest[i] := src[p + i];
      assert dest[..i + 1] == before + [t[i]] == t[..i + 1];
      i := i + 1;
      CharAt(src, p, i);
    }
    ghost var n := i;
    while i < size
      invariant n <= i <= size && dest[..n] == t[..n]
      invariant forall k :: n <= k < i ==> dest[k] == '\0'
    {
      dest[i] := '\0';
      i := i + 1;
    }
    dest[size - 1] := '\0';
    ghost var kept := Take(t, size - 1);
    assert dest[0..][..|kept|] == kept;
    CStrIs(dest[0..], kept);
  }

  /** `std::string` of a C string. */
  method ToStdString(b: array<char>, s: nat) returns (r: string)
    requires Terminated(b, s)
    ensures r == TextAt(b, s)
  {
    r := "";
    var p := s;
    assert "" + TextAt(b, s) == TextAt(b, s);
    while b[p] != '\0'
      invariant s <= p && Terminated(b, p)
      invariant r + TextAt(b, p) == TextAt(b, s)
      decreases b.Length - p
    {
      CharAt(b, p, 0);
      TextFrom(b, p, 1);
      assert TextAt(b, p) == [b[p]] + TextAt(b, p + 1);
      r := r + [b[p]];
      p := p + 1;
    }
    CharAt(b, p, 0);
  }

  // ----- files -----

  class File {
    var rest: string

    constructor (content: string)
      ensures rest == content
    {
      rest := content;
    }

    /** `fgets` into a whole buffer. */
    method Fgets(line: array<char>) returns (ok: bool)
      requires line.Length > 1
      modifies this, line
      ensures ok <==> old(rest) != ""
      ensures ok ==>
                var k := ChunkLength(old(rest), line.Length - 1);
                rest == old(rest)[k..] && Terminated(line, 0) && TextAt(line, 0) == CStr(old(rest)[..k])
      ensures !ok ==> rest == ""
    {
      if rest == "" {
        return false;
      }
      var k := ChunkLength(rest, line.Length - 1);
      ghost var chunk := rest[..k];
      for i := 0 to k
        invariant line[..i] == chunk[..i]
        invariant rest == old(rest)
      {
        line[i] := rest[i];
      }
      line[k] := '\0';
      ghost var t := CStr(chunk);
      assert line[0..][..k] == chunk;
      assert line[0..][..|t|] == chunk[..|t|] == t;
      assert line[0..][|t|] == '\0';
      CStrIs(line[0..], t);
      rest := rest[k..];
      return true;
    }
  }

  // ----- the reader -----

  class INIReader {
    var error: nat
    var values: map<string, string>
    var sections: set<string>
    /** Everything reported so far. */
    ghost var reports: seq<Report>

    /** What is stored is what the reports amount to. */
    ghost predicate Valid()
      reads this
    {
      values == Values(reports) && sections == SectionsOf(reports)
    }

    constructor (content: string)
      ensures Valid()
      ensures reports == ParseFile(content).reports && error == ParseFile(content).error
    {
      values, sections, reports, error := map[], {}, [], 0;
      new;
      var file := new File(content);
      var e := ParseStream(file);
      error := e;
    }

    function Get(section: string, name: string, default: string): string
      reads this
    {
      var key := MakeKey(section, name);
      if key in values then values[key] else default
    }

    /** `GetInteger`. */
    function GetInteger(section: string, name: string, default: int): int
      reads this
    {
      match Strtol(CStr(Get(section, name, "")))
      case None => default
      case Some(n) => n
    }

    method ValueHandler(section: string, name: string, value: string) returns (r: int)
      requires Valid()
      modifies this`values, this`sections, this`reports
      ensures Valid() && reports == old(reports) + [Report(section, name, value)]
      ensures r == 1
    {
      var key := MakeKey(section, name);
      var v := if key in values then values[key] else "";
      if |v| > 0 {
        v := v + "\n";
      }
      v := v + value;
      values := values[key := v];
      sections := sections + {section};
      ghost var report := Report(section, name, value);
      assert (reports + [report])[..|reports + [report]| - 1] == reports;
      SectionsGrow(reports, report);
      reports := reports + [report];
      return 1;
    }

    /** Where the parser stands, as a value. */
    ghost function Parser(section: array<char>, prevName: array<char>, lineno: nat, err: nat): Parser
      reads this, section, prevName
    {
      Ini.Parser(TextAt(section, 0), TextAt(prevName, 0), lineno, err, reports)
    }

    ghost predicate Buffers(line: array<char>, section: array<char>, prevName: array<char>)
      reads line, section, prevName
    {
      && line.Length == MAX_LINE && section.Length == MAX_SECTION && prevName.Length == MAX_NAME
      && line != section && line != prevName && section != prevName
      && Terminated(section, 0) && Terminated(prevName, 0)
    }

    method ParseStream(file: File) returns (err: nat)
      requires Valid() && reports == []
      modifies this`values, this`sections, this`reports, file
      ensures Valid()
      ensures reports == ParseFile(old(file.rest)).reports && err == ParseFile(old(file.rest)).error
    {
      var line := new char[MAX_LINE](_ => '\0');
      var section := new char[MAX_SECTION](_ => '\0');
      var prevName := new char[MAX_NAME](_ => '\0');
      var lineno := 0;
      err := 0;
      CStrIs(section[0..], "");
      CStrIs(prevName[0..], "");
      ghost var all := ParseFile(file.rest);
      hide Step, CStr, ParseLines, Lines, Terminated, Values, SectionsOf;
      while true
        invariant Valid() && Buffers(line, section, prevName)
        invariant fresh(line) && fresh(section) && fresh(prevName)
        invariant ParseLines(Parser(section, prevName, lineno, err), Lines(file.rest)) == all
        decreases |file.rest|
      {
        ParseNext(Parser(section, prevName, lineno, err), file.rest);
        var ok := file.Fgets(line);
        if !ok {
          break;
        }
        lineno := lineno + 1;
        err := ParseLine(line, section, prevName, lineno, err);
      }
    }

    /** The body of the loop over lines. */
    method ParseLine(line: array<char>, section: array<char>, prevName: array<char>, lineno: nat, err: nat)
      returns (after: nat)
      requires Valid() && Buffers(line, section, prevName) && Terminated(line, 0) && lineno > 0
      modifies this`values, this`sections, this`reports, line, section, prevName
      ensures Valid() && Buffers(line, section, prevName)
      ensures Parser(section, prevName, lineno, after)
           == Step(old(Parser(section, prevName, lineno - 1, err)), old(TextAt(line, 0)))
    {
      hide CStr, RStrip, Body, Indented, ClassifyPair, ClassifyHeader, Cut, Take, Values, SectionsOf, Terminated;
      ghost var raw := TextAt(line, 0);
      var start := StripLine(line, lineno == 1);
      FirstChar(line, start);
      FirstChar(prevName, 0);
      after := err;
      ghost var kind := LineOf(old(Parser(section, prevName, lineno - 1, err)), raw);
      if line[start] == ';' || line[start] == '#' {
      } else if prevName[0] != '\0' && line[start] != '\0' && start > 0 {
        assert kind == Continuation(RStrip(Cut(TextAt(line, start))));
        ContinueValue(line, section, prevName, start);
      } else if line[start] == '[' {
        assert kind == ClassifyHeader(TextAt(line, start));
        var ok := StartSection(line, section, prevName, start);
        if !ok && err == 0 {
          after := lineno;
        }
      } else if line[start] != '\0' {
        assert kind == ClassifyPair(TextAt(line, start));
        var ok := StorePair(line, section, prevName, start);
        if !ok && err == 0 {
          after := lineno;
        }
      }
    }

    /** Strips a line in place and finds its body. */
    method StripLine(line: array<char>, first: bool) returns (start: nat)
      requires line.Length >= 3 && Terminated(line, 0)
      modifies line
      ensures Terminated(line, start)
      ensures TextAt(line, start) == Body(old(TextAt(line, 0)), first)
      ensures start > 0 <==> Indented(old(TextAt(line, 0)), first)
    {
      hide CStr, RStrip, SkipSpace;
      start := 0;
      BomAt(line);
      if first && line[0] == '\U{EF}' && line[1] == '\U{BB}' && line[2] == '\U{BF}' {
        start := start + 3;
        TextFrom(line, 0, 3);
      }
      Rstrip(line, start);
      start := Lskip(line, start);
    }

    /** A continuation line: the text without its comment goes to the value being continued. */
    method ContinueValue(line: array<char>, section: array<char>, prevName: array<char>, start: nat)
      requires Valid() && Buffers(line, section, prevName) && Terminated(line, start)
      modifies this`values, this`sections, this`reports, line
      ensures Valid()
      ensures reports == old(reports)
          + [Report(TextAt(section, 0), TextAt(prevName, 0), RStrip(Cut(old(TextAt(line, start)))))]
    {
      hide CStr, RStrip, Values, SectionsOf;
      CutComment(line, start);
      Rstrip(line, start);
      var s := ToStdString(section, 0);
      var n := ToStdString(prevName, 0);
      var v := ToStdString(line, start);
      var _ := ValueHandler(s, n, v);
    }

    /** A section line; `false` without its closing bracket. */
    method StartSection(line: array<char>, section: array<char>, prevName: array<char>, start: nat) returns (ok: bool)
      requires Buffers(line, section, prevName) && Terminated(line, start) && TextAt(line, start) != ""
      modifies line, section, prevName
      ensures Buffers(line, section, prevName)
      ensures var l := ClassifyHeader(old(TextAt(line, start)));
              && ok == l.Header?
              && TextAt(section, 0) == (if ok then Take(l.title, MAX_SECTION - 1) else old(TextAt(section, 0)))
              && TextAt(prevName, 0) == (if ok then "" else old(TextAt(prevName, 0)))
    {
      hide CStr, FindStop;
      TextFrom(line, start, 1);
      ghost var u := TextAt(line, start);
      var end := FindCharsOrComment(line, start + 1, "]");
      CharAt(line, start + 1, end - start - 1);
      if line[end] == ']' {
        CutAt(line, end, start + 1);
        Strncpy0(section, line, start + 1);
        FirstChar(prevName, 0);
        CutAt(prevName, 0, 0);
        return true;
      }
      return false;
    }

    /** A name and its value; `false` without a separator. */
    method StorePair(line: array<char>, section: array<char>, prevName: array<char>, start: nat) returns (ok: bool)
      requires Valid() && Buffers(line, section, prevName) && Terminated(line, start)
      modifies this`values, this`sections, this`reports, line, prevName
      ensures Valid() && Buffers(line, section, prevName)
      ensures var l := ClassifyPair(old(TextAt(line, start)));
              && ok == l.Pair?
              && reports == old(reports) + (if ok then [Report(TextAt(section, 0), l.name, l.value)] else [])
              && TextAt(prevName, 0) == (if ok then Take(l.name, MAX_NAME - 1) else old(TextAt(prevName, 0)))
    {
      hide CStr, FindStop, RStrip, SkipSpace, Take, Values, SectionsOf, Cut;
      var end := FindCharsOrComment(line, start, "=:");
      CharAt(line, start, end - start);
      if !(line[end] == '=' || line[end] == ':') {
        return false;
      }
      var value := SplitPair(line, start, end);
      Strncpy0(prevName, line, start);
      var s := ToStdString(section, 0);
      var n := ToStdString(line, start);
      var v := ToStdString(line, value);
      var _ := ValueHandler(s, n, v);
      return true;
    }
  }

  /** Makes two C strings of a line with a separator at `end`: the name before it and the value
      behind it. */
  method SplitPair(line: array<char>, start: nat, end: nat) returns (value: nat)
    requires Terminated(line, start) && start <= end < start + |TextAt(line, start)|
    modifies line
    ensures Terminated(line, start) && TextAt(line, start) == RStrip(old(TextAt(line, start))[..end - start])
    ensures Terminated(line, value)
    ensures TextAt(line, value) == RStrip(Cut(SkipSpace(old(TextAt(line, start))[end - start + 1..])))
  {
    hide CStr, RStrip, SkipSpace, Cut;
    IsolateName(line, start, end);
    value := Lskip(line, end + 1);
    ghost var before := line[..];
    CutComment(line, value);
    Rstrip(line, value);
    SameText(line, before, start);
  }

  method IsolateName(line: array<char>, start: nat, end: nat)
    requires Terminated(line, start) && start <= end < start + |TextAt(line, start)|
    modifies line
    ensures Terminated(line, start) && TextAt(line, start) == RStrip(old(TextAt(line, start))[..end - start])
    ensures Terminated(line, end + 1) && TextAt(line, end + 1) == old(TextAt(line, start))[end - start + 1..]
    ensures start + |TextAt(line, start)| <= end
  {
    hide CStr, RStrip;
    TextFrom(line, start, end - start + 1);
    ghost var before := line[..];
    CutAt(line, end, start);
    Rstrip(line, start);
    SameText(line, before, end + 1);
  }

  /** Cutting the inline comment off the C string at `p`. */
  method CutComment(b: array<char>, p: nat)
    requires Terminated(b, p)
    modifies b
    ensures Terminated(b, p) && TextAt(b, p) == Cut(old(TextAt(b, p)))
    ensures forall i :: 0 <= i < p ==> b[i] == old(b[i])
  {
    hide CStr, FindStop;
    var end := FindCharsOrComment(b, p, "");
    CharAt(b, p, end - p);
    if b[end] != '\0' {
      CutAt(b, end, p);
    }
  }

  lemma FirstChar(b: array<char>, p: nat)
    requires Terminated(b, p)
    ensures p < b.Length
    ensures b[p] == '\0' <==> TextAt(b, p) == ""
    ensures TextAt(b, p) != "" ==> b[p] == TextAt(b, p)[0]
  {
    CharAt(b, p, 0);
  }

  lemma BomAt(line: array<char>)
    requires line.Length >= 3 && Terminated(line, 0)
    ensures HasBom(TextAt(line, 0)) <==> line[0] == '\U{EF}' && line[1] == '\U{BB}' && line[2] == '\U{BF}'
  {
    hide CStr;
    var raw := TextAt(line, 0);
    CharAt(line, 0, 0);
    if |raw| > 0 {
      CharAt(line, 0, 1);
    }
    if |raw| > 1 {
      CharAt(line, 0, 2);
    }
  }

  lemma ParseNext(p: Parser, content: string)
    ensures ParseLines(p, Lines(content))
         == if content == "" then p
            else
              var k := ChunkLength(content, MAX_LINE - 1);
              ParseLines(Step(p, CStr(content[..k])), Lines(content[k..]))
  {
    hide Step, CStr;
  }

  lemma SectionsGrow(reports: seq<Report>, r: Report)
    ensures SectionsOf(reports + [r]) == SectionsOf(reports) + {r.section}
  {
    assert forall x :: x in reports + [r] <==> x in reports || x == r;
  }
}
