/** What single lines of an INI file do, by their characters: which are passed over, which are
    malformed, and how a file is cut into lines (daemon/INIReader.h). */
module IniLines {
  import opened Text
  import opened Ini
  import opened IniRoundTrip

  // ----- where a line begins -----

  predicate SpacesUpTo(s: string, k: nat)
    requires k <= |s|
  {
    forall i :: 0 <= i < k ==> IsSpace(s[i])
  }

  /** Nothing but white space, or a comment behind white space. */
  predicate Ignorable(s: string) {
    exists k :: 0 <= k <= |s| && SpacesUpTo(s, k) && (k == |s| || s[k] == ';' || s[k] == '#')
  }

  lemma {:induction false} SkippedSpaces(t: string)
    ensures |SkipSpace(t)| <= |t| && SkipSpace(t) == t[|t| - |SkipSpace(t)|..]
    ensures SpacesUpTo(t, |t| - |SkipSpace(t)|)
  {
    hide IsSpace;
    if t != "" && IsSpace(t[0]) {
      SkippedSpaces(t[1..]);
      var j := |t[1..]| - |SkipSpace(t[1..])|;
      assert t[1..][j..] == t[j + 1..];
      assert forall i :: 0 < i <= j ==> t[i] == t[1..][i - 1];
    } else {
      assert t[0..] == t;
    }
  }

  lemma {:induction false} SkippedWhole(t: string)
    requires t != "" && SkipSpace(t) == ""
    ensures IsSpace(t[|t| - 1])
  {
    if |t| > 1 {
      SkippedWhole(t[1..]);
    }
  }

  lemma AllSpaces(s: string)
    requires SkipSpace(RStrip(s)) == ""
    ensures SpacesUpTo(s, |s|)
  {
    hide IsSpace, RStrip, SkipSpace, SpacesUpTo;
    if RStrip(s) == "" {
      OnlySpaces(s);
    } else {
      SkippedWhole(RStrip(s));
    }
  }

  lemma {:induction false} OnlySpaces(s: string)
    requires RStrip(s) == ""
    ensures SpacesUpTo(s, |s|)
  {
    if s == "" {
    } else {
      OnlySpaces(s[..|s| - 1]);
    }
  }

  /** The body of a line: what lies between the white space at both ends. */
  lemma BodyLies(s: string) returns (k: nat)
    ensures k <= |s| && SpacesUpTo(s, k)
    ensures var u := SkipSpace(RStrip(s));
            && k + |u| <= |s| && u == s[k..k + |u|] && |u| <= |RStrip(s)|
            && (forall i :: k + |u| <= i < |s| ==> IsSpace(s[i]))
            && (u == "" ==> k == |s|)
            && (u != "" ==> !IsSpace(u[0]) && (k == 0 <==> |u| == |RStrip(s)|))
  {
    hide IsSpace, RStrip, SkipSpace;
    var r := RStrip(s);
    var u := SkipSpace(r);
    SkippedSpaces(r);
    SkipSpaceIs(r);
    if u == "" {
      k := |s|;
      AllSpaces(s);
    } else {
      k := |r| - |u|;
      assert forall i :: 0 <= i < |r| ==> r[i] == s[i];
      assert r[k..] == s[k..|r|];
    }
  }

  /** The body of a line is empty or a comment exactly when the line is one to pass over. */
  lemma BodyIgnorable(s: string)
    ensures var u := SkipSpace(RStrip(s)); u == "" || u[0] == ';' || u[0] == '#' <==> Ignorable(s)
  {
    hide IsSpace, RStrip, SkipSpace;
    var k := BodyLies(s);
    var u := SkipSpace(RStrip(s));
    MarksAreNoSpace();
    if Ignorable(s) {
      var h :| 0 <= h <= |s| && SpacesUpTo(s, h) && (h == |s| || s[h] == ';' || s[h] == '#');
      if u != "" {
        assert s[k] == u[0];
        assert h == k;
      }
    } else if u != "" {
      assert s[k] == u[0];
    }
  }

  lemma MarksAreNoSpace()
    ensures !IsSpace(';') && !IsSpace('#') && !IsSpace(']') && !IsSpace('=') && !IsSpace(':')
  {
  }

  /** A line says nothing exactly when it is blank or a comment, a byte order mark aside. */
  lemma NothingExactly(raw: string, first: bool, prevName: string)
    ensures Classify(raw, first, prevName) == Nothing <==> Ignorable(WithoutBom(raw, first))
  {
    hide RStrip, SkipSpace, ClassifyHeader, ClassifyPair, Ignorable;
    BodyIgnorable(WithoutBom(raw, first));
  }

  lemma IgnorableHasNoBom(s: string)
    requires Ignorable(s)
    ensures !HasBom(s)
  {
    var k :| 0 <= k <= |s| && SpacesUpTo(s, k) && (k == |s| || s[k] == ';' || s[k] == '#');
    assert |s| > 0 ==> IsSpace(s[0]) || s[0] == ';' || s[0] == '#';
  }

  /** A blank line or a comment line changes nothing but the number of lines read, whatever is being
      continued. */
  lemma LinePassedOver(p: Parser, raw: string)
    requires Ignorable(raw)
    ensures Step(p, raw) == p.(lineno := p.lineno + 1)
  {
    hide Classify, Ignorable;
    IgnorableHasNoBom(raw);
    NothingExactly(raw, p.lineno == 0, p.prevName);
  }

  // ----- malformed lines -----

  /** From `from` on a mark comes before any comment. */
  predicate ReachesMark(s: string, from: nat, marks: string) {
    exists e :: from <= e < |s| && s[e] in marks && forall i :: from < i < e && s[i] == ';' ==> !IsSpace(s[i - 1])
  }

  lemma StopReaches(t: string, marks: string)
    requires ';' !in marks
    ensures var r := FindStop(t, marks, false); r < |t| && t[r] in marks <==> ReachesMark(t, 0, marks)
  {
    hide IsSpace, FindStop;
    FindStopIs(t, marks, false);
    var r := FindStop(t, marks, false);
    if r < |t| && t[r] in marks {
      forall i | 0 < i < r && t[i] == ';'
        ensures !IsSpace(t[i - 1])
      {
        assert !SpaceBefore(t, i, false);
      }
    }
    if e :| 0 <= e < |t| && t[e] in marks && forall i :: 0 < i < e && t[i] == ';' ==> !IsSpace(t[i - 1]) {
      assert r <= e;
    }
  }

  /** White space behind a text is no mark, and places only shift. */
  lemma ReachShift(s: string, k: nat, u: string, marks: string)
    requires k + |u| <= |s| && u == s[k..k + |u|]
    requires forall i :: k + |u| <= i < |s| ==> s[i] !in marks
    ensures ReachesMark(u, 0, marks) <==> ReachesMark(s, k, marks)
  {
    hide IsSpace;
    assert forall i :: 0 <= i < |u| ==> u[i] == s[k + i];
    if e :| 0 <= e < |u| && u[e] in marks && forall i :: 0 < i < e && u[i] == ';' ==> !IsSpace(u[i - 1]) {
      forall i | k < i < k + e && s[i] == ';'
        ensures !IsSpace(s[i - 1])
      {
        assert u[i - k] == s[i] && u[i - k - 1] == s[i - 1];
      }
      assert s[k + e] in marks;
    }
    if e :| k <= e < |s| && s[e] in marks && forall i :: k < i < e && s[i] == ';' ==> !IsSpace(s[i - 1]) {
      forall i | 0 < i < e - k && u[i] == ';'
        ensures !IsSpace(u[i - 1])
      {
        assert s[k + i] == u[i] && s[k + i - 1] == u[i - 1];
      }
      assert u[e - k] in marks;
    }
  }

  /** The first character of a line that is no white space, if it is at `k`, makes it malformed: the
      line is no comment and no continuation, and a section line never reaches its bracket, any other
      line no separator, before a comment. */
  predicate MalformedFrom(raw: string, s: string, prevName: string, k: nat) {
    && k < |s| && SpacesUpTo(s, k) && !IsSpace(s[k]) && s[k] != ';' && s[k] != '#'
    && (prevName == "" || (k == 0 && |s| == |raw|))
    && if s[k] == '[' then !ReachesMark(s, k + 1, "]") else !ReachesMark(s, k, "=:")
  }

  ghost predicate MalformedLine(raw: string, first: bool, prevName: string) {
    exists k: nat :: MalformedFrom(raw, WithoutBom(raw, first), prevName, k)
  }

  lemma HeaderMalformed(u: string)
    requires u != ""
    ensures ClassifyHeader(u).Malformed? <==> !ReachesMark(u[1..], 0, "]")
  {
    hide FindStop;
    StopReaches(u[1..], "]");
  }

  lemma PairMalformed(u: string)
    ensures ClassifyPair(u).Malformed? <==> !ReachesMark(u, 0, "=:")
  {
    hide FindStop;
    StopReaches(u, "=:");
  }

  lemma BodyMalformed(s: string, k: nat, u: string)
    requires k + |u| <= |s| && u == s[k..k + |u|] && u != ""
    requires forall i :: k + |u| <= i < |s| ==> IsSpace(s[i])
    ensures u[0] == '[' ==> (ClassifyHeader(u).Malformed? <==> !ReachesMark(s, k + 1, "]"))
    ensures ClassifyPair(u).Malformed? <==> !ReachesMark(s, k, "=:")
  {
    hide IsSpace, ClassifyHeader, ClassifyPair, ReachesMark;
    MarksAreNoSpace();
    HeaderMalformed(u);
    PairMalformed(u);
    ReachShift(s, k, u, "=:");
    assert u[1..] == s[k + 1..k + 1 + |u[1..]|];
    ReachShift(s, k + 1, u[1..], "]");
  }

  /** A line is malformed exactly when its characters say so. */
  lemma MalformedExactly(raw: string, first: bool, prevName: string)
    ensures Classify(raw, first, prevName).Malformed? <==> MalformedLine(raw, first, prevName)
  {
    hide IsSpace, RStrip, SkipSpace, ClassifyHeader, ClassifyPair, ReachesMark, Cut;
    var s := WithoutBom(raw, first);
    var u := SkipSpace(RStrip(s));
    var k := BodyLies(s);
    if u == "" {
      assert forall h :: 0 <= h < |s| ==> IsSpace(s[h]);
    } else {
      assert s[k] == u[0];
      BodyMalformed(s, k, u);
      assert forall h :: 0 <= h < |s| && SpacesUpTo(s, h) && !IsSpace(s[h]) ==> h == k;
      assert MalformedLine(raw, first, prevName) <==> MalformedFrom(raw, s, prevName, k);
    }
  }

  /** Line `k` is malformed by its characters, in the file it stands in. */
  ghost predicate MalformedIn(lines: seq<string>, k: nat)
    requires k < |lines|
  {
    MalformedLine(lines[k], k == 0, ParseLines(START, lines[..k]).prevName)
  }

  /** Parsing goes on behind an error, and the result is the number of the first line whose characters
      make it malformed, or 0 when there is none. */
  lemma ErrorIsFirstMalformedLine(lines: seq<string>)
    ensures var e := ParseLines(START, lines).error;
            && e <= |lines|
            && (e == 0 <==> forall k :: 0 <= k < |lines| ==> !MalformedIn(lines, k))
            && (e > 0 ==> MalformedIn(lines, e - 1) && forall k :: 0 <= k < e - 1 ==> !MalformedIn(lines, k))
  {
    hide Classify, ParseLines, MalformedLine;
    ErrorIsFirstMalformed(lines);
    forall k | 0 <= k < |lines|
      ensures MalformedIn(lines, k) <==> MalformedAt(lines, k)
    {
      LinesCounted(lines[..k]);
      MalformedExactly(lines[k], k == 0, ParseLines(START, lines[..k]).prevName);
    }
  }

  // ----- blank and comment lines in a file -----

  /** The lines of a file that are not passed over. */
  function Kept(lines: seq<string>): seq<string> {
    if lines == [] then [] else (if Ignorable(lines[0]) then [] else [lines[0]]) + Kept(lines[1..])
  }

  /** The same but for the numbers of lines. */
  predicate Alike(p: Parser, q: Parser) {
    p.section == q.section && p.prevName == q.prevName && p.reports == q.reports && (p.error == 0 <==> q.error == 0)
  }

  lemma StepAlike(p: Parser, q: Parser, raw: string)
    requires Alike(p, q) && ((p.lineno > 0 && q.lineno > 0) || !HasBom(raw))
    ensures Alike(Step(p, raw), Step(q, raw))
  {
    hide HasBom, Classify;
    FirstOrNot(raw, p.lineno == 0, q.lineno == 0, p.prevName);
  }

  lemma FirstOrNot(raw: string, first: bool, second: bool, prevName: string)
    requires first == second || !HasBom(raw)
    ensures Classify(raw, first, prevName) == Classify(raw, second, prevName)
  {
    hide HasBom, ClassifyPair, ClassifyHeader, RStrip, SkipSpace, Cut;
  }

  lemma {:induction false} KeptParses(p: Parser, q: Parser, lines: seq<string>)
    requires Alike(p, q)
    requires (p.lineno > 0 && q.lineno > 0) || Kept(lines) == [] || !HasBom(Kept(lines)[0])
    ensures Alike(ParseLines(p, lines), ParseLines(q, Kept(lines)))
    decreases |lines|
  {
    hide Step, Ignorable, HasBom;
    if lines == [] {
    } else if Ignorable(lines[0]) {
      LinePassedOver(p, lines[0]);
      assert Kept(lines) == Kept(lines[1..]);
      KeptParses(Step(p, lines[0]), q, lines[1..]);
    } else {
      StepAlike(p, q, lines[0]);
      LineCounted(p, lines[0]);
      LineCounted(q, lines[0]);
      assert Kept(lines)[0] == lines[0] && Kept(lines)[1..] == Kept(lines[1..]);
      KeptParses(Step(p, lines[0]), Step(q, lines[0]), lines[1..]);
    }
  }

  lemma LineCounted(p: Parser, raw: string)
    ensures Step(p, raw).lineno == p.lineno + 1
  {
    hide Classify;
  }

  // ----- cutting a file into lines -----

  /** A piece `fgets` takes: it ends with its only line feed, or it fills the buffer, or it is the
      last. */
  predicate IsPiece(piece: string, last: bool) {
    && 0 < |piece| < MAX_LINE
    && (forall i :: 0 <= i < |piece| - 1 ==> piece[i] != '\n')
    && (piece[|piece| - 1] == '\n' || |piece| == MAX_LINE - 1 || last)
  }

  lemma {:induction false} ChunkIsPiece(content: string, limit: nat)
    requires content != "" && limit > 0
    ensures var k := ChunkLength(content, limit);
            && 0 < k <= |content| && k <= limit
            && (forall i :: 0 <= i < k - 1 ==> content[i] != '\n')
            && (content[k - 1] == '\n' || k == limit || k == |content|)
  {
    if content[0] == '\n' || |content| == 1 || limit == 1 {
      assert |content| == 1 ==> ChunkLength(content[1..], limit - 1) == 0;
      assert limit == 1 ==> ChunkLength(content[1..], 0) == 0;
    } else {
      ChunkIsPiece(content[1..], limit - 1);
    }
  }

  function Joined(pieces: seq<string>): string {
    if pieces == [] then "" else pieces[0] + Joined(pieces[1..])
  }

  /** A file without NUL is cut into pieces that put together are the file, whatever the lengths of its
      lines: a long line goes on as if it were the next one. */
  lemma {:induction false} LinesArePieces(content: string)
    requires Lacks(content, '\0')
    ensures var pieces := Lines(content);
            && Joined(pieces) == content
            && forall k :: 0 <= k < |pieces| ==> IsPiece(pieces[k], k == |pieces| - 1)
    decreases |content|
  {
    hide ChunkLength;
    if content == "" {
    } else {
      var k := ChunkLength(content, MAX_LINE - 1);
      ChunkIsPiece(content, MAX_LINE - 1);
      NoNul(content[..k]);
      LinesArePieces(content[k..]);
      var pieces := Lines(content);
      assert pieces[0] == content[..k] && pieces[1..] == Lines(content[k..]);
      assert content[..k] + content[k..] == content;
      forall j | 0 <= j < |pieces|
        ensures IsPiece(pieces[j], j == |pieces| - 1)
      {
        if j > 0 {
          assert pieces[j] == pieces[1..][j - 1];
        } else if k == |content| {
          assert content[k..] == "";
        }
      }
    }
  }

  lemma {:induction false} NoNul(s: string)
    requires Lacks(s, '\0')
    ensures CStr(s) == s
  {
    if s == "" {
    } else {
      NoNul(s[1..]);
    }
  }
}
