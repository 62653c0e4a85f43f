/** Files printed in the documented form read back as what was printed (daemon/INIReader.h,
    doc/NyanSD_daemon.md). */
module IniRoundTrip {
  import opened Text
  import opened Ini

  // ----- text conditions -----

  predicate Trimmed(s: string) {
    s == "" || (!IsSpace(s[0]) && !IsSpace(s[|s| - 1]))
  }

  predicate SpaceBefore(s: string, i: nat, wasSpace: bool)
    requires i <= |s|
  {
    if i == 0 then wasSpace else IsSpace(s[i - 1])
  }

  /** Nothing in the text starts an inline comment. */
  predicate NoComment(s: string) {
    forall i :: 0 < i < |s| && s[i] == ';' ==> !IsSpace(s[i - 1])
  }

  /** Where `find_chars_or_comment` stops, exactly. */
  lemma {:induction false} FindStopIs(s: string, chars: string, wasSpace: bool)
    ensures var r := FindStop(s, chars, wasSpace);
            && (forall i :: 0 <= i < r ==> s[i] !in chars && !(SpaceBefore(s, i, wasSpace) && s[i] == ';'))
            && (r < |s| ==> s[r] in chars || (SpaceBefore(s, r, wasSpace) && s[r] == ';'))
  {
    hide IsSpace;
    if s != [] && s[0] !in chars && !(wasSpace && s[0] == ';') {
      FindStopIs(s[1..], chars, IsSpace(s[0]));
      var r := FindStop(s[1..], chars, IsSpace(s[0]));
      forall i | 0 <= i < r + 1
        ensures s[i] !in chars && !(SpaceBefore(s, i, wasSpace) && s[i] == ';')
      {
        if i > 0 {
          assert s[i] == s[1..][i - 1];
          assert SpaceBefore(s, i, wasSpace) == SpaceBefore(s[1..], i - 1, IsSpace(s[0]));
        }
      }
    }
  }

  /** The whole text is passed over, up to a stop character behind it, exactly when it holds no stop
      character and no comment. */
  lemma StopsRightBehind(s: string, chars: string, rest: string)
    requires rest == "" || rest[0] in chars
    ensures FindStop(s + rest, chars, false) == |s| <==> (forall i :: 0 <= i < |s| ==> s[i] !in chars) && NoComment(s)
    ensures rest != "" ==> FindStop(s + rest, chars, false) <= |s|
  {
    hide FindStop;
    var t := s + rest;
    FindStopIs(t, chars, false);
    var r := FindStop(t, chars, false);
    assert forall i :: 0 <= i < |s| ==> t[i] == s[i];
    if rest != "" {
      assert t[|s|] in chars;
    }
    if r == |s| {
      forall i | 0 < i < |s| && s[i] == ';'
        ensures !IsSpace(s[i - 1])
      {
        assert t[i] == s[i] && t[i - 1] == s[i - 1];
      }
    }
  }

  lemma {:induction false} RStripBehind(a: string, s: string)
    ensures RStrip(s) != "" || (a != "" && !IsSpace(a[|a| - 1])) ==> RStrip(a + s) == a + RStrip(s)
    ensures RStrip(s) == "" ==> RStrip(a + s) == RStrip(a)
  {
    if s == "" {
      assert a + s == a;
    } else if IsSpace(s[|s| - 1]) {
      assert (a + s)[..|a + s| - 1] == a + s[..|s| - 1];
      RStripBehind(a, s[..|s| - 1]);
    }
  }

  lemma {:induction false} SkipSpaceInFront(s: string, rest: string)
    requires rest != "" && !IsSpace(rest[0])
    ensures SkipSpace(s + rest) == SkipSpace(s) + rest
  {
    if s == "" {
      assert s + rest == rest;
    } else if IsSpace(s[0]) {
      assert (s + rest)[1..] == s[1..] + rest;
      SkipSpaceInFront(s[1..], rest);
    }
  }

  lemma {:induction false} SkipSpaceIs(s: string)
    ensures |SkipSpace(s)| <= |s| && (|SkipSpace(s)| == |s| ==> SkipSpace(s) == s)
    ensures SkipSpace(s) == s <==> s == "" || !IsSpace(s[0])
    ensures SkipSpace(s) != "" ==> !IsSpace(SkipSpace(s)[0])
  {
    if s != "" && IsSpace(s[0]) {
      SkipSpaceIs(s[1..]);
    }
  }

  /** Stripping both ends and cutting a comment keeps a text exactly when there is none of it. */
  lemma KeptWhole(v: string)
    ensures var w := RStrip(Cut(SkipSpace(RStrip(v))));
            && |w| <= |v|
            && (w == v <==> Trimmed(v) && NoComment(v))
  {
    hide FindStop;
    var a := RStrip(v);
    var b := SkipSpace(a);
    SkipSpaceIs(a);
    assert b + "" == b;
    StopsRightBehind(b, "", "");
    var w := RStrip(Cut(b));
    if w == v {
      assert |w| <= |Cut(b)| <= |b| <= |a| <= |v|;
      assert a == v && b == v;
    }
  }

  // ----- the three line forms -----

  predicate GoodTitle(t: string) {
    Lacks(t, ']') && NoComment(t)
  }

  predicate GoodName(n: string) {
    && Trimmed(n) && Lacks(n, '=') && Lacks(n, ':') && NoComment(n)
    && (n == "" || (n[0] != ';' && n[0] != '#' && n[0] != '['))
  }

  predicate GoodValue(v: string) {
    Trimmed(v) && NoComment(v)
  }

  predicate GoodContinuation(l: string) {
    l != "" && Trimmed(l) && NoComment(l) && l[0] != ';' && l[0] != '#'
  }

  function HeaderLine(t: string): string {
    "[" + t + "]" + "\n"
  }

  function PairLine(n: string, v: string): string {
    n + "=" + (v + "\n")
  }

  function ContinuationLine(l: string): string {
    " " + (l + "\n")
  }

  /** A section line names its section exactly when the title holds no bracket and no comment; white
      space and everything else in it is kept. */
  lemma HeaderForm(t: string, first: bool, prevName: string)
    ensures Classify(HeaderLine(t), first, prevName) == Header(t) <==> GoodTitle(t)
  {
    hide FindStop, RStrip, SkipSpace;
    var raw, u := HeaderLine(t), "[" + t + "]";
    assert raw[0] == '[';
    assert WithoutBom(raw, first) == raw;
    assert RStrip(raw) == u by {
      RStripBehind(u, "\n");
      NewlineStripped();
      assert u + "" == u;
    }
    SkipSpaceIs(u);
    var rest := u[1..];
    assert rest == t + "]";
    StopsRightBehind(t, "]", "]");
    assert rest[..|t|] == t;
    assert (forall i :: 0 <= i < |t| ==> t[i] !in "]") <==> Lacks(t, ']');
  }

  lemma NewlineStripped()
    ensures RStrip("\n") == "" && RStrip("") == ""
  {
    assert "\n"[..0] == "";
  }

  lemma PairBody(n: string, v: string, first: bool)
    requires !(first && HasBom(n))
    ensures WithoutBom(PairLine(n, v), first) == PairLine(n, v)
    ensures Body(PairLine(n, v), first) == SkipSpace(n) + "=" + RStrip(v)
  {
    hide RStrip, SkipSpace, PairLine, HasBom;
    NoBom(n, v);
    PairStripped(n, v);
    SkipSpaceInFront(n, "=" + RStrip(v));
    assert SkipSpace(n) + ("=" + RStrip(v)) == SkipSpace(n) + "=" + RStrip(v);
  }

  lemma PairStripped(n: string, v: string)
    ensures RStrip(PairLine(n, v)) == n + ("=" + RStrip(v))
  {
    hide RStrip;
    var a := n + "=";
    RStripBehind(a, v + "\n");
    RStripBehind(v, "\n");
    NewlineStripped();
    assert PairLine(n, v) == a + (v + "\n");
    assert a + RStrip(v) == n + ("=" + RStrip(v));
  }

  lemma NoBom(n: string, v: string)
    ensures HasBom(PairLine(n, v)) <==> HasBom(n)
  {
    var raw := PairLine(n, v);
    assert raw[|n|] == '=';
    assert forall i :: 0 <= i < |n| ==> raw[i] == n[i];
  }

  lemma PairSplit(m: string, w: string)
    ensures var l := ClassifyPair(m + "=" + w);
            l.Pair? ==> |l.name| <= |m| && (l.name == m ==> l.value == RStrip(Cut(SkipSpace(w))))
    ensures GoodName(m) ==> ClassifyPair(m + "=" + w) == Pair(m, RStrip(Cut(SkipSpace(w))))
    ensures var l := ClassifyPair(m + "=" + w);
            l.Pair? && l.name == m ==> Lacks(m, '=') && Lacks(m, ':') && NoComment(m) && RStrip(m) == m
  {
    hide FindStop, SkipSpace, Cut;
    var u := m + "=" + w;
    assert u == m + ("=" + w);
    StopsRightBehind(m, "=:", "=" + w);
    var e := FindStop(u, "=:", false);
    assert u[..|m|] == m && u[|m| + 1..] == w;
    assert (forall i :: 0 <= i < |m| ==> m[i] !in "=:") <==> Lacks(m, '=') && Lacks(m, ':');
  }

  /** A colon separates a name from its value just as well. */
  lemma ColonSplit(m: string, w: string)
    requires GoodName(m)
    ensures ClassifyPair(m + ":" + w) == ClassifyPair(m + "=" + w) == Pair(m, RStrip(Cut(SkipSpace(w))))
  {
    hide FindStop, SkipSpace, Cut;
    var u := m + ":" + w;
    assert u == m + (":" + w);
    StopsRightBehind(m, "=:", ":" + w);
    assert u[..|m|] == m && u[|m| + 1..] == w;
    PairSplit(m, w);
  }

  lemma {:induction false} SpacesInFront(a: string, s: string)
    requires forall i :: 0 <= i < |a| ==> IsSpace(a[i])
    ensures SkipSpace(a + s) == SkipSpace(s)
  {
    if a == "" {
      assert a + s == s;
    } else {
      assert (a + s)[1..] == a[1..] + s;
      SpacesInFront(a[1..], s);
    }
  }

  lemma {:induction false} SpacesOnly(a: string)
    requires forall i :: 0 <= i < |a| ==> IsSpace(a[i])
    ensures RStrip(a) == ""
  {
    if a == "" {
    } else {
      SpacesOnly(a[..|a| - 1]);
    }
  }

  /** While no value is being continued white space in front of a line does not matter. */
  lemma IndentIgnored(a: string, raw: string)
    requires forall i :: 0 <= i < |a| ==> IsSpace(a[i])
    ensures Classify(a + raw, false, "") == Classify(raw, false, "")
  {
    hide IsSpace, RStrip, SkipSpace, ClassifyPair, ClassifyHeader, Cut;
    RStripBehind(a, raw);
    if RStrip(raw) == "" {
      SpacesOnly(a);
    } else {
      SpacesInFront(a, RStrip(raw));
    }
  }

  /** A line of name and value reports exactly that pair, whatever was being continued, exactly when
      neither has white space around it or a comment in it, and the name holds no separator and does
      not look like a comment or a section line; the name of a pair on the first line of a file must not
      look like a byte order mark either. */
  lemma PairForm(n: string, v: string, first: bool, prevName: string)
    ensures Classify(PairLine(n, v), first, prevName) == Pair(n, v)
       <==> GoodName(n) && GoodValue(v) && !(first && HasBom(n))
  {
    hide FindStop, RStrip, SkipSpace, Cut, ClassifyPair, ClassifyHeader, HasBom;
    if first && HasBom(n) {
      BomTakesName(n, v, prevName);
    } else {
      var raw := PairLine(n, v);
      PairBody(n, v, first);
      var m, w := SkipSpace(n), RStrip(v);
      var u := m + "=" + w;
      SkipSpaceIs(n);
      PairSplit(m, w);
      KeptWhole(v);
      assert Body(raw, first) == u && u != "";
      if GoodName(n) && GoodValue(v) {
        assert m == n;
        PairNotIndented(n, v, first);
      } else if Classify(raw, first, prevName) == Pair(n, v) {
        assert ClassifyPair(u) == Pair(n, v);
        assert m == n;
        StrippedEnds(n);
      }
    }
  }

  /** A byte order mark is taken off the name. */
  lemma BomTakesName(n: string, v: string, prevName: string)
    requires HasBom(n)
    ensures Classify(PairLine(n, v), true, prevName) != Pair(n, v)
  {
    hide FindStop, RStrip, SkipSpace, Cut, ClassifyPair, ClassifyHeader;
    NoBom(n, v);
    var rest := n[3..];
    assert WithoutBom(PairLine(n, v), true) == PairLine(rest, v);
    PairBody(rest, v, false);
    SkipSpaceIs(rest);
    PairSplit(SkipSpace(rest), RStrip(v));
  }

  lemma StrippedEnds(s: string)
    requires RStrip(s) == s
    ensures s == "" || !IsSpace(s[|s| - 1])
  {
  }

  lemma PairNotIndented(n: string, v: string, first: bool)
    requires Trimmed(n) && Trimmed(v) && !(first && HasBom(n))
    ensures !Indented(PairLine(n, v), first)
  {
    hide RStrip, SkipSpace, HasBom;
    var raw := PairLine(n, v);
    PairBody(n, v, first);
    SkipSpaceIs(n);
    RStripBehind(n + "=", v + "\n");
    RStripBehind(v, "\n");
    NewlineStripped();
    assert RStrip(raw) == n + "=" + RStrip(v);
  }

  /** An indented line goes to the value being continued, as it is, exactly when it is not empty, has
      no white space around it, no comment in it and does not look like a comment. */
  lemma ContinuationForm(l: string, prevName: string)
    requires prevName != ""
    ensures Classify(ContinuationLine(l), false, prevName) == Continuation(l) <==> GoodContinuation(l)
  {
    hide FindStop, RStrip, SkipSpace, Cut, ClassifyPair, ClassifyHeader;
    var raw := ContinuationLine(l);
    ContinuationBody(l);
    var u := SkipSpace(RStrip(l));
    KeptWhole(l);
    SkipSpaceIs(RStrip(l));
    if u != "" && u[0] != ';' && u[0] != '#' {
      assert Classify(raw, false, prevName) == Continuation(RStrip(Cut(u)));
      if RStrip(Cut(u)) == l {
        CutKeepsFirst(u);
        WholeBody(l);
      }
    } else if GoodContinuation(l) {
      WholeBody(l);
    }
  }

  /** The search for a comment stops at the first one, behind a space. */
  lemma StopsAtComment(v: string, t: string)
    requires NoComment(v) && |t| > |v| + 1 && t[..|v|] == v && t[|v|] == ' ' && t[|v| + 1] == ';'
    ensures FindStop(t, "", false) == |v| + 1
  {
    hide FindStop;
    var n := |v|;
    FindStopIs(t, "", false);
    var r := FindStop(t, "", false);
    assert SpaceBefore(t, n + 1, false);
    forall i | 0 <= i < n + 1
      ensures !(SpaceBefore(t, i, false) && t[i] == ';')
    {
      if i < n {
        assert t[i] == v[i] && (i > 0 ==> t[i - 1] == v[i - 1]);
      }
    }
  }

  lemma SpaceTakenOff(v: string)
    requires v != "" && Trimmed(v)
    ensures RStrip(v + " ") == v
  {
    hide RStrip;
    RStripBehind(v, " ");
    SpacesOnly(" ");
    EndsKept(v);
  }

  /** Behind a value, a space and a semicolon start a comment: both are taken off, and the value stays. */
  lemma InlineComment(v: string, c: string)
    requires v != "" && GoodValue(v)
    ensures RStrip(Cut(v + (" ;" + c))) == v
  {
    hide FindStop, RStrip, NoComment, Trimmed;
    var t := v + (" ;" + c);
    StopsAtComment(v, t);
    assert t[..|v| + 1] == v + " ";
    SpaceTakenOff(v);
  }

  lemma EndsKept(v: string)
    requires v != "" && !IsSpace(v[|v| - 1])
    ensures RStrip(v) == v
  {
  }

  /** So a pair with a comment behind its value reports the value alone. */
  lemma CommentedPair(m: string, v: string, c: string)
    requires GoodName(m) && v != "" && GoodValue(v)
    ensures ClassifyPair(m + "=" + (v + (" ;" + c))) == Pair(m, v)
  {
    hide RStrip, Cut, SkipSpace, ClassifyPair;
    PairSplit(m, v + (" ;" + c));
    SkipSpaceIs(v + (" ;" + c));
    InlineComment(v, c);
  }

  lemma WholeBody(l: string)
    requires Trimmed(l)
    ensures SkipSpace(RStrip(l)) == l
  {
    SkipSpaceIs(l);
  }

  lemma CutKeepsFirst(u: string)
    requires u != "" && !IsSpace(u[0]) && u[0] != ';'
    ensures RStrip(Cut(u)) != ""
  {
    assert Cut(u) != "" && Cut(u)[0] == u[0];
  }

  lemma ContinuationBody(l: string)
    ensures Body(ContinuationLine(l), false) == SkipSpace(RStrip(l))
    ensures SkipSpace(RStrip(l)) != "" ==> Indented(ContinuationLine(l), false)
  {
    hide RStrip, SkipSpace;
    var raw := ContinuationLine(l);
    RStripBehind(" ", l + "\n");
    RStripBehind(l, "\n");
    NewlineStripped();
    SkipSpaceIs(RStrip(l));
    OneSpace(RStrip(l));
  }

  lemma OneSpace(s: string)
    ensures SkipSpace(" " + s) == SkipSpace(s) && RStrip(" ") == "" && SkipSpace("") == ""
  {
    assert (" " + s)[1..] == s;
    assert " "[..0] == "";
  }
}
