/** What the command line parser promises, as laws of its fold (browse/sarge.cpp). */
module SargeLaws {
  import opened Text
  import opened Sarge

  // ----- joined flags -----

  /** `-abc` as `-a`, `-b`, `-c`. */
  function Split(flags: string): seq<string> {
    if flags == "" then [] else ["-" + [flags[0]]] + Split(flags[1..])
  }

  /** Behind its first character a cluster says what its flags say one by one: up to the first unknown
      flag, where both stop, no flag is a registered dash and none but the last takes a value. */
  predicate Joinable(reg: Registry, flags: string)
    requires GoodRegistry(reg)
  {
    flags == "" || [flags[0]] !in reg.names
    || (flags[0] != '-' && if reg.hasValue[reg.names[[flags[0]]]] then |flags| == 1 else Joinable(reg, flags[1..]))
  }

  /** A cluster that starts with a dash is a long flag instead, and the split form an empty long flag. */
  predicate JoinsAlike(reg: Registry, flags: string)
    requires GoodRegistry(reg)
  {
    if flags != "" && flags[0] == '-' then flags[1..] !in reg.names else Joinable(reg, flags)
  }

  lemma OneFlag(reg: Registry, s: State, c: char)
    requires Fits(reg, s) && s.pending == None && c != '-'
    ensures Feed(reg, s, "-" + [c]) == FeedCluster(reg, s, [c])
  {
    hide FeedCluster;
    assert ("-" + [c])[1..] == [c];
    assert !("--" <= "-" + [c]) by {
      assert ("-" + [c])[1] == c;
    }
  }

  /** Split off, a dash is the long flag with the empty name. */
  lemma OneDash(reg: Registry, s: State)
    requires Fits(reg, s) && s.pending == None && "" !in reg.names
    ensures Feed(reg, s, "-" + ['-']) == Parsed(false, s)
  {
    var entry := "-" + ['-'];
    assert entry == "--" && entry[2..] == "";
  }

  lemma ClusterHead(reg: Registry, s: State, flags: string)
    requires Fits(reg, s) && flags != ""
    ensures var r := FeedCluster(reg, s, [flags[0]]);
            if [flags[0]] !in reg.names then r == Parsed(false, s) == FeedCluster(reg, s, flags)
            else
              var i := reg.names[[flags[0]]];
              && r == Parsed(true, if reg.hasValue[i] then Marked(s, i).(pending := Some(i)) else Marked(s, i))
              && (!reg.hasValue[i] ==> FeedCluster(reg, s, flags) == FeedCluster(reg, r.state, flags[1..]))
              && (reg.hasValue[i] ==>
                    FeedCluster(reg, s, flags) == if |flags| == 1 then r else Parsed(false, Marked(s, i)))
  {
    assert [flags[0]][1..] == "";
  }

  /** The split form goes on behind its first flag. */
  lemma SplitHead(reg: Registry, s: State, flags: string)
    requires Fits(reg, s) && s.pending == None && flags != "" && "" !in reg.names
    ensures var r := if flags[0] == '-' then Parsed(false, s) else FeedCluster(reg, s, [flags[0]]);
            && Fits(reg, r.state)
            && FeedAll(reg, s, Split(flags)) == if r.ok then FeedAll(reg, r.state, Split(flags[1..])) else r
  {
    hide FeedCluster, Feed;
    if flags[0] == '-' {
      OneDash(reg, s);
    } else {
      OneFlag(reg, s, flags[0]);
    }
    assert Split(flags)[1..] == Split(flags[1..]);
  }

  lemma {:induction false} SplitFeeds(reg: Registry, s: State, flags: string)
    requires Fits(reg, s) && s.pending == None && "" !in reg.names && Joinable(reg, flags)
    ensures FeedAll(reg, s, Split(flags)) == FeedCluster(reg, s, flags)
    decreases |flags|
  {
    hide Feed;
    if flags == "" {
    } else {
      ClusterHead(reg, s, flags);
      SplitHead(reg, s, flags);
      if [flags[0]] in reg.names {
        var i := reg.names[[flags[0]]];
        if reg.hasValue[i] {
          assert flags[1..] == "";
        } else {
          SplitFeeds(reg, Marked(s, i), flags[1..]);
        }
      }
    }
  }

  // ----- where they differ -----

  lemma {:induction false} ClusterCounts(reg: Registry, s: State, flags: string)
    requires Fits(reg, s)
    ensures FeedCluster(reg, s, flags).state.counter >= s.counter
    decreases |flags|
  {
    if flags == "" || [flags[0]] !in reg.names {
    } else if !reg.hasValue[reg.names[[flags[0]]]] {
      ClusterCounts(reg, Marked(s, reg.names[[flags[0]]]), flags[1..]);
    }
  }

  /** A value that starts with a dash is at most replaced by another one while split flags are fed. */
  lemma {:induction false} DashedStays(reg: Registry, s: State, flags: string, i: nat)
    requires Fits(reg, s) && "" !in reg.names && i < |s.values| && "-" <= s.values[i]
    ensures i < |FeedAll(reg, s, Split(flags)).state.values|
    ensures "-" <= FeedAll(reg, s, Split(flags)).state.values[i]
    decreases |flags|
  {
    hide FeedCluster;
    if flags == "" {
    } else {
      var entry := "-" + [flags[0]];
      var r := Feed(reg, s, entry);
      OneEntryKeeps(reg, s, flags[0], i);
      assert Split(flags)[0] == entry && Split(flags)[1..] == Split(flags[1..]);
      if r.ok {
        DashedStays(reg, r.state, flags[1..], i);
      }
    }
  }

  lemma OneEntryKeeps(reg: Registry, s: State, c: char, i: nat)
    requires Fits(reg, s) && "" !in reg.names && i < |s.values| && "-" <= s.values[i]
    ensures var t := Feed(reg, s, "-" + [c]).state; i < |t.values| && "-" <= t.values[i]
  {
    if s.pending == None {
      if c == '-' {
        OneDash(reg, s);
      } else {
        OneFlag(reg, s, c);
        ClusterHead(reg, s, [c]);
      }
    }
  }

  predicate NoValues(s: State) {
    forall i :: 0 <= i < |s.values| ==> s.values[i] == ""
  }

  /** Before any value is known, the two forms differ in the verdict, the flags counted or a value. */
  lemma {:induction false} SplitDiffers(reg: Registry, s: State, flags: string)
    requires Fits(reg, s) && s.pending == None && "" !in reg.names && NoValues(s) && !Joinable(reg, flags)
    ensures FeedAll(reg, s, Split(flags)) != FeedCluster(reg, s, flags)
    decreases |flags|
  {
    hide Feed;
    ClusterHead(reg, s, flags);
    SplitHead(reg, s, flags);
    var i := reg.names[[flags[0]]];
    if flags[0] == '-' {
      if !reg.hasValue[i] {
        ClusterCounts(reg, Marked(s, i), flags[1..]);
      }
    } else if !reg.hasValue[i] {
      SplitDiffers(reg, Marked(s, i), flags[1..]);
    } else {
      EarlyValueDiffers(reg, s, i, flags[1..]);
    }
  }

  /** A flag that takes a value takes the next split flag for it. */
  lemma EarlyValueDiffers(reg: Registry, s: State, i: nat, rest: string)
    requires Fits(reg, s) && s.pending == None && "" !in reg.names && NoValues(s) && i < |s.values| && rest != ""
    ensures FeedAll(reg, Marked(s, i).(pending := Some(i)), Split(rest)) != Parsed(false, Marked(s, i))
  {
    hide FeedCluster;
    var entry := "-" + [rest[0]];
    var t := Marked(s, i).(pending := Some(i));
    assert Split(rest)[0] == entry && Split(rest)[1..] == Split(rest[1..]);
    var u := t.(values := t.values[i := entry], pending := None);
    assert Feed(reg, t, entry) == Parsed(true, u);
    DashedStays(reg, u, rest[1..], i);
  }

  // ----- in any argument list -----

  lemma {:induction false} FeedAppend(reg: Registry, s: State, a: seq<string>, b: seq<string>)
    requires Fits(reg, s)
    ensures var r := FeedAll(reg, s, a);
            FeedAll(reg, s, a + b) == if r.ok then FeedAll(reg, r.state, b) else r
    decreases |a|
  {
    hide Feed;
    if a == [] {
      assert a + b == b;
    } else {
      assert (a + b)[1..] == a[1..] + b;
      var r := Feed(reg, s, a[0]);
      if r.ok {
        FeedAppend(reg, r.state, a[1..], b);
      }
    }
  }

  /** Joined short flags leave the same state and give the same verdict as the flags one by one, in
      any argument list in which no value is due where they stand. */
  lemma ClusterIsItsFlags(reg: Registry, s: State, before: seq<string>, flags: string, behind: seq<string>)
    requires Fits(reg, s) && "" !in reg.names && JoinsAlike(reg, flags)
    requires FeedAll(reg, s, before).ok ==> FeedAll(reg, s, before).state.pending == None
    ensures FeedAll(reg, s, before + ["-" + flags] + behind) == FeedAll(reg, s, before + Split(flags) + behind)
  {
    hide FeedAll, Feed, Split, FeedCluster, JoinsAlike;
    FeedAppend(reg, s, before + ["-" + flags], behind);
    FeedAppend(reg, s, before, ["-" + flags]);
    FeedAppend(reg, s, before + Split(flags), behind);
    FeedAppend(reg, s, before, Split(flags));
    var r := FeedAll(reg, s, before);
    if r.ok {
      JoinedIsSplit(reg, r.state, flags);
    }
  }

  /** The joined entry by itself. */
  lemma JoinedFeeds(reg: Registry, s: State, flags: string)
    requires Fits(reg, s) && s.pending == None
    ensures FeedAll(reg, s, ["-" + flags])
         == if flags != "" && flags[0] == '-' then FeedLong(reg, s, flags[1..]) else FeedCluster(reg, s, flags)
  {
    hide FeedCluster, FeedLong;
    var entry := "-" + flags;
    assert entry[1..] == flags && (flags != "" ==> entry[1] == flags[0]);
    assert flags != "" ==> entry[2..] == flags[1..];
    assert ["-" + flags][1..] == [];
  }

  lemma JoinedIsSplit(reg: Registry, s: State, flags: string)
    requires Fits(reg, s) && s.pending == None && "" !in reg.names && JoinsAlike(reg, flags)
    ensures FeedAll(reg, s, ["-" + flags]) == FeedAll(reg, s, Split(flags))
  {
    hide FeedAll, FeedCluster, Split;
    JoinedFeeds(reg, s, flags);
    if flags != "" && flags[0] == '-' {
      SplitHead(reg, s, flags);
    } else {
      SplitFeeds(reg, s, flags);
    }
  }

  /** And exactly then: when the condition fails the two forms already differ where nothing has been
      parsed before. */
  lemma JoinsAlikeExactly(reg: Registry, flags: string)
    requires GoodRegistry(reg) && "" !in reg.names
    ensures JoinsAlike(reg, flags)
       <==> forall s :: Fits(reg, s) && s.pending == None ==>
              FeedAll(reg, s, ["-" + flags]) == FeedAll(reg, s, Split(flags))
  {
    hide FeedAll, FeedCluster, Split;
    if JoinsAlike(reg, flags) {
      forall s | Fits(reg, s) && s.pending == None
        ensures FeedAll(reg, s, ["-" + flags]) == FeedAll(reg, s, Split(flags))
      {
        JoinedIsSplit(reg, s, flags);
      }
    } else {
      var n := |reg.hasValue|;
      var s := State(seq(n, _ => false), seq(n, _ => ""), 0, [], None);
      assert Fits(reg, s) && NoValues(s);
      JoinedFeeds(reg, s, flags);
      if flags[0] == '-' {
        SplitHead(reg, s, flags);
      } else {
        SplitDiffers(reg, s, flags);
      }
    }
  }

  /** No registry that registering builds has an empty name. */
  lemma NoEmptyName(specs: seq<Spec>)
    ensures "" !in RegisterAll(specs)
  {
    FirstRegistrationWins(specs, "");
  }

  /** How the two can differ: with a value taken before the end the joined form is refused and the
      split form is not; where a dash is registered as a name, the joined form finds it and the split
      form looks for an empty long name. */
  lemma ConditionsNeeded()
    ensures var reg := Registry(map["a" := 0, "b" := 1], [true, false]);
            var s := State([false, false], ["", ""], 0, [], None);
            !FeedAll(reg, s, ["-ab"]).ok && FeedAll(reg, s, Split("ab")).ok
    ensures var reg := Registry(map["a" := 0, "-" := 1], [false, false]);
            var s := State([false, false], ["", ""], 0, [], None);
            FeedAll(reg, s, ["-a-"]).ok && !FeedAll(reg, s, Split("a-")).ok
  {
    assert "ab"[1..] == "b" && "b"[1..] == "" && "a-"[1..] == "-" && "-"[1..] == "";
    assert "-" + ["ab"[0]] == "-a" && "-" + ["b"[0]] == "-b" && "-" + ["-"[0]] == "--";
    assert Split("") == [] && Split("b") == ["-b"] && Split("-") == ["--"];
    assert Split("ab") == ["-a", "-b"];
    assert Split("a-") == ["-a", "--"];
    assert "-ab"[1..] == "ab" && "-a"[1..] == "a" && "-a-"[1..] == "a-" && "--"[2..] == "";
    assert ["a"[0]] == "a" && ["ab"[0]] == "a" && ["a-"[0]] == "a" && ["-"[0]] == "-";
    assert ["-a", "-b"][1..] == ["-b"] && ["-a", "--"][1..] == ["--"] && ["-b"][1..] == [];
    var reg := Registry(map["a" := 0, "-" := 1], [false, false]);
    var s := State([false, false], ["", ""], 0, [], None);
    var t := Marked(s, 0);
    assert Feed(reg, s, "-a") == Parsed(true, t);
    assert !Feed(reg, t, "--").ok;
    assert ["-a-"][1..] == [] && ["-ab"][1..] == [];
  }

  // ----- what an argument list says -----

  /** One thing an argument list says. */
  datatype Event = Flag(index: nat) | ValueFor(index: nat, value: string) | TextArgument(text: string)

  datatype Said = Said(ok: bool, events: seq<Event>, pending: Option<nat>)

  function InFront(event: Event, rest: Said): Said {
    Said(rest.ok, [event] + rest.events, rest.pending)
  }

  function SaidByCluster(reg: Registry, flags: string): Said
    requires GoodRegistry(reg)
  {
    if flags == "" then Said(true, [], None)
    else if [flags[0]] !in reg.names then Said(false, [], None)
    else
      var i := reg.names[[flags[0]]];
      if !reg.hasValue[i] then InFront(Flag(i), SaidByCluster(reg, flags[1..]))
      else if |flags| == 1 then Said(true, [Flag(i)], Some(i))
      else Said(false, [Flag(i)], None)
  }

  function SaidByEntry(reg: Registry, pending: Option<nat>, entry: string): Said
    requires GoodRegistry(reg)
  {
    if pending.Some? then Said(true, [ValueFor(pending.value, entry)], None)
    else if "--" <= entry then
      var name := entry[2..];
      if name !in reg.names then Said(false, [], None)
      else Said(true, [Flag(reg.names[name])], if reg.hasValue[reg.names[name]] then Some(reg.names[name]) else None)
    else if "-" <= entry then SaidByCluster(reg, entry[1..])
    else Said(true, [TextArgument(entry)], None)
  }

  /** Everything said up to the first unknown or misplaced flag. Only which argument waits for its
      value is remembered from one entry to the next. */
  function SaidBy(reg: Registry, pending: Option<nat>, entries: seq<string>): Said
    requires GoodRegistry(reg)
    decreases |entries|
  {
    if entries == [] then Said(true, [], pending)
    else
      var first := SaidByEntry(reg, pending, entries[0]);
      if !first.ok then first
      else
        var rest := SaidBy(reg, first.pending, entries[1..]);
        Said(rest.ok, first.events + rest.events, rest.pending)
  }

  /** The last value said for an argument. */
  function LastValue(events: seq<Event>, i: nat, default: string): string {
    if events == [] then default
    else
      var last := events[|events| - 1];
      if last.ValueFor? && last.index == i then last.value else LastValue(events[..|events| - 1], i, default)
  }

  function FlagCount(events: seq<Event>): nat {
    if events == [] then 0 else FlagCount(events[..|events| - 1]) + if events[|events| - 1].Flag? then 1 else 0
  }

  function Texts(events: seq<Event>): seq<string> {
    if events == [] then []
    else Texts(events[..|events| - 1]) + if events[|events| - 1].TextArgument? then [events[|events| - 1].text] else []
  }

  /** `t` is `s` behind the events: an argument is found when it was or was said, its value is the
      last one said, every flag said is counted, and the text arguments said are added in order. */
  ghost predicate Tells(s: State, events: seq<Event>, t: State) {
    && |t.seen| == |s.seen| && |t.values| == |s.values|
    && (forall i :: 0 <= i < |s.seen| ==> (t.seen[i] <==> s.seen[i] || Flag(i) in events))
    && (forall i :: 0 <= i < |s.values| ==> t.values[i] == LastValue(events, i, s.values[i]))
    && t.counter == s.counter + FlagCount(events)
    && t.texts == s.texts + Texts(events)
  }

  lemma {:induction false} LastValueAppend(a: seq<Event>, b: seq<Event>, i: nat, default: string)
    ensures LastValue(a + b, i, default) == LastValue(b, i, LastValue(a, i, default))
  {
    if b == [] {
      assert a + b == a;
    } else {
      assert (a + b)[..|a + b| - 1] == a + b[..|b| - 1];
      LastValueAppend(a, b[..|b| - 1], i, default);
    }
  }

  lemma {:induction false} CountsAppend(a: seq<Event>, b: seq<Event>)
    ensures FlagCount(a + b) == FlagCount(a) + FlagCount(b)
    ensures Texts(a + b) == Texts(a) + Texts(b)
  {
    if b == [] {
      assert a + b == a;
      assert Texts(a) + [] == Texts(a);
    } else {
      assert (a + b)[..|a + b| - 1] == a + b[..|b| - 1];
      CountsAppend(a, b[..|b| - 1]);
    }
  }

  lemma TellsBoth(s: State, a: seq<Event>, t: State, b: seq<Event>, u: State)
    requires Tells(s, a, t) && Tells(t, b, u)
    ensures Tells(s, a + b, u)
  {
    hide LastValue, FlagCount, Texts;
    CountsAppend(a, b);
    forall i | 0 <= i < |s.values|
      ensures u.values[i] == LastValue(a + b, i, s.values[i])
    {
      LastValueAppend(a, b, i, s.values[i]);
    }
    assert s.texts + Texts(a) + Texts(b) == s.texts + (Texts(a) + Texts(b));
  }

  lemma TellsNothing(s: State, t: State)
    requires t == s.(pending := t.pending)
    ensures Tells(s, [], t)
  {
    assert s.texts + [] == s.texts;
  }

  lemma TellsFlag(s: State, i: nat, t: State)
    requires i < |s.seen| && t == Marked(s, i).(pending := t.pending)
    ensures Tells(s, [Flag(i)], t)
  {
    LastOfOne(Flag(i));
    assert s.texts + [] == s.texts;
  }

  lemma LastOfOne(e: Event)
    ensures forall i, default :: LastValue([e], i, default) == if e.ValueFor? && e.index == i then e.value else default
    ensures FlagCount([e]) == (if e.Flag? then 1 else 0)
    ensures Texts([e]) == if e.TextArgument? then [e.text] else []
  {
    assert [e][..0] == [];
    forall i, default: string
      ensures LastValue([e], i, default) == if e.ValueFor? && e.index == i then e.value else default
    {
      assert LastValue([e][..0], i, default) == default;
    }
    assert FlagCount([e][..0]) == 0 && Texts([e][..0]) == [];
  }

  lemma {:induction false} ClusterTells(reg: Registry, s: State, flags: string)
    requires Fits(reg, s) && s.pending == None
    ensures var said, r := SaidByCluster(reg, flags), FeedCluster(reg, s, flags);
            r.ok == said.ok && r.state.pending == said.pending && Tells(s, said.events, r.state)
    decreases |flags|
  {
    hide Tells;
    if flags == "" || [flags[0]] !in reg.names {
      TellsNothing(s, s);
    } else {
      var i := reg.names[[flags[0]]];
      var t := Marked(s, i);
      TellsFlag(s, i, t);
      if reg.hasValue[i] {
        TellsFlag(s, i, t.(pending := Some(i)));
      } else {
        ClusterTells(reg, t, flags[1..]);
        TellsBoth(s, [Flag(i)], t, SaidByCluster(reg, flags[1..]).events, FeedCluster(reg, t, flags[1..]).state);
      }
    }
  }

  lemma EntryTells(reg: Registry, s: State, entry: string)
    requires Fits(reg, s)
    ensures var said, r := SaidByEntry(reg, s.pending, entry), Feed(reg, s, entry);
            r.ok == said.ok && r.state.pending == said.pending && Tells(s, said.events, r.state)
  {
    hide SaidByCluster, FeedCluster;
    if s.pending.Some? {
      LastOfOne(ValueFor(s.pending.value, entry));
      assert s.texts + [] == s.texts;
    } else if "-" <= entry {
      if "--" <= entry {
        if entry[2..] in reg.names {
          TellsFlag(s, reg.names[entry[2..]], Feed(reg, s, entry).state);
        } else {
          TellsNothing(s, s);
        }
      } else {
        ClusterTells(reg, s, entry[1..]);
      }
    } else {
      LastOfOne(TextArgument(entry));
    }
  }

  /** Parsing amounts to what the argument list says: same verdict, every flag said is found, values
      are the last ones said, the counter counts the flags said and the texts are kept in order; on
      failure all of that holds of what was said before it. */
  lemma {:induction false} ParsingTells(reg: Registry, s: State, entries: seq<string>)
    requires Fits(reg, s)
    ensures var said, r := SaidBy(reg, s.pending, entries), FeedAll(reg, s, entries);
            r.ok == said.ok && Tells(s, said.events, r.state)
    decreases |entries|
  {
    hide Tells, Feed, SaidByEntry;
    if entries == [] {
      TellsNothing(s, s);
    } else {
      EntryTells(reg, s, entries[0]);
      var r := Feed(reg, s, entries[0]);
      if r.ok {
        ParsingTells(reg, r.state, entries[1..]);
        TellsBoth(s, SaidByEntry(reg, s.pending, entries[0]).events, r.state,
                  SaidBy(reg, r.state.pending, entries[1..]).events, FeedAll(reg, r.state, entries[1..]).state);
      }
    }
  }

  // ----- asking by either name -----

  /** Whatever has been parsed, the short and the long name of an argument give the same answers when
      the names of different arguments are distinct. */
  lemma EitherNameAnswers(sarge: Sarge, specs: seq<Spec>, i: nat, value: string)
    requires sarge.Valid() && sarge.reg.names == RegisterAll(specs) && DistinctNames(specs)
    requires i < |specs| && specs[i].argShort != "" && specs[i].argLong != ""
    ensures sarge.Exists(specs[i].argShort) == sarge.Exists(specs[i].argLong)
    ensures sarge.GetFlag(specs[i].argShort, value) == sarge.GetFlag(specs[i].argLong, value)
    ensures i < |sarge.now.seen| && (sarge.Exists(specs[i].argShort) <==> sarge.parsed && sarge.now.seen[i])
  {
    BothNamesStand(specs, i, specs[i].argShort);
    BothNamesStand(specs, i, specs[i].argLong);
  }

  /** What asking for a flag answers after an argument list has been parsed: it is there exactly when it
      was or was said, and its value is the last one said for it, the earlier one when none was. */
  lemma FlagAnswered(sarge: Sarge, before: State, entries: seq<string>, name: string, value: string)
    requires sarge.Valid() && Fits(sarge.reg, before) && name in sarge.reg.names
    requires sarge.now == FeedAll(sarge.reg, before, entries).state.(pending := None)
    ensures var i, said := sarge.reg.names[name], SaidBy(sarge.reg, before.pending, entries).events;
            && sarge.Exists(name) == (sarge.parsed && (before.seen[i] || Flag(i) in said))
            && sarge.GetFlag(name, value)
            == if !sarge.Exists(name) then (false, value)
               else (true, if sarge.reg.hasValue[i] then LastValue(said, i, before.values[i]) else value)
  {
    hide SaidBy, FeedAll, LastValue, FlagCount, Texts;
    ParsingTells(sarge.reg, before, entries);
    assert sarge.argNames[name] == sarge.args[sarge.reg.names[name]];
  }

  lemma UnknownFlagAnswered(sarge: Sarge, name: string, value: string)
    requires sarge.Valid() && name !in sarge.reg.names
    ensures !sarge.Exists(name) && sarge.GetFlag(name, value) == (false, value)
  {
  }

  // ----- asking for text arguments -----

  /** After parsing an argument list into a fresh parser, the text arguments asked for by index are
      those the list says, in order, and there are no others. */
  lemma TextArgumentsAnswered(sarge: Sarge, before: State, entries: seq<string>, index: nat, value: string)
    requires sarge.Valid() && Fits(sarge.reg, before) && before.texts == []
    requires sarge.now == FeedAll(sarge.reg, before, entries).state.(pending := None)
    ensures var texts := Texts(SaidBy(sarge.reg, before.pending, entries).events);
            sarge.GetTextArgument(index, value) == if index < |texts| then (true, texts[index]) else (false, value)
  {
    hide SaidBy, FeedAll;
    ParsingTells(sarge.reg, before, entries);
  }
}
