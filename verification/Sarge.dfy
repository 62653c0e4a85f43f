/** The command line parser of the browser (browse/sarge.cpp): arguments are objects shared by their
    short and long names. The methods are proved against a fold over the argument list. */
module Sarge {
  import opened Text

  // ----- the fold -----

  /** What is registered: which argument a name stands for, and which arguments take a value. */
  datatype Registry = Registry(names: map<string, nat>, hasValue: seq<bool>)

  predicate GoodRegistry(reg: Registry) {
    forall n :: n in reg.names ==> reg.names[n] < |reg.hasValue|
  }

  /** What parsing changes. `pending` is the argument whose value comes next. */
  datatype State = State(seen: seq<bool>, values: seq<string>, counter: nat, texts: seq<string>, pending: Option<nat>)

  predicate Fits(reg: Registry, s: State) {
    && GoodRegistry(reg) && |s.seen| == |reg.hasValue| && |s.values| == |reg.hasValue|
    && (s.pending.Some? ==> s.pending.value < |reg.hasValue|)
  }

  datatype Parsed = Parsed(ok: bool, state: State)

  function Marked(s: State, i: nat): State
    requires i < |s.seen|
  {
    s.(seen := s.seen[i := true], counter := s.counter + 1)
  }

  /** A string of short flags. Only the last may take a value. */
  function FeedCluster(reg: Registry, s: State, flags: string): (r: Parsed)
    requires Fits(reg, s)
    ensures Fits(reg, r.state)
    decreases |flags|
  {
    if flags == "" then Parsed(true, s)
    else if [flags[0]] !in reg.names then Parsed(false, s)
    else
      var i := reg.names[[flags[0]]];
      var t := Marked(s, i);
      if reg.hasValue[i] then
        if |flags| == 1 then Parsed(true, t.(pending := Some(i))) else Parsed(false, t)
      else FeedCluster(reg, t, flags[1..])
  }

  function FeedLong(reg: Registry, s: State, name: string): (r: Parsed)
    requires Fits(reg, s)
    ensures Fits(reg, r.state)
  {
    if name !in reg.names then Parsed(false, s)
    else
      var i := reg.names[name];
      var t := Marked(s, i);
      Parsed(true, if reg.hasValue[i] then t.(pending := Some(i)) else t)
  }

  /** One entry of the argument list. */
  function Feed(reg: Registry, s: State, entry: string): (r: Parsed)
    requires Fits(reg, s)
    ensures Fits(reg, r.state)
  {
    if s.pending.Some? then Parsed(true, s.(values := s.values[s.pending.value := entry], pending := None))
    else if "-" <= entry then
      if "--" <= entry then FeedLong(reg, s, entry[2..]) else FeedCluster(reg, s, entry[1..])
    else Parsed(true, s.(texts := s.texts + [entry]))
  }

  function FeedAll(reg: Registry, s: State, entries: seq<string>): (r: Parsed)
    requires Fits(reg, s)
    ensures Fits(reg, r.state)
    decreases |entries|
  {
    if entries == [] then Parsed(true, s)
    else
      var r := Feed(reg, s, entries[0]);
      if r.ok then FeedAll(reg, r.state, entries[1..]) else r
  }

  lemma FeedAllStep(reg: Registry, s: State, entries: seq<string>, i: nat)
    requires Fits(reg, s) && i <= |entries|
    ensures FeedAll(reg, s, entries[i..])
         == if i == |entries| then Parsed(true, s)
            else var r := Feed(reg, s, entries[i]); if r.ok then FeedAll(reg, r.state, entries[i + 1..]) else r
  {
    hide Feed;
    if i < |entries| {
      assert entries[i..][0] == entries[i] && entries[i..][1..] == entries[i + 1..];
    }
  }

  lemma FeedClusterStep(reg: Registry, s: State, flags: string, i: nat)
    requires Fits(reg, s) && i <= |flags|
    ensures FeedCluster(reg, s, flags[i..])
         == if i == |flags| then Parsed(true, s)
            else if [flags[i]] !in reg.names then Parsed(false, s)
            else
              var k := reg.names[[flags[i]]];
              if !reg.hasValue[k] then FeedCluster(reg, Marked(s, k), flags[i + 1..])
              else if i == |flags| - 1 then Parsed(true, Marked(s, k).(pending := Some(k)))
              else Parsed(false, Marked(s, k))
  {
    if i < |flags| {
      assert flags[i..][0] == flags[i] && flags[i..][1..] == flags[i + 1..];
    }
  }

  // ----- registering -----

  /** What `argNames.insert` does for both names: empty names are not entered, and a name already
      there keeps its argument. */
  function Register(names: map<string, nat>, argShort: string, argLong: string, i: nat): map<string, nat> {
    var withShort := if argShort != "" && argShort !in names then names[argShort := i] else names;
    if argLong != "" && argLong !in withShort then withShort[argLong := i] else withShort
  }

  datatype Spec = Spec(argShort: string, argLong: string, hasValue: bool)

  function RegisterAll(specs: seq<Spec>): map<string, nat> {
    if specs == [] then map[]
    else
      var last := specs[|specs| - 1];
      Register(RegisterAll(specs[..|specs| - 1]), last.argShort, last.argLong, |specs| - 1)
  }

  predicate Names(spec: Spec, name: string) {
    name != "" && (spec.argShort == name || spec.argLong == name)
  }

  lemma RegisterOne(names: map<string, nat>, spec: Spec, i: nat, name: string)
    ensures var after := Register(names, spec.argShort, spec.argLong, i);
            && (name in after <==> name in names || Names(spec, name))
            && (name in names ==> after[name] == names[name])
            && (name !in names && Names(spec, name) ==> after[name] == i)
  {
  }

  /** A name stands for the first argument registered under it, as its short or its long name. */
  lemma {:induction false} FirstRegistrationWins(specs: seq<Spec>, name: string)
    ensures name in RegisterAll(specs) <==> exists i :: 0 <= i < |specs| && Names(specs[i], name)
    ensures name in RegisterAll(specs) ==>
              var i := RegisterAll(specs)[name];
              i < |specs| && Names(specs[i], name) && forall h :: 0 <= h < i ==> !Names(specs[h], name)
  {
    hide Register, Names;
    if specs == [] {
    } else {
      var before, last := specs[..|specs| - 1], specs[|specs| - 1];
      FirstRegistrationWins(before, name);
      RegisterOne(RegisterAll(before), last, |specs| - 1, name);
      assert forall i :: 0 <= i < |before| ==> before[i] == specs[i];
      if exists i :: 0 <= i < |specs| && Names(specs[i], name) {
        var i :| 0 <= i < |specs| && Names(specs[i], name);
        if i < |before| {
          assert Names(before[i], name);
        }
      }
    }
  }

  /** No two arguments share a name. */
  ghost predicate DistinctNames(specs: seq<Spec>) {
    forall i, j, name :: 0 <= i < j < |specs| ==> !(Names(specs[i], name) && Names(specs[j], name))
  }

  /** With distinct names, both names of an argument stand for that argument. */
  lemma BothNamesStand(specs: seq<Spec>, i: nat, name: string)
    requires DistinctNames(specs) && i < |specs| && Names(specs[i], name)
    ensures name in RegisterAll(specs) && RegisterAll(specs)[name] == i
  {
    FirstRegistrationWins(specs, name);
    assert i == RegisterAll(specs)[name];
  }

  // ----- objects -----

  class Argument {
    const argShort: string
    const argLong: string
    const description: string
    const hasValue: bool
    var value: string
    var parsed: bool

    constructor (argShort: string, argLong: string, description: string, hasValue: bool)
      ensures this.argShort == argShort && this.argLong == argLong && this.description == description
      ensures this.hasValue == hasValue && value == "" && !parsed
    {
      this.argShort, this.argLong, this.description, this.hasValue := argShort, argLong, description, hasValue;
      value, parsed := "", false;
    }
  }

  class Sarge {
    var args: seq<Argument>
    var argNames: map<string, Argument>
    var parsed: bool
    var flagCounter: nat
    var execName: string
    var textArguments: seq<string>

    /** What is registered, and what parsing has changed, as values. */
    ghost var reg: Registry
    ghost var now: State

    /** The objects and the values agree. */
    ghost predicate Valid()
      reads this, args
    {
      && Fits(reg, now) && |reg.hasValue| == |args|
      && (forall i, j :: 0 <= i < j < |args| ==> args[i] != args[j])
      && (forall i :: 0 <= i < |args| ==>
            args[i].parsed == now.seen[i] && args[i].value == now.values[i] && args[i].hasValue == reg.hasValue[i])
      && argNames.Keys == reg.names.Keys
      && (forall n :: n in argNames ==> argNames[n] == args[reg.names[n]])
      && now.counter == flagCounter && now.texts == textArguments
    }

    constructor ()
      ensures Valid() && reg == Registry(map[], []) && now == State([], [], 0, [], None) && !parsed
    {
      args, argNames, parsed, flagCounter, execName, textArguments := [], map[], false, 0, "", [];
      reg, now := Registry(map[], []), State([], [], 0, [], None);
    }

    method SetArgument(argShort: string, argLong: string, desc: string, hasVal: bool)
      requires Valid()
      modifies this`args, this`argNames, this`reg, this`now
      ensures Valid() && |args| == |old(args)| + 1 && args[..|old(args)|] == old(args) && fresh(args[|old(args)|])
      ensures reg == Registry(Register(old(reg.names), argShort, argLong, |old(args)|), old(reg.hasValue) + [hasVal])
      ensures now == old(now).(seen := old(now.seen) + [false], values := old(now.values) + [""])
    {
      var arg := new Argument(argShort, argLong, desc, hasVal);
      ghost var i := |args|;
      AddArgument(arg);
      if argShort != "" {
        LinkName(argShort, arg, i);
      }
      if argLong != "" {
        LinkName(argLong, arg, i);
      }
    }

    /** `args.push_back`. */
    method AddArgument(arg: Argument)
      requires Valid() && arg !in args && !arg.parsed && arg.value == ""
      modifies this`args, this`reg, this`now
      ensures Valid() && args == old(args) + [arg]
      ensures reg == Registry(old(reg.names), old(reg.hasValue) + [arg.hasValue])
      ensures now == old(now).(seen := old(now.seen) + [false], values := old(now.values) + [""])
    {
      args := args + [arg];
      reg := Registry(reg.names, reg.hasValue + [arg.hasValue]);
      now := now.(seen := now.seen + [false], values := now.values + [""]);
    }

    /** `argNames.insert`: a name that is there already keeps its argument. */
    method LinkName(name: string, arg: Argument, ghost i: nat)
      requires Valid() && i < |args| && arg == args[i]
      modifies this`argNames, this`reg
      ensures Valid()
      ensures reg == old(reg).(names := if name in old(reg.names) then old(reg.names) else old(reg.names)[name := i])
    {
      if name !in argNames {
        argNames := argNames[name := arg];
        reg := reg.(names := reg.names[name := i]);
      }
    }

    /** Marks the argument a name stands for as found. */
    method Mark(arg: Argument, ghost name: string)
      requires Valid() && name in argNames && arg == argNames[name]
      modifies this`flagCounter, this`now, arg`parsed
      ensures Valid() && now == Marked(old(now), reg.names[name])
      ensures arg.hasValue == reg.hasValue[reg.names[name]]
    {
      arg.parsed := true;
      flagCounter := flagCounter + 1;
      now := Marked(now, reg.names[name]);
    }

    /** The argument looked up last is the one whose value comes next, if a value comes next. */
    ghost predicate Awaits(flag: Argument?, expectValue: bool)
      reads this
    {
      && expectValue == now.pending.Some?
      && (expectValue ==> now.pending.value < |args| && flag == args[now.pending.value])
    }

    ghost method SetPending(pending: Option<nat>)
      requires Valid() && (pending.Some? ==> pending.value < |args|)
      modifies this`now
      ensures Valid() && now == old(now).(pending := pending)
    {
      now := now.(pending := pending);
    }

    lemma NameIsRegistered(name: string)
      requires Valid()
      ensures Fits(reg, now) && |reg.hasValue| == |args|
      ensures name in argNames <==> name in reg.names
      ensures name in argNames ==> reg.names[name] < |args| && argNames[name] == args[reg.names[name]]
    {
    }

    /** The loop over the characters of a short form entry. */
    method ParseCluster(flags: string) returns (ok: bool, flag: Argument?, expectValue: bool)
      requires Valid() && now.pending == None
      modifies this`flagCounter, this`now, args
      ensures Valid() && FeedCluster(reg, old(now), flags) == Parsed(ok, now)
      ensures Awaits(flag, expectValue)
    {
      NameIsRegistered("");
      hide FeedCluster, Sarge.Valid, Fits;
      flag, expectValue := null, false;
      assert flags[0..] == flags;
      for i := 0 to |flags|
        invariant Valid() && Fits(reg, now) && Fits(reg, old(now)) && Awaits(flag, expectValue)
        invariant FeedCluster(reg, old(now), flags)
               == if expectValue then Parsed(true, now) else FeedCluster(reg, now, flags[i..])
        invariant expectValue ==> i == |flags|
      {
        var k := [flags[i]];
        FeedClusterStep(reg, now, flags, i);
        NameIsRegistered(k);
        if k !in argNames {
          return false, flag, false;
        }
        flag := argNames[k];
        Mark(flag, k);
        if flag.hasValue {
          if i != |flags| - 1 {
            return false, flag, false;
          }
          expectValue := true;
          SetPending(Some(reg.names[k]));
        }
        NameIsRegistered(k);
      }
      FeedClusterStep(reg, now, flags, |flags|);
      return true, flag, expectValue;
    }

    /** Parses an argument list; its first entry is the name of the program. A failure keeps what was
        parsed before it. */
    method ParseArguments(argv: seq<string>) returns (ok: bool)
      requires Valid() && now.pending == None && |argv| > 0
      modifies this`execName, this`parsed, this`flagCounter, this`textArguments, this`now, args
      ensures Valid() && now.pending == None && execName == argv[0]
      ensures var r := FeedAll(reg, old(now), argv[1..]);
              ok == r.ok && now == r.state.(pending := None) && parsed == (old(parsed) || ok)
    {
      NameIsRegistered("");
      hide FeedAll, Feed, Fits;
      execName := argv[0];
      var expectValue := false;
      var flagIt: Argument? := null;
      ghost var entries := argv[1..];
      assert entries[0..] == entries;
      for i := 1 to |argv|
        invariant Valid() && Fits(reg, now) && Fits(reg, old(now)) && Awaits(flagIt, expectValue)
        invariant parsed == old(parsed) && execName == argv[0]
        invariant FeedAll(reg, old(now), entries) == FeedAll(reg, now, entries[i - 1..])
      {
        hide Sarge.Valid;
        FeedAllStep(reg, now, entries, i - 1);
        var good;
        good, flagIt, expectValue := ParseEntry(argv[i], flagIt, expectValue);
        if !good {
          SetPending(None);
          return false;
        }
        NameIsRegistered("");
      }
      FeedAllStep(reg, now, entries, |entries|);
      parsed := true;
      SetPending(None);
      return true;
    }

    /** The body of the loop over entries. */
    method ParseEntry(entry: string, flagIt: Argument?, expectValue: bool)
      returns (good: bool, flag: Argument?, awaits: bool)
      requires Valid() && Fits(reg, now) && Awaits(flagIt, expectValue)
      modifies this`flagCounter, this`textArguments, this`now, args
      ensures Valid() && Feed(reg, old(now), entry) == Parsed(good, now)
      ensures Awaits(flag, awaits)
    {
      hide FeedCluster, FeedLong;
      good, flag, awaits := true, flagIt, expectValue;
      if expectValue {
        flag.value := entry;
        awaits := false;
        now := now.(values := now.values[now.pending.value := entry], pending := None);
      } else if "-" <= entry {
        if "--" <= entry {
          good, flag, awaits := ParseLong(entry[2..]);
        } else {
          good, flag, awaits := ParseCluster(entry[1..]);
        }
      } else {
        textArguments := textArguments + [entry];
        now := now.(texts := textArguments);
      }
    }

    method ParseLong(name: string) returns (good: bool, flag: Argument?, awaits: bool)
      requires Valid() && now.pending == None
      modifies this`flagCounter, this`now, args
      ensures Valid() && FeedLong(reg, old(now), name) == Parsed(good, now)
      ensures Awaits(flag, awaits)
    {
      NameIsRegistered(name);
      hide Sarge.Valid, Fits;
      if name !in argNames {
        return false, null, false;
      }
      flag := argNames[name];
      Mark(flag, name);
      awaits := false;
      if flag.hasValue {
        awaits := true;
        SetPending(Some(reg.names[name]));
      }
      good := true;
    }

    // ----- asking -----

    function Exists(flag: string): bool
      reads this, argNames.Values
    {
      parsed && flag in argNames && argNames[flag].parsed
    }

    /** Whether the flag was found, and the caller's value, replaced by the flag's if it has one. */
    function GetFlag(flag: string, value: string): (bool, string)
      reads this, argNames.Values
    {
      if !Exists(flag) then (false, value)
      else (true, if argNames[flag].hasValue then argNames[flag].value else value)
    }

    function GetTextArgument(index: nat, value: string): (bool, string)
      reads this
    {
      if index < |textArguments| then (true, textArguments[index]) else (false, value)
    }
  }
}
