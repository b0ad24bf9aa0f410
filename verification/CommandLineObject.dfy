/** The CommandLine class (base/command_line.cc): a list of strings, a switch map and the
    index of the first argument, updated in place. */
module CommandLineObject {
  import opened Quoting
  import opened CommandLines
  import opened Parsing
  import opened PrintedText
  import opened Printing
  import opened SwitchLookup

  class CommandLine {
    const platform: Platform
    var argv: seq<string>
    var switches: map<string, string>
    var beginArgs: nat
    ghost var firstSwitch: nat

    ghost function State(): Line
      reads this
    {
      Line(argv, switches, firstSwitch, beginArgs)
    }

    ghost predicate Valid()
      reads this
    {
      WellFormed(State()) && Lowered(platform, State())
    }

    constructor (platform: Platform)
      ensures Valid() && this.platform == platform && State() == NO_PROGRAM
    {
      this.platform := platform;
      argv, switches, beginArgs, firstSwitch := [""], map[], 1, 1;
    }

    method InitFromArgv(args: seq<string>)
      modifies this
      ensures Valid() && State() == Parse(platform, args)
    {
      argv, switches, beginArgs, firstSwitch := [""], map[], 1, 1;
      SetProgram(if args == [] then "" else args[0]);
      AppendSwitchesAndArguments(args);
    }

    method SetProgram(program: string)
      requires Valid()
      modifies this
      ensures Valid() && State() == CommandLines.SetProgram(platform, old(State()), program)
    {
      OthersLowered(platform, State(), program, "", "");
      argv := argv[0 := Trim(platform, program)];
    }

    /** Appends all but the first string of args. */
    method AppendSwitchesAndArguments(args: seq<string>)
      requires Valid()
      modifies this
      ensures Valid() && State() == AppendAll(platform, old(State()), Tail(args), true)
    {
      hide Trim, IsSwitch, AppendAll;
      var parseSwitches := true;
      var i := 1;
      ghost var all := AppendAll(platform, State(), Tail(args), true);
      while i < |args|
        invariant Valid() && 1 <= i && (i <= |args| || args == [])
        invariant all == AppendAll(platform, State(), if args == [] then [] else args[i..], parseSwitches)
      {
        AppendNext(platform, State(), args, i, parseSwitches);
        var arg := Trim(platform, args[i]);
        parseSwitches := parseSwitches && arg != TERMINATOR;
        if parseSwitches && IsSwitch(platform, arg) {
          AppendSwitchNative(SwitchName(arg), SwitchValue(arg));
        } else {
          AppendArgNative(arg);
        }
        i := i + 1;
      }
      AppendEnd(platform, State(), args, parseSwitches);
    }

    method AppendSwitchNative(name: string, value: string)
      requires Valid()
      modifies this
      ensures Valid() && State() == AppendSwitch(platform, old(State()), name, value)
      ensures forall other :: SameName(platform, other, Bare(platform, name)) ==>
                Lower(platform, other) in switches && switches[Lower(platform, other)] == value
    {
      ghost var before := State();
      AppendSwitchLowered(platform, State(), name, value);
      var switchKey := Lower(platform, name);
      var combined := switchKey;
      var prefixLength := GetSwitchPrefixLength(platform, combined);
      assert prefixLength == PrefixLength(platform, name) by { LowerPrefix(platform, name); }
      switches := switches[switchKey[prefixLength..] := value];
      if prefixLength == 0 {
        combined := "--" + combined;
      }
      if value != "" {
        combined := combined + ("=" + value);
      }
      assert combined == SwitchToken(platform, name, value);
      argv := argv[..beginArgs] + [combined] + argv[beginArgs..];
      beginArgs := beginArgs + 1;
      assert State() == AppendSwitch(platform, before, name, value);
      hide *;
      AppendedFoundByAll(platform, before, name, value, State());
    }

    method AppendArgNative(value: string)
      requires Valid()
      modifies this
      ensures Valid() && State() == AppendArg(old(State()), value)
    {
      OthersLowered(platform, State(), "", value, "");
      argv := argv + [value];
    }

    method HasSwitch(name: string) returns (found: bool)
      requires Valid()
      ensures found == (Lower(platform, name) in switches)
      ensures found <==> exists key :: key in switches && SameName(platform, key, name)
      ensures Consistent(platform, State()) ==>
                (found <==> exists i :: LastWith(platform, argv[firstSwitch..beginArgs], Lower(platform, name), i))
    {
      LookupFindsSame(platform, State(), name);
      found := Lower(platform, name) in switches;
      ScanLastWins(platform, argv[firstSwitch..beginArgs], Lower(platform, name));
    }

    method GetSwitchValueNative(name: string) returns (value: string)
      requires Valid()
      ensures var key := Lower(platform, name);
              value == if key in switches then switches[key] else ""
      ensures forall key :: key in switches && SameName(platform, key, name) ==> value == switches[key]
      ensures (forall key :: key in switches ==> !SameName(platform, key, name)) ==> value == ""
      ensures var section, key := argv[firstSwitch..beginArgs], Lower(platform, name);
              Consistent(platform, State()) ==>
                (forall i :: LastWith(platform, section, key, i) ==> value == SwitchValue(section[i])) &&
                ((forall i :: !LastWith(platform, section, key, i)) ==> value == "")
    {
      LookupFindsSame(platform, State(), name);
      var key := Lower(platform, name);
      value := if key in switches then switches[key] else "";
      ScanLastWins(platform, argv[firstSwitch..beginArgs], key);
    }

    /** When source is this command line, its map is read while it is being changed. In any case
        switches are only inserted at the end of the switch section. */
    method CopySwitchesFrom(source: CommandLine, names: seq<string>)
      requires Valid() && source.Valid() && source.platform == platform
      modifies this
      ensures Valid()
      ensures State() == if source == this then CopyOwn(platform, old(State()), names)
                         else CopySwitches(platform, old(State()), old(source.switches), names)
      ensures beginArgs >= old(beginArgs) && firstSwitch == old(firstSwitch)
      ensures argv[..old(beginArgs)] == old(argv[..beginArgs]) && argv[beginArgs..] == old(argv[beginArgs..])
      ensures old(Consistent(platform, State()) && Consistent(platform, source.State())) ==>
                Consistent(platform, State())
    {
      hide Lowered, Lower, AppendSwitch;
      ghost var before := State();
      for i := 0 to |names|
        invariant Valid() && source.Valid()
        invariant source != this ==> source.switches == old(source.switches)
        invariant if source == this then CopyOwn(platform, before, names) == CopyOwn(platform, State(), names[i..])
                  else CopySwitches(platform, before, source.switches, names) ==
                       CopySwitches(platform, State(), source.switches, names[i..])
      {
        assert names[i..][0] == names[i] && names[i..][1..] == names[i + 1..];
        var found := source.HasSwitch(names[i]);
        if found {
          var value := source.GetSwitchValueNative(names[i]);
          AppendSwitchNative(names[i], value);
        }
      }
      assert names[|names|..] == [];
      CopyOwnInserts(platform, before, names);
      CopySwitchesInserts(platform, before, old(source.switches), names);
      if old(Consistent(platform, State()) && Consistent(platform, source.State())) {
        ScanKeysHaveNoEquals(platform, old(source.argv[source.firstSwitch..source.beginArgs]));
        CopySwitchesAgrees(platform, before, old(source.switches), names);
      }
    }

    method AppendArguments(other: CommandLine, includeProgram: bool)
      requires Valid() && other.Valid() && other != this && other.platform == platform
      modifies this
      ensures Valid() && State() == AppendOther(platform, old(State()), other.State(), includeProgram)
    {
      if includeProgram {
        SetProgram(other.argv[0]);
      }
      AppendSwitchesAndArguments(other.argv);
    }

    method PrependWrapper(wrapper: string)
      requires Valid()
      modifies this
      ensures Valid() && State() == CommandLines.PrependWrapper(platform, old(State()), wrapper)
    {
      if wrapper == "" {
        assert [] + argv == argv;
        return;
      }
      OthersLowered(platform, State(), "", "", wrapper);
      var wrapperArgv := SplitString(platform, wrapper, [], "");
      argv := wrapperArgv + argv;
      beginArgs := beginArgs + |wrapperArgv|;
      firstSwitch := firstSwitch + |wrapperArgv|;
    }

    method GetArgs() returns (args: seq<string>)
      requires Valid()
      ensures args == WithoutFirst(argv[beginArgs..], TERMINATOR)
    {
      args := argv[beginArgs..];
      var i := 0;
      while i < |args| && args[i] != TERMINATOR
        invariant 0 <= i <= |args|
        invariant forall j :: 0 <= j < i ==> args[j] != TERMINATOR
      {
        i := i + 1;
      }
      WithoutFirstAt(args, TERMINATOR, i);
      if i < |args| {
        args := args[..i] + args[i + 1..];
      }
    }

    method GetArgumentsString() returns (params: string)
      requires Valid()
      ensures params == RenderAll(platform, argv[1..], true)
      ensures params == Join(if platform.Windows? then QuotedParts(argv[1..]) else BareDropped(argv[1..]))
    {
      hide RenderAll, Render, RenderFrom;
      params := "";
      var parseSwitches := true;
      var i := 1;
      RenderFromStart(platform, argv);
      while i < |argv|
        invariant 1 <= i <= |argv|
        invariant RenderAll(platform, argv[1..], true) == params + RenderFrom(platform, argv, i, parseSwitches)
      {
        RenderFromStep(platform, argv, i, parseSwitches, params);
        var arg := argv[i];
        parseSwitches := parseSwitches && arg != TERMINATOR;
        if i > 1 {
          params := params + " ";
        }
        var shown := "";
        if parseSwitches && IsSwitch(platform, arg) {
          shown := SwitchName(arg);
          var value := SwitchValue(arg);
          if value != "" {
            if platform.Windows? {
              value := QuoteForCommandLineToArgvW(value);
            }
            shown := shown + ("=" + value);
          }
        } else {
          if platform.Windows? {
            arg := QuoteForCommandLineToArgvW(arg);
          }
          shown := arg;
        }
        RenderIs(platform, argv[i], parseSwitches, shown);
        params := params + shown;
        i := i + 1;
      }
      RenderFromEnd(platform, argv, parseSwitches, params);
      hide *;
      PrintedJoins(platform, argv[1..]);
    }
  }

  /** One round of the loop in AppendSwitchesAndArguments, from position i on. */
  lemma AppendNext(p: Platform, l: Line, args: seq<string>, i: nat, parse: bool)
    requires WellFormed(l) && 1 <= i < |args|
    ensures var t := Trim(p, args[i]);
            var here := parse && t != TERMINATOR;
            AppendAll(p, l, args[i..], parse) ==
            if here && IsSwitch(p, t)
            then AppendAll(p, AppendSwitch(p, l, SwitchName(t), SwitchValue(t)), args[i + 1..], here)
            else AppendAll(p, AppendArg(l, t), args[i + 1..], here)
  {
    hide Trim, IsSwitch, AppendSwitch, AppendArg;
    assert args[i..][1..] == args[i + 1..];
  }

  lemma AppendEnd(p: Platform, l: Line, args: seq<string>, parse: bool)
    requires WellFormed(l)
    ensures AppendAll(p, l, args[|args|..], parse) == l && AppendAll(p, l, [], parse) == l
  {
    assert args[|args|..] == [];
  }

  /** What is still to be printed at position i of the loop. */
  ghost function RenderFrom(p: Platform, argv: seq<string>, i: nat, parse: bool): string
    requires i <= |argv|
  {
    (if 1 < i < |argv| then " " else "") + RenderAll(p, argv[i..], parse)
  }

  lemma RenderFromStart(p: Platform, argv: seq<string>)
    requires argv != []
    ensures RenderAll(p, argv[1..], true) == "" + RenderFrom(p, argv, 1, true)
  {
  }

  lemma RenderFromEnd(p: Platform, argv: seq<string>, parse: bool, params: string)
    ensures params + RenderFrom(p, argv, |argv|, parse) == params
  {
    assert argv[|argv|..] == [];
  }

  lemma RenderFromStep(p: Platform, argv: seq<string>, i: nat, parse: bool, params: string)
    requires 1 <= i < |argv|
    ensures var here := parse && argv[i] != TERMINATOR;
            params + RenderFrom(p, argv, i, parse) ==
            (if i > 1 then params + " " else params) + Render(p, argv[i], here) + RenderFrom(p, argv, i + 1, here)
  {
    hide Render;
    assert argv[i..][1..] == argv[i + 1..];
  }

  lemma RenderIs(p: Platform, t: string, parse: bool, shown: string)
    requires parse && IsSwitch(p, t) ==>
               shown == SwitchName(t) + (if SwitchValue(t) == "" then "" else "=" + QuoteFor(p, SwitchValue(t)))
    requires !(parse && IsSwitch(p, t)) ==> shown == QuoteFor(p, t)
    ensures shown == Render(p, t, parse)
  {
  }

  /** s without its first x. */
  function WithoutFirst(s: seq<string>, x: string): seq<string> {
    if s == [] then [] else if s[0] == x then s[1..] else [s[0]] + WithoutFirst(s[1..], x)
  }

  /** s without its i-th string. */
  function Without(s: seq<string>, i: nat): seq<string> {
    if i < |s| then s[..i] + s[i + 1..] else s
  }

  lemma {:induction false} WithoutFirstAt(s: seq<string>, x: string, i: nat)
    requires i <= |s| && (i < |s| ==> s[i] == x)
    requires forall j :: 0 <= j < i ==> s[j] != x
    ensures WithoutFirst(s, x) == Without(s, i)
  {
    if i == 0 {
      assert s != [] ==> s[..0] + s[1..] == s[1..];
    } else {
      WithoutFirstAt(s[1..], x, i - 1);
      hide WithoutFirst;
      WithoutStep(s, i);
    }
  }

  lemma WithoutStep(s: seq<string>, i: nat)
    requires 0 < i <= |s|
    ensures Without(s, i) == [s[0]] + Without(s[1..], i - 1)
  {
    assert s == [s[0]] + s[1..];
  }

  lemma {:induction false} ArgumentsUpTo(p: Platform, ts: seq<string>, rest: seq<string>)
    requires TERMINATOR !in ts && (rest == [] || rest[0] == TERMINATOR)
    ensures Arguments(p, ts + rest) == Arguments(p, ts) + rest && TERMINATOR !in Arguments(p, ts)
  {
    if ts == [] {
      assert [] + rest == rest;
      assert Arguments(p, rest) == rest;
    } else {
      hide *;
      var us, head := ts[1..], if IsSwitch(p, ts[0]) then [] else [ts[0]];
      assert ts == [ts[0]] + us;
      ArgumentsUpTo(p, us, rest);
      PartitionStep(p, ts[0], us);
      PartitionStep(p, ts[0], us + rest);
      Associate([ts[0]], us, rest);
      Associate(head, Arguments(p, us), rest);
    }
  }

  lemma Associate<T>(a: seq<T>, b: seq<T>, c: seq<T>)
    ensures (a + b) + c == a + (b + c)
  {
  }

  /** GetArgs on a parsed command line: the arguments before the first terminator that are not
      switches, then everything after that terminator. */
  lemma ArgsOfParse(p: Platform, argv: seq<string>, i: nat)
    requires var ts := TrimAll(p, Tail(argv));
             i <= |ts| && TERMINATOR !in ts[..i] && (i < |ts| ==> ts[i] == TERMINATOR)
    ensures var ts, l := TrimAll(p, Tail(argv)), Parse(p, argv);
            WithoutFirst(l.argv[l.begin..], TERMINATOR) ==
            Arguments(p, ts[..i]) + (if i < |ts| then ts[i + 1..] else [])
  {
    var ts, l := TrimAll(p, Tail(argv)), Parse(p, argv);
    ParsePartitions(p, argv);
    hide *;
    assert l.argv[l.begin..] == Arguments(p, ts);
    assert ts == ts[..i] + ts[i..];
    ArgumentsUpTo(p, ts[..i], ts[i..]);
    WithoutFirstAfter(Arguments(p, ts[..i]), ts[i..]);
    assert i < |ts| ==> ts[i..][1..] == ts[i + 1..];
  }

  lemma {:induction false} WithoutFirstAfter(before: seq<string>, rest: seq<string>)
    requires TERMINATOR !in before && (rest == [] || rest[0] == TERMINATOR)
    ensures WithoutFirst(before + rest, TERMINATOR) == before + if rest == [] then [] else rest[1..]
  {
    if before == [] {
      assert [] + rest == rest;
    } else {
      assert (before + rest)[1..] == before[1..] + rest;
      WithoutFirstAfter(before[1..], rest);
    }
  }
}
