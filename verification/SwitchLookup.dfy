/** Looking switches up by name: on Windows names are the same that differ in the case of the
    letters A to Z only, on POSIX every difference counts. */
module SwitchLookup {
  import opened CommandLines
  import opened Parsing

  /** Equal but for the case of A to Z. */
  predicate SameUpToCase(s: string, t: string) {
    |s| == |t| &&
    forall i :: 0 <= i < |s| ==>
      s[i] == t[i] || ('A' <= s[i] <= 'Z' && t[i] as int == s[i] as int + 32) ||
      ('A' <= t[i] <= 'Z' && s[i] as int == t[i] as int + 32)
  }

  predicate SameName(p: Platform, s: string, t: string) {
    if p.Windows? then SameUpToCase(s, t) else s == t
  }

  predicate NoCapitals(s: string) {
    forall i :: 0 <= i < |s| ==> !('A' <= s[i] <= 'Z')
  }

  /** Names have the same lower-case form if and only if they are the same name. */
  lemma LowerMerges(p: Platform, s: string, t: string)
    ensures Lower(p, s) == Lower(p, t) <==> SameName(p, s, t)
  {
    var low, lot := Lower(p, s), Lower(p, t);
    if p.Windows? && low == lot {
      assert forall i :: 0 <= i < |s| ==> low[i] == LowerChar(s[i]) && lot[i] == LowerChar(t[i]);
    }
  }

  /** The lower-case form is the same name, without capitals on Windows. */
  lemma LowerIsSame(p: Platform, s: string)
    ensures SameName(p, Lower(p, s), s) && (p.Windows? ==> NoCapitals(Lower(p, s)))
    ensures (p.Windows? ==> NoCapitals(s)) ==> Lower(p, s) == s
  {
  }

  /** How a switch is written in the list: its name, with two dashes if it has no prefix and without
      capitals on Windows, and the value after a '=' if there is one. */
  lemma TokenSpelling(p: Platform, name: string, value: string)
    ensures var prefixed := name != "" && (name[0] == '-' || (p.Windows? && name[0] == '/'));
            var written, token := if prefixed then name else "--" + name, SwitchToken(p, name, value);
            |written| <= |token| && SameName(p, token[..|written|], written) &&
            (p.Windows? ==> NoCapitals(token[..|written|])) &&
            token[|written|..] == if value == "" then "" else "=" + value
  {
    var head, rest := TokenName(p, name), if value == "" then "" else "=" + value;
    assert SwitchToken(p, name, value) == head + rest;
    LowerIsSame(p, name);
  }

  // ---------------------------------------------------------------------------
  // There are no capitals in keys and names of switches under Windows.
  // ---------------------------------------------------------------------------

  ghost predicate Lowered(p: Platform, l: Line)
    requires WellFormed(l)
  {
    p.Windows? ==>
      (forall key :: key in l.switches ==> NoCapitals(key)) &&
      (forall i :: l.start <= i < l.begin ==> NoCapitals(SwitchName(l.argv[i])))
  }

  lemma KeyLowered(p: Platform, name: string, value: string)
    requires p.Windows?
    ensures NoCapitals(SwitchKey(p, name)) && NoCapitals(SwitchName(SwitchToken(p, name, value)))
  {
    hide PrefixLength, FindEquals;
    var full, rest := TokenName(p, name), if value == "" then "" else "=" + value;
    var token := SwitchToken(p, name, value);
    LowerIsSame(p, name);
    assert NoCapitals(full);
    assert token == full + rest;
    assert rest != "" ==> token[|full|] == '=';
    assert FindEquals(token) <= |full|;
    assert SwitchName(token) == full[..FindEquals(token)];
  }

  lemma AppendSwitchLowered(p: Platform, l: Line, name: string, value: string)
    requires WellFormed(l) && Lowered(p, l)
    ensures Lowered(p, AppendSwitch(p, l, name, value))
  {
    if p.Windows? {
      KeyLowered(p, name, value);
    }
    hide SwitchKey, SwitchToken, SwitchName, NoCapitals;
  }

  lemma OthersLowered(p: Platform, l: Line, program: string, arg: string, wrapper: string)
    requires WellFormed(l) && Lowered(p, l)
    ensures Lowered(p, SetProgram(p, l, program)) && WellFormed(AppendArg(l, arg)) && Lowered(p, AppendArg(l, arg))
    ensures Lowered(p, PrependWrapper(p, l, wrapper))
  {
    hide SwitchName, NoCapitals, SplitString, Trim;
    var r := PrependWrapper(p, l, wrapper);
    var k := r.start - l.start;
    assert forall i :: r.start <= i < r.begin ==> r.argv[i] == l.argv[i - k];
  }

  lemma {:induction false} AppendAllLowered(p: Platform, l: Line, args: seq<string>, parseSwitches: bool)
    requires WellFormed(l) && Lowered(p, l)
    ensures Lowered(p, AppendAll(p, l, args, parseSwitches))
    decreases |args|
  {
    hide Lowered, Trim, IsSwitch, SwitchName, SwitchValue, AppendSwitch, AppendArg;
    if args != [] {
      var t := Trim(p, args[0]);
      var parse := parseSwitches && t != TERMINATOR;
      if parse && IsSwitch(p, t) {
        AppendSwitchLowered(p, l, SwitchName(t), SwitchValue(t));
        AppendAllLowered(p, AppendSwitch(p, l, SwitchName(t), SwitchValue(t)), args[1..], parse);
      } else {
        OthersLowered(p, l, "", t, "");
        AppendAllLowered(p, AppendArg(l, t), args[1..], parse);
      }
    }
  }

  lemma {:induction false} CopySwitchesLowered(p: Platform, l: Line, source: map<string, string>, names: seq<string>)
    requires WellFormed(l) && Lowered(p, l)
    ensures Lowered(p, CopySwitches(p, l, source, names))
    decreases |names|
  {
    hide Lowered, Lower, AppendSwitch;
    if names != [] {
      var key := Lower(p, names[0]);
      if key in source {
        AppendSwitchLowered(p, l, names[0], source[key]);
        CopySwitchesLowered(p, AppendSwitch(p, l, names[0], source[key]), source, names[1..]);
      } else {
        CopySwitchesLowered(p, l, source, names[1..]);
      }
    }
  }

  lemma CallLowered(p: Platform, l: Line, call: Call)
    requires WellFormed(l) && Lowered(p, l)
    ensures Lowered(p, Apply(p, l, call))
  {
    assert Lowered(p, NO_PROGRAM);
    hide Lowered, AppendAll, CopySwitches, AppendSwitch;
    match call
    case DoInit(args) =>
      OthersLowered(p, NO_PROGRAM, Program(args), "", "");
      AppendAllLowered(p, SetProgram(p, NO_PROGRAM, Program(args)), Tail(args), true);
    case DoSetProgram(program) => OthersLowered(p, l, program, "", "");
    case DoSwitch(name, value) => AppendSwitchLowered(p, l, name, value);
    case DoArg(arg) => OthersLowered(p, l, "", arg, "");
    case DoAppend(other, includeProgram) =>
      OthersLowered(p, l, Program(other.argv), "", "");
      AppendAllLowered(p, if includeProgram then SetProgram(p, l, Program(other.argv)) else l, Tail(other.argv), true);
    case DoCopy(source, names) => CopySwitchesLowered(p, l, source.switches, names);
    case DoWrap(wrapper) => OthersLowered(p, l, "", "", wrapper);
  }

  /** Whatever calls are made, under Windows there is no capital letter in any key of the map and in
      the name of any switch in the list. */
  lemma {:induction false} RunLowered(p: Platform, l: Line, calls: seq<Call>)
    requires WellFormed(l) && Lowered(p, l)
    ensures Lowered(p, Run(p, l, calls))
    decreases |calls|
  {
    hide Lowered, Apply;
    if calls != [] {
      CallLowered(p, l, calls[0]);
      RunLowered(p, Apply(p, l, calls[0]), calls[1..]);
    }
  }

  // ---------------------------------------------------------------------------
  // What a lookup finds.
  // ---------------------------------------------------------------------------

  /** The key that a lookup finds is the one key that is the same name. */
  lemma LookupFindsSame(p: Platform, l: Line, name: string)
    requires WellFormed(l) && Lowered(p, l)
    ensures Lower(p, name) in l.switches <==> exists key :: key in l.switches && SameName(p, key, name)
    ensures forall key :: key in l.switches && SameName(p, key, name) ==> key == Lower(p, name)
  {
    LowerIsSame(p, name);
    forall key | key in l.switches && SameName(p, key, name) ensures key == Lower(p, name) {
      LowerMerges(p, key, name);
      LowerIsSame(p, key);
    }
  }

  /** The name of a switch without its prefix. */
  function Bare(p: Platform, name: string): string {
    name[PrefixLength(p, name)..]
  }

  lemma LowerBare(p: Platform, name: string)
    ensures SwitchKey(p, name) == Lower(p, Bare(p, name))
  {
    LowerPrefix(p, name);
  }

  /** A switch appended under one spelling of its name is found with its value under every spelling,
      and a lookup of any other name finds what it has found before. */
  lemma AppendedIsFound(p: Platform, l: Line, name: string, value: string, other: string)
    requires WellFormed(l)
    ensures var r, key := AppendSwitch(p, l, name, value), Lower(p, other);
            if SameName(p, other, Bare(p, name)) then key in r.switches && r.switches[key] == value
            else if key in l.switches then key in r.switches && r.switches[key] == l.switches[key]
            else key !in r.switches
  {
    hide Bare, SameName, SwitchKey, Lower;
    LowerBare(p, name);
    LowerMerges(p, other, Bare(p, name));
  }

  lemma AppendedFoundByAll(p: Platform, l: Line, name: string, value: string, r: Line)
    requires WellFormed(l) && r == AppendSwitch(p, l, name, value)
    ensures forall other :: SameName(p, other, Bare(p, name)) ==>
              Lower(p, other) in r.switches && r.switches[Lower(p, other)] == value
  {
    hide *;
    forall other {
      AppendedIsFound(p, l, name, value, other);
    }
  }

  /** Number i is the last of the switches that has this name. */
  predicate LastGiven(p: Platform, given: seq<string>, name: string, i: int) {
    0 <= i < |given| && SameName(p, Bare(p, SwitchName(given[i])), name) &&
    forall j :: i < j < |given| ==> !SameName(p, Bare(p, SwitchName(given[j])), name)
  }

  lemma {:induction false} SwitchesAreCanon(p: Platform, ts: seq<string>)
    ensures var ss, given := Switches(p, ts), SwitchInputs(p, ts);
            |ss| == |given| && forall i :: 0 <= i < |given| ==> IsSwitch(p, given[i]) && ss[i] == Canon(p, given[i])
  {
    hide IsSwitch, Canon;
    if ts != [] && ts[0] != TERMINATOR {
      SwitchesAreCanon(p, ts[1..]);
    }
  }

  lemma CanonKey(p: Platform, t: string, name: string)
    ensures TokenKey(p, Canon(p, t)) == Lower(p, name) <==> SameName(p, Bare(p, SwitchName(t)), name)
    ensures SwitchValue(Canon(p, t)) == SwitchValue(t)
  {
    hide TokenKey, SwitchValue, SwitchKey, Bare, SameName, Lower, FindEquals;
    assert '=' !in SwitchName(t);
    TokenScansBack(p, SwitchName(t), SwitchValue(t));
    LowerBare(p, SwitchName(t));
    LowerMerges(p, Bare(p, SwitchName(t)), name);
  }

  /** After parsing, a lookup finds a switch if and only if one of that name was given before the
      first terminator, and its value is that of the last one. */
  lemma LookupOfParse(p: Platform, argv: seq<string>, name: string)
    ensures var given, l := SwitchInputs(p, TrimAll(p, Tail(argv))), Parse(p, argv);
            (Lower(p, name) in l.switches <==> exists i :: LastGiven(p, given, name, i)) &&
            forall i :: LastGiven(p, given, name, i) ==> l.switches[Lower(p, name)] == SwitchValue(given[i])
  {
    var ts := TrimAll(p, Tail(argv));
    var ss, given := Switches(p, ts), SwitchInputs(p, ts);
    hide TrimAll, Switches, SwitchInputs, Parse, Arguments, Scan, LastWith, Lower, SwitchValue, SameName, Bare, Trim;
    ParsePartitions(p, argv);
    SwitchesAreCanon(p, ts);
    ScanLastWins(p, ss, Lower(p, name));
    LastMatches(p, ss, given, name);
  }

  lemma LastMatches(p: Platform, ss: seq<string>, given: seq<string>, name: string)
    requires |ss| == |given| && forall i :: 0 <= i < |given| ==> ss[i] == Canon(p, given[i])
    ensures forall i :: LastWith(p, ss, Lower(p, name), i) <==> LastGiven(p, given, name, i)
    ensures forall i :: LastGiven(p, given, name, i) ==> SwitchValue(ss[i]) == SwitchValue(given[i])
  {
    hide Canon, TokenKey, SwitchValue, SameName, Lower, Bare, SwitchName;
    forall i | 0 <= i < |given|
      ensures TokenKey(p, ss[i]) == Lower(p, name) <==> SameName(p, Bare(p, SwitchName(given[i])), name)
      ensures SwitchValue(ss[i]) == SwitchValue(given[i])
    {
      CanonKey(p, given[i], name);
    }
  }
}
