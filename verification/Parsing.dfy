/** Parsing a command line is a stable partition of its arguments, and parsing the result
    again changes nothing, except for switches that end in a bare '='. */
module Parsing {
  import opened CommandLines

  // ---------------------------------------------------------------------------
  // Reference definitions: two separate passes over the trimmed arguments.
  // ---------------------------------------------------------------------------

  /** A switch as it is written in the list: its name in lower case on Windows, and no '='
      when its value is empty. */
  function Canon(p: Platform, t: string): string {
    SwitchToken(p, SwitchName(t), SwitchValue(t))
  }

  /** The switches before the first terminator, in order. */
  function Switches(p: Platform, ts: seq<string>): (r: seq<string>)
    ensures |r| <= |ts|
  {
    if ts == [] || ts[0] == TERMINATOR then []
    else (if IsSwitch(p, ts[0]) then [Canon(p, ts[0])] else []) + Switches(p, ts[1..])
  }

  /** The other arguments before the first terminator, then everything from there on. */
  function Arguments(p: Platform, ts: seq<string>): seq<string> {
    if ts == [] || ts[0] == TERMINATOR then ts
    else (if IsSwitch(p, ts[0]) then [] else [ts[0]]) + Arguments(p, ts[1..])
  }

  lemma {:induction false} AppendAllAfterTerminator(p: Platform, l: Line, args: seq<string>)
    requires WellFormed(l)
    ensures AppendAll(p, l, args, false) == l.(argv := l.argv + TrimAll(p, args))
    decreases |args|
  {
    hide *;
    AfterTerminatorStep(p, l, args);
    if args != [] {
      var t, rest := Trim(p, args[0]), TrimAll(p, args[1..]);
      AppendAllAfterTerminator(p, AppendArg(l, t), args[1..]);
      assert l.argv + [t] + rest == l.argv + ([t] + rest);
    }
  }

  lemma AfterTerminatorStep(p: Platform, l: Line, args: seq<string>)
    requires WellFormed(l)
    ensures args == [] ==> AppendAll(p, l, args, false) == l.(argv := l.argv + TrimAll(p, args))
    ensures args != [] ==>
              var t := Trim(p, args[0]);
              var r := AppendArg(l, t);
              WellFormed(r) && r == l.(argv := l.argv + [t]) &&
              AppendAll(p, l, args, false) == AppendAll(p, r, args[1..], false) &&
              TrimAll(p, args) == [t] + TrimAll(p, args[1..])
  {
    hide Trim, TrimAll, IsSwitch, AppendSwitch;
    if args == [] {
      assert l.argv + TrimAll(p, args) == l.argv;
    } else {
      assert args == [args[0]] + args[1..];
      TrimAllFront(p, args[0], args[1..]);
    }
  }

  lemma AppendSwitchParts(p: Platform, l: Line, t: string)
    requires WellFormed(l)
    ensures var r := AppendSwitch(p, l, SwitchName(t), SwitchValue(t));
            r.begin == l.begin + 1 && r.start == l.start &&
            r.argv[..r.begin] == l.argv[..l.begin] + [Canon(p, t)] && r.argv[r.begin..] == l.argv[l.begin..]
  {
  }

  lemma AppendArgParts(l: Line, t: string)
    requires WellFormed(l)
    ensures var r := AppendArg(l, t);
            WellFormed(r) && r.begin == l.begin && r.start == l.start &&
            r.argv[..r.begin] == l.argv[..l.begin] && r.argv[r.begin..] == l.argv[l.begin..] + [t]
  {
  }

  /** One round of the reference passes. */
  lemma PartitionStep(p: Platform, t: string, ts: seq<string>)
    requires t != TERMINATOR
    ensures Switches(p, [t] + ts) == (if IsSwitch(p, t) then [Canon(p, t)] else []) + Switches(p, ts)
    ensures Arguments(p, [t] + ts) == (if IsSwitch(p, t) then [] else [t]) + Arguments(p, ts)
  {
    hide IsSwitch, Canon;
    assert ([t] + ts)[1..] == ts;
  }

  /** r is l with ss inserted at the end of the switch section and xs appended. */
  ghost predicate Inserted(l: Line, r: Line, ss: seq<string>, xs: seq<string>)
    requires WellFormed(l)
  {
    r.argv == l.argv[..l.begin] + ss + l.argv[l.begin..] + xs && r.start == l.start && r.begin == l.begin + |ss|
  }

  lemma InsertedSwitch(p: Platform, l: Line, t: string, r: Line, ss: seq<string>, xs: seq<string>)
    requires WellFormed(l) && Inserted(AppendSwitch(p, l, SwitchName(t), SwitchValue(t)), r, ss, xs)
    ensures Inserted(l, r, [Canon(p, t)] + ss, xs)
  {
    hide AppendSwitch, Canon;
    AppendSwitchParts(p, l, t);
  }

  lemma InsertedArg(l: Line, t: string, r: Line, ss: seq<string>, xs: seq<string>)
    requires WellFormed(l) && WellFormed(AppendArg(l, t)) && Inserted(AppendArg(l, t), r, ss, xs)
    ensures Inserted(l, r, ss, [t] + xs)
  {
    hide AppendArg;
    AppendArgParts(l, t);
  }

  lemma InsertedNothing(l: Line, ts: seq<string>)
    requires WellFormed(l)
    ensures Inserted(l, l.(argv := l.argv + ts), [], ts) && Inserted(l, l, [], [])
    ensures forall t :: WellFormed(AppendArg(l, t))
  {
    assert l.argv[..l.begin] + [] + l.argv[l.begin..] == l.argv;
  }

  /** Appending many arguments inserts the switches, in order, at the end of the switch
      section, and the other arguments, in order, at the end of the list. */
  lemma {:induction false} AppendAllPartitions(p: Platform, l: Line, args: seq<string>)
    requires WellFormed(l)
    ensures var ts := TrimAll(p, args);
            Inserted(l, AppendAll(p, l, args, true), Switches(p, ts), Arguments(p, ts))
    decreases |args|
  {
    hide *;
    var ts := TrimAll(p, args);
    AppendAllStep(p, l, args);
    InsertedNothing(l, ts);
    if args == [] {
    } else if ts[0] == TERMINATOR {
      AppendAllAfterTerminator(p, l, args);
    } else {
      var t, us, r := ts[0], TrimAll(p, args[1..]), AppendAll(p, l, args, true);
      assert ts == [t] + us;
      PartitionStep(p, t, us);
      var ss, xs := Switches(p, us), Arguments(p, us);
      if IsSwitch(p, t) {
        AppendAllPartitions(p, AppendSwitch(p, l, SwitchName(t), SwitchValue(t)), args[1..]);
        InsertedSwitch(p, l, t, r, ss, xs);
        assert [] + xs == xs;
      } else {
        AppendAllPartitions(p, AppendArg(l, t), args[1..]);
        InsertedArg(l, t, r, ss, xs);
        assert [] + ss == ss;
      }
    }
  }

  /** One round of the loop in AppendSwitchesAndArguments. */
  lemma AppendAllStep(p: Platform, l: Line, args: seq<string>)
    requires WellFormed(l)
    ensures args == [] ==>
              AppendAll(p, l, args, true) == l && Switches(p, TrimAll(p, args)) == [] == Arguments(p, TrimAll(p, args))
    ensures args != [] ==>
              var t := Trim(p, args[0]);
              if t == TERMINATOR then
                AppendAll(p, l, args, true) == AppendAll(p, l, args, false) &&
                Switches(p, TrimAll(p, args)) == [] && Arguments(p, TrimAll(p, args)) == TrimAll(p, args)
              else if IsSwitch(p, t) then
                AppendAll(p, l, args, true) ==
                AppendAll(p, AppendSwitch(p, l, SwitchName(t), SwitchValue(t)), args[1..], true)
              else
                AppendAll(p, l, args, true) == AppendAll(p, AppendArg(l, t), args[1..], true)
  {
    hide Trim, IsSwitch, AppendSwitch, AppendArg;
  }

  /** InitFromArgv is a stable partition, and its map is the last-wins scan of the switches. */
  lemma ParsePartitions(p: Platform, argv: seq<string>)
    ensures var ts, l := TrimAll(p, Tail(argv)), Parse(p, argv);
            l == Line([Trim(p, Program(argv))] + Switches(p, ts) + Arguments(p, ts),
                      Scan(p, Switches(p, ts)), 1, 1 + |Switches(p, ts)|)
  {
    hide Trim, AppendAll, Switches, Arguments, Scan;
    var ts, l := TrimAll(p, Tail(argv)), Parse(p, argv);
    AppendAllPartitions(p, SetProgram(p, NO_PROGRAM, Program(argv)), Tail(argv));
    ParseAgrees(p, argv);
    assert l.argv[l.start..l.begin] == Switches(p, ts);
  }

  /** AppendArguments puts the other line's program in the first place if asked to, its switches at
      the end of the switch section and its arguments at the end of the list. */
  lemma AppendOtherPartitions(p: Platform, l: Line, other: Line, includeProgram: bool)
    requires WellFormed(l)
    ensures var r, ts := AppendOther(p, l, other, includeProgram), TrimAll(p, Tail(other.argv));
            var program := if includeProgram then Trim(p, Program(other.argv)) else l.argv[0];
            var ss := Switches(p, ts);
            r.argv == [program] + l.argv[1..l.begin] + ss + l.argv[l.begin..] + Arguments(p, ts) &&
            r.start == l.start && r.begin == l.begin + |ss|
  {
    hide Trim, AppendAll, Switches, Arguments, TrimAll;
    var m := if includeProgram then SetProgram(p, l, Program(other.argv)) else l;
    AppendAllPartitions(p, m, Tail(other.argv));
    assert m.argv[..m.begin] == [m.argv[0]] + l.argv[1..l.begin] && m.argv[m.begin..] == l.argv[l.begin..];
  }

  // ---------------------------------------------------------------------------
  // Parsing twice.
  // ---------------------------------------------------------------------------

  /** A switch whose '=' is dropped because its value is empty, and whose remaining name is
      a bare prefix or ends in a blank: `--=`, `-=`, `--name =`. */
  predicate Fragile(p: Platform, t: string) {
    var e := FindEquals(t);
    e + 1 == |t| && (e <= PrefixLength(p, t) || IsBlank(p, t[e - 1]))
  }

  /** The switches among the arguments before the first terminator, as written by the caller. */
  function SwitchInputs(p: Platform, ts: seq<string>): seq<string> {
    if ts == [] || ts[0] == TERMINATOR then []
    else (if IsSwitch(p, ts[0]) then [ts[0]] else []) + SwitchInputs(p, ts[1..])
  }

  /** s is read back as the switch it is. */
  predicate Stable(p: Platform, s: string) {
    Trim(p, s) == s && IsSwitch(p, s)
  }

  lemma LowerBlank(p: Platform, s: string, i: nat)
    requires i < |s|
    ensures IsBlank(p, Lower(p, s)[i]) <==> IsBlank(p, s[i])
  {
  }

  /** The parts of the canonical form of a trimmed switch. */
  lemma CanonParts(p: Platform, t: string)
    requires IsSwitch(p, t)
    ensures var name, value := SwitchName(t), SwitchValue(t);
            var s := Canon(p, t);
            name != "" && PrefixLength(p, name) > 0 && '=' !in name && PrefixLength(p, t) <= |name| &&
            s == Lower(p, name) + (if value == "" then "" else "=" + value) &&
            SwitchName(s) == Lower(p, name) && SwitchValue(s) == value &&
            PrefixLength(p, s) == PrefixLength(p, t) && |s| <= |t|
    ensures Canon(p, Canon(p, t)) == Canon(p, t)
  {
    hide FindEquals, Lower, PrefixLength;
    var name, value := SwitchName(t), SwitchValue(t);
    var s, low := Canon(p, t), Lower(p, name);
    NamePrefix(p, t);
    LowerPrefix(p, name);
    var rest := if value == "" then "" else "=" + value;
    assert s == "" + low + rest == low + rest;
    FindEqualsIs(low, rest);
    assert s[..|name|] == low;
    assert value != "" ==> s[|name| + 1..] == value;
    TokenPrefix(p, name, rest);
  }

  /** A switch and its name have the same prefix. */
  lemma NamePrefix(p: Platform, t: string)
    requires IsSwitch(p, t)
    ensures PrefixLength(p, SwitchName(t)) == PrefixLength(p, t) <= |SwitchName(t)|
  {
    hide FindEquals;
    var e := FindEquals(t);
    assert t[0] != '=';
    assert t[..e][0] == t[0];
    assert e > 1 ==> t[..e][1] == t[1];
  }

  lemma CanonStable(p: Platform, t: string)
    requires IsSwitch(p, t) && Trim(p, t) == t
    ensures Stable(p, Canon(p, t)) <==> !Fragile(p, t)
  {
    hide Trim, FindEquals, Lower, Canon, IsBlank, PrefixLength;
    CanonParts(p, t);
    var name, value, s := SwitchName(t), SwitchValue(t), Canon(p, t);
    var low := Lower(p, name);
    LowerBlank(p, name, 0);
    LowerBlank(p, name, |name| - 1);
    assert t[0] == name[0] && low[0] == s[0];
    if value != "" {
      assert s[|s| - 1] == value[|value| - 1] == t[|t| - 1];
    } else {
      assert s == low;
      assert s[|s| - 1] == low[|name| - 1];
      assert name[|name| - 1] == t[|name| - 1];
    }
  }

  lemma {:induction false} SwitchesOfNone(p: Platform, ts: seq<string>)
    ensures Switches(p, Arguments(p, ts)) == [] && Arguments(p, Arguments(p, ts)) == Arguments(p, ts)
  {
    hide IsSwitch, Canon;
    if ts != [] && ts[0] != TERMINATOR {
      SwitchesOfNone(p, ts[1..]);
      if !IsSwitch(p, ts[0]) {
        assert Arguments(p, ts) == [ts[0]] + Arguments(p, ts[1..]);
        assert Arguments(p, ts)[1..] == Arguments(p, ts[1..]);
      } else {
        assert Arguments(p, ts) == Arguments(p, ts[1..]);
      }
    }
  }

  lemma {:induction false} ArgumentsAreTrimmed(p: Platform, ts: seq<string>)
    requires forall t :: t in ts ==> Trim(p, t) == t
    ensures forall t :: t in Arguments(p, ts) ==> Trim(p, t) == t
  {
    if ts != [] && ts[0] != TERMINATOR {
      ArgumentsAreTrimmed(p, ts[1..]);
    }
  }

  lemma TerminatorIsNoSwitch(p: Platform, ts: seq<string>)
    ensures !IsSwitch(p, TERMINATOR) && Switches(p, [TERMINATOR] + ts) == []
  {
  }

  /** A stable canonical switch stands for itself; an unstable one is lost or comes back shorter. */
  lemma CanonicalReadBack(p: Platform, s: string)
    requires Canonical(p, s)
    ensures IsSwitch(p, Trim(p, s)) ==> (Canon(p, Trim(p, s)) == s <==> Trim(p, s) == s)
  {
    hide Canon, Trim, IsSwitch;
    var t, c :| IsSwitch(p, c) && s == Canon(p, c) && t == Trim(p, s);
    CanonParts(p, c);
    if IsSwitch(p, t) {
      CanonParts(p, t);
      if t != s {
        TrimShortens(p, s);
      }
    }
  }

  lemma SameList<T>(x: T, xs: seq<T>, y: T, ys: seq<T>)
    ensures [x] + xs == [y] + ys <==> x == y && xs == ys
  {
    if [x] + xs == [y] + ys {
      assert ([x] + xs)[0] == x && ([x] + xs)[1..] == xs;
      assert ([y] + ys)[0] == y && ([y] + ys)[1..] == ys;
    }
  }

  ghost predicate AllStable(p: Platform, ss: seq<string>) {
    forall s :: s in ss ==> Stable(p, s)
  }

  ghost predicate AllCanonical(p: Platform, ss: seq<string>) {
    forall s :: s in ss ==> Canonical(p, s)
  }

  lemma AllStep(p: Platform, ss: seq<string>)
    requires ss != []
    ensures AllStable(p, ss) <==> Stable(p, ss[0]) && AllStable(p, ss[1..])
    ensures AllCanonical(p, ss) <==> Canonical(p, ss[0]) && AllCanonical(p, ss[1..])
  {
    hide Stable, Canonical;
    assert ss == [ss[0]] + ss[1..];
  }

  lemma ReadBackHead(p: Platform, s: string, ts: seq<string>, ss: seq<string>)
    requires Canonical(p, s) && |Switches(p, ts)| <= |ss|
    ensures var found := Switches(p, [Trim(p, s)] + ts);
            |found| <= |ss| + 1 && (found == [s] + ss <==> Stable(p, s) && Switches(p, ts) == ss)
    ensures Stable(p, s) ==> Arguments(p, [Trim(p, s)] + ts) == Arguments(p, ts)
  {
    hide Canon, IsSwitch, Trim, Canonical, Switches, Arguments;
    var t := Trim(p, s);
    TerminatorIsNoSwitch(p, ts);
    if t != TERMINATOR {
      PartitionStep(p, t, ts);
      CanonicalReadBack(p, s);
      SameList(Canon(p, t), Switches(p, ts), s, ss);
    }
  }

  lemma TrimAllStep(p: Platform, ss: seq<string>, rest: seq<string>)
    ensures TrimAll(p, ss) + rest ==
            if ss == [] then rest else [Trim(p, ss[0])] + (TrimAll(p, ss[1..]) + rest)
  {
    hide Trim;
  }

  /** Reading canonical switches, followed by arguments without switches, gives the same
      switches back exactly when all of them are stable. */
  lemma {:induction false} SwitchesReadBack(p: Platform, ss: seq<string>, rest: seq<string>)
    requires AllCanonical(p, ss)
    requires Switches(p, rest) == []
    ensures var found := Switches(p, TrimAll(p, ss) + rest);
            |found| <= |ss| && (found == ss <==> AllStable(p, ss))
    ensures AllStable(p, ss) ==> Arguments(p, TrimAll(p, ss) + rest) == Arguments(p, rest)
  {
    hide Canon, IsSwitch, Trim, Switches, Arguments, TrimAll, Stable, Canonical;
    TrimAllStep(p, ss, rest);
    if ss != [] {
      hide *;
      var ts := TrimAll(p, ss[1..]) + rest;
      AllStep(p, ss);
      SwitchesReadBack(p, ss[1..], rest);
      ReadBackHead(p, ss[0], ts, ss[1..]);
      assert ss == [ss[0]] + ss[1..];
    }
  }

  /** s is the canonical form of a trimmed switch. */
  ghost predicate Canonical(p: Platform, s: string) {
    exists t :: IsSwitch(p, t) && s == Canon(p, t)
  }

  lemma {:induction false} SwitchesFromInputs(p: Platform, ts: seq<string>)
    requires forall t :: t in ts ==> Trim(p, t) == t
    ensures AllCanonical(p, Switches(p, ts))
    ensures AllStable(p, Switches(p, ts)) <==>
            (forall t :: t in SwitchInputs(p, ts) ==> !Fragile(p, t))
  {
    hide Canon, Stable, Fragile, IsSwitch;
    if ts != [] && ts[0] != TERMINATOR {
      SwitchesFromInputs(p, ts[1..]);
      if IsSwitch(p, ts[0]) {
        CanonStable(p, ts[0]);
        var s := Canon(p, ts[0]);
        assert Canonical(p, s);
        assert Switches(p, ts) == [s] + Switches(p, ts[1..]);
        assert SwitchInputs(p, ts) == [ts[0]] + SwitchInputs(p, ts[1..]);
      }
    }
  }

  /** What the second parse is given. */
  lemma ParsedAgain(p: Platform, argv: seq<string>)
    ensures var ts, l := TrimAll(p, Tail(argv)), Parse(p, argv);
            TrimAll(p, Tail(l.argv)) == TrimAll(p, Switches(p, ts)) + Arguments(p, ts) &&
            Trim(p, Program(l.argv)) == Trim(p, Program(argv))
  {
    hide IsSwitch, Trim, Parse, Switches, Arguments, Scan;
    var ts, l := TrimAll(p, Tail(argv)), Parse(p, argv);
    var ss, rest := Switches(p, ts), Arguments(p, ts);
    ParsePartitions(p, argv);
    assert Tail(l.argv) == ss + rest;
    ArgumentsAreTrimmed(p, ts);
    assert Program(l.argv) == Trim(p, Program(argv));
  }

  lemma SameParts<T>(x: T, a: seq<T>, b: seq<T>, c: seq<T>, d: seq<T>)
    ensures [x] + a + b == [x] + c + d && |a| == |c| ==> a == c && b == d
  {
    if [x] + a + b == [x] + c + d && |a| == |c| {
      assert ([x] + a + b)[1..1 + |a|] == a && ([x] + c + d)[1..1 + |c|] == c;
      assert ([x] + a + b)[1 + |a|..] == b && ([x] + c + d)[1 + |c|..] == d;
    }
  }

  /** Parsing the list of a parsed command line changes nothing, exactly when no switch was
      written with a fragile empty value. */
  lemma Reparse(p: Platform, argv: seq<string>)
    ensures var l := Parse(p, argv);
            Parse(p, l.argv) == l <==> forall t :: t in SwitchInputs(p, TrimAll(p, Tail(argv))) ==> !Fragile(p, t)
  {
    hide *;
    var ts, l := TrimAll(p, Tail(argv)), Parse(p, argv);
    var ss, rest := Switches(p, ts), Arguments(p, ts);
    var us := TrimAll(p, Tail(l.argv));
    ParsePartitions(p, argv);
    ParsePartitions(p, l.argv);
    ParsedAgain(p, argv);
    SwitchesOfNone(p, ts);
    SwitchesFromInputs(p, ts);
    SwitchesReadBack(p, ss, rest);
    SameParts(Trim(p, Program(argv)), ss, rest, Switches(p, us), Arguments(p, us));
  }

  /** Appending a parsed command line, program included, to an empty one gives a copy of it, exactly
      when no switch was written with a fragile empty value. */
  lemma CopyByAppending(p: Platform, argv: seq<string>)
    ensures var l := Parse(p, argv);
            AppendOther(p, NO_PROGRAM, l, true) == l <==>
            forall t :: t in SwitchInputs(p, TrimAll(p, Tail(argv))) ==> !Fragile(p, t)
  {
    hide AppendAll, SwitchInputs, Fragile, SetProgram;
    Reparse(p, argv);
  }
}
