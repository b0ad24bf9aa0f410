/** What GetArgumentsString gives, string by string; under POSIX, where nothing is quoted, that is
    the strings themselves. */
module PrintedText {
  import opened CommandLines
  import opened Parsing
  import opened Printing
  import opened Quoting

  /** The only '=' is the last character. */
  predicate EndsBare(t: string) {
    t != "" && t[|t| - 1] == '=' && '=' !in t[..|t| - 1]
  }

  /** String i is a switch before the first terminator, with a '=' and no value. */
  predicate IsBareSwitch(ts: seq<string>, i: nat)
    requires i < |ts|
  {
    TERMINATOR !in ts[..i + 1] && IsSwitch(Posix, ts[i]) && EndsBare(ts[i])
  }

  /** The strings without the '=' of such switches. */
  function BareDropped(ts: seq<string>): (r: seq<string>)
    ensures |r| == |ts|
    ensures forall i :: 0 <= i < |ts| ==> if IsBareSwitch(ts, i) then |r[i]| < |ts[i]| else r[i] == ts[i]
  {
    seq(|ts|, i requires 0 <= i < |ts| => if IsBareSwitch(ts, i) then ts[i][..|ts[i]| - 1] else ts[i])
  }

  /** The form in which Windows command lines are printed: arguments are quoted as a whole, of the
      switches before the first terminator the value only. */
  function QuotedParts(ts: seq<string>): (r: seq<string>)
    ensures |r| == |ts|
  {
    seq(|ts|, i requires 0 <= i < |ts| =>
      var name, value := SwitchName(ts[i]), SwitchValue(ts[i]);
      if TERMINATOR in ts[..i + 1] || !IsSwitch(Windows, ts[i]) then Quote(ts[i])
      else if value == "" then name
      else name + "=" + Quote(value))
  }

  lemma EndsBareMeans(t: string)
    ensures EndsBare(t) <==> '=' in t && SwitchValue(t) == ""
    ensures EndsBare(t) ==> SwitchName(t) == t[..|t| - 1]
    ensures !EndsBare(t) ==> SwitchName(t) + (if SwitchValue(t) == "" then "" else "=" + SwitchValue(t)) == t
  {
    hide FindEquals;
    SwitchParts(t);
    var e := FindEquals(t);
    if e < |t| {
      assert t[..e] + "=" + t[e + 1..] == t[..e] + ("=" + t[e + 1..]);
      assert t[e + 1..] == "" ==> e == |t| - 1;
    } else {
      assert '=' !in t;
      assert t + "" == t;
    }
  }

  lemma RenderPosix(t: string, parse: bool)
    ensures Render(Posix, t, parse) == if parse && IsSwitch(Posix, t) && EndsBare(t) then t[..|t| - 1] else t
  {
    hide EndsBare, SwitchName, SwitchValue, IsSwitch;
    EndsBareMeans(t);
    assert SwitchName(t) + "" == SwitchName(t);
  }

  lemma RenderWindows(t: string, parse: bool)
    ensures var name, value := SwitchName(t), SwitchValue(t);
            Render(Windows, t, parse) ==
            if !parse || !IsSwitch(Windows, t) then Quote(t)
            else if value == "" then name
            else name + "=" + Quote(value)
  {
    hide SwitchName, SwitchValue, IsSwitch, Quote;
    var name, value := SwitchName(t), SwitchValue(t);
    assert name + "" == name && name + "=" + Quote(value) == name + ("=" + Quote(value));
  }

  /** Each string in its printed form. */
  function Shown(p: Platform, ts: seq<string>, parse: bool): (r: seq<string>)
    ensures |r| == |ts|
  {
    seq(|ts|, i requires 0 <= i < |ts| => Render(p, ts[i], parse && TERMINATOR !in ts[..i + 1]))
  }

  lemma ShownStep(p: Platform, ts: seq<string>, parse: bool)
    requires ts != []
    ensures var here := parse && ts[0] != TERMINATOR;
            Shown(p, ts, parse) == [Render(p, ts[0], here)] + Shown(p, ts[1..], here)
  {
    hide Render;
    var us, here := ts[1..], parse && ts[0] != TERMINATOR;
    TerminatorBefore(ts, 0);
    forall i: nat | i < |us| ensures Shown(p, ts, parse)[i + 1] == Shown(p, us, here)[i] {
      TerminatorBefore(ts, i + 1);
    }
  }

  lemma TerminatorBefore(ts: seq<string>, i: nat)
    requires i < |ts|
    ensures TERMINATOR in ts[..i + 1] <==> ts[0] == TERMINATOR || (i > 0 && TERMINATOR in ts[1..][..i])
  {
    assert ts[..i + 1] == [ts[0]] + ts[1..][..i];
  }

  lemma {:induction false} RenderAllJoins(p: Platform, ts: seq<string>, parse: bool)
    ensures RenderAll(p, ts, parse) == Join(Shown(p, ts, parse))
  {
    if ts != [] {
      hide Join, Render, Shown;
      var here := parse && ts[0] != TERMINATOR;
      RenderAllJoins(p, ts[1..], here);
      ShownStep(p, ts, parse);
      JoinFront(Render(p, ts[0], here), Shown(p, ts[1..], here));
      assert Render(p, ts[0], here) + "" == Render(p, ts[0], here);
    }
  }

  /** The printed strings are joined by single spaces; under POSIX they are the strings themselves,
      but for the '=' of a switch without a value. */
  lemma PrintedJoins(p: Platform, ts: seq<string>)
    ensures RenderAll(p, ts, true) == Join(if p.Windows? then QuotedParts(ts) else BareDropped(ts))
  {
    RenderAllJoins(p, ts, true);
    hide Join, SwitchName, SwitchValue, IsSwitch, Quote, EndsBare, Render;
    forall i: nat | i < |ts|
      ensures Shown(p, ts, true)[i] == (if p.Windows? then QuotedParts(ts) else BareDropped(ts))[i]
    {
      RenderPosix(ts[i], TERMINATOR !in ts[..i + 1]);
      RenderWindows(ts[i], TERMINATOR !in ts[..i + 1]);
    }
    assert Shown(p, ts, true) == if p.Windows? then QuotedParts(ts) else BareDropped(ts);
  }

  /** The text is the strings joined by single spaces if and only if there is no such switch. */
  lemma PosixTextJoins(ts: seq<string>)
    ensures RenderAll(Posix, ts, true) == Join(ts) <==>
            forall i :: 0 <= i < |ts| && TERMINATOR !in ts[..i + 1] && IsSwitch(Posix, ts[i]) ==> !EndsBare(ts[i])
  {
    hide Join, EndsBare, IsSwitch;
    PrintedJoins(Posix, ts);
    var shown := BareDropped(ts);
    JoinShorter(shown, ts);
    if shown == ts {
      forall i | 0 <= i < |ts| && TERMINATOR !in ts[..i + 1] && IsSwitch(Posix, ts[i]) ensures !EndsBare(ts[i]) {
        assert !IsBareSwitch(ts, i);
      }
    }
  }

  lemma CanonNotBare(t: string)
    requires IsSwitch(Posix, t)
    ensures !EndsBare(Canon(Posix, t))
  {
    hide Canon, FindEquals, Lower;
    CanonParts(Posix, t);
    EndsBareMeans(Canon(Posix, t));
  }

  lemma {:induction false} SwitchesNotBare(ts: seq<string>)
    ensures forall s :: s in Switches(Posix, ts) ==> !EndsBare(s)
  {
    hide EndsBare, Canon, IsSwitch;
    if ts != [] && ts[0] != TERMINATOR {
      SwitchesNotBare(ts[1..]);
      if IsSwitch(Posix, ts[0]) {
        CanonNotBare(ts[0]);
      }
    }
  }

  /** After the first terminator everything is an argument, before it everything but switches. */
  ghost predicate NoSwitchBeforeTerminator(p: Platform, xs: seq<string>) {
    forall i :: 0 <= i < |xs| && IsSwitch(p, xs[i]) ==> TERMINATOR in xs[..i + 1]
  }

  lemma NoSwitchMore(p: Platform, x: string, xs: seq<string>)
    requires x == TERMINATOR || (!IsSwitch(p, x) && NoSwitchBeforeTerminator(p, xs))
    ensures NoSwitchBeforeTerminator(p, [x] + xs)
  {
    hide IsSwitch;
    var all := [x] + xs;
    forall i: nat | i < |all| && IsSwitch(p, all[i]) ensures TERMINATOR in all[..i + 1] {
      TerminatorBefore(all, i);
      assert all[1..] == xs;
    }
  }

  lemma {:induction false} ArgumentsNoSwitches(p: Platform, ts: seq<string>)
    ensures NoSwitchBeforeTerminator(p, Arguments(p, ts))
  {
    hide IsSwitch;
    if ts != [] {
      hide NoSwitchBeforeTerminator;
      assert ts == [ts[0]] + ts[1..];
      if ts[0] == TERMINATOR {
        NoSwitchMore(p, ts[0], ts[1..]);
      } else {
        ArgumentsNoSwitches(p, ts[1..]);
        PartitionStep(p, ts[0], ts[1..]);
        hide Arguments;
        var ys := Arguments(p, ts[1..]);
        assert [] + ys == ys;
        if !IsSwitch(p, ts[0]) {
          NoSwitchMore(p, ts[0], ys);
        }
      }
    }
  }

  /** The text of every parsed command line is its strings joined by single spaces. */
  lemma ParsedPosixText(argv: seq<string>)
    ensures var l := Parse(Posix, argv); RenderAll(Posix, l.argv[1..], true) == Join(l.argv[1..])
  {
    hide Switches, Arguments, TrimAll, Parse, EndsBare, IsSwitch, Join, RenderAll, Trim, Scan;
    var ts, l := TrimAll(Posix, Tail(argv)), Parse(Posix, argv);
    ParsePartitions(Posix, argv);
    var ss, xs, all := Switches(Posix, ts), Arguments(Posix, ts), l.argv[1..];
    assert all == ss + xs;
    SwitchesNotBare(ts);
    ArgumentsNoSwitches(Posix, ts);
    PosixTextJoins(all);
    forall i | 0 <= i < |all| && IsSwitch(Posix, all[i]) && EndsBare(all[i]) ensures TERMINATOR in all[..i + 1] {
      assert all[i] == xs[i - |ss|];
      assert all[..i + 1] == ss + xs[..i - |ss| + 1];
    }
  }
}
