/** Inputs for which the code does not do what its callers might expect; the exact conditions are
    in the lemmas of the other modules. */
module Counterexamples {
  import opened Wrappers
  import opened Quoting
  import opened CommandLines
  import opened Parsing
  import opened Printing
  import opened Restoring
  import IdMaps
  import Env = Environment

  /** An empty argument is not quoted and disappears. */
  lemma EmptyArgument()
    ensures Split(QuoteAll([""])) == []
  {
  }

  /** A tab does not make the printer add quotes, and the argument falls apart. */
  lemma TabbedArgument()
    ensures Split(QuoteAll(["a\tb"])) == ["a", "b"]
  {
    var s := "a\tb";
    assert QuoteAll([s]) == s;
    assert s[1..] == "\tb" && s[1..][1..] == "b" && s[1..][1..][1..] == "";
    assert ReadArg(s[1..], false) == ("", s[1..]);
    assert ['a'] + "" == "a" && ['b'] + "" == "b" && "b"[1..] == "";
    assert ReadArg("", false) == ("", "");
    assert ReadArg(s, false) == ("a", s[1..]);
    assert ReadArg("b", false) == ("b", "");
  }

  /** A switch name with a '=' in it: the map has it whole, a scan of the list does not. */
  lemma NameWithEquals()
    ensures !Consistent(Posix, AppendSwitch(Posix, NO_PROGRAM, "a=b", ""))
  {
    AppendSwitchAgrees(Posix, NO_PROGRAM, "a=b", "");
    assert "a=b"[1] == '=';
  }

  /** `--=` becomes `--`, which a second parse takes for the terminator. */
  lemma EmptyNameAndValue()
    ensures var l := Parse(Posix, ["", "--="]); Parse(Posix, l.argv) != l
  {
    hide Parse, Trim, Scan;
    Reparse(Posix, ["", "--="]);
    var t := "--=";
    assert TrimAll(Posix, ["", t][1..]) == [t];
    assert t[1..] == "-=" && t[1..][1..] == "=" && FindEquals(t) == 2;
    assert SwitchInputs(Posix, [t]) == [t] + SwitchInputs(Posix, []);
    assert t in SwitchInputs(Posix, [t]) && Fragile(Posix, t);
  }

  lemma ParseOneSwitch(p: Platform, t: string)
    requires IsSwitch(p, t) && Trim(p, t) == t
    ensures Parse(p, ["", t]).switches == map[TokenKey(p, Canon(p, t)) := SwitchValue(Canon(p, t))]
  {
    hide Trim, IsSwitch, Canon, TokenKey, SwitchValue;
    assert TrimAll(p, Tail(["", t])) == [t];
    ParsePartitions(p, ["", t]);
    hide Parse;
    assert Switches(p, [t]) == [Canon(p, t)] + Switches(p, []) by {
      assert t != TERMINATOR by { TerminatorIsNoSwitch(p, []); }
    }
    assert [Canon(p, t)][..0] == [];
  }

  lemma LongSwitch()
    ensures var t := "----a=1";
            IsSwitch(Posix, t) && Trim(Posix, t) == t && Canon(Posix, t) == t &&
            TokenKey(Posix, t) == "--a" && SwitchValue(t) == "1"
  {
    var t := "----a=1";
    FindEqualsIs("----a", "=1");
    assert t == "----a" + "=1" && t[..5] == "----a" && t[6..] == "1" && t[2..5] == "--a";
    hide FindEquals;
    assert SwitchName(t) == "----a" && SwitchValue(t) == "1";
    assert "" + "----a" + ("=" + "1") == t;
  }

  lemma CopyShort()
    ensures CopySwitches(Posix, NO_PROGRAM, map["--a" := "1"], ["--a"]).switches == map["a" := "1"]
  {
    var source, names := map["--a" := "1"], ["--a"];
    assert names[1..] == [];
    assert SwitchKey(Posix, "--a") == "a";
    hide SwitchKey, SwitchToken;
    assert CopySwitches(Posix, NO_PROGRAM, source, names) ==
           CopySwitches(Posix, AppendSwitch(Posix, NO_PROGRAM, "--a", "1"), source, []);
  }

  /** A name that the source has and that is written with a prefix: `----a=1` is entered as `--a`, and
      copying `--a` enters `a`. */
  lemma PrefixedName()
    ensures var source := Parse(Posix, ["", "----a=1"]).switches;
            source == map["--a" := "1"] && CopySwitches(Posix, NO_PROGRAM, source, ["--a"]).switches == map["a" := "1"]
  {
    hide *;
    LongSwitch();
    ParseOneSwitch(Posix, "----a=1");
    CopyShort();
  }

  lemma WrapperOf(p: Platform, w: string, pieces: seq<string>)
    requires w != "" && Cut(w) == pieces && TrimAll(p, pieces) != [""]
    ensures PrependWrapper(p, NO_PROGRAM, w).argv == TrimAll(p, pieces) + [""]
  {
    hide Cut, SplitString, TrimAll;
    SplitStringCuts(p, w, [], "");
    assert "" + pieces[0] == pieces[0] && [pieces[0]] + pieces[1..] == pieces;
    assert [] + TrimAll(p, pieces) == TrimAll(p, pieces);
  }

  /** A wrapper with a tab next to a space: the piece loses it. Inside a piece it stays. */
  lemma BlankAtEdge()
    ensures PrependWrapper(Posix, NO_PROGRAM, "a \tb").argv == ["a", "b", ""]
    ensures PrependWrapper(Posix, NO_PROGRAM, "a\tb").argv == ["a\tb", ""]
  {
    var s, u := "a \tb", "a\tb";
    CutShort();
    hide *;
    WrapperOf(Posix, s, ["a", "\tb"]);
    WrapperOf(Posix, u, [u]);
    assert ["a", "b"] + [""] == ["a", "b", ""] && [u] + [""] == [u, ""];
  }

  lemma CutShort()
    ensures TrimAll(Posix, ["a", "\tb"]) == ["a", "b"] && TrimAll(Posix, ["a\tb"]) == ["a\tb"]
    ensures Cut("a \tb") == ["a", "\tb"] && Cut("a\tb") == ["a\tb"]
  {
    assert ['b'] + "" == "b" && ['\t'] + "b" == "\tb" && ['a'] + "" == "a" && ['a'] + "\tb" == "a\tb";
    assert "b"[1..] == "" && "\tb"[1..] == "b" && " \tb"[1..] == "\tb";
    assert "a \tb"[1..] == " \tb" && "a\tb"[1..] == "\tb";
    assert "\tb"[1..] == "b" && Trim(Posix, "b") == "b";
    assert Trim(Posix, "\tb") == "b";
    hide Cut, Trim;
    CutStep("");
    CutStep("b");
    CutStep("\tb");
    CutStep(" \tb");
    CutStep("a \tb");
    CutStep("a\tb");
  }

  lemma RenderOneSwitch(t: string)
    requires IsSwitch(Windows, t) && '=' !in t
    ensures RenderAll(Windows, [t], true) == t
  {
    FindEqualsIs(t, "");
    assert t + "" == t && t[..|t|] == t;
  }

  /** A switch name with a blank is printed as it is and falls apart. */
  lemma NameWithBlank()
    ensures Split(RenderAll(Windows, ["--a b"], true)) == ["--a", "b"]
  {
    var t := "--a b";
    RenderOneSwitch(t);
    assert t == "--a" + " b" && " b"[1..] == "b" && "b" + "" == "b";
    hide RenderAll, ReadArg;
    SplitPlain("--a", " b");
    SplitPlain("b", "");
  }

  /** A quote in a switch name is printed as it is and read as the start of a quoted region. */
  lemma NameWithQuote()
    ensures Split(RenderAll(Windows, ["--a\"b"], true)) == ["--ab"]
  {
    var t := "--a\"b";
    RenderOneSwitch(t);
    hide RenderAll;
    ReadOrdinary('b', "", true);
    ReadToggle("b", false);
    ReadPlain("--a", "\"b");
    assert ['b'] + "" == "b" && "\"" + "b" == "\"b" && t == "--a" + "\"b" && "--a" + "b" == "--ab";
    SplitReads(t);
  }

  /** Clear on an external-pointer map that nobody iterates over leaves everything in it. */
  lemma ClearKeeps(data: nat)
    ensures var t := IdMaps.Table([IdMaps.Entry(1, data)], {}, 0, 2, multiset{});
            IdMaps.Valid(t) && IdMaps.Clear(false, t) == t && IdMaps.Size(IdMaps.Clear(false, t)) == 1
  {
  }

  /** A changed variable with a '=' in its name is not found under that name. */
  lemma VariableWithEquals()
    ensures var changes := [Env.Change("a=b", "c")];
            Env.Lookup(Env.Altered([], changes), "a=b") == None &&
            !Env.Answers(Env.Altered([], changes), [], changes)
  {
    var c := Env.Change("a=b", "c");
    Env.AlteredIs([], [c]);
    hide Env.Altered;
    assert [c][0].key == "a=b";
    assert Env.Added([c]) == [Env.Text(c)];
    assert Env.Text(c) == "a=b=c";
    assert "a=b=c"[1..][0] == '=';
    assert Env.Find("a=b=c"[1..], '=') == 0 && Env.Find("a=b=c", '=') == 1;
    assert Env.KeyOf("a=b=c") == "a";
    assert [Env.Text(c)][1..] == [];
  }

  /** A NUL in a changed value ends the line early and begins another one. */
  lemma ValueWithNul()
    ensures var lines := Env.Altered([], [Env.Change("a", "b\0c")]);
            Env.IsBlock(Env.Block(lines)) && Env.Lines(Env.Block(lines)) == ["a=b", "c"]
  {
    var c := Env.Change("a", "b\0c");
    TextWithNul(c);
    hide *;
    Env.TerminatedReads(["a=b", "c"], "");
    var text := "a=b\0c\0";
    assert text + [Env.NUL] + "" == text + [Env.NUL];
  }

  lemma TextWithNul(c: Env.Change)
    requires c == Env.Change("a", "b\0c")
    ensures Env.Block(Env.Altered([], [c])) == "a=b\0c\0" + [Env.NUL] && Env.Terminated(["a=b", "c"]) == "a=b\0c\0"
  {
    var text, read := "a=b\0c\0", ["a=b", "c"];
    assert Env.Text(c) == "a=b\0c" && Env.Text(c) + [Env.NUL] == text;
    assert [Env.Text(c)][1..] == [] && Env.Terminated([]) == "" && text + "" == text;
    assert [c][1..] == [] && Env.Added([]) == [] && Env.Added([c]) == [Env.Text(c)];
    Env.AlteredIs([], [c]);
    hide Env.Altered;
    assert Env.Kept([], [c]) == [] && Env.Altered([], [c]) == [Env.Text(c)];
    assert Env.Terminated([Env.Text(c)]) == text;
    assert read[1..] == ["c"] && ["c"][1..] == [];
    assert "c" + [Env.NUL] + "" == "c\0" && Env.Terminated(["c"]) == "c\0";
    assert "a=b" + [Env.NUL] + "c\0" == text;
  }
}
