/** When printing a parsed command line, splitting the text and parsing the pieces gives the command
    line back (base/command_line.cc, under Windows). That nothing else than the printable command
    lines comes back is shown with two weights: quotes and backslashes, which quotes in switch names
    lose for good, and length, which every other unprintable string loses. */
module Restoring {
  import opened Quoting
  import opened CommandLines
  import opened Parsing
  import opened Printing
  import opened TextWeights

  // ---------------------------------------------------------------------------
  // Length, and one for each string.
  // ---------------------------------------------------------------------------

  function Weight(s: string): nat {
    2 * |s| + 1
  }

  /** Text printed without quotes is cut at its delimiters, and is lost when there is none of it. */
  lemma {:induction false} PlainWeight(p: string, tail: string)
    requires '"' !in p && Boundary(tail)
    ensures Total(Weight, Split(p + tail)) <= Weight(p) + Total(Weight, Split(tail))
    ensures p == "" || ' ' in p || '\t' in p ==> Total(Weight, Split(p + tail)) < Weight(p) + Total(Weight, Split(tail))
    decreases |p|
  {
    hide Split;
    if p == "" {
      assert p + tail == tail;
    } else if ' ' !in p && '\t' !in p {
      SplitPlain(p, tail);
      TotalOne(Weight, p, Split(tail));
    } else {
      var k := FirstDelimiter(p);
      var rest := p[k + 1..];
      PlainWeight(rest, tail);
      SplitAtDelimiter(p, k, tail);
      hide Total;
      assert Weight(p[..k]) + Weight(rest) == Weight(p) - 1;
      TotalOne(Weight, p[..k], Split(rest + tail));
    }
  }

  function FirstDelimiter(p: string): (k: nat)
    requires ' ' in p || '\t' in p
    ensures k < |p| && IsDelimiter(p[k]) && ' ' !in p[..k] && '\t' !in p[..k]
  {
    if IsDelimiter(p[0]) then 0 else
      var k := FirstDelimiter(p[1..]);
      assert p[..k + 1] == [p[0]] + p[1..][..k];
      k + 1
  }

  lemma SplitAtDelimiter(p: string, k: nat, tail: string)
    requires k < |p| && IsDelimiter(p[k]) && '"' !in p[..k] && ' ' !in p[..k] && '\t' !in p[..k]
    ensures k == 0 ==> Split(p + tail) == Split(p[k + 1..] + tail)
    ensures k > 0 ==> Split(p + tail) == [p[..k]] + Split(p[k + 1..] + tail)
  {
    hide ReadArg;
    var rest := p[k..] + tail;
    assert p + tail == p[..k] + rest;
    assert rest[1..] == p[k + 1..] + tail;
    if k > 0 {
      SplitPlain(p[..k], rest);
    } else {
      assert p + tail == rest;
    }
  }

  /** The same in front of a quoted value. */
  lemma {:induction false} PlainThenQuoted(p: string, v: string, tail: string)
    requires '"' !in p && p != "" && p[|p| - 1] == '=' && Boundary(tail)
    ensures Total(Weight, Split(p + Quoted(v) + tail)) <= Weight(p + v) + Total(Weight, Split(tail))
    ensures ' ' in p || '\t' in p ==>
              Total(Weight, Split(p + Quoted(v) + tail)) < Weight(p + v) + Total(Weight, Split(tail))
    decreases |p|
  {
    hide Split, Quoted;
    if ' ' !in p && '\t' !in p {
      SplitWord(p, v, tail);
      TotalOne(Weight, p + v, Split(tail));
    } else {
      var k := FirstDelimiter(p);
      var rest := p[k + 1..];
      assert p[k] != '=';
      PlainThenQuoted(rest, v, tail);
      SplitAtDelimiter(p, k, Quoted(v) + tail);
      assert p + Quoted(v) + tail == p + (Quoted(v) + tail);
      assert rest + Quoted(v) + tail == rest + (Quoted(v) + tail);
      hide Total;
      assert Weight(p[..k]) + Weight(rest + v) == Weight(p + v) - 1;
      TotalOne(Weight, p[..k], Split(rest + Quoted(v) + tail));
    }
  }

  lemma SwitchWeight(t: string, tail: string)
    requires IsSwitch(Windows, t) && '"' !in SwitchName(t) && !Printable(t, true) && Boundary(tail)
    ensures Total(Weight, Split(Render(Windows, t, true) + tail)) < Weight(t) + Total(Weight, Split(tail))
  {
    hide Split, Quoted, FindEquals, PrefixLength, NeedsQuotes, Total;
    var name, value := SwitchName(t), SwitchValue(t);
    SwitchParts(t);
    if value == "" {
      assert name + "" == name;
      PlainWeight(name, tail);
    } else if NeedsQuotes(value) {
      var p := name + "=";
      PlainThenQuoted(p, value, tail);
      assert Render(Windows, t, true) == p + Quoted(value);
      assert ' ' in name || '\t' in name;
      assert forall c :: c in name ==> c in p;
    } else {
      assert Render(Windows, t, true) == t by {
        assert name + ("=" + value) == name + "=" + value;
      }
      assert '"' !in value by { PlainHasNoQuote(value); }
      assert forall c :: c in name || c in value ==> c in t;
      PlainWeight(t, tail);
    }
  }

  lemma PlainHasNoQuote(v: string)
    requires !NeedsQuotes(v)
    ensures '"' !in v && ' ' !in v
  {
  }

  lemma RenderWeight(t: string, parse: bool, tail: string)
    requires Boundary(tail) && (parse && IsSwitch(Windows, t) ==> '"' !in SwitchName(t))
    ensures Total(Weight, Split(Render(Windows, t, parse) + tail)) <= Weight(t) + Total(Weight, Split(tail))
    ensures !Printable(t, parse) ==>
              Total(Weight, Split(Render(Windows, t, parse) + tail)) < Weight(t) + Total(Weight, Split(tail))
  {
    hide Split, IsSwitch, Total, Weight;
    if Printable(t, parse) {
      hide Printable, Render;
      PrintableReadsBack(t, parse, tail);
      TotalOne(Weight, t, Split(tail));
    } else if parse && IsSwitch(Windows, t) {
      hide Printable, Render;
      SwitchWeight(t, tail);
    } else {
      PlainWeight(t, tail);
    }
  }

  lemma {:induction false} RenderAllWeight(ts: seq<string>, parse: bool)
    requires CleanNames(ts, parse)
    ensures Total(Weight, Split(RenderAll(Windows, ts, parse))) <= Total(Weight, ts)
    ensures !AllPrintable(ts, parse) ==> Total(Weight, Split(RenderAll(Windows, ts, parse))) < Total(Weight, ts)
  {
    hide Split, Render, IsSwitch, Printable, Weight;
    if ts == [] {
      SplitNothing();
    } else {
      var here := parse && ts[0] != TERMINATOR;
      RenderAllStep(ts, parse);
      RenderAllWeight(ts[1..], here);
      RenderWeight(ts[0], here, RestOf(ts, here));
      SplitRest(ts, here);
    }
  }

  // ---------------------------------------------------------------------------
  // Parsing adds none of it.
  // ---------------------------------------------------------------------------

  lemma WeightShrinks()
    ensures Shrinks(Weight)
  {
    hide Canon;
    forall t | IsSwitch(Windows, t) ensures |Canon(Windows, t)| <= |t| {
      CanonParts(Windows, t);
    }
  }

  // ---------------------------------------------------------------------------
  // Restoring.
  // ---------------------------------------------------------------------------

  /** Reading the printed list and parsing it cannot give a list that is not printable. */
  lemma OnlyPrintableRestored(ts: seq<string>, program: string)
    requires Parse(Windows, [program] + Split(RenderAll(Windows, ts, true))).argv[1..] == ts
    ensures AllPrintable(ts, true)
  {
    hide *;
    var text := RenderAll(Windows, ts, true);
    var argv := [program] + Split(text);
    assert argv[1..] == Split(text);
    MarksShrink();
    WeightShrinks();
    ParseTotal(Marks, argv);
    SplitMarks(text);
    RenderAllMarks(ts, true);
    ParseTotal(Weight, argv);
    RenderAllWeight(ts, true);
  }

  /** Printing a parsed command line, splitting the text and parsing the pieces gives the same
      command line back exactly when all its strings are printable and no switch had a fragile
      empty value. */
  lemma PrintAndReparse(argv: seq<string>)
    ensures var l := Parse(Windows, argv);
            Parse(Windows, [l.argv[0]] + Split(RenderAll(Windows, l.argv[1..], true))) == l <==>
            AllPrintable(l.argv[1..], true) &&
            forall t :: t in SwitchInputs(Windows, TrimAll(Windows, Tail(argv))) ==> !Fragile(Windows, t)
  {
    var l := Parse(Windows, argv);
    assert WellFormed(l);
    hide *;
    if Parse(Windows, [l.argv[0]] + Split(RenderAll(Windows, l.argv[1..], true))) == l {
      OnlyPrintableRestored(l.argv[1..], l.argv[0]);
    }
    PrintedTextSplitsBack(l.argv[1..], true);
    assert l.argv == [l.argv[0]] + l.argv[1..];
    Reparse(Windows, argv);
  }
}
