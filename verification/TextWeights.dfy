/** How many quotes and backslashes survive printing, splitting and parsing of a command line
    (base/command_line.cc, under Windows), and what parsing does to any weight of its strings. */
module TextWeights {
  import opened Quoting
  import opened CommandLines
  import opened Parsing
  import opened Printing

  function Total(f: string -> nat, ts: seq<string>): nat {
    if ts == [] then 0 else f(ts[0]) + Total(f, ts[1..])
  }

  lemma {:induction false} TotalJoined(f: string -> nat, a: seq<string>, b: seq<string>)
    ensures Total(f, a + b) == Total(f, a) + Total(f, b)
  {
    if a == [] {
      assert a + b == b;
    } else {
      assert (a + b)[1..] == a[1..] + b;
      TotalJoined(f, a[1..], b);
    }
  }

  lemma TotalOne(f: string -> nat, t: string, ts: seq<string>)
    ensures Total(f, [t] + ts) == f(t) + Total(f, ts)
  {
    assert ([t] + ts)[1..] == ts;
  }

  // ---------------------------------------------------------------------------
  // Parsing does not add weight.
  // ---------------------------------------------------------------------------

  /** Neither trimming a string nor writing it as a switch token makes it heavier. */
  ghost predicate Shrinks(f: string -> nat) {
    (forall t :: f(Trim(Windows, t)) <= f(t)) &&
    (forall t :: IsSwitch(Windows, t) ==> f(Canon(Windows, t)) <= f(t))
  }

  lemma {:induction false} TrimTotal(f: string -> nat, xs: seq<string>)
    requires Shrinks(f)
    ensures Total(f, TrimAll(Windows, xs)) <= Total(f, xs)
  {
    if xs != [] {
      hide Trim;
      TrimTotal(f, xs[1..]);
      assert TrimAll(Windows, xs)[1..] == TrimAll(Windows, xs[1..]);
    }
  }

  lemma {:induction false} PartsTotal(f: string -> nat, us: seq<string>)
    requires Shrinks(f)
    ensures Total(f, Switches(Windows, us)) + Total(f, Arguments(Windows, us)) <= Total(f, us)
  {
    if us != [] && us[0] != TERMINATOR {
      hide IsSwitch, Canon;
      var t, rest := us[0], us[1..];
      assert us == [t] + rest;
      PartsTotal(f, rest);
      PartitionStep(Windows, t, rest);
      TotalJoined(f, if IsSwitch(Windows, t) then [Canon(Windows, t)] else [], Switches(Windows, rest));
      TotalJoined(f, if IsSwitch(Windows, t) then [] else [t], Arguments(Windows, rest));
    }
  }

  /** What comes out of parsing is no heavier than what went in. */
  lemma ParseTotal(f: string -> nat, argv: seq<string>)
    requires Shrinks(f) && argv != []
    ensures Total(f, Parse(Windows, argv).argv[1..]) <= Total(f, argv[1..])
  {
    var us := TrimAll(Windows, argv[1..]);
    ParsedTail(argv);
    hide *;
    TrimTotal(f, argv[1..]);
    PartsTotal(f, us);
    TotalJoined(f, Switches(Windows, us), Arguments(Windows, us));
  }

  lemma ParsedTail(argv: seq<string>)
    requires argv != []
    ensures var us := TrimAll(Windows, argv[1..]);
            Parse(Windows, argv).argv != [] &&
            Parse(Windows, argv).argv[1..] == Switches(Windows, us) + Arguments(Windows, us)
  {
    assert Tail(argv) == argv[1..];
    hide *;
    var us := TrimAll(Windows, argv[1..]);
    ParsePartitions(Windows, argv);
    AfterFirst(Trim(Windows, Program(argv)), Switches(Windows, us), Arguments(Windows, us));
  }

  lemma AfterFirst(x: string, a: seq<string>, b: seq<string>)
    ensures ([x] + a + b)[1..] == a + b
  {
  }

  // ---------------------------------------------------------------------------
  // Quotes and backslashes.
  // ---------------------------------------------------------------------------

  function Marks(s: string): nat {
    if s == "" then 0 else (if s[0] == '"' || s[0] == '\\' then 1 else 0) + Marks(s[1..])
  }

  /** The quotes and backslashes that a reader of the text keeps, whatever is quoted in it. */
  function TextMarks(s: string): nat
    decreases |s|
  {
    if s == "" then 0
    else if s[0] == '\\' then
      var n := BackslashRun(s);
      if n < |s| && s[n] == '"' then n / 2 + n % 2 + TextMarks(s[n + 1..]) else n + TextMarks(s[n..])
    else TextMarks(s[1..])
  }

  lemma {:induction false} MarksJoined(a: string, b: string)
    ensures Marks(a + b) == Marks(a) + Marks(b)
  {
    if a == "" {
      assert a + b == b;
    } else {
      assert (a + b)[1..] == a[1..] + b;
      MarksJoined(a[1..], b);
    }
  }

  lemma {:induction false} MarksOfRun(n: nat)
    ensures Marks(Backslashes(n)) == n
  {
    if n > 0 {
      assert Backslashes(n)[1..] == Backslashes(n - 1);
      MarksOfRun(n - 1);
    }
  }

  lemma TextRunAndQuote(n: nat, w: string)
    ensures TextMarks(Backslashes(n) + ("\"" + w)) == n / 2 + n % 2 + TextMarks(w)
  {
    var s := Backslashes(n) + ("\"" + w);
    BackslashRunIs(n, "\"" + w);
    assert s[n] == '"' && s[n + 1..] == w;
  }

  lemma TextRun(n: nat, w: string)
    requires w == "" || (w[0] != '\\' && w[0] != '"')
    ensures TextMarks(Backslashes(n) + w) == n + TextMarks(w)
  {
    var s := Backslashes(n) + w;
    BackslashRunIs(n, w);
    assert s[n..] == w;
    if n == 0 {
      assert s == w;
    } else {
      assert n < |s| ==> s[n] == w[0];
    }
  }

  lemma TextOther(c: char, w: string)
    requires c != '\\'
    ensures TextMarks([c] + w) == TextMarks(w)
  {
    assert ([c] + w)[1..] == w;
  }

  /** Every text is empty, or a run of backslashes before a quote, a run before something else, or
      begins with an ordinary character. */
  lemma Runs(s: string) returns (n: nat, w: string)
    ensures s == Backslashes(n) + w && |w| + n == |s| && (w == "" || w[0] != '\\')
    ensures n == BackslashRun(s) && w == s[n..]
    ensures w != "" ==> w == [w[0]] + w[1..]
  {
    n := BackslashRun(s);
    w := s[n..];
    assert s == Backslashes(n) + w;
  }

  lemma {:induction false} ReadMarks(s: string, quoted: bool)
    ensures var r := ReadArg(s, quoted); Marks(r.0) + TextMarks(r.1) == TextMarks(s)
    decreases |s|
  {
    if s == "" || (!quoted && IsDelimiter(s[0])) {
      assert ReadArg(s, quoted) == ("", s);
    } else {
      hide ReadArg, TextMarks, Marks, BackslashRun;
      var n, w := Runs(s);
      if w != "" && w[0] == '"' {
        ReadMarks(w[1..], if n % 2 == 1 then quoted else !quoted);
        TextRunAndQuote(n, w[1..]);
        ReadMarksAtQuote(n, w[1..], quoted);
        assert s == Backslashes(n) + ("\"" + w[1..]);
      } else if n > 0 {
        ReadMarks(w, quoted);
        TextRun(n, w);
        ReadLiteralRun(n, w, quoted);
        MarksOfRun(n);
        MarksJoined(Backslashes(n), ReadArg(w, quoted).0);
      } else {
        assert s == w;
        ReadMarks(w[1..], quoted);
        TextOther(w[0], w[1..]);
        ReadOrdinary(w[0], w[1..], quoted);
        MarksOfOther(w[0]);
        MarksJoined([w[0]], ReadArg(w[1..], quoted).0);
      }
    }
  }

  lemma MarksOfOther(c: char)
    ensures Marks([c]) == (if c == '"' || c == '\\' then 1 else 0) && Marks("") == 0
  {
    assert [c][1..] == "";
  }

  lemma ReadMarksAtQuote(n: nat, w: string, quoted: bool)
    ensures var r := ReadArg(Backslashes(n) + ("\"" + w), quoted);
            var v := ReadArg(w, if n % 2 == 1 then quoted else !quoted);
            Marks(r.0) == n / 2 + n % 2 + Marks(v.0) && r.1 == v.1
  {
    hide ReadArg, Marks;
    var v := ReadArg(w, if n % 2 == 1 then quoted else !quoted);
    MarksOfRun(n / 2);
    if n % 2 == 1 {
      ReadOddRun(n / 2, w, quoted);
      MarksOfOther('"');
      MarksJoined("\"", v.0);
      MarksJoined(Backslashes(n / 2), "\"" + v.0);
    } else if n > 0 {
      ReadEvenRun(n / 2, w, quoted);
      MarksJoined(Backslashes(n / 2), v.0);
    } else {
      assert Backslashes(0) + ("\"" + w) == "\"" + w;
      ReadToggle(w, quoted);
    }
  }

  lemma {:induction false} SplitMarks(s: string)
    ensures Total(Marks, Split(s)) == TextMarks(s)
    decreases |s|
  {
    if s != "" {
      hide ReadArg, Marks;
      if IsDelimiter(s[0]) {
        SplitMarks(s[1..]);
      } else {
        var r := ReadArg(s, false);
        ReadMarks(s, false);
        SplitMarks(r.1);
        TotalOne(Marks, r.0, Split(r.1));
      }
    }
  }

  /** Text that is printed as it is loses a mark for each of its quotes. */
  lemma {:induction false} RawMarks(a: string, b: string)
    ensures TextMarks(a + b) <= Marks(a) + TextMarks(b)
    ensures '"' in a ==> TextMarks(a + b) < Marks(a) + TextMarks(b)
    decreases |a|
  {
    hide TextMarks, Marks, BackslashRun;
    var n, w := Runs(a);
    MarksOfRun(n);
    MarksJoined(Backslashes(n), w);
    assert '"' in a <==> '"' in w;
    if w == "" {
      assert a == Backslashes(n);
      MarksOfOther('=');
      RunBefore(n, b);
    } else {
      MarksOfOther(w[0]);
      MarksJoined([w[0]], w[1..]);
      if w[0] == '"' {
        RawMarks(w[1..], b);
        TextRunAndQuote(n, w[1..] + b);
        assert a + b == Backslashes(n) + ("\"" + (w[1..] + b));
      } else {
        RawMarks(w[1..], b);
        TextOther(w[0], w[1..] + b);
        var u := [w[0]] + (w[1..] + b);
        TextRun(n, u);
        assert a + b == Backslashes(n) + u;
      }
    }
  }

  lemma RunBefore(n: nat, b: string)
    ensures TextMarks(Backslashes(n) + b) <= n + TextMarks(b)
  {
    hide TextMarks, BackslashRun;
    var m, w := Runs(b);
    assert Backslashes(n) + b == Backslashes(n + m) + w;
    if w != "" && w[0] == '"' {
      TextRunAndQuote(n + m, w[1..]);
      TextRunAndQuote(m, w[1..]);
    } else {
      TextRun(n + m, w);
      TextRun(m, w);
    }
  }

  /** Escaped text keeps all its marks. */
  lemma {:induction false} EscapedMarks(x: string, tail: string)
    ensures TextMarks(Escape(x) + ("\"" + tail)) == Marks(x) + TextMarks(tail)
    decreases |x|
  {
    hide TextMarks, Marks, BackslashRun, Escape;
    var n, w := Runs(x);
    MarksOfRun(n);
    MarksJoined(Backslashes(n), w);
    MarksOfOther('=');
    EscapeEmpty();
    if w == "" {
      TextRunAndQuote(2 * n, tail);
      if n > 0 {
        EscapeRun(n, "");
      }
      assert Escape(x) + ("\"" + tail) == Backslashes(2 * n) + ("\"" + tail);
    } else {
      var rest := Escape(w[1..]) + ("\"" + tail);
      MarksOfOther(w[0]);
      MarksJoined([w[0]], w[1..]);
      EscapedMarks(w[1..], tail);
      EscapeOther(w[0], w[1..]);
      if n > 0 {
        EscapeRun(n, w);
      }
      if w[0] == '"' {
        TextRunAndQuote(2 * n + 1, rest);
        assert Escape(x) + ("\"" + tail) == Backslashes(2 * n + 1) + ("\"" + rest);
      } else {
        TextOther(w[0], rest);
        TextRun(n, [w[0]] + rest);
        assert Escape(x) + ("\"" + tail) == Backslashes(n) + ([w[0]] + rest);
      }
    }
  }

  lemma QuoteMarks(v: string, tail: string)
    ensures TextMarks(Quote(v) + tail) <= Marks(v) + TextMarks(tail)
  {
    hide TextMarks, Marks, Escape;
    if NeedsQuotes(v) {
      EscapedMarks(v, tail);
      TextOther('"', Escape(v) + ("\"" + tail));
      assert Quote(v) + tail == ['"'] + (Escape(v) + ("\"" + tail));
    } else {
      RawMarks(v, tail);
    }
  }

  lemma RenderMarks(t: string, parse: bool, tail: string)
    ensures TextMarks(Render(Windows, t, parse) + tail) <= Marks(t) + TextMarks(tail)
    ensures parse && IsSwitch(Windows, t) && '"' in SwitchName(t) ==>
              TextMarks(Render(Windows, t, parse) + tail) < Marks(t) + TextMarks(tail)
  {
    hide TextMarks, Marks, FindEquals, Quote, PrefixLength;
    if parse && IsSwitch(Windows, t) {
      var name, value := SwitchName(t), SwitchValue(t);
      var rest := if value == "" then "" else "=" + Quote(value);
      SwitchParts(t);
      Reassociate(name, rest, tail);
      RawMarks(name, rest + tail);
      if '=' in t {
        MarksJoined(name, "=");
        MarksJoined(name + "=", value);
        MarksOfOther('=');
      }
      if value == "" {
        assert rest + tail == tail;
        MarksOfOther('=');
      } else {
        QuoteMarks(value, tail);
        TextOther('=', Quote(value) + tail);
        assert rest + tail == ['='] + (Quote(value) + tail);
      }
    } else {
      QuoteMarks(t, tail);
    }
  }

  /** No switch is printed whose name has a quote. */
  predicate CleanNames(ts: seq<string>, parse: bool) {
    ts == [] ||
    var here := parse && ts[0] != TERMINATOR;
    (here && IsSwitch(Windows, ts[0]) ==> '"' !in SwitchName(ts[0])) && CleanNames(ts[1..], here)
  }

  lemma RenderAllStep(ts: seq<string>, parse: bool)
    requires ts != []
    ensures var here := parse && ts[0] != TERMINATOR;
            RenderAll(Windows, ts, parse) == Render(Windows, ts[0], here) + RestOf(ts, here) &&
            Boundary(RestOf(ts, here))
  {
    hide Render;
  }

  lemma {:induction false} RenderAllMarks(ts: seq<string>, parse: bool)
    ensures TextMarks(RenderAll(Windows, ts, parse)) <= Total(Marks, ts)
    ensures !CleanNames(ts, parse) ==> TextMarks(RenderAll(Windows, ts, parse)) < Total(Marks, ts)
  {
    if ts != [] {
      hide TextMarks, Marks, Render, IsSwitch;
      var here := parse && ts[0] != TERMINATOR;
      RenderAllStep(ts, parse);
      RenderAllMarks(ts[1..], here);
      RenderMarks(ts[0], here, RestOf(ts, here));
      RestMarks(ts, here);
    }
  }

  lemma RestMarks(ts: seq<string>, here: bool)
    requires ts != []
    ensures TextMarks(RestOf(ts, here)) == TextMarks(RenderAll(Windows, ts[1..], here))
  {
    hide TextMarks, Render;
    if |ts| > 1 {
      TextOther(' ', RenderAll(Windows, ts[1..], here));
    }
  }

  // ---------------------------------------------------------------------------
  // Parsing adds no quotes or backslashes.
  // ---------------------------------------------------------------------------

  lemma {:induction false} TrimMarks(s: string)
    ensures Marks(Trim(Windows, s)) <= Marks(s)
    decreases |s|
  {
    hide IsBlank;
    if s != "" {
      if IsBlank(Windows, s[0]) {
        TrimMarks(s[1..]);
      } else if IsBlank(Windows, s[|s| - 1]) {
        TrimMarks(s[..|s| - 1]);
        assert s == s[..|s| - 1] + s[|s| - 1..];
        MarksJoined(s[..|s| - 1], s[|s| - 1..]);
      }
    }
  }

  lemma {:induction false} LowerMarks(s: string)
    ensures Marks(Lower(Windows, s)) == Marks(s)
  {
    if s != "" {
      LowerMarks(s[1..]);
      assert Lower(Windows, s)[1..] == Lower(Windows, s[1..]);
    }
  }

  lemma MarksOfParts(name: string, value: string)
    ensures Marks(name + if value == "" then "" else "=" + value) == Marks(name) + Marks(value)
    ensures Marks(name + "=" + value) == Marks(name) + Marks(value)
  {
    hide Marks;
    MarksOfOther('=');
    MarksJoined(name, if value == "" then "" else "=" + value);
    MarksJoined("=", value);
    MarksJoined(name, "=" + value);
    assert name + "=" + value == name + ("=" + value);
  }

  lemma CanonMarks(t: string)
    requires IsSwitch(Windows, t)
    ensures Marks(Canon(Windows, t)) <= Marks(t)
  {
    hide *;
    var name, value := SwitchName(t), SwitchValue(t);
    CanonParts(Windows, t);
    SwitchParts(t);
    LowerMarks(name);
    MarksOfOther('=');
    MarksOfParts(Lower(Windows, name), value);
    MarksOfParts(name, value);
  }

  lemma MarksShrink()
    ensures Shrinks(Marks)
  {
    hide Trim, Canon, Marks, IsSwitch;
    forall t ensures Marks(Trim(Windows, t)) <= Marks(t) {
      TrimMarks(t);
    }
    forall t | IsSwitch(Windows, t) ensures Marks(Canon(Windows, t)) <= Marks(t) {
      CanonMarks(t);
    }
  }
}
