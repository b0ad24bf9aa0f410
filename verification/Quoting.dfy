/** Windows argument quoting (base/command_line.cc) against the argument-splitting
    rules of the MSDN page "Parsing C++ Command-Line Arguments". */
module Quoting {

  // ---------------------------------------------------------------------------
  // The splitting rules: blanks and tabs delimit, a double quote toggles the quoted
  // region, and backslashes are special only in front of a double quote.
  // ---------------------------------------------------------------------------

  predicate IsDelimiter(c: char) {
    c == ' ' || c == '\t'
  }

  function Backslashes(n: nat): (s: string)
    ensures |s| == n && forall i :: 0 <= i < n ==> s[i] == '\\'
  {
    seq(n, _ => '\\')
  }

  /** The length of the run of backslashes that s starts with. */
  function BackslashRun(s: string): (n: nat)
    ensures n <= |s| && (n < |s| ==> s[n] != '\\')
    ensures forall i :: 0 <= i < n ==> s[i] == '\\'
  {
    if s == "" || s[0] != '\\' then 0 else 1 + BackslashRun(s[1..])
  }

  /** Reads one argument off the front of s; returns it and the unread text. */
  function ReadArg(s: string, quoted: bool): (r: (string, string))
    ensures |r.1| <= |s|
    ensures s != "" && (quoted || !IsDelimiter(s[0])) ==> |r.1| < |s|
    decreases |s|
  {
    if s == "" || (!quoted && IsDelimiter(s[0])) then ("", s)
    else if s[0] == '"' then ReadArg(s[1..], !quoted)
    else if s[0] == '\\' then
      var n := BackslashRun(s);
      if n < |s| && s[n] == '"' then
        if n % 2 == 0 then
          var r := ReadArg(s[n + 1..], !quoted);
          (Backslashes(n / 2) + r.0, r.1)
        else
          var r := ReadArg(s[n + 1..], quoted);
          (Backslashes(n / 2) + "\"" + r.0, r.1)
      else
        var r := ReadArg(s[n..], quoted);
        (Backslashes(n) + r.0, r.1)
    else
      var r := ReadArg(s[1..], quoted);
      ([s[0]] + r.0, r.1)
  }

  /** The list of arguments that a program finds in the text s. */
  function Split(s: string): seq<string>
    decreases |s|
  {
    if s == "" then []
    else if IsDelimiter(s[0]) then Split(s[1..])
    else
      var r := ReadArg(s, false);
      [r.0] + Split(r.1)
  }

  // ---------------------------------------------------------------------------
  // Quoting one argument.
  // ---------------------------------------------------------------------------

  predicate NeedsQuotes(arg: string) {
    ' ' in arg || '\\' in arg || '"' in arg
  }

  function Escape(arg: string): string
    decreases |arg|
  {
    if arg == "" then ""
    else if arg[0] == '\\' then
      var n := BackslashRun(arg);
      Backslashes(if n == |arg| || arg[n] == '"' then 2 * n else n) + Escape(arg[n..])
    else if arg[0] == '"' then "\\\"" + Escape(arg[1..])
    else [arg[0]] + Escape(arg[1..])
  }

  function Quoted(arg: string): string {
    "\"" + Escape(arg) + "\""
  }

  function Quote(arg: string): string {
    if NeedsQuotes(arg) then Quoted(arg) else arg
  }

  lemma {:induction false} BackslashRunIs(n: nat, t: string)
    requires t == "" || t[0] != '\\'
    ensures BackslashRun(Backslashes(n) + t) == n
  {
    if n == 0 {
      assert Backslashes(0) + t == t;
    } else {
      assert (Backslashes(n) + t)[1..] == Backslashes(n - 1) + t;
      BackslashRunIs(n - 1, t);
    }
  }

  lemma EscapeRun(n: nat, y: string)
    requires n > 0 && (y == "" || y[0] != '\\')
    ensures Escape(Backslashes(n) + y) ==
            Backslashes(if y == "" || y[0] == '"' then 2 * n else n) + Escape(y)
  {
    BackslashRunIs(n, y);
    assert (Backslashes(n) + y)[n..] == y;
  }

  lemma EscapeOther(c: char, y: string)
    requires c != '\\'
    ensures Escape([c] + y) == (if c == '"' then "\\\"" else [c]) + Escape(y)
  {
    assert ([c] + y)[1..] == y;
  }

  lemma EscapeEmpty()
    ensures Escape("") == ""
  {
  }

  /** What comes after a backslash is more backslashes, if any, and then a quote or the end. */
  predicate ReachesQuote(s: string) {
    s == "" || s[0] == '"' || (s[0] == '\\' && ReachesQuote(s[1..]))
  }

  /** The escaped form, character by character: a quote gets a backslash, and so does a backslash
      that only backslashes part from a quote or the end. */
  function EscapeEach(s: string): string {
    if s == "" then ""
    else (if s[0] == '"' || (s[0] == '\\' && ReachesQuote(s[1..])) then ['\\', s[0]] else [s[0]]) + EscapeEach(s[1..])
  }

  lemma OneMore(n: nat, y: string)
    ensures Backslashes(n + 1) + y == ['\\'] + (Backslashes(n) + y) && Backslashes(0) + y == y
    ensures Backslashes(n + 2) + y == ['\\', '\\'] + (Backslashes(n) + y)
  {
  }

  lemma ReachesNow(y: string)
    requires y == "" || y[0] != '\\'
    ensures ReachesQuote(y) <==> y == "" || y[0] == '"'
  {
  }

  lemma {:induction false} EachOfRun(n: nat, y: string)
    requires y == "" || y[0] != '\\'
    ensures ReachesQuote(Backslashes(n) + y) <==> y == "" || y[0] == '"'
    ensures EscapeEach(Backslashes(n) + y) == Backslashes(if y == "" || y[0] == '"' then 2 * n else n) + EscapeEach(y)
  {
    hide *;
    if n == 0 {
      ReachesNow(y);
      OneMore(0, y);
      OneMore(0, EscapeEach(y));
    } else {
      EachOfRun(n - 1, y);
      OneMore(n - 1, y);
      EachOf('\\', Backslashes(n - 1) + y);
      OneMore(if y == "" || y[0] == '"' then 2 * (n - 1) else n - 1, EscapeEach(y));
    }
  }

  lemma EachOf(c: char, s: string)
    ensures EscapeEach([c] + s) ==
            (if c == '"' || (c == '\\' && ReachesQuote(s)) then ['\\', c] else [c]) + EscapeEach(s)
    ensures ReachesQuote([c] + s) <==> c == '"' || (c == '\\' && ReachesQuote(s))
  {
    assert ([c] + s)[1..] == s;
  }

  lemma {:induction false} EscapeIsEach(s: string)
    ensures Escape(s) == EscapeEach(s)
    decreases |s|
  {
    if s != "" {
      if s[0] == '\\' {
        var n := BackslashRun(s);
        assert s == Backslashes(n) + s[n..];
        EachOfRun(n, s[n..]);
        EscapeIsEach(s[n..]);
      } else {
        EscapeIsEach(s[1..]);
        EachOf(s[0], s[1..]);
        assert s == [s[0]] + s[1..];
        assert ['\\', '"'] == "\\\"";
      }
    }
  }

  /** An argument with a space, a backslash or a quote is put between quotes, escaped character by
      character; any other one is left as it is. */
  lemma QuoteSpelled(arg: string)
    ensures Quote(arg) == if ' ' in arg || '\\' in arg || '"' in arg then "\"" + EscapeEach(arg) + "\"" else arg
  {
    hide Escape, EscapeEach;
    EscapeIsEach(arg);
  }

  lemma {:induction false} EscapeKeepsLength(arg: string)
    ensures |Escape(arg)| >= |arg|
    decreases |arg|
  {
    if arg != "" {
      EscapeKeepsLength(arg[if arg[0] == '\\' then BackslashRun(arg) else 1..]);
    }
  }

  /** Arguments without spaces, backslashes and quotes, and no others, are left alone. */
  lemma QuoteLeavesAlone(arg: string)
    ensures Quote(arg) == arg <==> ' ' !in arg && '\\' !in arg && '"' !in arg
  {
    hide Escape;
    EscapeKeepsLength(arg);
  }

  /** out is what the printer has written once it has dealt with arg[..i]. */
  ghost predicate Printed(out: string, arg: string, i: nat) {
    i <= |arg| && out + Escape(arg[i..]) == "\"" + Escape(arg)
  }

  lemma PrintedEnd(out: string, arg: string)
    requires Printed(out, arg, |arg|)
    ensures out + ['"'] == Quoted(arg)
  {
    hide Escape;
    assert arg[|arg|..] == "";
    EscapeEmpty();
    assert out + "" == out;
  }

  lemma BackslashesGrow(out: string, j: nat)
    ensures out + Backslashes(0) == out
    ensures out + Backslashes(j) + ['\\'] == out + Backslashes(j + 1)
  {
  }

  lemma PrintedOther(out: string, arg: string, i: nat)
    requires Printed(out, arg, i) && i < |arg| && arg[i] != '\\'
    ensures Printed(if arg[i] == '"' then out + ['\\'] + ['"'] else out + [arg[i]], arg, i + 1)
  {
    hide Escape;
    EscapeOther(arg[i], arg[i + 1..]);
    assert arg[i..] == [arg[i]] + arg[i + 1..];
    assert out + ['\\'] + ['"'] == out + "\\\"";
  }

  lemma PrintedRun(out: string, arg: string, i: nat, end: nat)
    requires Printed(out, arg, i) && i < end <= |arg| && (end == |arg| || arg[end] != '\\')
    requires forall k :: i <= k < end ==> arg[k] == '\\'
    ensures var n := end - i;
            Printed(out + Backslashes(if end == |arg| || arg[end] == '"' then n * 2 else n), arg, end)
  {
    hide Escape;
    EscapeRun(end - i, arg[end..]);
    assert arg[i..] == Backslashes(end - i) + arg[end..];
  }

  method QuoteForCommandLineToArgvW(arg: string) returns (out: string)
    ensures out == Quote(arg)
  {
    if !NeedsQuotes(arg) {
      return arg;
    }
    hide *;
    out := "\"";
    var i := 0;
    while i < |arg|
      invariant 0 <= i <= |arg|
      invariant Printed(out, arg, i)
    {
      if arg[i] == '\\' {
        ghost var before := out;
        var start, end := i, i + 1;
        while end < |arg| && arg[end] == '\\'
          invariant start < end <= |arg|
          invariant forall k :: start <= k < end ==> arg[k] == '\\'
        {
          end := end + 1;
        }
        PrintedRun(before, arg, start, end);
        var backslashCount := end - start;
        if end == |arg| || arg[end] == '"' {
          backslashCount := backslashCount * 2;
        }
        var j := 0;
        BackslashesGrow(before, 0);
        while j < backslashCount
          invariant 0 <= j <= backslashCount
          invariant out == before + Backslashes(j)
        {
          BackslashesGrow(before, j);
          out := out + ['\\'];
          j := j + 1;
        }
        i := end - 1;
      } else if arg[i] == '"' {
        PrintedOther(out, arg, i);
        out := out + ['\\'];
        out := out + ['"'];
      } else {
        PrintedOther(out, arg, i);
        out := out + [arg[i]];
      }
      i := i + 1;
    }
    PrintedEnd(out, arg);
    out := out + ['"'];
  }

  // ---------------------------------------------------------------------------
  // Reading back what was printed.
  // ---------------------------------------------------------------------------

  /** True of the text that may follow a printed argument. */
  predicate Boundary(tail: string) {
    tail == "" || IsDelimiter(tail[0])
  }

  /** A bare quote opens or closes the quoted region. */
  lemma ReadToggle(w: string, quoted: bool)
    ensures ReadArg("\"" + w, quoted) == ReadArg(w, !quoted)
  {
    assert ("\"" + w)[1..] == w;
  }

  /** The rule for a run of n backslashes. */
  lemma ReadRun(s: string, n: nat, quoted: bool)
    requires 0 < n <= |s| && s[0] == '\\' && BackslashRun(s) == n
    ensures ReadArg(s, quoted) ==
            if n < |s| && s[n] == '"' then
              if n % 2 == 0 then
                (Backslashes(n / 2) + ReadArg(s[n + 1..], !quoted).0, ReadArg(s[n + 1..], !quoted).1)
              else
                (Backslashes(n / 2) + "\"" + ReadArg(s[n + 1..], quoted).0, ReadArg(s[n + 1..], quoted).1)
            else
              (Backslashes(n) + ReadArg(s[n..], quoted).0, ReadArg(s[n..], quoted).1)
  {
  }

  /** 2n backslashes and a quote: n backslashes, and the quoted region opens or closes. */
  lemma ReadEvenRun(n: nat, w: string, quoted: bool)
    requires n > 0
    ensures var r := ReadArg(w, !quoted);
            ReadArg(Backslashes(2 * n) + ("\"" + w), quoted) == (Backslashes(n) + r.0, r.1)
  {
    hide ReadArg, BackslashRun;
    var s := Backslashes(2 * n) + ("\"" + w);
    BackslashRunIs(2 * n, "\"" + w);
    assert s[2 * n] == '"' && s[2 * n + 1..] == w;
    ReadRun(s, 2 * n, quoted);
  }

  /** 2n + 1 backslashes and a quote: n backslashes and a literal quote. */
  lemma ReadOddRun(n: nat, w: string, quoted: bool)
    ensures var r := ReadArg(w, quoted);
            ReadArg(Backslashes(2 * n + 1) + ("\"" + w), quoted) == (Backslashes(n) + ("\"" + r.0), r.1)
  {
    hide ReadArg, BackslashRun;
    var s := Backslashes(2 * n + 1) + ("\"" + w);
    BackslashRunIs(2 * n + 1, "\"" + w);
    assert s[2 * n + 1] == '"' && s[2 * n + 1 + 1..] == w;
    ReadRun(s, 2 * n + 1, quoted);
    var r := ReadArg(w, quoted);
    assert Backslashes(n) + "\"" + r.0 == Backslashes(n) + ("\"" + r.0);
  }

  /** Any other run of backslashes is literal. */
  lemma ReadLiteralRun(n: nat, t: string, quoted: bool)
    requires n > 0 && (t == "" || (t[0] != '\\' && t[0] != '"'))
    ensures var r := ReadArg(t, quoted);
            ReadArg(Backslashes(n) + t, quoted) == (Backslashes(n) + r.0, r.1)
  {
    hide ReadArg, BackslashRun;
    var s := Backslashes(n) + t;
    BackslashRunIs(n, t);
    assert s[n..] == t && (t != "" ==> s[n] == t[0]);
    ReadRun(s, n, quoted);
  }

  lemma ReadOrdinary(c: char, t: string, quoted: bool)
    requires c != '\\' && c != '"' && (quoted || !IsDelimiter(c))
    ensures var r := ReadArg(t, quoted); ReadArg([c] + t, quoted) == ([c] + r.0, r.1)
  {
    assert ([c] + t)[1..] == t;
  }

  /** What ReadEscaped says of x. */
  ghost predicate ReadsBack(x: string, tail: string) {
    var r := ReadArg(tail, false);
    ReadArg(Escape(x) + ("\"" + tail), true) == (x + r.0, r.1)
  }

  lemma ReadsBackRun(n: nat, y: string, tail: string)
    requires n > 0 && (y == "" || (y[0] != '\\' && y[0] != '"'))
    requires y != "" ==> ReadsBack(y, tail)
    ensures ReadsBack(Backslashes(n) + y, tail)
  {
    hide ReadArg, Escape;
    var r := ReadArg(tail, false);
    EscapeRun(n, y);
    if y == "" {
      EscapeEmpty();
      ReadEvenRun(n, tail, true);
      assert Escape(Backslashes(n) + y) + ("\"" + tail) == Backslashes(2 * n) + ("\"" + tail);
      assert Backslashes(n) + y + r.0 == Backslashes(n) + r.0;
    } else {
      var t := Escape(y) + ("\"" + tail);
      assert y == [y[0]] + y[1..];
      EscapeOther(y[0], y[1..]);
      ReadLiteralRun(n, t, true);
      assert Escape(Backslashes(n) + y) + ("\"" + tail) == Backslashes(n) + t;
      assert Backslashes(n) + y + r.0 == Backslashes(n) + (y + r.0);
    }
  }

  lemma ReadsBackRunAndQuote(n: nat, y: string, tail: string)
    requires ReadsBack(y, tail)
    ensures ReadsBack(Backslashes(n) + (['"'] + y), tail)
  {
    hide ReadArg, Escape;
    var r, w := ReadArg(tail, false), Escape(y) + ("\"" + tail);
    var x := Backslashes(n) + (['"'] + y);
    EscapeOther('"', y);
    if n > 0 {
      EscapeRun(n, ['"'] + y);
    } else {
      assert x == ['"'] + y;
    }
    ReadOddRun(n, w, true);
    assert Escape(x) + ("\"" + tail) == Backslashes(2 * n + 1) + ("\"" + w);
    assert x + r.0 == Backslashes(n) + ("\"" + (y + r.0));
  }

  lemma ReadsBackOrdinary(c: char, y: string, tail: string)
    requires c != '\\' && c != '"' && ReadsBack(y, tail)
    ensures ReadsBack([c] + y, tail)
  {
    hide ReadArg, Escape;
    var r, w := ReadArg(tail, false), Escape(y) + ("\"" + tail);
    EscapeOther(c, y);
    ReadOrdinary(c, w, true);
    assert Escape([c] + y) + ("\"" + tail) == [c] + w;
    assert [c] + y + r.0 == [c] + (y + r.0);
  }

  /** Inside quotes, the escaped form of x followed by the closing quote reads as x. */
  lemma {:induction false} ReadEscaped(x: string, tail: string)
    ensures ReadsBack(x, tail)
    decreases |x|
  {
    if x == "" {
      ReadToggle(tail, true);
      EscapeEmpty();
      assert "" + ("\"" + tail) == "\"" + tail;
      assert x + ReadArg(tail, false).0 == ReadArg(tail, false).0;
    } else {
      hide ReadsBack;
      var n, y := BackslashRun(x), x[BackslashRun(x)..];
      assert x == Backslashes(n) + y;
      if y != "" && y[0] == '"' {
        ReadEscaped(y[1..], tail);
        ReadsBackRunAndQuote(n, y[1..], tail);
        assert y == ['"'] + y[1..];
      } else if n > 0 {
        if y != "" {
          ReadEscaped(y, tail);
        }
        ReadsBackRun(n, y, tail);
      } else {
        ReadEscaped(x[1..], tail);
        ReadsBackOrdinary(x[0], x[1..], tail);
        assert x == [x[0]] + x[1..];
      }
    }
  }

  /** Unquoted text without quotes or delimiters is read as it stands. */
  lemma {:induction false} ReadPlain(p: string, u: string)
    requires '"' !in p && ' ' !in p && '\t' !in p
    requires p == "" || p[|p| - 1] != '\\' || Boundary(u)
    ensures var r := ReadArg(u, false); ReadArg(p + u, false) == (p + r.0, r.1)
    decreases |p|
  {
    hide ReadArg;
    var r := ReadArg(u, false);
    if p == "" {
      assert p + u == u && p + r.0 == r.0;
    } else if p[0] == '\\' {
      var n, y := BackslashRun(p), p[BackslashRun(p)..];
      assert p == Backslashes(n) + y;
      assert p + u == Backslashes(n) + (y + u);
      if y == "" {
        assert p[|p| - 1] == '\\';
        assert y + u == u;
      }
      ReadPlain(y, u);
      ReadLiteralRun(n, y + u, false);
      assert Backslashes(n) + (y + r.0) == p + r.0;
    } else {
      ReadPlain(p[1..], u);
      ReadOrdinary(p[0], p[1..] + u, false);
      assert p + u == [p[0]] + (p[1..] + u);
      assert [p[0]] + (p[1..] + r.0) == p + r.0;
    }
  }

  /** A plain prefix and a quoted remainder, up to a delimiter, are one argument. */
  lemma SplitWord(p: string, v: string, tail: string)
    requires '"' !in p && ' ' !in p && '\t' !in p
    requires p == "" || p[|p| - 1] != '\\'
    requires Boundary(tail)
    ensures Split(p + Quoted(v) + tail) == [p + v] + Split(tail)
  {
    hide ReadArg, Escape, Split;
    var u := Escape(v) + ("\"" + tail);
    ReadEscaped(v, tail);
    ReadStops(tail);
    ReadToggle(u, false);
    ReadPlain(p, "\"" + u);
    assert p + Quoted(v) + tail == p + ("\"" + u);
    assert p + (v + "") == p + v;
    SplitReads(p + ("\"" + u));
  }

  lemma SplitReads(s: string)
    requires s != "" && !IsDelimiter(s[0])
    ensures Split(s) == [ReadArg(s, false).0] + Split(ReadArg(s, false).1)
  {
  }

  lemma ReadStops(tail: string)
    requires Boundary(tail)
    ensures ReadArg(tail, false) == ("", tail)
  {
  }

  lemma SplitPlain(p: string, tail: string)
    requires p != "" && '"' !in p && ' ' !in p && '\t' !in p
    requires Boundary(tail)
    ensures Split(p + tail) == [p] + Split(tail)
  {
    ReadPlain(p, tail);
    assert p + "" == p;
  }

  // ---------------------------------------------------------------------------
  // The round trip over a whole list.
  // ---------------------------------------------------------------------------

  function QuoteAll(args: seq<string>): string {
    if args == [] then ""
    else if |args| == 1 then Quote(args[0])
    else Quote(args[0]) + " " + QuoteAll(args[1..])
  }

  /** What a caller can check: the argument is not empty, and a tab in it comes with
      a character that makes the printer add quotes. */
  predicate Survives(arg: string) {
    arg != "" && ('\t' in arg ==> NeedsQuotes(arg))
  }

  lemma SplitSurvivor(arg: string, tail: string)
    requires Survives(arg) && Boundary(tail)
    ensures Split(Quote(arg) + tail) == [arg] + Split(tail)
  {
    hide ReadArg, Split, Escape;
    if NeedsQuotes(arg) {
      assert "" + Quoted(arg) + tail == Quote(arg) + tail;
      SplitWord("", arg, tail);
      assert "" + arg == arg;
    } else {
      SplitPlain(arg, tail);
    }
  }

  /** Text with no quote in it is cut at its delimiters: every argument read from it is
      non-empty and has no tab. */
  lemma {:induction false} PlainPieces(p: string, tail: string)
    requires '"' !in p && ' ' !in p && Boundary(tail)
    requires forall x :: x in Split(tail) ==> Survives(x)
    ensures forall x :: x in Split(p + tail) ==> Survives(x)
    decreases |p|
  {
    hide ReadArg;
    if p == "" {
      assert p + tail == tail;
    } else if p[0] == '\t' {
      assert (p + tail)[1..] == p[1..] + tail;
      PlainPieces(p[1..], tail);
    } else {
      var k := PlainPrefix(p);
      assert p + tail == p[..k] + (p[k..] + tail);
      SplitPlain(p[..k], p[k..] + tail);
      PlainPieces(p[k..], tail);
    }
  }

  /** The length of the text before the first delimiter. */
  function PlainPrefix(p: string): (k: nat)
    ensures k <= |p| && ' ' !in p[..k] && '\t' !in p[..k]
    ensures k < |p| ==> IsDelimiter(p[k])
    ensures p != "" && !IsDelimiter(p[0]) ==> k > 0
  {
    if p == "" || IsDelimiter(p[0]) then 0
    else
      var k := PlainPrefix(p[1..]);
      assert p[..k + 1] == [p[0]] + p[1..][..k];
      k + 1
  }

  lemma {:induction false} OnlySurvivorsComeBack(args: seq<string>)
    ensures forall x :: x in Split(QuoteAll(args)) ==> Survives(x)
  {
    hide ReadArg, Escape;
    if args != [] {
      var tail := if |args| == 1 then "" else " " + QuoteAll(args[1..]);
      OnlySurvivorsComeBack(args[1..]);
      assert QuoteAll(args) == Quote(args[0]) + tail;
      assert tail != "" ==> tail[1..] == QuoteAll(args[1..]);
      if NeedsQuotes(args[0]) {
        SplitSurvivor(args[0], tail);
      } else {
        PlainPieces(args[0], tail);
      }
    }
  }

  /** The arguments of a printed list are read back exactly when each of them survives. */
  lemma {:induction false} RoundTrip(args: seq<string>)
    ensures Split(QuoteAll(args)) == args <==> forall x :: x in args ==> Survives(x)
  {
    OnlySurvivorsComeBack(args);
    if forall x :: x in args ==> Survives(x) {
      RoundTripOfSurvivors(args);
    }
  }

  lemma {:induction false} RoundTripOfSurvivors(args: seq<string>)
    requires forall x :: x in args ==> Survives(x)
    ensures Split(QuoteAll(args)) == args
  {
    hide ReadArg, Escape;
    if args != [] {
      var tail := if |args| == 1 then "" else " " + QuoteAll(args[1..]);
      RoundTripOfSurvivors(args[1..]);
      assert QuoteAll(args) == Quote(args[0]) + tail;
      assert tail != "" ==> tail[1..] == QuoteAll(args[1..]);
      SplitSurvivor(args[0], tail);
    }
  }
}
