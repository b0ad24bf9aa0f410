/** Printing a command line (GetArgumentsString) and reading the text back under Windows. */
module Printing {
  import opened Quoting
  import opened CommandLines
  import opened Parsing

  function QuoteFor(p: Platform, s: string): string {
    if p.Windows? then Quote(s) else s
  }

  /** How one string of the list is printed; parse says that switches are still recognized. */
  function Render(p: Platform, t: string, parse: bool): string {
    if parse && IsSwitch(p, t)
    then SwitchName(t) + (if SwitchValue(t) == "" then "" else "=" + QuoteFor(p, SwitchValue(t)))
    else QuoteFor(p, t)
  }

  function RenderAll(p: Platform, ts: seq<string>, parse: bool): string {
    if ts == [] then ""
    else
      var here := parse && ts[0] != TERMINATOR;
      Render(p, ts[0], here) + (if |ts| == 1 then "" else " " + RenderAll(p, ts[1..], here))
  }

  /** What a caller can check of one string: an argument survives quoting; a switch has no
      blank, tab or quote in its name, no '=' before an empty value, and a value in which a
      tab comes with a character that makes the printer add quotes. */
  predicate Printable(t: string, parse: bool) {
    if parse && IsSwitch(Windows, t) then
      var name, value := SwitchName(t), SwitchValue(t);
      ' ' !in name && '\t' !in name && '"' !in name &&
      (value == "" ==> '=' !in t) && ('\t' in value ==> NeedsQuotes(value))
    else Survives(t)
  }

  predicate AllPrintable(ts: seq<string>, parse: bool) {
    ts == [] ||
    var here := parse && ts[0] != TERMINATOR;
    Printable(ts[0], here) && AllPrintable(ts[1..], here)
  }

  // ---------------------------------------------------------------------------
  // A printable string is read back as itself.
  // ---------------------------------------------------------------------------

  lemma SwitchParts(t: string)
    ensures '=' in t ==> t == SwitchName(t) + "=" + SwitchValue(t)
    ensures '=' !in t ==> t == SwitchName(t) && SwitchValue(t) == ""
    ensures '=' !in SwitchName(t)
  {
    hide FindEquals;
  }

  lemma PrintableReadsBack(t: string, parse: bool, tail: string)
    requires Printable(t, parse) && Boundary(tail)
    ensures Split(Render(Windows, t, parse) + tail) == [t] + Split(tail)
  {
    hide ReadArg, Split, Quoted, FindEquals, PrefixLength;
    if parse && IsSwitch(Windows, t) {
      var name, value := SwitchName(t), SwitchValue(t);
      SwitchParts(t);
      if value == "" {
        assert name + "" == name;
        SplitPlain(name, tail);
      } else if NeedsQuotes(value) {
        SplitWord(name + "=", value, tail);
        assert name + "=" + Quoted(value) == name + ("=" + Quoted(value));
      } else {
        SplitPlain(name + "=" + value, tail);
        assert name + "=" + value == name + ("=" + value);
      }
    } else {
      SplitSurvivor(t, tail);
    }
  }

  // ---------------------------------------------------------------------------
  // A string that is not printable is not read back as itself, whatever follows it.
  // ---------------------------------------------------------------------------

  predicate IsMarker(c: char) {
    IsDelimiter(c) || c == '='
  }

  ghost predicate MarkerAt(o: string, k: nat) {
    k <= |o| && (k == |o| || IsMarker(o[k]))
  }

  /** Reading text without markers, which may hold quotes and backslashes, gives at most as many
      characters before the next marker, and fewer if a quote was among them. */
  ghost predicate MarkerWithin(s: string, quoted: bool, bound: int) {
    var o := ReadArg(s, quoted).0;
    exists k: nat :: k <= bound && MarkerAt(o, k)
  }

  lemma MarkerShift(o: string, a: string, k: nat)
    requires MarkerAt(o, k)
    ensures MarkerAt(a + o, |a| + k)
  {
  }

  lemma MarkRunAndQuote(n: nat, w: string, quoted: bool, bound: nat)
    requires MarkerWithin(w, if n % 2 == 1 then quoted else !quoted, bound)
    ensures MarkerWithin(Backslashes(n) + ("\"" + w), quoted, n + bound)
  {
    hide ReadArg;
    var o := ReadArg(w, if n % 2 == 1 then quoted else !quoted).0;
    var k: nat :| k <= bound && MarkerAt(o, k);
    if n % 2 == 1 {
      ReadOddRun(n / 2, w, quoted);
      MarkerShift(o, "\"", k);
      MarkerShift("\"" + o, Backslashes(n / 2), 1 + k);
    } else if n > 0 {
      ReadEvenRun(n / 2, w, quoted);
      MarkerShift(o, Backslashes(n / 2), k);
    } else {
      ReadToggle(w, quoted);
      assert Backslashes(0) + ("\"" + w) == "\"" + w;
    }
  }

  lemma MarkRun(n: nat, w: string, quoted: bool, bound: int)
    requires MarkerWithin(w, quoted, bound)
    requires n > 0 && (w == "" || (w[0] != '\\' && w[0] != '"'))
    ensures MarkerWithin(Backslashes(n) + w, quoted, n + bound)
  {
    hide ReadArg;
    var o := ReadArg(w, quoted).0;
    var k: nat :| k <= bound && MarkerAt(o, k);
    ReadLiteralRun(n, w, quoted);
    MarkerShift(o, Backslashes(n), k);
  }

  lemma MarkOrdinary(c: char, w: string, quoted: bool, bound: int)
    requires MarkerWithin(w, quoted, bound)
    requires c != '\\' && c != '"' && !IsDelimiter(c)
    ensures MarkerWithin([c] + w, quoted, 1 + bound)
  {
    hide ReadArg;
    var o := ReadArg(w, quoted).0;
    var k: nat :| k <= bound && MarkerAt(o, k);
    ReadOrdinary(c, w, quoted);
    MarkerShift(o, [c], k);
  }

  predicate NoMarkers(u: string) {
    forall c :: c in u ==> !IsMarker(c)
  }

  /** The bound that ReadToMarker gives. */
  function Bound(u: string): (b: int)
    ensures b <= |u|
  {
    if '"' in u then |u| - 1 else |u|
  }

  lemma MarkerFreeParts(u: string, n: nat, v: string)
    requires NoMarkers(u) && u != "" && u == Backslashes(n) + v
    ensures NoMarkers(v) && (n == 0 ==> v == u)
    ensures v != "" ==> NoMarkers(v[1..]) && !IsMarker(v[0]) && v == [v[0]] + v[1..]
    ensures v != "" && v[0] == '"' ==> Bound(u) == n + |v[1..]|
    ensures v != "" && v[0] != '"' ==> Bound(v) == 1 + Bound(v[1..])
    ensures Bound(u) == n + Bound(v)
  {
    assert forall c :: c in v ==> c in u;
    assert '"' in u <==> '"' in v;
    if v != "" {
      assert forall c :: c in v[1..] ==> c in v;
      assert v == [v[0]] + v[1..];
      assert v[0] in v;
    }
  }

  lemma {:induction false} ReadToMarker(u: string, z: string, quoted: bool)
    requires NoMarkers(u)
    requires z == "" || IsMarker(z[0])
    ensures MarkerWithin(u + z, quoted, Bound(u))
    decreases |u|
  {
    hide MarkerWithin, NoMarkers, Bound, BackslashRun;
    if u == "" {
      assert u + z == z;
      ReadMarker(z, quoted);
      BoundOfNothing();
    } else {
      var n, v := BackslashRun(u), u[BackslashRun(u)..];
      assert u == Backslashes(n) + v;
      MarkerFreeParts(u, n, v);
      if v != "" && v[0] == '"' {
        var w, q := v[1..] + z, if n % 2 == 1 then quoted else !quoted;
        ReadToMarker(v[1..], z, q);
        MarkerWeaken(w, q, Bound(v[1..]), |v[1..]|);
        MarkRunAndQuote(n, w, quoted, |v[1..]|);
        assert u + z == Backslashes(n) + ("\"" + w);
      } else if n > 0 {
        ReadToMarker(v, z, quoted);
        MarkRun(n, v + z, quoted, Bound(v));
        assert u + z == Backslashes(n) + (v + z);
      } else {
        ReadToMarker(v[1..], z, quoted);
        MarkOrdinary(v[0], v[1..] + z, quoted, Bound(v[1..]));
        assert u + z == [v[0]] + (v[1..] + z);
      }
    }
  }

  lemma BoundOfNothing()
    ensures Bound("") == 0
  {
  }

  lemma MarkerWeaken(s: string, quoted: bool, bound: int, more: int)
    requires MarkerWithin(s, quoted, bound) && bound <= more
    ensures MarkerWithin(s, quoted, more)
  {
  }

  lemma ReadMarker(z: string, quoted: bool)
    requires z == "" || IsMarker(z[0])
    ensures MarkerWithin(z, quoted, 0)
  {
    if z != "" && (quoted || z[0] == '=') {
      assert z == [z[0]] + z[1..];
      ReadOrdinary(z[0], z[1..], quoted);
    }
    assert MarkerAt(ReadArg(z, quoted).0, 0);
  }

  /** The text read before anything else is cut off from the rest. */
  ghost predicate HeadDiffers(s: string, t: string) {
    Split(s) == [] || Split(s)[0] != t
  }

  /** No argument list that is printed starts with an argument made of tabs, or an empty one. */
  ghost predicate HeadSolid(s: string) {
    Split(s) == [] || exists c :: c in Split(s)[0] && c != '\t'
  }

  /** A switch whose name has a blank, a tab or a quote. */
  lemma BadNameDiffers(t: string, name: string, rest: string)
    requires name != "" && name <= t && '=' !in name && name[0] != '"' && !IsDelimiter(name[0])
    requires rest == "" || IsMarker(rest[0])
    requires ' ' in name || '\t' in name || '"' in name
    ensures HeadDiffers(name + rest, t)
  {
    hide ReadArg, Split;
    var m := MarkerPosition(name);
    var u, z := name[..m], name[m..] + rest;
    assert name + rest == u + z;
    assert z == "" || IsMarker(z[0]);
    assert u != "" && (u + z)[0] == name[0];
    SplitReads(u + z);
    var o := ReadArg(u + z, false).0;
    if '"' in u {
      ReadToMarker(u, z, false);
      var k: nat :| k <= |u| - 1 && MarkerAt(o, k);
      assert t[k] == name[k] == u[k];
      assert u[k] in u && NoMarkers(u);
    } else {
      assert name == u + name[m..];
      assert m < |name|;
      assert IsDelimiter(z[0]);
      ReadPlain(u, z);
      ReadStops(z);
      assert u + "" == u;
    }
  }

  function MarkerPosition(s: string): (m: nat)
    ensures m <= |s| && (m < |s| ==> IsMarker(s[m])) && (s != "" && !IsMarker(s[0]) ==> m > 0)
    ensures forall c :: c in s[..m] ==> !IsMarker(c)
  {
    if s == "" || IsMarker(s[0]) then 0
    else
      var m := MarkerPosition(s[1..]);
      assert s[..m + 1] == [s[0]] + s[1..][..m];
      m + 1
  }

  function LeadingTabs(p: string): (n: nat)
    ensures n <= |p| && (n < |p| ==> p[n] != '\t')
    ensures forall i :: 0 <= i < n ==> p[i] == '\t'
  {
    if p == "" || p[0] != '\t' then 0 else 1 + LeadingTabs(p[1..])
  }

  lemma {:induction false} TabsAreSkipped(p: string, tail: string)
    ensures Split(p + tail) == Split(p[LeadingTabs(p)..] + tail)
  {
    hide ReadArg;
    if LeadingTabs(p) > 0 {
      assert (p + tail)[1..] == p[1..] + tail;
      TabsAreSkipped(p[1..], tail);
      assert p[1..][LeadingTabs(p[1..])..] == p[LeadingTabs(p)..];
    } else {
      assert p[0..] == p;
    }
  }

  /** Unquoted text that is empty or has a tab in it. */
  lemma TabbedDiffers(p: string, tail: string)
    requires '"' !in p && ' ' !in p && (p == "" || '\t' in p) && Boundary(tail)
    requires HeadSolid(tail)
    ensures HeadDiffers(p + tail, p) && HeadSolid(p + tail)
  {
    hide ReadArg, Split;
    var j := LeadingTabs(p);
    var q := p[j..];
    TabsAreSkipped(p, tail);
    if q == "" {
      assert q + tail == tail;
    } else {
      var k := PlainPrefix(q);
      assert q + tail == q[..k] + (q[k..] + tail);
      SplitPlain(q[..k], q[k..] + tail);
      assert q[0] in q[..k] && q[0] != '\t';
    }
  }

  /** A switch with a good name whose value makes it unprintable. */
  lemma BadValueDiffers(t: string, name: string, value: string, tail: string)
    requires name != "" && ' ' !in name && '\t' !in name && '"' !in name && Boundary(tail)
    requires value == "" ==> |name| < |t|
    requires value != "" ==> t == name + "=" + value && '\t' in value && !NeedsQuotes(value)
    ensures HeadDiffers(name + ((if value == "" then "" else "=" + Quote(value)) + tail), t)
  {
    hide ReadArg, Split, HeadDiffers;
    if value == "" {
      SplitPlain(name, tail);
      assert name + ("" + tail) == name + tail;
      HeadIs(name, name + tail, t);
    } else {
      var k := PlainPrefix(t);
      assert t == name + ("=" + value);
      assert k < |t| by {
        assert t[..|t|] == t;
      }
      assert k > 0 by {
        assert t[0] == name[0] && name[0] in name;
      }
      assert name + (("=" + value) + tail) == t[..k] + (t[k..] + tail);
      assert '"' !in t[..k];
      SplitPlain(t[..k], t[k..] + tail);
      HeadIs(t[..k], t[..k] + (t[k..] + tail), t);
    }
  }

  lemma UnprintableSwitchDiffers(t: string, tail: string)
    requires IsSwitch(Windows, t) && !Printable(t, true) && Boundary(tail)
    ensures HeadDiffers(Render(Windows, t, true) + tail, t)
  {
    hide ReadArg, Split, FindEquals, HeadDiffers, Quote, NeedsQuotes, PrefixLength;
    var name, value := SwitchName(t), SwitchValue(t);
    var rest := if value == "" then "" else "=" + Quote(value);
    SwitchParts(t);
    Reassociate(name, rest, tail);
    if ' ' in name || '\t' in name || '"' in name {
      BadNameDiffers(t, name, rest + tail);
    } else {
      BadValueDiffers(t, name, value, tail);
    }
  }

  lemma Reassociate(a: string, b: string, c: string)
    ensures a + b + c == a + (b + c)
  {
  }

  /** A string that is not printable. */
  lemma UnprintableDiffers(t: string, parse: bool, tail: string)
    requires !Printable(t, parse) && Boundary(tail) && HeadSolid(tail)
    ensures HeadDiffers(Render(Windows, t, parse) + tail, t)
  {
    if parse && IsSwitch(Windows, t) {
      UnprintableSwitchDiffers(t, tail);
    } else {
      TabbedDiffers(t, tail);
    }
  }

  lemma HeadIs(head: string, s: string, t: string)
    requires Split(s) != [] && Split(s)[0] == head && |head| != |t|
    ensures HeadDiffers(s, t)
  {
  }

  /** Whatever is printed, the first argument read from it has a character other than a tab. */
  lemma RenderIsSolid(t: string, parse: bool, tail: string)
    requires Boundary(tail) && HeadSolid(tail)
    ensures HeadSolid(Render(Windows, t, parse) + tail)
  {
    hide ReadArg, Split, FindEquals;
    var s := Render(Windows, t, parse) + tail;
    if parse && IsSwitch(Windows, t) {
      NamePrefix(Windows, t);
      var name := SwitchName(t);
      assert name[0] == t[0] == s[0];
      assert s == [s[0]] + s[1..];
      ReadOrdinary(s[0], s[1..], false);
      SplitReads(s);
      assert s[0] in Split(s)[0];
    } else if NeedsQuotes(t) {
      SplitSurvivor(t, tail);
      var c := if ' ' in t then ' ' else if '\\' in t then '\\' else '"';
      assert Split(s)[0] == t && c in Split(s)[0];
    } else if t == "" || '\t' in t {
      TabbedDiffers(t, tail);
    } else {
      SplitPlain(t, tail);
      assert Split(s)[0] == t && t[0] in Split(s)[0];
    }
  }

  // ---------------------------------------------------------------------------
  // The whole list.
  // ---------------------------------------------------------------------------

  /** The rest of a printed list, as it follows the first string. */
  function RestOf(ts: seq<string>, here: bool): string {
    if |ts| <= 1 then "" else " " + RenderAll(Windows, ts[1..], here)
  }

  lemma SplitRest(ts: seq<string>, here: bool)
    requires ts != []
    ensures Split(RestOf(ts, here)) == Split(RenderAll(Windows, ts[1..], here))
  {
    hide ReadArg;
    var rest := RestOf(ts, here);
    if |ts| > 1 {
      assert rest[1..] == RenderAll(Windows, ts[1..], here);
    } else {
      assert ts[1..] == [];
    }
  }

  lemma {:induction false} RenderAllIsSolid(ts: seq<string>, parse: bool)
    ensures HeadSolid(RenderAll(Windows, ts, parse))
  {
    hide ReadArg, Render, Split;
    if ts == [] {
      SplitNothing();
    } else {
      var here := parse && ts[0] != TERMINATOR;
      RenderAllIsSolid(ts[1..], here);
      SplitRest(ts, here);
      RenderIsSolid(ts[0], here, RestOf(ts, here));
      assert RenderAll(Windows, ts, parse) == Render(Windows, ts[0], here) + RestOf(ts, here);
    }
  }

  lemma SplitNothing()
    ensures Split("") == []
  {
  }

  /** The printed text of any list of strings is split back into that list exactly when every
      string in it is printable. */
  lemma {:induction false} PrintedTextSplitsBack(ts: seq<string>, parse: bool)
    ensures Split(RenderAll(Windows, ts, parse)) == ts <==> AllPrintable(ts, parse)
  {
    hide ReadArg, Render, Split, Printable;
    if ts == [] {
      SplitNothing();
    } else {
      var here := parse && ts[0] != TERMINATOR;
      var text, rest := RenderAll(Windows, ts, parse), RestOf(ts, here);
      assert text == Render(Windows, ts[0], here) + rest;
      SplitRest(ts, here);
      PrintedTextSplitsBack(ts[1..], here);
      if Printable(ts[0], here) {
        PrintableReadsBack(ts[0], here, rest);
        SameList(ts[0], Split(rest), ts[0], ts[1..]);
        assert ts == [ts[0]] + ts[1..];
      } else {
        RenderAllIsSolid(ts[1..], here);
        UnprintableDiffers(ts[0], here, rest);
      }
    }
  }
}
