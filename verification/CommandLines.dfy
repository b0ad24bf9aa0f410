/** Command lines as lists of strings (base/command_line.cc): which strings are switches,
    what parsing and the appending operations do to the list, and what printing gives. */
module CommandLines {
  import opened Quoting

  datatype Platform = Posix | Windows

  const TERMINATOR := "--"

  // ---------------------------------------------------------------------------
  // Strings.
  // ---------------------------------------------------------------------------

  /** The characters that TrimWhitespace removes: kWhitespaceASCII, or kWhitespaceUTF16. */
  predicate IsBlank(p: Platform, c: char) {
    var n := c as int;
    0x09 <= n <= 0x0D || n == 0x20 ||
    (p.Windows? &&
     (n in {0x85, 0xA0, 0x1680, 0x180E, 0x200C, 0x2028, 0x2029, 0x202F, 0x205F, 0x3000} ||
      0x2000 <= n <= 0x200A))
  }

  /** The two sets of blanks are the same within ASCII. */
  lemma AsciiBlanks(p: Platform, c: char)
    requires c as int < 0x80
    ensures IsBlank(p, c) <==> c in {'\t', '\n', '\U{0B}', '\U{0C}', '\r', ' '}
  {
  }

  /** s without its leading and trailing blanks. */
  function Trim(p: Platform, s: string): (t: string)
    ensures |t| <= |s|
    ensures t != "" ==> !IsBlank(p, t[0]) && !IsBlank(p, t[|t| - 1])
    ensures (s != "" ==> !IsBlank(p, s[0]) && !IsBlank(p, s[|s| - 1])) ==> t == s
    ensures s != "" && !IsBlank(p, s[0]) && IsBlank(p, s[|s| - 1]) ==> |t| < |s|
    decreases |s|
  {
    if s == "" then ""
    else if IsBlank(p, s[0]) then Trim(p, s[1..])
    else if IsBlank(p, s[|s| - 1]) then Trim(p, s[..|s| - 1])
    else s
  }

  /** There is nothing but blanks before start and from end on. */
  ghost predicate BlankAround(p: Platform, s: string, start: nat, end: nat) {
    start <= end <= |s| && forall i :: 0 <= i < start || end <= i < |s| ==> IsBlank(p, s[i])
  }

  lemma BlankMore(p: Platform, s: string, i: nat, j: nat)
    requires s != ""
    ensures IsBlank(p, s[0]) && BlankAround(p, s[1..], i, j) ==>
              BlankAround(p, s, i + 1, j + 1) && s[1..][i..j] == s[i + 1..j + 1]
    ensures IsBlank(p, s[|s| - 1]) && BlankAround(p, s[..|s| - 1], i, j) ==>
              BlankAround(p, s, i, j) && s[..|s| - 1][i..j] == s[i..j]
  {
    hide IsBlank;
    var rest := s[1..];
    assert forall k :: 0 < k < |s| ==> s[k] == rest[k - 1];
  }

  /** What is left is a part of s, with nothing but blanks around it. */
  lemma {:induction false} TrimCutsBlanks(p: Platform, s: string) returns (start: nat, end: nat)
    ensures BlankAround(p, s, start, end) && Trim(p, s) == s[start..end]
    decreases |s|
  {
    if s != "" && IsBlank(p, s[0]) {
      var i, j := TrimCutsBlanks(p, s[1..]);
      start, end := i + 1, j + 1;
      hide IsBlank, BlankAround;
      BlankMore(p, s, i, j);
    } else if s != "" && IsBlank(p, s[|s| - 1]) {
      start, end := TrimCutsBlanks(p, s[..|s| - 1]);
      hide IsBlank, BlankAround;
      BlankMore(p, s, start, end);
    } else {
      start, end := 0, |s|;
    }
  }

  function TrimAll(p: Platform, args: seq<string>): (ts: seq<string>)
    ensures |ts| == |args| && forall i :: 0 <= i < |args| ==> ts[i] == Trim(p, args[i])
  {
    seq(|args|, i requires 0 <= i < |args| => Trim(p, args[i]))
  }

  function LowerChar(c: char): char {
    if 'A' <= c <= 'Z' then c - 'A' + 'a' else c
  }

  /** LowerASCIIOnWindows. */
  function Lower(p: Platform, s: string): (t: string)
    ensures |t| == |s|
    ensures p.Posix? ==> t == s
    ensures forall i :: 0 <= i < |s| ==> t[i] == if p.Windows? then LowerChar(s[i]) else s[i]
  {
    if p.Windows? then seq(|s|, i requires 0 <= i < |s| => LowerChar(s[i])) else s
  }

  // ---------------------------------------------------------------------------
  // Switches.
  // ---------------------------------------------------------------------------

  function Prefixes(p: Platform): seq<string> {
    match p
    case Windows => ["--", "-", "/"]
    case Posix => ["--", "-"]
  }

  function PrefixLength(p: Platform, s: string): (n: nat)
    ensures n <= |s| && n <= 2
    ensures n > 0 <==> s != "" && (s[0] == '-' || (p.Windows? && s[0] == '/'))
  {
    if "--" <= s then 2
    else if "-" <= s then 1
    else if p.Windows? && "/" <= s then 1
    else 0
  }

  method GetSwitchPrefixLength(p: Platform, s: string) returns (n: nat)
    ensures n == PrefixLength(p, s)
    ensures n == 0 <==> forall i :: 0 <= i < |Prefixes(p)| ==> !(Prefixes(p)[i] <= s)
    ensures forall i :: 0 <= i < |Prefixes(p)| && Prefixes(p)[i] <= s ==> |Prefixes(p)[i]| <= n
  {
    var prefixes := Prefixes(p);
    for i := 0 to |prefixes|
      invariant forall j :: 0 <= j < i ==> !(prefixes[j] <= s)
    {
      if prefixes[i] <= s {
        assert i > 0 ==> !(prefixes[0] <= s) && s[0] == prefixes[i][0];
        return |prefixes[i]|;
      }
    }
    assert !(prefixes[0] <= s) && !(prefixes[1] <= s);
    assert p.Windows? ==> !(prefixes[2] <= s);
    return 0;
  }

  /** The position of the first '=', or the length. */
  function FindEquals(s: string): (n: nat)
    ensures n <= |s| && (n < |s| ==> s[n] == '=')
    ensures forall i :: 0 <= i < n ==> s[i] != '='
  {
    FindEqualsFrom(s, 0)
  }

  function FindEqualsFrom(s: string, at: nat): (n: nat)
    requires at <= |s|
    ensures at <= n <= |s| && (n < |s| ==> s[n] == '=')
    ensures forall i :: at <= i < n ==> s[i] != '='
    decreases |s| - at
  {
    if at == |s| || s[at] == '=' then at else FindEqualsFrom(s, at + 1)
  }

  predicate IsSwitch(p: Platform, s: string) {
    0 < PrefixLength(p, s) < |s|
  }

  /** Switches begin with a dash, or under Windows a slash, and have something more. */
  lemma IsSwitchMeans(p: Platform, s: string)
    ensures IsSwitch(p, s) <==>
            s != "" && (s[0] == '-' || (p.Windows? && s[0] == '/')) && s != "-" && s != "--" && s != "/"
  {
  }

  function SwitchName(s: string): string {
    s[..FindEquals(s)]
  }

  function SwitchValue(s: string): string {
    if FindEquals(s) < |s| then s[FindEquals(s) + 1..] else ""
  }

  lemma FindEqualsIs(name: string, rest: string)
    requires '=' !in name && (rest == "" || rest[0] == '=')
    ensures FindEquals(name + rest) == |name|
  {
    var s := name + rest;
    assert rest != "" ==> s[|name|] == '=';
    assert forall i :: 0 <= i < |name| ==> s[i] == name[i];
  }

  /** The text that stands for a switch in the list. */
  function SwitchToken(p: Platform, name: string, value: string): string {
    (if PrefixLength(p, name) == 0 then "--" else "") + Lower(p, name) +
    (if value == "" then "" else "=" + value)
  }

  /** The name under which a switch is entered in the switch map. */
  function SwitchKey(p: Platform, name: string): string {
    Lower(p, name)[PrefixLength(p, name)..]
  }

  /** The key that a scan of the list finds in a switch token. */
  function TokenKey(p: Platform, token: string): string {
    var n, e := PrefixLength(p, token), FindEquals(token);
    if n <= e then token[n..e] else ""
  }

  /** The switch map that a scan of the tokens finds: the last token with a key wins. */
  function Scan(p: Platform, tokens: seq<string>): map<string, string> {
    if tokens == [] then map[] else
      var last := tokens[|tokens| - 1];
      Scan(p, tokens[..|tokens| - 1])[TokenKey(p, last) := SwitchValue(last)]
  }

  /** Position i holds the last token with this key. */
  predicate LastWith(p: Platform, tokens: seq<string>, key: string, i: int) {
    0 <= i < |tokens| && TokenKey(p, tokens[i]) == key &&
    forall j :: i < j < |tokens| ==> TokenKey(p, tokens[j]) != key
  }

  lemma ScanStep(p: Platform, tokens: seq<string>)
    ensures tokens == [] ==> Scan(p, tokens) == map[]
    ensures tokens != [] ==>
              var last := tokens[|tokens| - 1];
              Scan(p, tokens) == Scan(p, tokens[..|tokens| - 1])[TokenKey(p, last) := SwitchValue(last)]
  {
  }

  /** A key is in the map exactly when some token has it, and its value is the last such token's. */
  lemma {:induction false} ScanLastWins(p: Platform, tokens: seq<string>, key: string)
    ensures key in Scan(p, tokens) <==> exists i :: LastWith(p, tokens, key, i)
    ensures forall i :: LastWith(p, tokens, key, i) ==> Scan(p, tokens)[key] == SwitchValue(tokens[i])
  {
    hide TokenKey, SwitchValue, Scan;
    ScanStep(p, tokens);
    if tokens != [] {
      var n, front := |tokens| - 1, tokens[..|tokens| - 1];
      if TokenKey(p, tokens[n]) == key {
        assert LastWith(p, tokens, key, n);
      } else {
        ScanLastWins(p, front, key);
        forall i ensures LastWith(p, tokens, key, i) <==> LastWith(p, front, key, i) {
          assert forall j :: 0 <= j < n ==> front[j] == tokens[j];
        }
      }
    }
  }

  lemma LowerPrefix(p: Platform, s: string)
    ensures PrefixLength(p, Lower(p, s)) == PrefixLength(p, s)
    ensures '=' in Lower(p, s) <==> '=' in s
    ensures Lower(p, Lower(p, s)) == Lower(p, s)
  {
    var t := Lower(p, s);
    assert forall i | 0 <= i < |s| ::
        (t[i] == '-' <==> s[i] == '-') && (t[i] == '/' <==> s[i] == '/') && (t[i] == '=' <==> s[i] == '=');
  }

  /** The name part of a token, with its prefix. */
  function TokenName(p: Platform, name: string): string {
    (if PrefixLength(p, name) == 0 then "--" else "") + Lower(p, name)
  }

  lemma TokenParts(p: Platform, name: string, value: string)
    requires '=' !in name
    ensures var rest := if value == "" then "" else "=" + value;
            SwitchToken(p, name, value) == TokenName(p, name) + rest &&
            FindEquals(TokenName(p, name) + rest) == |TokenName(p, name)|
  {
    hide PrefixLength, Lower, FindEquals;
    LowerPrefix(p, name);
    FindEqualsIs(TokenName(p, name), if value == "" then "" else "=" + value);
  }

  lemma ValueOf(token: string, full: string, value: string)
    requires FindEquals(token) == |full| && token == full + if value == "" then "" else "=" + value
    ensures SwitchValue(token) == value
  {
    hide FindEquals;
    if value != "" {
      assert token[|full| + 1..] == value;
    }
  }

  /** Writing a switch as a token and scanning it gives back its key and value,
      provided that the name has no '='. */
  lemma TokenScansBack(p: Platform, name: string, value: string)
    requires '=' !in name
    ensures TokenKey(p, SwitchToken(p, name, value)) == SwitchKey(p, name)
    ensures SwitchValue(SwitchToken(p, name, value)) == value
  {
    hide FindEquals, PrefixLength, Lower, SwitchToken, SwitchValue;
    var rest := if value == "" then "" else "=" + value;
    var full, token := TokenName(p, name), SwitchToken(p, name, value);
    TokenParts(p, name, value);
    ValueOf(token, full, value);
    TokenPrefix(p, name, rest);
    var m, n := PrefixLength(p, token), PrefixLength(p, name);
    assert full == (if n == 0 then "--" else "") + Lower(p, name);
    assert token[m..|full|] == full[m..];
    assert full[m..] == Lower(p, name)[n..];
  }

  lemma TokenPrefix(p: Platform, name: string, rest: string)
    requires '=' !in name && (rest == "" || rest[0] == '=')
    ensures var n := PrefixLength(p, name);
            PrefixLength(p, (if n == 0 then "--" else "") + Lower(p, name) + rest) == if n == 0 then 2 else n
  {
    LowerPrefix(p, name);
    var low := Lower(p, name);
    var token := low + rest;
    if PrefixLength(p, name) > 0 {
      assert token[0] == low[0];
      assert |low| > 1 ==> token[1] == low[1];
      assert |low| == 1 && rest != "" ==> token[1] == rest[0];
      assert "" + low + rest == token;
    } else {
      var long := "--" + low + rest;
      assert long[0] == '-' && long[1] == '-' && long[..2] == "--";
    }
  }

  lemma {:induction false} ScanKeysHaveNoEquals(p: Platform, tokens: seq<string>)
    ensures forall key :: key in Scan(p, tokens) ==> '=' !in key
  {
    forall key | key in Scan(p, tokens) ensures '=' !in key {
      ScanLastWins(p, tokens, key);
      var i :| LastWith(p, tokens, key, i);
      assert forall x :: x in key ==> x in tokens[i][..FindEquals(tokens[i])];
    }
  }

  // ---------------------------------------------------------------------------
  // The operations on a command line, as functions of its value.
  // ---------------------------------------------------------------------------

  /** start is the index of the first switch: 1, or more once wrappers are prepended.
      begin is begin_args_. */
  datatype Line = Line(argv: seq<string>, switches: map<string, string>, start: nat, begin: nat)

  predicate WellFormed(l: Line) {
    1 <= l.start <= l.begin <= |l.argv|
  }

  /** The switch map is what a scan of the switch section finds. */
  predicate Consistent(p: Platform, l: Line) {
    WellFormed(l) && l.switches == Scan(p, l.argv[l.start..l.begin])
  }

  const NO_PROGRAM := Line([""], map[], 1, 1)

  function SetProgram(p: Platform, l: Line, program: string): Line
    requires WellFormed(l)
  {
    l.(argv := l.argv[0 := Trim(p, program)])
  }

  function AppendSwitch(p: Platform, l: Line, name: string, value: string): (r: Line)
    requires WellFormed(l)
    ensures WellFormed(r)
  {
    l.(argv := l.argv[..l.begin] + [SwitchToken(p, name, value)] + l.argv[l.begin..],
       switches := l.switches[SwitchKey(p, name) := value],
       begin := l.begin + 1)
  }

  function AppendArg(l: Line, value: string): Line {
    l.(argv := l.argv + [value])
  }

  /** AppendSwitchesAndArguments, without the program at the front of the list. */
  function AppendAll(p: Platform, l: Line, args: seq<string>, parseSwitches: bool): (r: Line)
    requires WellFormed(l)
    ensures WellFormed(r)
    decreases |args|
  {
    if args == [] then l else
      var t := Trim(p, args[0]);
      var parse := parseSwitches && t != TERMINATOR;
      if parse && IsSwitch(p, t)
      then AppendAll(p, AppendSwitch(p, l, SwitchName(t), SwitchValue(t)), args[1..], parse)
      else AppendAll(p, AppendArg(l, t), args[1..], parse)
  }

  function Tail(argv: seq<string>): seq<string> {
    if argv == [] then [] else argv[1..]
  }

  function Program(argv: seq<string>): string {
    if argv == [] then "" else argv[0]
  }

  /** InitFromArgv. */
  function Parse(p: Platform, argv: seq<string>): (l: Line)
    ensures WellFormed(l)
  {
    AppendAll(p, SetProgram(p, NO_PROGRAM, Program(argv)), Tail(argv), true)
  }

  function CopySwitches(p: Platform, l: Line, source: map<string, string>, names: seq<string>): (r: Line)
    requires WellFormed(l)
    ensures WellFormed(r)
    decreases |names|
  {
    if names == [] then l else
      var key := Lower(p, names[0]);
      CopySwitches(p, if key in source then AppendSwitch(p, l, names[0], source[key]) else l,
                   source, names[1..])
  }

  /** CopySwitchesFrom on the command line itself: the map that is read is the one being changed. */
  function CopyOwn(p: Platform, l: Line, names: seq<string>): (r: Line)
    requires WellFormed(l)
    ensures WellFormed(r)
    decreases |names|
  {
    if names == [] then l else
      var key := Lower(p, names[0]);
      CopyOwn(p, if key in l.switches then AppendSwitch(p, l, names[0], l.switches[key]) else l, names[1..])
  }

  /** SplitString on ' ' (base/strings/string_split.cc), from the pieces found so far. */
  function SplitString(p: Platform, s: string, found: seq<string>, piece: string): seq<string>
    decreases |s|
  {
    if s == "" then
      var last := Trim(p, piece);
      if found != [] || last != "" then found + [last] else found
    else if s[0] == ' ' then SplitString(p, s[1..], found + [Trim(p, piece)], "")
    else SplitString(p, s[1..], found, piece + [s[0]])
  }

  function PrependWrapper(p: Platform, l: Line, wrapper: string): (r: Line)
    requires WellFormed(l)
    ensures WellFormed(r)
  {
    var w := if wrapper == "" then [] else SplitString(p, wrapper, [], "");
    l.(argv := w + l.argv, start := l.start + |w|, begin := l.begin + |w|)
  }

  // ---------------------------------------------------------------------------
  // The switch map and the switch section agree.
  // ---------------------------------------------------------------------------

  lemma SectionGrows(p: Platform, l: Line, name: string, value: string)
    requires WellFormed(l)
    ensures var r := AppendSwitch(p, l, name, value);
            r.argv[r.start..r.begin] == l.argv[l.start..l.begin] + [SwitchToken(p, name, value)] &&
            Scan(p, r.argv[r.start..r.begin]) ==
            Scan(p, l.argv[l.start..l.begin])
                [TokenKey(p, SwitchToken(p, name, value)) := SwitchValue(SwitchToken(p, name, value))]
  {
    var r := AppendSwitch(p, l, name, value);
    var section := l.argv[l.start..l.begin];
    assert r.argv[r.start..r.begin] == section + [SwitchToken(p, name, value)];
    assert (section + [SwitchToken(p, name, value)])[..|section|] == section;
  }

  lemma KeyWithEquals(p: Platform, name: string)
    requires '=' in name
    ensures '=' in SwitchKey(p, name)
  {
    LowerPrefix(p, name);
    var low := Lower(p, name);
    var n := PrefixLength(p, low);
    var i :| 0 <= i < |low| && low[i] == '=';
    assert low[n..][i - n] == '=';
  }

  /** Appending a switch keeps map and section in agreement exactly when its name has no '='. */
  lemma AppendSwitchAgrees(p: Platform, l: Line, name: string, value: string)
    requires Consistent(p, l)
    ensures Consistent(p, AppendSwitch(p, l, name, value)) <==> '=' !in name
  {
    hide Scan, TokenKey, SwitchToken, SwitchKey, SwitchValue;
    var r := AppendSwitch(p, l, name, value);
    SectionGrows(p, l, name, value);
    if '=' !in name {
      TokenScansBack(p, name, value);
    } else {
      ScanKeysHaveNoEquals(p, r.argv[r.start..r.begin]);
      KeyWithEquals(p, name);
      assert SwitchKey(p, name) in r.switches;
    }
  }

  lemma {:induction false} AppendAllAgrees(p: Platform, l: Line, args: seq<string>, parseSwitches: bool)
    requires Consistent(p, l)
    ensures Consistent(p, AppendAll(p, l, args, parseSwitches))
    decreases |args|
  {
    if args != [] {
      var t := Trim(p, args[0]);
      var parse := parseSwitches && t != TERMINATOR;
      if parse && IsSwitch(p, t) {
        AppendSwitchAgrees(p, l, SwitchName(t), SwitchValue(t));
        AppendAllAgrees(p, AppendSwitch(p, l, SwitchName(t), SwitchValue(t)), args[1..], parse);
      } else {
        var r := AppendArg(l, t);
        assert r.argv[r.start..r.begin] == l.argv[l.start..l.begin];
        AppendAllAgrees(p, r, args[1..], parse);
      }
    }
  }

  /** Copying from a map without '=' in its keys never breaks the agreement. */
  lemma {:induction false} CopySwitchesAgrees(p: Platform, l: Line, source: map<string, string>, names: seq<string>)
    requires Consistent(p, l)
    requires forall key :: key in source ==> '=' !in key
    ensures Consistent(p, CopySwitches(p, l, source, names))
    decreases |names|
  {
    if names != [] {
      var key := Lower(p, names[0]);
      LowerPrefix(p, names[0]);
      if key in source {
        AppendSwitchAgrees(p, l, names[0], source[key]);
        CopySwitchesAgrees(p, AppendSwitch(p, l, names[0], source[key]), source, names[1..]);
      } else {
        CopySwitchesAgrees(p, l, source, names[1..]);
      }
    }
  }

  function LowerAll(p: Platform, names: seq<string>): set<string> {
    set n | n in names :: Lower(p, n)
  }

  /** Every name that the source has is written without a prefix. */
  predicate NoPrefixCopied(p: Platform, source: map<string, string>, names: seq<string>) {
    forall n :: n in names && Lower(p, n) in source ==> PrefixLength(p, n) == 0
  }

  /** The entries that the names ask for. */
  function Asked(p: Platform, source: map<string, string>, names: seq<string>): map<string, string> {
    map key | key in source && key in LowerAll(p, names) :: source[key]
  }

  /** The switches to be copied, as they are written: one for every name that the source has. */
  function CopiedTokens(p: Platform, source: map<string, string>, names: seq<string>): seq<string> {
    if names == [] then []
    else
      var key := Lower(p, names[0]);
      (if key in source then [SwitchToken(p, names[0], source[key])] else []) + CopiedTokens(p, source, names[1..])
  }

  lemma AppendSwitchInserts(p: Platform, l: Line, name: string, value: string)
    requires WellFormed(l)
    ensures var r := AppendSwitch(p, l, name, value);
            r.argv[..r.begin] == l.argv[..l.begin] + [SwitchToken(p, name, value)] &&
            r.argv[r.begin..] == l.argv[l.begin..] && r.start == l.start && r.begin == l.begin + 1
  {
    hide SwitchToken, SwitchKey;
  }

  /** Copying inserts these at the end of the switch section; everything else stays where it was. */
  lemma {:induction false} CopySwitchesInserts(p: Platform, l: Line, source: map<string, string>, names: seq<string>)
    requires WellFormed(l)
    ensures var r, ss := CopySwitches(p, l, source, names), CopiedTokens(p, source, names);
            r.argv == l.argv[..l.begin] + ss + l.argv[l.begin..] && r.begin == l.begin + |ss| && r.start == l.start
    decreases |names|
  {
    hide Lower, SwitchToken, AppendSwitch;
    if names == [] {
      assert l.argv[..l.begin] + [] + l.argv[l.begin..] == l.argv;
    } else {
      var key, ss := Lower(p, names[0]), CopiedTokens(p, source, names[1..]);
      if key in source {
        var m, token := AppendSwitch(p, l, names[0], source[key]), SwitchToken(p, names[0], source[key]);
        AppendSwitchInserts(p, l, names[0], source[key]);
        CopySwitchesInserts(p, m, source, names[1..]);
        assert l.argv[..l.begin] + [token] + ss == l.argv[..l.begin] + ([token] + ss);
      } else {
        CopySwitchesInserts(p, l, source, names[1..]);
        assert [] + ss == ss;
      }
    }
  }

  /** Copying a command line's own switches inserts, too, and keeps the agreement. */
  lemma {:induction false} CopyOwnInserts(p: Platform, l: Line, names: seq<string>)
    requires WellFormed(l)
    ensures var r := CopyOwn(p, l, names);
            r.start == l.start && r.begin >= l.begin &&
            r.argv[..l.begin] == l.argv[..l.begin] && r.argv[r.begin..] == l.argv[l.begin..]
    ensures Consistent(p, l) ==> Consistent(p, CopyOwn(p, l, names))
    decreases |names|
  {
    hide Lower, SwitchToken, AppendSwitch, Consistent;
    if names != [] {
      var key := Lower(p, names[0]);
      if key in l.switches {
        var m := AppendSwitch(p, l, names[0], l.switches[key]);
        AppendSwitchInserts(p, l, names[0], l.switches[key]);
        CopyOwnInserts(p, m, names[1..]);
        if Consistent(p, l) {
          OwnName(p, l, names[0]);
          AppendSwitchAgrees(p, l, names[0], l.switches[key]);
        }
        assert CopyOwn(p, l, names).argv[..m.begin][..l.begin] == m.argv[..m.begin][..l.begin];
      } else {
        CopyOwnInserts(p, l, names[1..]);
      }
    }
  }

  lemma OwnName(p: Platform, l: Line, name: string)
    requires Consistent(p, l) && Lower(p, name) in l.switches
    ensures '=' !in name
  {
    hide Scan;
    ScanKeysHaveNoEquals(p, l.argv[l.start..l.begin]);
    LowerPrefix(p, name);
  }

  /** Copying a command line's own switches is copying from its map as it was, unless one of them
      is written with a prefix. */
  lemma {:induction false} CopyOwnCopies(p: Platform, l: Line, names: seq<string>)
    requires WellFormed(l) && NoPrefixCopied(p, l.switches, names)
    ensures CopyOwn(p, l, names) == CopySwitches(p, l, l.switches, names)
    decreases |names|
  {
    hide Lower, SwitchToken, PrefixLength;
    if names != [] {
      var key := Lower(p, names[0]);
      if key in l.switches {
        assert SwitchKey(p, names[0]) == key;
        assert l.switches[key := l.switches[key]] == l.switches;
        CopyOwnCopies(p, AppendSwitch(p, l, names[0], l.switches[key]), names[1..]);
      } else {
        CopyOwnCopies(p, l, names[1..]);
      }
    }
  }

  lemma MergeOne(m: map<string, string>, a: map<string, string>, key: string, value: string)
    requires key in a ==> a[key] == value
    ensures m[key := value] + a == m + a[key := value]
  {
  }

  lemma AskedStep(p: Platform, source: map<string, string>, names: seq<string>, m: map<string, string>)
    requires names != []
    ensures var key, rest := Lower(p, names[0]), names[1..];
            if key in source then m[key := source[key]] + Asked(p, source, rest) == m + Asked(p, source, names)
            else Asked(p, source, rest) == Asked(p, source, names)
  {
    hide Lower;
    var key, rest := Lower(p, names[0]), names[1..];
    assert names == [names[0]] + rest;
    assert LowerAll(p, names) == {key} + LowerAll(p, rest);
    hide LowerAll;
    if key in source {
      assert Asked(p, source, names) == Asked(p, source, rest)[key := source[key]];
      MergeOne(m, Asked(p, source, rest), key, source[key]);
    }
  }

  /** Unless the source has a name that is written with a prefix, the entries that the names ask for
      are the source's, and all others are as they were. */
  lemma {:induction false} CopySwitchesCopies(p: Platform, l: Line, source: map<string, string>, names: seq<string>)
    requires WellFormed(l) && NoPrefixCopied(p, source, names)
    ensures CopySwitches(p, l, source, names).switches == l.switches + Asked(p, source, names)
    decreases |names|
  {
    assert Asked(p, source, []) == map[];
    hide Lower, PrefixLength, Asked;
    if names != [] {
      var key := Lower(p, names[0]);
      AskedStep(p, source, names, l.switches);
      if key in source {
        assert SwitchKey(p, names[0]) == key;
        CopySwitchesCopies(p, AppendSwitch(p, l, names[0], source[key]), source, names[1..]);
      } else {
        CopySwitchesCopies(p, l, source, names[1..]);
      }
    }
  }

  /** Every new key was written for some name that the source has. */
  lemma {:induction false} WrittenFor(p: Platform, l: Line, source: map<string, string>,
                                      names: seq<string>, key: string)
    requires WellFormed(l) && key in CopySwitches(p, l, source, names).switches && key !in l.switches
    ensures exists n :: n in names && Lower(p, n) in source && SwitchKey(p, n) == key
    decreases |names|
  {
    hide Lower, PrefixLength, SwitchKey;
    if names != [] {
      assert names == [names[0]] + names[1..];
      var low := Lower(p, names[0]);
      if low !in source {
        WrittenFor(p, l, source, names[1..], key);
      } else if SwitchKey(p, names[0]) != key {
        WrittenFor(p, AppendSwitch(p, l, names[0], source[low]), source, names[1..], key);
      }
    }
  }

  /** A longest name among those that the source has and that are written with a prefix. */
  lemma {:induction false} LongestPrefixed(p: Platform, source: map<string, string>, names: seq<string>)
    returns (n: string)
    requires !NoPrefixCopied(p, source, names)
    ensures n in names && Lower(p, n) in source && PrefixLength(p, n) > 0
    ensures forall m :: m in names && Lower(p, m) in source && PrefixLength(p, m) > 0 ==> |m| <= |n|
  {
    hide Lower, PrefixLength;
    var first, rest := names[0], names[1..];
    assert names == [first] + rest;
    if NoPrefixCopied(p, source, rest) {
      n := first;
    } else {
      n := LongestPrefixed(p, source, rest);
      if Lower(p, first) in source && PrefixLength(p, first) > 0 && |first| > |n| {
        n := first;
      }
    }
  }

  lemma KeyOfName(p: Platform, n: string)
    ensures |SwitchKey(p, n)| == |n| - PrefixLength(p, n)
    ensures PrefixLength(p, n) == 0 ==> SwitchKey(p, n) == Lower(p, n)
  {
  }

  /** A longest name that the source has and that is written with a prefix is not copied. */
  lemma PrefixedIsLost(p: Platform, l: Line, source: map<string, string>, names: seq<string>) returns (n: string)
    requires WellFormed(l) && l.switches == map[] && !NoPrefixCopied(p, source, names)
    ensures n in names && Lower(p, n) in source && Lower(p, n) !in CopySwitches(p, l, source, names).switches
  {
    hide Lower, PrefixLength, SwitchKey;
    n := LongestPrefixed(p, source, names);
    var key := Lower(p, n);
    if key in CopySwitches(p, l, source, names).switches {
      WrittenFor(p, l, source, names, key);
      var m :| m in names && Lower(p, m) in source && SwitchKey(p, m) == key;
      KeyOfName(p, m);
      KeyOfName(p, n);
      LowerPrefix(p, m);
      LowerPrefix(p, n);
      assert false;
    }
  }

  /** A command line without switches gets exactly the entries asked for, if and only if no name
      that the source has is written with a prefix: HasSwitch looks a name up as it stands,
      AppendSwitchNative enters it without its prefix. */
  lemma CopyOntoNoSwitches(p: Platform, l: Line, source: map<string, string>, names: seq<string>)
    requires WellFormed(l) && l.switches == map[]
    ensures CopySwitches(p, l, source, names).switches == Asked(p, source, names) <==> NoPrefixCopied(p, source, names)
  {
    hide CopySwitches, NoPrefixCopied, Lower;
    if NoPrefixCopied(p, source, names) {
      CopySwitchesCopies(p, l, source, names);
      assert map[] + Asked(p, source, names) == Asked(p, source, names);
    } else {
      var n := PrefixedIsLost(p, l, source, names);
      assert Lower(p, n) in LowerAll(p, names);
      assert Lower(p, n) in Asked(p, source, names);
    }
  }

  function Join(pieces: seq<string>): string {
    if pieces == [] then ""
    else if |pieces| == 1 then pieces[0]
    else Join(pieces[..|pieces| - 1]) + " " + pieces[|pieces| - 1]
  }

  /** s cut at each of its spaces. */
  function Cut(s: string): (pieces: seq<string>)
    ensures pieces != []
  {
    if s == "" then [""]
    else if s[0] == ' ' then [""] + Cut(s[1..])
    else
      var rest := Cut(s[1..]);
      [[s[0]] + rest[0]] + rest[1..]
  }

  lemma JoinFront(first: string, rest: seq<string>)
    ensures Join([first] + rest) == if rest == [] then first else first + (" " + Join(rest))
    decreases |rest|
  {
    var all := [first] + rest;
    if |rest| > 0 {
      var last := rest[|rest| - 1];
      assert all[..|all| - 1] == [first] + rest[..|rest| - 1];
      JoinFront(first, rest[..|rest| - 1]);
      if |rest| > 1 {
        var front := Join(rest[..|rest| - 1]);
        assert first + (" " + front) + " " + last == first + (" " + (front + " " + last));
      } else {
        assert rest == [last];
      }
    }
  }

  lemma CutStep(s: string)
    ensures s == "" ==> Cut(s) == [""]
    ensures s != "" && s[0] == ' ' ==> Cut(s) == [""] + Cut(s[1..])
    ensures s != "" && s[0] != ' ' ==> Cut(s) == [[s[0]] + Cut(s[1..])[0]] + Cut(s[1..])[1..]
  {
  }

  lemma {:induction false} CutJoins(s: string)
    ensures Join(Cut(s)) == s
  {
    hide Cut, Join;
    CutStep(s);
    if s == "" {
      JoinFront("", []);
      assert [""] + [] == [""];
    } else {
      var rest := Cut(s[1..]);
      CutJoins(s[1..]);
      if s[0] == ' ' {
        JoinFront("", rest);
        assert "" + (" " + s[1..]) == s;
      } else {
        assert rest == [rest[0]] + rest[1..];
        JoinFront(rest[0], rest[1..]);
        JoinFront([s[0]] + rest[0], rest[1..]);
      }
    }
  }

  /** Nothing is left to cut in the pieces. */
  lemma {:induction false} CutEverywhere(s: string)
    ensures forall piece :: piece in Cut(s) ==> ' ' !in piece
  {
    if s != "" {
      CutEverywhere(s[1..]);
    }
  }

  /** The pieces of s with something in front of the first, all trimmed. */
  function TrimCut(p: Platform, front: string, s: string): seq<string> {
    TrimAll(p, [front + Cut(s)[0]] + Cut(s)[1..])
  }

  lemma TrimAllFront(p: Platform, first: string, rest: seq<string>)
    ensures TrimAll(p, [first] + rest) == [Trim(p, first)] + TrimAll(p, rest)
  {
    hide Trim;
  }

  lemma TrimCutStep(p: Platform, front: string, s: string)
    ensures s == "" ==> TrimCut(p, front, s) == [Trim(p, front)]
    ensures s != "" && s[0] == ' ' ==> TrimCut(p, front, s) == [Trim(p, front)] + TrimCut(p, "", s[1..])
    ensures s != "" && s[0] != ' ' ==> TrimCut(p, front, s) == TrimCut(p, front + [s[0]], s[1..])
  {
    hide Trim, Cut, TrimAll;
    CutStep(s);
    assert front + "" == front;
    if s == "" {
      TrimAllFront(p, front, []);
      assert TrimAll(p, []) == [];
    } else {
      var rest := Cut(s[1..]);
      if s[0] == ' ' {
        TrimAllFront(p, front, rest);
        assert "" + rest[0] == rest[0] && [rest[0]] + rest[1..] == rest;
      } else {
        assert front + ([s[0]] + rest[0]) == front + [s[0]] + rest[0];
      }
    }
  }

  lemma SplitStringStep(p: Platform, s: string, found: seq<string>, piece: string)
    ensures s == "" ==>
              SplitString(p, s, found, piece) ==
              if found == [] && Trim(p, piece) == "" then [] else found + [Trim(p, piece)]
    ensures s != "" ==>
              SplitString(p, s, found, piece) ==
              if s[0] == ' ' then SplitString(p, s[1..], found + [Trim(p, piece)], "")
              else SplitString(p, s[1..], found, piece + [s[0]])
  {
    hide Trim;
  }

  /** SplitString in terms of the pieces: each of them trimmed, or nothing at all if there is only
      one and it is blank. */
  lemma {:induction false} SplitStringCuts(p: Platform, s: string, found: seq<string>, piece: string)
    ensures var all := found + TrimCut(p, piece, s);
            SplitString(p, s, found, piece) == if all == [""] then [] else all
    decreases |s|
  {
    hide *;
    TrimCutStep(p, piece, s);
    SplitStringStep(p, s, found, piece);
    var t := Trim(p, piece);
    if s == "" {
      assert found + [t] == [""] <==> found == [] && t == "" by {
        assert (found + [t])[|found|] == t;
      }
    } else if s[0] == ' ' {
      var rest := TrimCut(p, "", s[1..]);
      SplitStringCuts(p, s[1..], found + [t], "");
      assert found + [t] + rest == found + ([t] + rest);
    } else {
      SplitStringCuts(p, s[1..], found, piece + [s[0]]);
    }
  }

  lemma JoinLength(front: seq<string>, last: string)
    ensures |Join(front + [last])| == |Join(front)| + |last| + if front == [] then 0 else 1
  {
    var all := front + [last];
    assert all[..|all| - 1] == front && all[|all| - 1] == last;
    if front != [] {
      assert Join(all) == Join(front) + " " + last;
    }
  }

  /** Making some of the strings shorter makes the joined string shorter. */
  lemma {:induction false} JoinShorter(less: seq<string>, more: seq<string>)
    requires |less| == |more|
    requires forall i :: 0 <= i < |more| ==> less[i] == more[i] || |less[i]| < |more[i]|
    ensures |Join(less)| <= |Join(more)| && (|Join(less)| == |Join(more)| ==> less == more)
  {
    hide Join;
    if more != [] {
      var n := |more| - 1;
      JoinShorter(less[..n], more[..n]);
      JoinLength(less[..n], less[n]);
      JoinLength(more[..n], more[n]);
      assert less == less[..n] + [less[n]] && more == more[..n] + [more[n]];
    }
  }

  lemma {:induction false} TrimShortens(p: Platform, s: string)
    ensures Trim(p, s) == s || |Trim(p, s)| < |s|
    decreases |s|
  {
    hide IsBlank;
    if s != "" {
      if IsBlank(p, s[0]) {
        TrimShortens(p, s[1..]);
      } else if IsBlank(p, s[|s| - 1]) {
        TrimShortens(p, s[..|s| - 1]);
      }
    }
  }

  /** PrependWrapper puts the trimmed pieces of the wrapper, or nothing if it has one blank piece
      only, in front of everything that was there. Joined by spaces they are the wrapper again if
      and only if no piece begins or ends with a blank. */
  lemma WrapperRejoins(p: Platform, l: Line, wrapper: string)
    requires WellFormed(l)
    ensures var r, pieces := PrependWrapper(p, l, wrapper), TrimAll(p, Cut(wrapper));
            var k := if pieces == [""] then 0 else |pieces|;
            r.argv == pieces[..k] + l.argv &&
            r.begin == l.begin + k && r.start == l.start + k && r.switches == l.switches &&
            (Join(pieces[..k]) == wrapper <==> pieces == Cut(wrapper))
  {
    hide Cut, Trim, SplitString, Join, TrimAll;
    var cut, pieces := Cut(wrapper), TrimAll(p, Cut(wrapper));
    WrapperPieces(p, wrapper);
    CutJoins(wrapper);
    assert pieces[..|pieces|] == pieces;
    forall i | 0 <= i < |cut| ensures pieces[i] == cut[i] || |pieces[i]| < |cut[i]| {
      TrimShortens(p, cut[i]);
    }
    JoinShorter(pieces, cut);
  }

  lemma WrapperPieces(p: Platform, wrapper: string)
    ensures var pieces := TrimAll(p, Cut(wrapper));
            (if wrapper == "" then [] else SplitString(p, wrapper, [], "")) == (if pieces == [""] then [] else pieces)
    ensures Join([]) == Join([""])
  {
    var cut := Cut(wrapper);
    assert "" + cut[0] == cut[0] && [cut[0]] + cut[1..] == cut;
    hide Trim, SplitString;
    SplitStringCuts(p, wrapper, [], "");
    assert [] + TrimAll(p, cut) == TrimAll(p, cut);
    if wrapper == "" {
      assert TrimAll(p, [""]) == [""];
    }
  }

  /** One call on a command line. */
  datatype Call =
    | DoInit(args: seq<string>)
    | DoSetProgram(program: string)
    | DoSwitch(name: string, value: string)
    | DoArg(arg: string)
    | DoAppend(other: Line, includeProgram: bool)
    | DoCopy(source: Line, names: seq<string>)
    | DoWrap(wrapper: string)

  /** The other command lines that a call reads are themselves in agreement, and the names
      of switches that it appends have no '='. */
  predicate Proper(p: Platform, call: Call) {
    match call
    case DoSwitch(name, _) => '=' !in name
    case DoAppend(other, _) => WellFormed(other)
    case DoCopy(source, _) => Consistent(p, source)
    case _ => true
  }

  function Apply(p: Platform, l: Line, call: Call): (r: Line)
    requires WellFormed(l)
    ensures WellFormed(r)
  {
    match call
    case DoInit(args) => Parse(p, args)
    case DoSetProgram(program) => SetProgram(p, l, program)
    case DoSwitch(name, value) => AppendSwitch(p, l, name, value)
    case DoArg(arg) => AppendArg(l, arg)
    case DoAppend(other, includeProgram) => AppendOther(p, l, other, includeProgram)
    case DoCopy(source, names) => CopySwitches(p, l, source.switches, names)
    case DoWrap(wrapper) => PrependWrapper(p, l, wrapper)
  }

  /** AppendArguments. */
  function AppendOther(p: Platform, l: Line, other: Line, includeProgram: bool): (r: Line)
    requires WellFormed(l)
    ensures WellFormed(r)
  {
    AppendAll(p, if includeProgram then SetProgram(p, l, Program(other.argv)) else l, Tail(other.argv), true)
  }

  function Run(p: Platform, l: Line, calls: seq<Call>): (r: Line)
    requires WellFormed(l)
    ensures WellFormed(r)
    decreases |calls|
  {
    if calls == [] then l else Run(p, Apply(p, l, calls[0]), calls[1..])
  }

  lemma SetProgramAgrees(p: Platform, l: Line, program: string)
    requires Consistent(p, l)
    ensures Consistent(p, SetProgram(p, l, program))
  {
    var r := SetProgram(p, l, program);
    assert r.argv[r.start..r.begin] == l.argv[l.start..l.begin];
  }

  lemma ParseAgrees(p: Platform, argv: seq<string>)
    ensures Consistent(p, Parse(p, argv))
  {
    SetProgramAgrees(p, NO_PROGRAM, Program(argv));
    AppendAllAgrees(p, SetProgram(p, NO_PROGRAM, Program(argv)), Tail(argv), true);
  }

  lemma CallAgrees(p: Platform, l: Line, call: Call)
    requires Consistent(p, l) && Proper(p, call)
    ensures Consistent(p, Apply(p, l, call))
  {
    var r := Apply(p, l, call);
    match call
    case DoInit(args) => ParseAgrees(p, args);
    case DoSetProgram(program) => SetProgramAgrees(p, l, program);
    case DoSwitch(name, value) => AppendSwitchAgrees(p, l, name, value);
    case DoArg(arg) => assert r.argv[r.start..r.begin] == l.argv[l.start..l.begin];
    case DoAppend(other, includeProgram) =>
      SetProgramAgrees(p, l, Program(other.argv));
      AppendAllAgrees(p, if includeProgram then SetProgram(p, l, Program(other.argv)) else l, Tail(other.argv), true);
    case DoCopy(source, names) =>
      ScanKeysHaveNoEquals(p, source.argv[source.start..source.begin]);
      CopySwitchesAgrees(p, l, source.switches, names);
    case DoWrap(wrapper) => assert r.argv[r.start..r.begin] == l.argv[l.start..l.begin];
  }

  /** Whatever calls are made, the switch map is the last-wins scan of the switch section. */
  lemma {:induction false} RunAgrees(p: Platform, l: Line, calls: seq<Call>)
    requires Consistent(p, l)
    requires forall i :: 0 <= i < |calls| ==> Proper(p, calls[i])
    ensures Consistent(p, Run(p, l, calls))
    decreases |calls|
  {
    if calls != [] {
      CallAgrees(p, l, calls[0]);
      RunAgrees(p, Apply(p, l, calls[0]), calls[1..]);
    }
  }
}
