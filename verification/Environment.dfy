/** Rewriting an environment (base/environment.cc): which lines it is to hold, how lookups are to be
    answered, and the Windows form, a block of NUL-terminated lines. */
module Environment {
  import opened Wrappers

  const NUL := '\0'

  /** One pair of the EnvironmentMap; the map iterates over them in the order of its keys. An
      empty value asks for the variable to be removed. */
  datatype Change = Change(key: string, value: string)

  ghost predicate DistinctKeys(changes: seq<Change>) {
    forall j, k :: 0 <= j < k < |changes| ==> changes[j].key != changes[k].key
  }

  /** changes.find(key) != changes.end(). */
  predicate Changes(changes: seq<Change>, key: string) {
    exists c :: c in changes && c.key == key
  }

  // ---------------------------------------------------------------------------
  // Lines.
  // ---------------------------------------------------------------------------

  /** Where c first occurs, or the length. */
  function Find(s: string, c: char): (n: nat)
    ensures n <= |s| && (n < |s| ==> s[n] == c)
  {
    if s == [] || s[0] == c then 0 else 1 + Find(s[1..], c)
  }

  lemma {:induction false} FindAtMost(s: string, c: char, k: nat)
    requires k < |s| && s[k] == c
    ensures Find(s, c) <= k
  {
    if k > 0 && s[0] != c {
      FindAtMost(s[1..], c, k - 1);
    }
  }

  lemma NotBefore(s: string, c: char)
    ensures c !in s[..Find(s, c)]
  {
    var n := Find(s, c);
    forall k | 0 <= k < n ensures s[k] != c {
      if s[k] == c {
        FindAtMost(s, c, k);
      }
    }
  }

  /** The C string that starts here. */
  function Line(s: string): (line: string)
    ensures |line| == Find(s, NUL)
  {
    s[..Find(s, NUL)]
  }

  function KeyOf(line: string): string {
    line[..Find(line, '=')]
  }

  lemma {:induction false} FindIsFirst(s: string, c: char, n: nat)
    requires n < |s| && s[n] == c && c !in s[..n]
    ensures Find(s, c) == n
  {
    if n > 0 {
      assert s[..n] == [s[0]] + s[1..][..n - 1];
      FindIsFirst(s[1..], c, n - 1);
    }
  }

  lemma LineOf(line: string, rest: string)
    requires NUL !in line
    ensures Line(line + [NUL] + rest) == line && Find(line + [NUL] + rest, NUL) == |line|
  {
    var s := line + [NUL] + rest;
    assert s[..|line|] == line;
    FindIsFirst(s, NUL, |line|);
  }

  lemma KeyOfChange(key: string, value: string)
    requires '=' !in key
    ensures KeyOf(key + "=" + value) == key
  {
    var s := key + "=" + value;
    assert s[..|key|] == key;
    FindIsFirst(s, '=', |key|);
  }

  /** ParseEnvLine: the key of the line that starts here, and its length with the NUL. */
  method ParseEnvLine(input: string) returns (length: nat, key: string)
    requires NUL in input
    ensures length == |Line(input)| + 1 && key == KeyOf(Line(input))
    ensures length <= |input| && input[length - 1] == NUL && NUL !in input[..length - 1]
    ensures key <= input && '=' !in key && (input[|key|] == '=' || |key| == length - 1)
  {
    var cur := 0;
    while input[cur] != NUL && input[cur] != '='
      invariant cur < |input| && NUL !in input[..cur] && '=' !in input[..cur]
      invariant NUL in input[cur..]
      decreases |input| - cur
    {
      assert input[..cur + 1] == input[..cur] + [input[cur]];
      assert input[cur..] == [input[cur]] + input[cur + 1..];
      cur := cur + 1;
    }
    key := input[..cur];
    ghost var end := cur;
    while input[cur] != NUL
      invariant end <= cur < |input| && NUL !in input[..cur]
      invariant input[end] != '=' ==> cur == end
      invariant NUL in input[cur..]
      decreases |input| - cur
    {
      assert input[..cur + 1] == input[..cur] + [input[cur]];
      assert input[cur..] == [input[cur]] + input[cur + 1..];
      cur := cur + 1;
    }
    FindIsFirst(input, NUL, cur);
    var line := input[..cur];
    if end < cur {
      assert line[..end] == key;
      FindIsFirst(line, '=', end);
    } else {
      assert line == key;
      assert Find(line, '=') == |line|;
    }
    LineParts(input);
    return cur + 1, key;
  }

  lemma LineParts(input: string)
    requires NUL in input
    ensures var length, key := |Line(input)| + 1, KeyOf(Line(input));
            length <= |input| && input[length - 1] == NUL && NUL !in input[..length - 1] &&
            key <= input && '=' !in key && (input[|key|] == '=' || |key| == length - 1)
  {
    hide Find;
    var i :| 0 <= i < |input| && input[i] == NUL;
    FindAtMost(input, NUL, i);
    NotBefore(input, NUL);
    NotBefore(Line(input), '=');
  }

  // ---------------------------------------------------------------------------
  // What the new environment is to hold.
  // ---------------------------------------------------------------------------

  /** The lines whose key no change has, and then key=value for every change that is not empty. */
  ghost function Altered(lines: seq<string>, changes: seq<Change>): seq<string> {
    Filter(line => forall k :: 0 <= k < |changes| ==> changes[k].key != KeyOf(line), lines) +
    Map((c: Change) => c.key + "=" + c.value, Filter((c: Change) => c.value != "", changes))
  }

  function Kept(lines: seq<string>, changes: seq<Change>): seq<string> {
    if lines == [] then []
    else (if Changes(changes, KeyOf(lines[0])) then [] else [lines[0]]) + Kept(lines[1..], changes)
  }

  function Text(c: Change): string {
    c.key + "=" + c.value
  }

  function Added(changes: seq<Change>): seq<string> {
    if changes == [] then []
    else (if changes[0].value == "" then [] else [Text(changes[0])]) + Added(changes[1..])
  }

  lemma {:induction false} KeptFilters(lines: seq<string>, changes: seq<Change>, f: string -> bool)
    requires forall l :: f(l) <==> forall k :: 0 <= k < |changes| ==> changes[k].key != KeyOf(l)
    ensures Kept(lines, changes) == Filter(f, lines)
  {
    if lines != [] {
      KeptFilters(lines[1..], changes, f);
    }
  }

  lemma {:induction false} AddedMaps(changes: seq<Change>, f: Change -> bool, g: Change -> string)
    requires forall c :: (f(c) <==> c.value != "") && g(c) == Text(c)
    ensures Added(changes) == Map(g, Filter(f, changes))
  {
    FilterStep(f, changes);
    if changes != [] {
      hide Filter, Map, Text;
      AddedMaps(changes[1..], f, g);
      var rest := Filter(f, changes[1..]);
      MapStep(g, changes[0], rest);
      assert [] + rest == rest && [] + Added(changes[1..]) == Added(changes[1..]);
    }
  }

  /** What the two loops leave. */
  lemma AlteredIs(lines: seq<string>, changes: seq<Change>)
    ensures Altered(lines, changes) == Kept(lines, changes) + Added(changes)
  {
    KeptFilters(lines, changes, line => forall k :: 0 <= k < |changes| ==> changes[k].key != KeyOf(line));
    AddedMaps(changes, (c: Change) => c.value != "", (c: Change) => c.key + "=" + c.value);
  }

  /** The line of a variable. */
  function Lookup(lines: seq<string>, key: string): Option<string> {
    if lines == [] then None
    else if KeyOf(lines[0]) == key then Some(lines[0])
    else Lookup(lines[1..], key)
  }

  /** The line that a change gives to the variable. */
  function LookupChange(changes: seq<Change>, key: string): Option<string> {
    if changes == [] then None
    else if changes[0].key == key then if changes[0].value == "" then None else Some(Text(changes[0]))
    else LookupChange(changes[1..], key)
  }

  predicate WellFormed(c: Change) {
    c.value != "" ==> '=' !in c.key && NUL !in c.key && NUL !in c.value
  }

  lemma {:induction false} LookupFinds(lines: seq<string>, key: string)
    ensures var r := Lookup(lines, key); r.Some? ==> r.value in lines && KeyOf(r.value) == key
  {
    if lines != [] {
      LookupFinds(lines[1..], key);
    }
  }

  lemma {:induction false} LookupJoined(a: seq<string>, b: seq<string>, key: string)
    ensures Lookup(a + b, key) == if Lookup(a, key).Some? then Lookup(a, key) else Lookup(b, key)
  {
    if a == [] {
      assert a + b == b;
    } else {
      assert (a + b)[1..] == a[1..] + b;
      LookupJoined(a[1..], b, key);
    }
  }

  lemma {:induction false} LookupKept(lines: seq<string>, changes: seq<Change>, key: string)
    ensures Lookup(Kept(lines, changes), key) == if Changes(changes, key) then None else Lookup(lines, key)
  {
    if lines != [] {
      LookupKept(lines[1..], changes, key);
      var rest := Kept(lines[1..], changes);
      assert ([lines[0]] + rest)[1..] == rest;
      assert [] + rest == rest;
    }
  }

  lemma {:induction false} LookupAdded(changes: seq<Change>, key: string)
    requires forall c :: c in changes && c.value != "" ==> '=' !in c.key
    requires DistinctKeys(changes)
    ensures Lookup(Added(changes), key) == LookupChange(changes, key)
  {
    if changes != [] {
      LookupAdded(changes[1..], key);
      var first, rest := changes[0], Added(changes[1..]);
      if first.value != "" {
        KeyOfChange(first.key, first.value);
        assert ([Text(first)] + rest)[1..] == rest;
      } else {
        assert [] + rest == rest;
        if first.key == key {
          NotChanged(changes[1..], key);
        }
      }
    }
  }

  lemma {:induction false} NotChanged(changes: seq<Change>, key: string)
    requires !Changes(changes, key)
    ensures LookupChange(changes, key) == None
  {
    if changes != [] {
      assert changes[0] in changes;
      forall c | c in changes[1..] ensures c.key != key {
        assert c in changes;
      }
      NotChanged(changes[1..], key);
    }
  }

  lemma {:induction false} AddedLines(changes: seq<Change>)
    ensures forall c :: c in changes && c.value != "" ==> Text(c) in Added(changes)
    ensures forall l :: l in Added(changes) ==> exists c :: c in changes && c.value != "" && l == Text(c)
  {
    if changes != [] {
      AddedLines(changes[1..]);
      assert changes == [changes[0]] + changes[1..];
    }
  }

  lemma {:induction false} KeptLines(lines: seq<string>, changes: seq<Change>)
    ensures forall l :: l in Kept(lines, changes) ==> l in lines && !Changes(changes, KeyOf(l))
  {
    if lines != [] {
      KeptLines(lines[1..], changes);
    }
  }

  // ---------------------------------------------------------------------------
  // Whether the new environment answers as expected.
  // ---------------------------------------------------------------------------

  /** A changed variable has its new line, or none if the value is empty; every other variable has
      the line it had. */
  ghost predicate Answers(result: seq<string>, lines: seq<string>, changes: seq<Change>) {
    && (forall k :: 0 <= k < |changes| ==>
          Lookup(result, changes[k].key) ==
          if changes[k].value == "" then None else Some(changes[k].key + "=" + changes[k].value))
    && (forall key :: (forall k :: 0 <= k < |changes| ==> changes[k].key != key) ==>
          Lookup(result, key) == Lookup(lines, key))
  }

  lemma {:induction false} ChangeExpected(changes: seq<Change>, k: nat)
    requires DistinctKeys(changes) && k < |changes|
    ensures LookupChange(changes, changes[k].key) == if changes[k].value == "" then None else Some(Text(changes[k]))
  {
    if k > 0 {
      ChangeExpected(changes[1..], k - 1);
    }
  }

  lemma LookupAltered(lines: seq<string>, changes: seq<Change>, key: string)
    requires DistinctKeys(changes) && forall c :: c in changes ==> WellFormed(c)
    ensures Lookup(Altered(lines, changes), key) ==
            if Changes(changes, key) then LookupChange(changes, key) else Lookup(lines, key)
  {
    AlteredIs(lines, changes);
    hide Altered;
    LookupJoined(Kept(lines, changes), Added(changes), key);
    LookupKept(lines, changes, key);
    LookupAdded(changes, key);
    if !Changes(changes, key) {
      NotChanged(changes, key);
    }
  }

  /** Without a '=' or a NUL in what is added, the new lines give every lookup its answer. */
  lemma AlteredAnswers(lines: seq<string>, changes: seq<Change>)
    requires DistinctKeys(changes) && forall c :: c in changes ==> WellFormed(c)
    ensures Answers(Altered(lines, changes), lines, changes)
  {
    var result := Altered(lines, changes);
    forall k | 0 <= k < |changes|
      ensures Lookup(result, changes[k].key) ==
              if changes[k].value == "" then None else Some(changes[k].key + "=" + changes[k].value)
    {
      LookupAltered(lines, changes, changes[k].key);
      ChangeExpected(changes, k);
      assert changes[k] in changes;
    }
    forall key | forall k :: 0 <= k < |changes| ==> changes[k].key != key
      ensures Lookup(result, key) == Lookup(lines, key)
    {
      LookupAltered(lines, changes, key);
    }
  }

  /** A result of NUL-free lines can only answer as expected if the changes are well-formed. */
  lemma AnswersOnlyIf(result: seq<string>, lines: seq<string>, changes: seq<Change>)
    requires DistinctKeys(changes) && (forall l :: l in result ==> NUL !in l)
    requires Answers(result, lines, changes)
    ensures forall c :: c in changes ==> WellFormed(c)
  {
    forall c | c in changes && c.value != "" ensures WellFormed(c) {
      var k :| 0 <= k < |changes| && changes[k] == c;
      assert Lookup(result, changes[k].key) == Some(Text(c));
      LookupFinds(result, c.key);
      NotBefore(Text(c), '=');
      var line := Text(c);
      assert line[..|c.key|] == c.key && line[|c.key| + 1..] == c.value;
      assert forall x :: x in c.key || x in c.value ==> x in line;
    }
  }

  // ---------------------------------------------------------------------------
  // The Windows block.
  // ---------------------------------------------------------------------------

  /** The memory at the pointer holds lines, each with its NUL, and then one more NUL. */
  ghost predicate IsBlock(s: string)
    decreases |s|
  {
    s != [] && (s[0] == NUL || (Find(s, NUL) < |s| && IsBlock(s[Find(s, NUL) + 1..])))
  }

  /** What a reader of the block sees. */
  ghost function Lines(s: string): seq<string>
    requires IsBlock(s)
    decreases |s|
  {
    if s[0] == NUL then [] else [Line(s)] + Lines(s[Find(s, NUL) + 1..])
  }

  function Terminated(lines: seq<string>): string {
    if lines == [] then [] else lines[0] + [NUL] + Terminated(lines[1..])
  }

  function Block(lines: seq<string>): string {
    (if lines == [] then [NUL] else Terminated(lines)) + [NUL]
  }

  lemma {:induction false} LinesAreLines(s: string)
    requires IsBlock(s)
    ensures forall l :: l in Lines(s) ==> l != "" && NUL !in l
    decreases |s|
  {
    if s[0] != NUL {
      NotBefore(s, NUL);
      LinesAreLines(s[Find(s, NUL) + 1..]);
    }
  }

  lemma {:induction false} TerminatedReads(lines: seq<string>, more: string)
    requires forall l :: l in lines ==> l != "" && NUL !in l
    ensures IsBlock(Terminated(lines) + [NUL] + more)
    ensures Lines(Terminated(lines) + [NUL] + more) == lines
  {
    if lines != [] {
      var s := Terminated(lines) + [NUL] + more;
      var rest := Terminated(lines[1..]) + [NUL] + more;
      assert s == lines[0] + [NUL] + rest;
      LineOf(lines[0], rest);
      assert s[|lines[0]| + 1..] == rest;
      assert lines[0][0] != NUL;
      assert forall l :: l in lines[1..] ==> l in lines;
      TerminatedReads(lines[1..], more);
    }
  }

  ghost predicate EndsTwice(s: string) {
    |s| >= 2 && s[|s| - 2] == NUL && s[|s| - 1] == NUL
  }

  /** Any memory that ends with two NULs can be read as a block. */
  lemma {:induction false} EndsTwiceIsBlock(s: string)
    requires EndsTwice(s)
    ensures IsBlock(s)
    decreases |s|
  {
    var n := Find(s, NUL);
    if s[0] != NUL {
      FindAtMost(s, NUL, |s| - 2);
      if n < |s| - 2 {
        EndsTwiceIsBlock(s[n + 1..]);
      }
    }
  }

  lemma {:induction false} TerminatedEnds(lines: seq<string>)
    requires lines != []
    ensures Terminated(lines) != [] && Terminated(lines)[|Terminated(lines)| - 1] == NUL
  {
    if lines[1..] != [] {
      TerminatedEnds(lines[1..]);
    }
  }

  /** The block always ends with two NULs, and so can always be read; what is read is what was put
      in if and only if no line is empty or has a NUL in it. */
  lemma BlockReadsBack(lines: seq<string>)
    ensures EndsTwice(Block(lines)) && IsBlock(Block(lines))
    ensures Lines(Block(lines)) == lines <==> forall l :: l in lines ==> l != "" && NUL !in l
  {
    if lines != [] {
      TerminatedEnds(lines);
    }
    EndsTwiceIsBlock(Block(lines));
    LinesAreLines(Block(lines));
    if forall l :: l in lines ==> l != "" && NUL !in l {
      if lines == [] {
        assert Block(lines)[0] == NUL;
      } else {
        TerminatedReads(lines, []);
        assert Terminated(lines) + [NUL] + [] == Block(lines);
      }
    }
  }

  /** What the changes must be for the altered lines to be lines. */
  predicate NoNul(changes: seq<Change>) {
    forall c :: c in changes && c.value != "" ==> NUL !in c.key && NUL !in c.value
  }

  lemma AlteredAreLines(lines: seq<string>, changes: seq<Change>)
    requires forall l :: l in lines ==> NUL !in l
    ensures NoNul(changes) <==> forall l :: l in Altered(lines, changes) ==> NUL !in l
    ensures (forall l :: l in lines ==> l != "") ==> forall l :: l in Altered(lines, changes) ==> l != ""
  {
    KeptLines(lines, changes);
    AddedLines(changes);
    AlteredIs(lines, changes);
    hide Altered;
    if forall l :: l in Altered(lines, changes) ==> NUL !in l {
      forall c | c in changes && c.value != "" ensures NUL !in c.key && NUL !in c.value {
        var line := Text(c);
        assert line in Altered(lines, changes);
        assert line[..|c.key|] == c.key && line[|c.key| + 1..] == c.value;
        assert forall x :: x in c.key || x in c.value ==> x in line;
      }
    }
  }

  /** A reader of the new Windows block sees the unchanged lines in their order and then key=value
      for every non-empty change, provided that no such change has a NUL in it; and every
      lookup gets the changed value, nothing for an empty change, or the old line, if and only if
      besides no key of such a change has a '=' in it. */
  lemma WindowsEnvironment(env: string, changes: seq<Change>)
    requires IsBlock(env) && DistinctKeys(changes)
    ensures var block := Block(Altered(Lines(env), changes));
            EndsTwice(block) && IsBlock(block) &&
            (Lines(block) == Altered(Lines(env), changes) <==> NoNul(changes)) &&
            (Answers(Lines(block), Lines(env), changes) <==> forall c :: c in changes ==> WellFormed(c))
  {
    var lines := Lines(env);
    var block := Block(Altered(lines, changes));
    LinesAreLines(env);
    AlteredAreLines(lines, changes);
    BlockReadsBack(Altered(lines, changes));
    LinesAreLines(block);
    if forall c :: c in changes ==> WellFormed(c) {
      AlteredAnswers(lines, changes);
    }
    if Answers(Lines(block), lines, changes) {
      AnswersOnlyIf(Lines(block), lines, changes);
    }
  }

  lemma {:induction false} TerminatedJoined(a: seq<string>, b: seq<string>)
    ensures Terminated(a + b) == Terminated(a) + Terminated(b)
  {
    if a == [] {
      assert a + b == b;
    } else {
      assert (a + b)[1..] == a[1..] + b;
      TerminatedJoined(a[1..], b);
    }
  }

  lemma LineEnds(env: string)
    requires Find(env, NUL) < |env|
    ensures NUL in env && env[..|Line(env)| + 1] == Line(env) + [NUL]
  {
  }

  lemma BlockNext(env: string)
    requires IsBlock(env) && env[0] != NUL
    ensures Find(env, NUL) < |env| && IsBlock(env[|Line(env)| + 1..])
    ensures Lines(env) == [Line(env)] + Lines(env[|Line(env)| + 1..])
  {
    hide Find;
    var n := Find(env, NUL);
    assert Line(env) == env[..n];
    hide Line;
    assert Lines(env) == [Line(env)] + Lines(env[n + 1..]);
  }

  lemma BlockEnd(env: string, changes: seq<Change>)
    requires IsBlock(env)
    ensures env != [] && (env[0] == NUL ==> Terminated(Kept(Lines(env), changes)) == [])
    ensures Terminated(Added(changes[|changes|..])) == []
  {
  }

  /** What AlterEnvironment puts in front of the added lines, and all of them. */
  lemma BlockOf(lines: seq<string>, changes: seq<Change>)
    ensures var text := Terminated(Kept(lines, changes)) + Terminated(Added(changes));
            Block(Altered(lines, changes)) == (if text == [] then [NUL] else text) + [NUL]
  {
    TerminatedJoined(Kept(lines, changes), Added(changes));
    AlteredIs(lines, changes);
    hide Altered;
    if Altered(lines, changes) != [] {
      TerminatedEnds(Altered(lines, changes));
    }
  }

  method AlterEnvironmentWindows(env: string, changes: seq<Change>) returns (result: string)
    requires IsBlock(env)
    ensures result == Block(Altered(Lines(env), changes))
  {
    hide Lines, IsBlock, Kept, Added, Terminated, Changes, Line, KeyOf, Altered, Block;
    result := [];
    var curEnv := 0;
    ghost var kept := Terminated(Kept(Lines(env), changes));
    assert env[0..] == env;
    BlockEnd(env, changes);
    while env[curEnv] != NUL
      invariant curEnv < |env| && IsBlock(env[curEnv..])
      invariant kept == result + Terminated(Kept(Lines(env[curEnv..]), changes))
      decreases |env| - curEnv
    {
      var line := env[curEnv..];
      BlockNext(line);
      LineEnds(line);
      var lineLength, key := ParseEnvLine(line);
      ghost var next := line[lineLength..];
      assert next == env[curEnv + lineLength..];
      KeptNext(Line(line), Lines(next), changes);
      if !Changes(changes, key) {
        result := result + line[..lineLength];
      }
      BlockEnd(next, changes);
      curEnv := curEnv + lineLength;
    }
    BlockEnd(env[curEnv..], changes);
    assert result == kept;
    assert changes[0..] == changes;
    for i := 0 to |changes|
      invariant kept + Terminated(Added(changes)) == result + Terminated(Added(changes[i..]))
    {
      AddedNext(changes, i);
      if changes[i].value != "" {
        ghost var before := result;
        result := result + changes[i].key;
        result := result + ['='];
        result := result + changes[i].value;
        result := result + [NUL];
        assert result == before + (Text(changes[i]) + [NUL]);
      }
    }
    BlockOf(Lines(env), changes);
    if result == [] {
      result := result + [NUL];
    }
    result := result + [NUL];
  }

  lemma KeptStep(line: string, rest: seq<string>, changes: seq<Change>)
    ensures Kept([line] + rest, changes) == (if Changes(changes, KeyOf(line)) then [] else [line]) + Kept(rest, changes)
  {
    assert ([line] + rest)[1..] == rest;
  }

  lemma AddedStep(changes: seq<Change>, i: nat)
    requires i < |changes|
    ensures Added(changes[i..]) == (if changes[i].value == "" then [] else [Text(changes[i])]) + Added(changes[i + 1..])
  {
    assert changes[i..][1..] == changes[i + 1..];
  }

  lemma KeptNext(line: string, rest: seq<string>, changes: seq<Change>)
    ensures Terminated(Kept([line] + rest, changes)) ==
            (if Changes(changes, KeyOf(line)) then [] else line + [NUL]) + Terminated(Kept(rest, changes))
  {
    KeptStep(line, rest, changes);
    var kept := Kept(rest, changes);
    assert ([line] + kept)[1..] == kept && [] + kept == kept;
  }

  lemma AddedNext(changes: seq<Change>, i: nat)
    requires i < |changes|
    ensures Terminated(Added(changes[i..])) ==
            (if changes[i].value == "" then [] else Text(changes[i]) + [NUL]) + Terminated(Added(changes[i + 1..]))
  {
    AddedStep(changes, i);
    var added := Added(changes[i + 1..]);
    assert ([Text(changes[i])] + added)[1..] == added && [] + added == added;
  }
}
