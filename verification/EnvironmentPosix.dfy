/** The POSIX form of a rewritten environment: pointers to NUL-terminated lines, packed in front of the
    storage of the lines in one buffer (base/environment.cc). */
module EnvironmentPosix {
  import opened Wrappers
  import opened Environment

  /** The lines that the pointers of an environment point to. */
  function LinesAt(env: seq<string>): seq<string> {
    if env == [] then [] else [Line(env[0])] + LinesAt(env[1..])
  }

  // ---------------------------------------------------------------------------
  // The buffer.
  // ---------------------------------------------------------------------------

  /** A byte of the buffer: not written yet, a character of the storage, or byte k of a pointer, which is
      null or points to a distance from the beginning of the buffer. */
  datatype Byte = Unset | Char(c: char) | Part(pointer: Option<nat>, k: nat)

  /** The i-th word holds this pointer. */
  ghost predicate PointerAt(memory: seq<Byte>, wordSize: nat, i: nat, pointer: Option<nat>) {
    (i + 1) * wordSize <= |memory| &&
    forall k :: i * wordSize <= k < (i + 1) * wordSize ==> memory[k] == Part(pointer, k - i * wordSize)
  }

  ghost predicate TextAt(memory: seq<Byte>, at: nat, text: string) {
    at + |text| <= |memory| && forall k :: 0 <= k < |text| ==> memory[at + k] == Char(text[k])
  }

  /** The C string at a distance from the beginning of the buffer. */
  function StringAt(memory: seq<Byte>, at: nat): string
    decreases |memory| - at
  {
    if at < |memory| && memory[at].Char? && memory[at].c != NUL then [memory[at].c] + StringAt(memory, at + 1) else []
  }

  /** The pointer that a reader finds in the i-th word. */
  ghost function PointerOf(memory: seq<Byte>, wordSize: nat, i: nat): Option<nat> {
    if i * wordSize < |memory| && memory[i * wordSize].Part? &&
       PointerAt(memory, wordSize, i, memory[i * wordSize].pointer)
    then memory[i * wordSize].pointer
    else None
  }

  /** What a reader sees who follows the pointers from the i-th on until one is null. */
  ghost function ReadLines(memory: seq<Byte>, wordSize: nat, i: nat): seq<string>
    decreases |memory| - i
  {
    var p := PointerOf(memory, wordSize, i);
    if i >= |memory| || p.None? then [] else [StringAt(memory, p.value)] + ReadLines(memory, wordSize, i + 1)
  }

  /** Where line i starts in the storage. */
  function Start(lines: seq<string>, i: nat): nat
    requires i <= |lines|
  {
    |Terminated(lines[..i])|
  }

  /** The buffer holds n pointers to the lines and a null, then the lines one after the other, and
      then less than one more word. */
  ghost predicate Packed(memory: seq<Byte>, wordSize: nat, lines: seq<string>) {
    var base, storage := (|lines| + 1) * wordSize, Terminated(lines);
    && (forall i: nat :: i < |lines| ==> PointerAt(memory, wordSize, i, Some(base + Start(lines, i))))
    && PointerAt(memory, wordSize, |lines|, None)
    && TextAt(memory, base, storage)
    && |memory| < base + |storage| + wordSize
  }

  lemma SplitAt(lines: seq<string>, i: nat)
    requires i < |lines|
    ensures Terminated(lines) == Terminated(lines[..i]) + (lines[i] + [NUL] + Terminated(lines[i + 1..]))
    ensures Start(lines, i + 1) == Start(lines, i) + |lines[i]| + 1
  {
    assert lines == lines[..i] + lines[i..] && lines[i..][1..] == lines[i + 1..];
    TerminatedJoined(lines[..i], lines[i..]);
    assert lines[..i + 1] == lines[..i] + [lines[i]];
    TerminatedJoined(lines[..i], [lines[i]]);
    assert [lines[i]][1..] == [];
  }

  lemma FirstStart(lines: seq<string>)
    ensures Start(lines, 0) == 0 && Start(lines, |lines|) == |Terminated(lines)|
  {
    assert lines[..|lines|] == lines;
  }

  lemma TextPart(memory: seq<Byte>, base: nat, before: string, part: string, rest: string)
    requires TextAt(memory, base, before + part + rest)
    ensures TextAt(memory, base + |before|, part)
  {
    var storage := before + part + rest;
    forall k | 0 <= k < |part| ensures memory[base + |before| + k] == Char(part[k]) {
      assert memory[base + (|before| + k)] == Char(storage[|before| + k]);
    }
  }

  /** Every pointer of a packed buffer is in bounds, behind all the pointers, and at the start of its
      line and the line's NUL; the lines tile the storage, from right after the null pointer to its
      end. */
  lemma LinesTile(memory: seq<Byte>, wordSize: nat, lines: seq<string>, i: nat)
    requires Packed(memory, wordSize, lines) && i < |lines|
    ensures var base := (|lines| + 1) * wordSize;
            var p := base + Start(lines, i);
            PointerAt(memory, wordSize, i, Some(p)) && PointerAt(memory, wordSize, |lines|, None) &&
            (i == 0 ==> p == base) && TextAt(memory, p, lines[i] + [NUL]) &&
            (i + 1 < |lines| ==> PointerAt(memory, wordSize, i + 1, Some(p + |lines[i]| + 1))) &&
            (i + 1 == |lines| ==> p + |lines[i]| + 1 == base + |Terminated(lines)| > |memory| - wordSize)
  {
    hide *;
    PackedParts(memory, wordSize, lines, i);
    FirstStart(lines);
    NextStart(lines, i);
    LineStored(memory, (|lines| + 1) * wordSize, lines, i);
  }

  lemma NextStart(lines: seq<string>, i: nat)
    requires i < |lines|
    ensures Start(lines, i + 1) == Start(lines, i) + |lines[i]| + 1
  {
    SplitAt(lines, i);
  }

  lemma Regrouped(before: string, line: string, rest: string)
    ensures before + (line + [NUL] + rest) == before + (line + [NUL]) + rest
  {
  }

  lemma LineStored(memory: seq<Byte>, base: nat, lines: seq<string>, i: nat)
    requires i < |lines| && TextAt(memory, base, Terminated(lines))
    ensures TextAt(memory, base + Start(lines, i), lines[i] + [NUL])
  {
    var before, rest := Terminated(lines[..i]), Terminated(lines[i + 1..]);
    assert Start(lines, i) == |before|;
    hide *;
    SplitAt(lines, i);
    Regrouped(before, lines[i], rest);
    TextPart(memory, base, before, lines[i] + [NUL], rest);
  }

  lemma PackedParts(memory: seq<Byte>, wordSize: nat, lines: seq<string>, i: nat)
    requires Packed(memory, wordSize, lines) && i < |lines|
    ensures var base := (|lines| + 1) * wordSize;
            PointerAt(memory, wordSize, i, Some(base + Start(lines, i))) &&
            PointerAt(memory, wordSize, |lines|, None) &&
            (i + 1 < |lines| ==> PointerAt(memory, wordSize, i + 1, Some(base + Start(lines, i + 1)))) &&
            TextAt(memory, base, Terminated(lines)) && |memory| < base + |Terminated(lines)| + wordSize
  {
    hide PointerAt, TextAt, Start, Terminated;
  }

  // ---------------------------------------------------------------------------
  // Reading.
  // ---------------------------------------------------------------------------

  lemma {:induction false} ReadsThere(memory: seq<Byte>, at: nat, line: string)
    requires TextAt(memory, at, line + [NUL]) && NUL !in line
    ensures StringAt(memory, at) == line
    decreases |line|
  {
    var text := line + [NUL];
    assert memory[at + 0] == Char(text[0]);
    if line != "" {
      var rest := line[1..];
      assert rest + [NUL] == text[1..];
      forall k | 0 <= k < |text[1..]| ensures memory[at + 1 + k] == Char(text[1..][k]) {
        assert memory[at + (k + 1)] == Char(text[k + 1]);
      }
      ReadsThere(memory, at + 1, rest);
      assert [line[0]] + rest == line;
    }
  }

  lemma PointerFound(memory: seq<Byte>, wordSize: nat, i: nat, pointer: Option<nat>)
    requires wordSize > 0 && PointerAt(memory, wordSize, i, pointer)
    ensures PointerOf(memory, wordSize, i) == pointer && i < |memory|
  {
    assert i <= i * wordSize < i * wordSize + wordSize == (i + 1) * wordSize;
    assert memory[i * wordSize] == Part(pointer, 0);
  }

  lemma {:induction false} PackedReads(memory: seq<Byte>, wordSize: nat, lines: seq<string>, k: nat)
    requires wordSize > 0 && Packed(memory, wordSize, lines) && k <= |lines|
    requires forall l :: l in lines ==> NUL !in l
    ensures ReadLines(memory, wordSize, k) == lines[k..]
    decreases |lines| - k
  {
    hide PointerAt, PointerOf, TextAt, StringAt, Start;
    if k == |lines| {
      PointerFound(memory, wordSize, k, None);
    } else {
      var p := (|lines| + 1) * wordSize + Start(lines, k);
      LinesTile(memory, wordSize, lines, k);
      PackedReads(memory, wordSize, lines, k + 1);
      hide Packed;
      PointerFound(memory, wordSize, k, Some(p));
      ReadsThere(memory, p, lines[k]);
      assert lines[k..] == [lines[k]] + lines[k + 1..];
    }
  }

  lemma {:induction false} StringHasNoNul(memory: seq<Byte>, at: nat)
    ensures NUL !in StringAt(memory, at)
    decreases |memory| - at
  {
    if at < |memory| && memory[at].Char? && memory[at].c != NUL {
      StringHasNoNul(memory, at + 1);
    }
  }

  lemma {:induction false} ReadsLines(memory: seq<Byte>, wordSize: nat, i: nat)
    ensures forall l :: l in ReadLines(memory, wordSize, i) ==> NUL !in l
    decreases |memory| - i
  {
    hide PointerOf;
    var p := PointerOf(memory, wordSize, i);
    if i < |memory| && p.Some? {
      StringHasNoNul(memory, p.value);
      ReadsLines(memory, wordSize, i + 1);
    }
  }

  lemma {:induction false} LinesAtAreLines(env: seq<string>)
    ensures forall l :: l in LinesAt(env) ==> NUL !in l
  {
    if env != [] {
      NotBefore(env[0], NUL);
      LinesAtAreLines(env[1..]);
    }
  }

  /** A reader of the new POSIX environment, given nothing but its bytes, sees the unchanged lines in
      their order and then key=value for every non-empty change, if and only if no such change has a
      NUL in it; and every lookup is answered as expected if and only if besides no key has a '='
      in it. */
  lemma PosixEnvironment(env: seq<string>, changes: seq<Change>, wordSize: nat, memory: seq<Byte>)
    requires wordSize > 0 && DistinctKeys(changes)
    requires Packed(memory, wordSize, Altered(LinesAt(env), changes))
    ensures ReadLines(memory, wordSize, 0) == Altered(LinesAt(env), changes) <==> NoNul(changes)
    ensures Answers(ReadLines(memory, wordSize, 0), LinesAt(env), changes) <==>
            forall c :: c in changes ==> WellFormed(c)
  {
    var lines := LinesAt(env);
    var read := ReadLines(memory, wordSize, 0);
    hide Terminated, Packed, ReadLines;
    LinesAtAreLines(env);
    AlteredAreLines(lines, changes);
    ReadsLines(memory, wordSize, 0);
    if NoNul(changes) {
      PackedReads(memory, wordSize, Altered(lines, changes), 0);
      assert Altered(lines, changes)[0..] == Altered(lines, changes);
    }
    if forall c :: c in changes ==> WellFormed(c) {
      AlteredAnswers(lines, changes);
    }
    if Answers(read, lines, changes) {
      AnswersOnlyIf(read, lines, changes);
    }
  }

  // ---------------------------------------------------------------------------
  // Writing.
  // ---------------------------------------------------------------------------

  /** The indices are where the lines start. */
  ghost predicate Indexes(indices: seq<nat>, lines: seq<string>) {
    |indices| == |lines| && forall i :: 0 <= i < |lines| ==> indices[i] == Start(lines, i)
  }

  lemma IndexesMore(indices: seq<nat>, lines: seq<string>, line: string)
    requires Indexes(indices, lines)
    ensures Indexes(indices + [|Terminated(lines)|], lines + [line])
    ensures Terminated(lines + [line]) == Terminated(lines) + line + [NUL]
  {
    var more := lines + [line];
    forall i | 0 <= i <= |lines| ensures more[..i] == lines[..i] {
    }
    assert lines[..|lines|] == lines;
    TerminatedJoined(lines, [line]);
    assert [line][1..] == [];
  }

  lemma NoLines(lines: seq<string>, changes: seq<Change>)
    ensures Altered(lines, changes) == Kept(lines, changes) + Added(changes)
    ensures Terminated([]) == [] && Indexes([], [])
    ensures Kept(LinesAt([]), changes) == [] && Added([]) == []
  {
    AlteredIs(lines, changes);
  }

  lemma LinesAtNext(env: seq<string>, i: nat)
    requires i < |env|
    ensures LinesAt(env[i..]) == [Line(env[i])] + LinesAt(env[i + 1..])
  {
    assert env[i..][1..] == env[i + 1..];
  }

  lemma LineIn(input: string)
    requires NUL in input
    ensures |Line(input)| + 1 <= |input| && input[..|Line(input)| + 1] == Line(input) + [NUL]
  {
    var k :| 0 <= k < |input| && input[k] == NUL;
    FindAtMost(input, NUL, k);
    LineEnds(input);
  }

  /** The two loops of AlterEnvironment that collect the lines. */
  method CollectLines(env: seq<string>, changes: seq<Change>) returns (valueStorage: string, resultIndices: seq<nat>)
    requires forall i :: 0 <= i < |env| ==> NUL in env[i]
    ensures valueStorage == Terminated(Altered(LinesAt(env), changes))
    ensures Indexes(resultIndices, Altered(LinesAt(env), changes))
  {
    hide Terminated, Kept, Added, Changes, KeyOf, Line, LinesAt, Indexes, Altered;
    valueStorage, resultIndices := [], [];
    ghost var lines: seq<string> := [];
    ghost var kept := Kept(LinesAt(env), changes);
    NoLines(LinesAt(env), changes);
    assert env[0..] == env && env[|env|..] == [];
    for i := 0 to |env|
      invariant Indexes(resultIndices, lines) && valueStorage == Terminated(lines)
      invariant kept == lines + Kept(LinesAt(env[i..]), changes)
    {
      var lineLength, key := ParseEnvLine(env[i]);
      LinesAtNext(env, i);
      KeptStep(Line(env[i]), LinesAt(env[i + 1..]), changes);
      if !Changes(changes, key) {
        LineIn(env[i]);
        IndexesMore(resultIndices, lines, Line(env[i]));
        resultIndices := resultIndices + [|valueStorage|];
        valueStorage := valueStorage + env[i][..lineLength];
        lines := lines + [Line(env[i])];
      }
    }
    assert kept == lines;
    assert changes[0..] == changes && changes[|changes|..] == [];
    for i := 0 to |changes|
      invariant Indexes(resultIndices, lines) && valueStorage == Terminated(lines)
      invariant kept + Added(changes) == lines + Added(changes[i..])
    {
      AddedStep(changes, i);
      if changes[i].value != "" {
        IndexesMore(resultIndices, lines, Text(changes[i]));
        resultIndices := resultIndices + [|valueStorage|];
        valueStorage := valueStorage + changes[i].key;
        valueStorage := valueStorage + ['='];
        valueStorage := valueStorage + changes[i].value;
        valueStorage := valueStorage + [NUL];
        lines := lines + [Text(changes[i])];
      }
    }
    assert lines + [] == lines;
  }

  /** pointer_count_required words hold the pointers and the bytes, and less than a word more. */
  lemma Room(n: nat, bytes: nat, wordSize: nat)
    requires wordSize > 0
    ensures var count := n + 1 + (bytes + wordSize - 1) / wordSize;
            (n + 1) * wordSize + bytes <= count * wordSize < (n + 1) * wordSize + bytes + wordSize
  {
    var q := (bytes + wordSize - 1) / wordSize;
    assert q * wordSize + (bytes + wordSize - 1) % wordSize == bytes + wordSize - 1;
    assert (n + 1 + q) * wordSize == (n + 1) * wordSize + q * wordSize;
  }

  /** result[i] = pointer: the bytes of one word, and no others. */
  method StorePointer(memory: array<Byte>, wordSize: nat, i: nat, pointer: Option<nat>)
    requires (i + 1) * wordSize <= memory.Length
    modifies memory
    ensures PointerAt(memory[..], wordSize, i, pointer)
    ensures forall k :: 0 <= k < i * wordSize || (i + 1) * wordSize <= k < memory.Length ==> memory[k] == old(memory[k])
  {
    var at := i * wordSize;
    assert (i + 1) * wordSize == at + wordSize;
    for k := 0 to wordSize
      invariant forall j :: at <= j < at + k ==> memory[j] == Part(pointer, j - at)
      invariant forall j :: 0 <= j < at || at + wordSize <= j < memory.Length ==> memory[j] == old(memory[j])
    {
      memory[at + k] := Part(pointer, k);
    }
  }

  lemma Multiples(wordSize: nat, i: nat, j: nat)
    requires i < j
    ensures (i + 1) * wordSize <= j * wordSize
  {
    assert j * wordSize == (i + 1) * wordSize + (j - i - 1) * wordSize;
  }

  /** A pointer in a word that was not written to is still there. */
  lemma PointerStays(before: seq<Byte>, after: seq<Byte>, wordSize: nat, i: nat, j: nat, pointer: Option<nat>)
    requires i < j && PointerAt(before, wordSize, i, pointer) && |after| == |before|
    requires forall k :: 0 <= k < j * wordSize && k < |before| ==> after[k] == before[k]
    ensures PointerAt(after, wordSize, i, pointer)
  {
    Multiples(wordSize, i, j);
  }

  /** The pointers to the indices, a null, and the storage behind them. */
  ghost predicate Filled(memory: seq<Byte>, wordSize: nat, storage: string, indices: seq<nat>) {
    var base := (|indices| + 1) * wordSize;
    && (forall i: nat :: i < |indices| ==> PointerAt(memory, wordSize, i, Some(base + indices[i])))
    && PointerAt(memory, wordSize, |indices|, None)
    && TextAt(memory, base, storage)
  }

  /** The storage goes behind the pointers, which are filled in then, with a null at the end; filling
      them in leaves the storage as it is. */
  method Fill(memory: array<Byte>, wordSize: nat, valueStorage: string, resultIndices: seq<nat>)
    requires (|resultIndices| + 1) * wordSize + |valueStorage| <= memory.Length
    modifies memory
    ensures Filled(memory[..], wordSize, valueStorage, resultIndices)
  {
    var n := |resultIndices|;
    var storageData := (n + 1) * wordSize;
    forall j | 0 <= j < |valueStorage| {
      memory[storageData + j] := Char(valueStorage[j]);
    }
    for i := 0 to n
      invariant TextAt(memory[..], storageData, valueStorage)
      invariant forall k: nat :: k < i ==> PointerAt(memory[..], wordSize, k, Some(storageData + resultIndices[k]))
    {
      ghost var before := memory[..];
      WriteNext(memory, wordSize, n, i, Some(storageData + resultIndices[i]), valueStorage);
      EarlierStay(before, memory[..], wordSize, i, storageData, resultIndices);
    }
    ghost var before := memory[..];
    WriteNext(memory, wordSize, n, n, None, valueStorage);
    EarlierStay(before, memory[..], wordSize, n, storageData, resultIndices);
  }

  lemma EarlierStay(before: seq<Byte>, after: seq<Byte>, wordSize: nat, i: nat, base: nat, indices: seq<nat>)
    requires i <= |indices| && |after| == |before|
    requires forall k: nat :: k < i ==> PointerAt(before, wordSize, k, Some(base + indices[k]))
    requires forall k :: 0 <= k < i * wordSize && k < |before| ==> after[k] == before[k]
    ensures forall k: nat :: k < i ==> PointerAt(after, wordSize, k, Some(base + indices[k]))
  {
    forall k: nat | k < i ensures PointerAt(after, wordSize, k, Some(base + indices[k])) {
      PointerStays(before, after, wordSize, k, i, Some(base + indices[k]));
    }
  }

  /** One round of the pointer loop. */
  method WriteNext(memory: array<Byte>, wordSize: nat, n: nat, i: nat, pointer: Option<nat>, ghost valueStorage: string)
    requires i <= n && (n + 1) * wordSize <= memory.Length && TextAt(memory[..], (n + 1) * wordSize, valueStorage)
    modifies memory
    ensures TextAt(memory[..], (n + 1) * wordSize, valueStorage)
    ensures PointerAt(memory[..], wordSize, i, pointer)
    ensures forall k :: 0 <= k < i * wordSize && k < memory.Length ==> memory[k] == old(memory[k])
  {
    Multiples(wordSize, i, n + 1);
    StorePointer(memory, wordSize, i, pointer);
  }

  /** env[i] is the memory at the i-th pointer, before the null one; wordSize is sizeof(char*). The
      result is the one buffer of pointer_count_required words. */
  method AlterEnvironment(env: seq<string>, changes: seq<Change>, wordSize: nat)
    returns (result: array<Byte>, ghost count: nat)
    requires wordSize > 0 && forall i :: 0 <= i < |env| ==> NUL in env[i]
    ensures Packed(result[..], wordSize, Altered(LinesAt(env), changes))
    ensures result.Length == count * wordSize
  {
    hide *;
    var valueStorage, resultIndices := CollectLines(env, changes);
    result, count := Pack(valueStorage, resultIndices, wordSize);
    ghost var lines := Altered(LinesAt(env), changes);
    IndexesPack(result[..], wordSize, resultIndices, lines);
  }

  /** The last part of it: the buffer and what is put in it. */
  method Pack(valueStorage: string, resultIndices: seq<nat>, wordSize: nat)
    returns (result: array<Byte>, ghost count: nat)
    requires wordSize > 0
    ensures Filled(result[..], wordSize, valueStorage, resultIndices) && result.Length == count * wordSize
    ensures result.Length < (|resultIndices| + 1) * wordSize + |valueStorage| + wordSize
  {
    hide Filled;
    var n := |resultIndices|;
    var pointerCountRequired := n + 1 + (|valueStorage| + wordSize - 1) / wordSize;
    Room(n, |valueStorage|, wordSize);
    result := new Byte[pointerCountRequired * wordSize];
    Fill(result, wordSize, valueStorage, resultIndices);
    count := pointerCountRequired;
  }

  lemma IndexesPack(memory: seq<Byte>, wordSize: nat, indices: seq<nat>, lines: seq<string>)
    requires Indexes(indices, lines) && Filled(memory, wordSize, Terminated(lines), indices)
    requires |memory| < (|indices| + 1) * wordSize + |Terminated(lines)| + wordSize
    ensures Packed(memory, wordSize, lines)
  {
    hide PointerAt, TextAt, Terminated, Start;
  }
}
