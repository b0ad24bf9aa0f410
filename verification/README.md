# Verified models of base/

This project models five parts of the `base/` library in Dafny and proves what their callers rely on.
`dafny verify dfyconfig.toml` checks all of it.

**Command lines** (`Quoting`, `CommandLines`, `Parsing`, `SwitchLookup`, `Printing`, `PrintedText`, `TextWeights`,
`Restoring`, `CommandLineObject`). The argument-splitting rules of the MSDN page "Parsing C++ Command-Line Arguments" are written down as a
reader, `Split`, and the quoting printer is proved against it: a list of arguments comes back exactly when
each of them survives (it is not empty, and a tab comes with a blank, a backslash or a quote). Parsing is
proved to be a stable partition, with the switch map equal to a last-wins scan of the switch section after
any sequence of calls. A lookup after parsing finds the last switch of that name, where under Windows the case
of A to Z does not count. Parsing twice changes nothing exactly when no switch was written with a fragile empty
value (`--=`, `-=`, `--name =`). The printed text of any list splits back into it exactly when every string
in it is printable. Printing, splitting and parsing again restores a command line exactly when both
conditions hold; `Restoring` shows with two weights that no reordering by the parser can make up for what an
unprintable string loses. The POSIX text, where nothing is quoted, is exactly the strings joined by single
spaces unless a switch ends in a bare '='. Both platforms are modelled, a `Platform` parameter standing for the conditional
compilation.

**Containers that change while they are iterated over** (`IdMaps`, `IdMapRuns`, `IdMapObject`, `Registry`,
`RegistryObject`). A run is any sequence of calls on the container and on any number of open iterators, so
every interleaving and every nesting is covered. `IDMap` refines a map with immediate removal; what differs
from that (`Clear` of an external-pointer map without iterators, `Lookup` of an entry pending removal) is
stated as it is. A walk of an iterator lands once on everything that is never removed; an owned pointer is
deleted once and never while an iterator is open. For `CallbackRegistry` every notification, nested ones
included, runs the callbacks in list order, once each, exactly those that are alive when they are reached.

**Lazy instances and exit teardown** (`LazyInstances`, `LazyInstanceObject`). `Pointer()` is a machine of
atomic steps for any number of threads, instances and managers. What may happen to one instance is written
down as a small automaton over its history (`NextPhase`), and every run is proved to follow it.

**Compare-and-swap loops** (`Atomics`, `AtomicClients`, `AtomicLoops`). The multi-step loops of the GCC
implementation are linearizable against the one-step operations that `base/atomicops.h` describes; handing on
by exchanges, claiming by compare-and-swap, sequence numbers and the barrier closure are built on that.

**Environment blocks and deferred tasks** (`Environment`, `EnvironmentPosix`, `DeferredRunner`). Both forms of
`AlterEnvironment` are loops proved against the same list of lines, those whose key no change has and then
key=value for every non-empty change; looking a changed key up gives its new line or none, any other key its old
line, exactly when the changes are well-formed. The deferred runner hands on every request, in order.

`Wrappers` holds what several modules share. Code that updates state in place is modelled as classes and loops,
whose contracts give the new state as a function of the old one; what holds over whole runs is proved about those
functions. Inputs on which the code does less than one might expect are in `Counterexamples`; the exact
conditions are in the lemmas named below.

Where the comments in the source promise more than the code does, the model follows the code:

- `base/command_line.h` says that arguments are quoted for the platform; an empty argument, and one with a tab
  but no blank, backslash or quote, are not (`Quoting.RoundTrip`).
- `Clear` in `base/id_map.h` does nothing on an external-pointer map that nobody iterates over
  (`IdMaps.ClearRefines`).
- `DCHECK`s and `NOTREACHED`s are taken as what the source asks of its callers; where a release build goes on
  after one in a defined way (an unknown id in `Remove`, no manager in `RegisterTask`), the model does too.

## Model

| member | source | states |
|---|---|---|
| Quoting.QuoteForCommandLineToArgvW | base/command_line.cc:101-141 | the nested loops write the quoted form that the round trip is about |
| Quoting.QuoteSpelled | base/command_line.cc:101-141 | the form that the loops write run by run, said character by character: a quote gets a backslash, a backslash a second one if only backslashes part it from a quote or the end |
| Quoting.QuoteLeavesAlone | base/command_line.cc:104-107 | an argument comes out unchanged if and only if it has no space, backslash or quote |
| Quoting.ReadEscaped | base/command_line.cc:111-138 | inside a quoted region the MSDN reader gets back exactly what was escaped, for any mix of backslash runs and quotes, and stops at its end |
| Quoting.OnlySurvivorsComeBack | base/command_line.cc:104-107 | no list whatsoever, once printed, can be read as holding an empty argument or a bare tabbed one |
| Quoting.RoundTrip | base/command_line.cc:101-141 | splitting the space-joined outputs gives the list back if and only if every argument survives |
| CommandLines.AsciiBlanks | base/strings/string_util_constants.cc:41-53 | within ASCII both platforms' sets are tab, line feed, vertical tab, form feed, carriage return and space |
| CommandLines.TrimCutsBlanks | base/strings/string_util.cc:165-194 | trimming leaves a part of the string with nothing but blanks before and after it |
| CommandLines.GetSwitchPrefixLength | base/command_line.cc:39-46 | the loop finds the longest prefix of the platform's list that the string has, and 0 exactly when it has none |
| CommandLines.IsSwitchMeans | base/command_line.cc:50-64 | a switch begins with a dash, or under Windows a slash, and is not just a prefix |
| CommandLines.ScanLastWins | base/command_line.cc:333-340 | a key is in the scan of the switch section exactly when a token has it, and the last such token gives the value |
| CommandLines.TokenScansBack | base/command_line.cc:326-338 | a name without '=' and any value, written as one token, are scanned back as the map's key and value |
| CommandLines.AppendSwitchAgrees | base/command_line.cc:324-341 | appending a switch keeps the map equal to the scan if and only if its name has no '=' |
| CommandLines.AppendAllAgrees | base/command_line.cc:67-87 | appending parsed strings never breaks the agreement |
| CommandLines.CopySwitchesAgrees | base/command_line.cc:352-359 | nor does copying switches by any list of names |
| CommandLines.CopySwitchesCopies | base/command_line.cc:352-359 | if no name that the source has is written with a prefix, the entries asked for are the source's and all others are as they were |
| CommandLines.CopyOntoNoSwitches | base/command_line.cc:352-359 | a line without switches gets exactly the entries asked for if and only if no name that the source has is written with a prefix |
| CommandLines.CopySwitchesInserts | base/command_line.cc:352-359 | the list afterwards is the old one with one token for every name that the source has, in order, at the end of the switch section; the divider grows by as many |
| CommandLines.CopyOwnInserts | base/command_line.cc:352-359 | copying from the object itself only inserts there, too, and keeps the agreement |
| CommandLines.CopyOwnCopies | base/command_line.cc:352-359 | it copies from the map as it was, if no own switch is asked for with a prefix |
| CommandLines.SplitStringCuts | base/strings/string_split.cc:15-34 | the loop gives the pieces between spaces, each trimmed, or nothing for one blank piece |
| CommandLines.CutEverywhere | base/strings/string_split.cc:22-33 | no piece has a space left in it |
| CommandLines.WrapperRejoins | base/command_line.cc:396-406 | the new strings are the trimmed pieces of the wrapper, none for one blank piece, in front of the old list; joined by spaces they are the wrapper if and only if no piece begins or ends with a blank |
| CommandLines.CallAgrees | base/command_line.cc:226-406 | nor does any one call, the shift by PrependWrapper included |
| CommandLines.RunAgrees | base/command_line.cc:226-406 | after any sequence of calls the map is the last-wins scan of the switch section that begin_args_ ends |
| Parsing.AppendAllPartitions | base/command_line.cc:67-87 | one pass with in-place insertions gives what two separate passes over the strings give |
| Parsing.ParsePartitions | base/command_line.cc:226-232 | parsing is a stable partition: switches before the first terminator, then the rest with both orders kept, the map a last-wins scan |
| Parsing.AppendOtherPartitions | base/command_line.cc:389-394 | onto any line: the program replaced if asked for, the other line's switches at the end of the switch section, its arguments at the end of the list |
| Parsing.CanonStable | base/command_line.cc:50-64 | the token written for a switch is read as a switch again if and only if the switch was not fragile |
| Parsing.Reparse | base/command_line.cc:226-232 | parsing the resulting list changes nothing if and only if no fragile switch was given |
| Parsing.CopyByAppending | base/command_line.cc:389-394 | appending a parsed line to an empty one copies it if and only if no fragile switch was given |
| SwitchLookup.LowerMerges | base/command_line.cc:89-96 | two names have one lower-case form if and only if they are equal, under Windows up to the case of A to Z |
| SwitchLookup.LowerIsSame | base/command_line.cc:89-96 | that form is the same name, and under Windows has no capital letter |
| SwitchLookup.TokenSpelling | base/command_line.cc:324-341 | a switch is written as its name, with `--` if it had no prefix and without capitals under Windows, then `=` and the value if there is one |
| SwitchLookup.RunLowered | base/command_line.cc:226-406 | after any calls, under Windows no key of the map and no switch name in the list has a capital letter |
| SwitchLookup.LookupFindsSame | base/command_line.cc:285-313 | a lookup finds the one key that is the same name, if there is one |
| SwitchLookup.AppendedIsFound | base/command_line.cc:324-341 | a switch appended under one spelling is found with its value under every other; lookups of other names are not affected |
| SwitchLookup.LookupOfParse | base/command_line.cc:226-313 | after parsing, a name is found if and only if a switch of the same name was given before the first terminator, with the value of the last one |
| Printing.PrintableReadsBack | base/command_line.cc:251-272 | a printable string is read back as itself in front of any text |
| Printing.ReadToMarker | base/command_line.cc:258-264 | a quote in an unquoted switch name makes the reader find the first blank or '=' too early |
| Printing.UnprintableDiffers | base/command_line.cc:251-272 | what is read in place of an unprintable string is something else, whatever follows |
| Printing.PrintedTextSplitsBack | base/command_line.cc:247-275 | the printed text of any list splits back into it if and only if every string is printable |
| PrintedText.PrintedJoins | base/command_line.cc:247-275 | the text is the printed strings joined by single spaces: under Windows quoted, of switches the value only; under POSIX as they are, without the bare '=' of a switch that has no value |
| PrintedText.PosixTextJoins | base/command_line.cc:247-275 | under POSIX it is the strings themselves joined by spaces if and only if no switch before the first terminator ends in a bare '=' |
| PrintedText.ParsedPosixText | base/command_line.cc:226-275 | and so it is for every parsed command line |
| TextWeights.ParseTotal | base/command_line.cc:67-87 | parsing adds no weight: every string of the result comes from one of the input that is at least as heavy |
| TextWeights.SplitMarks | base/command_line.cc:111-138 | how many quotes and backslashes a reader keeps depends on the text alone, not on what is quoted in it |
| TextWeights.RawMarks | base/command_line.cc:258-259 | text printed as it is loses at least one of them for each of its quotes |
| TextWeights.EscapedMarks | base/command_line.cc:111-138 | escaped text keeps them all |
| Restoring.RenderAllWeight | base/command_line.cc:247-275 | without quotes in names, every unprintable string costs length or pieces |
| Restoring.OnlyPrintableRestored | base/command_line.cc:247-275 | no unprintable list is restored by parsing its text, reordering included |
| Restoring.PrintAndReparse | base/command_line.cc:226-275 | printing a parsed command line, splitting and parsing gives back list, map and begin_args_ if and only if its strings are printable and no fragile switch was given |
| CommandLineObject.CommandLine.InitFromArgv | base/command_line.cc:226-232 | the object holds the parse of the arguments |
| CommandLineObject.CommandLine.AppendSwitchesAndArguments | base/command_line.cc:67-87 | the loop leaves the state that appending the strings one by one gives |
| CommandLineObject.CommandLine.AppendSwitchNative | base/command_line.cc:324-341 | insertion, map entry and divider in terms of the old state; the value is then found under every spelling of the name |
| CommandLineObject.CommandLine.HasSwitch | base/command_line.cc:285-287 | found exactly when the map has a key that is the same name, under Windows up to case, and when some token of the switch section has it |
| CommandLineObject.CommandLine.GetSwitchValueNative | base/command_line.cc:308-313 | the value under the key that is the same name, that of the last such token, or the empty string when there is none |
| CommandLineObject.CommandLine.CopySwitchesFrom | base/command_line.cc:352-359 | copies by name, also from the object itself; nothing but the end of the switch section changes, and the agreement is kept |
| CommandLineObject.CommandLine.AppendArguments | base/command_line.cc:389-394 | the other line's strings are appended after its program, if asked for |
| CommandLineObject.CommandLine.PrependWrapper | base/command_line.cc:396-406 | list and divider shift together |
| CommandLineObject.CommandLine.GetArgs | base/command_line.cc:361-370 | everything after the switches without the first terminator |
| CommandLineObject.ArgsOfParse | base/command_line.cc:361-370 | on a parsed line that is the non-switches before the first terminator followed by all that came after it |
| CommandLineObject.CommandLine.GetArgumentsString | base/command_line.cc:247-275 | the loop prints the strings, joined by single spaces: quoted under Windows, as they are under POSIX but for a bare '=' |
| IdMaps.SizeIsSeen | base/id_map.h:106-122 | size and IsEmpty report the map without the pending entries |
| IdMaps.AddRefines | base/id_map.h:58-77 | adding a new key adds it to the seen map, wherever the hash table puts it |
| IdMaps.RemoveRefines | base/id_map.h:79-93 | removing takes the key out of the seen map at any iteration depth |
| IdMaps.ClearRefines | base/id_map.h:95-104 | Clear empties the seen map if and only if the map owns, is iterated over or was empty; otherwise it does nothing |
| IdMaps.CloseRefines | base/id_map.h:154-163 | closing an iterator, compacting or not, does not change the seen map |
| IdMapRuns.CallRefines | base/id_map.h:58-199 | every call acts on the seen map as immediate removal would |
| IdMapRuns.RunKeepsInv | base/id_map.h:58-235 | in every reachable state pending ids are keys, none is pending without iterators, iterators are on entries, stored plus deleted pointers are the added ones |
| IdMapRuns.AutoIdsNeverCollide | base/id_map.h:58-66 | with Add alone, up to the last 32-bit id, the next id is never taken and every id is positive |
| IdMapRuns.DeletedOnce | base/id_map.h:46-52 | by destruction each added pointer has been deleted exactly as often as it was added if the map owns, and never if not |
| IdMapRuns.NothingDeletedWhileIterating | base/id_map.h:79-104 | while an iterator stays open nothing is deleted and no entry leaves the table |
| IdMapRuns.AdvanceMoves | base/id_map.h:180-199 | Advance moves strictly on, over pending entries only, to one that is not pending or to the end |
| IdMapRuns.OpenLands | base/id_map.h:135-139 | a new iterator lands on the first entry not pending |
| IdMapRuns.CopyLands | base/id_map.h:141-145 | a copied iterator skips only entries pending removal |
| IdMapRuns.WalkVisitsOnce | base/id_map.h:133-203 | an iterator lands on strictly increasing positions and misses nothing it passes that stays |
| IdMapRuns.CompleteWalk | base/id_map.h:133-203 | a whole walk lands on no entry twice and on every entry never removed, in at most as many steps as there are entries |
| IdMapObject.IDMap.Add | base/id_map.h:58-66 | the new id is the old next_id_ and is added to the seen map |
| IdMapObject.IDMap.RemoveId | base/id_map.h:79-93 | erases or defers, as the depth says |
| IdMapObject.IDMap.Clear | base/id_map.h:95-104 | the loop over the table marks every key as pending, or release_all runs |
| IdMapObject.IDMap.GetSize | base/id_map.h:119-122 | the number of entries of the seen map |
| IdMapObject.IDMap.IsEmpty | base/id_map.h:106-109 | whether the seen map is empty |
| IdMapObject.IDMap.Lookup | base/id_map.h:111-117 | finds seen entries and entries pending removal alike, NULL for others |
| IdMapObject.IDMap.Compact | base/id_map.h:228-235 | removing the pending ids one by one, in any order, erases and deletes exactly them |
| IdMapObject.IDMap.ReleaseAll | base/id_map.h:212-225 | deletes each stored pointer once and empties the table, or does nothing in an external-pointer map |
| IdMapObject.Iterator.constructor | base/id_map.h:135-139 | stands on the first entry not pending, one level deeper |
| IdMapObject.Iterator.Copy | base/id_map.h:141-145 | stands where the other does, or further if that entry is pending by now |
| IdMapObject.Iterator.SkipRemovedEntries | base/id_map.h:193-199 | the loop stops at the first entry not pending |
| IdMapObject.Iterator.Advance | base/id_map.h:180-184 | the next entry not pending |
| IdMapObject.Iterator.Close | base/id_map.h:154-163 | the last iterator to die compacts |
| Registry.CallKeepsInv | base/callback_registry.h:79-165 | every call keeps the relation between nodes, subscriptions and iterators |
| Registry.RunKeepsInv | base/callback_registry.h:79-165 | in every reachable state live subscriptions and iterators name nodes of the list, a node is null exactly when its subscription died, and without iterators no node is null |
| Registry.NothingErasedWhileIterating | base/callback_registry.h:79-84 | while an iterator stays alive no node leaves the list |
| Registry.CallbackStays | base/callback_registry.h:79-165 | over any run a node holds the callback it was added with, or is null |
| Registry.RunsItsCallback | base/callback_registry.h:96-134 | when GetNext gives the node of a subscription, the callback run is the one that was added |
| Registry.NothingLeft | base/callback_registry.h:144-147 | what the destructor checks holds exactly when no subscription and no iterator is alive |
| Registry.GetNextMoves | base/callback_registry.h:124-134 | GetNext gives the first live node from its position on and moves past it before the callback runs |
| Registry.AheadStays | base/callback_registry.h:93-134 | nothing but its own GetNext and additions changes what an iterator has ahead, and additions only when it is not at the end |
| Registry.CopyAhead | base/callback_registry.h:112-116 | a copied iterator has the same nodes ahead |
| Registry.PassInOrder | base/callback_registry.h:183-190 | a pass runs nodes in list order, each at most once |
| Registry.RunIffAliveWhenReached | base/callback_registry.h:183-190 | a node ahead is run if and only if it is alive when reached |
| Registry.PassReachesAll | base/callback_registry.h:183-190 | a finished pass has run every node ahead of it that is still subscribed |
| Registry.NotifyPass | base/callback_registry.h:183-190 | one Notify runs, in order and once each, exactly the callbacks present at its start and alive when reached |
| Registry.AddedDuringPass | base/callback_registry.h:96-134 | a callback added meanwhile is run in the same pass if and only if the iterator was not at the end then and it is alive when reached |
| RegistryObject.CallbackRegistry.Notify | base/callback_registry.h:183-190 | the loop, with callbacks that add, drop and notify again to any depth, makes a run of the calls above |
| RegistryObject.CallbackRegistry.Compact | base/callback_registry.h:157-165 | erases the null nodes and no other |
| RegistryObject.CallbackRegistry.MayBeDestroyed | base/callback_registry.h:144-147 | the same of the object's fields |
| RegistryObject.Iterator.GetNext | base/callback_registry.h:124-134 | the loop over null nodes gives what the machine's step gives |
| RegistryObject.Iterator.Destroy | base/callback_registry.h:118-122 | the last iterator compacts |
| RegistryObject.Subscription.Add | base/callback_registry.h:96-100 | a subscription to a new last node |
| RegistryObject.Subscription.Destroy | base/callback_registry.h:79-84 | nulls the node out or erases it |
| LazyInstances.RunKeepsInv | base/lazy_instance.cc:18-56 | the invariant of word, threads, owner, histories and stacks holds after any run |
| LazyInstances.OneCreator | base/lazy_instance.cc:18-39 | at most one thread is creating an instance, the word is 1 exactly while it is, and a thread about to return can only read the pointer to a finished object |
| LazyInstances.WordMoves | base/lazy_instance.h:138-207 | the word moves from 0 to 1 by the winning swap, from 1 to the pointer by the publishing store, back to 0 by OnExit, and in no other way |
| LazyInstances.Lives | base/lazy_instance.h:156-207 | constructions and destructions alternate, registrations match constructions, every return gives the one pointer while the object lives, leaky instances are never destroyed |
| LazyInstances.SpinsWhileConstructing | base/lazy_instance.cc:34-38 | a thread spins only while another one, which can go on, is constructing |
| LazyInstances.ExitNeverStuck | base/at_exit.cc:62-75 | ProcessCallbacksNow can go on or is done, or the next instance to destroy is in use and every thread that uses it can go on without waiting for anything |
| LazyInstances.TeardownInReverse | base/at_exit.cc:33-75 | whatever threads do meanwhile, exactly the top manager's tasks run, last registered first, and the shadowed manager is left as it was |
| LazyInstances.ReverseTurns | base/at_exit.cc:68-75 | what ran i-th is what was registered i-th from the end |
| LazyInstances.LastRegisteredFirst | base/at_exit.cc:24-82 | whenever a manager tears down, after any run in which it may have been shadowed and have torn down before, exactly what was registered with it since is run, last registered first; a destroyed one leaves the stack of managers as it found it |
| LazyInstances.EveryTaskOnce | base/at_exit.cc:33-75 | over every run, each task of any kind has been run as often as it was registered, but for those still on a stack |
| LazyInstances.ConstructsAgain | base/lazy_instance.h:202-207 | with the word back at 0 a call constructs, registers with the manager then on top, and returns the pointer |
| LazyInstanceObject.LazyInstance.NeedsLazyInstance | base/lazy_instance.cc:18-39 | true for the thread that took the word from 0 to 1; otherwise the spin ends with the pointer published |
| LazyInstanceObject.LazyInstance.CompleteLazyInstance | base/lazy_instance.cc:41-56 | publishes and registers once, or not at all for leaky traits |
| LazyInstanceObject.LazyInstance.Pointer | base/lazy_instance.h:138-173 | under any interference the result is the pointer of the one live object, registered by its creator only |
| LazyInstanceObject.LazyInstance.OnExit | base/lazy_instance.h:202-207 | one destruction, back to 0 |
| LazyInstanceObject.AtExitManager.constructor | base/at_exit.cc:24-31 | the new manager is on top with an empty stack |
| LazyInstanceObject.AtExitManager.RegisterTask | base/at_exit.cc:51-59 | pushed on the top manager, or dropped when there is none |
| LazyInstanceObject.AtExitManager.RunTasks | base/at_exit.cc:68-75 | the loop empties the stack from the top and destroys each instance on it once |
| LazyInstanceObject.AtExitManager.ProcessCallbacksNow | base/at_exit.cc:62-75 | the same for the top manager, nothing without one |
| LazyInstanceObject.AtExitManager.Destroy | base/at_exit.cc:33-42 | its own tasks run, and the next manager is on top again |
| Atomics.Wrap | base/atomicops_internals_gcc.h:46 | 32-bit wrap-around: in range and congruent modulo 2^32 |
| Atomics.StepKeepsInv | base/atomicops_internals_gcc.h:15-53 | one access by any thread keeps the correspondence with a log of one-step operations |
| Atomics.Linearizable | base/atomicops.h:63-86 | every result and every value of the cell is explained by one-step operations, each at one instant inside its call: a load, an exchange and a compare-and-swap return what the cell held, the latter swaps exactly if that was expected, an increment returns what it leaves; no effect belongs to no call |
| Atomics.CellWas | base/atomicops_internals_gcc.h:15-53 | at every moment of a run the cell holds what the operations that have taken effect by then leave |
| Atomics.RetryMeansProgress | base/atomicops_internals_gcc.h:19-51 | a loop goes around only because another operation took effect |
| Atomics.CellCountsIncrements | base/atomicops_internals_gcc.h:41-53 | the cell is the initial value plus all increments that have taken effect, modulo 2^32, and each increment returns that sum at its instant |
| AtomicClients.ExchangesHandOn | base/atomicops_internals_gcc.h:27-34 | with exchanges only, each returns what the one before it put in: initial value and values put in are the results and the cell, in order |
| AtomicClients.OneClaims | base/atomicops_internals_gcc.h:15-25 | with attempts to swap something into an empty cell only, the first to take effect is the only one that returns empty, its value stays, and once all have returned exactly one was told so |
| AtomicClients.SequenceNumbers | base/atomic_sequence_num.h:24-27 | k calls get distinct numbers in order of effect, exactly 0 to k - 1 when all have returned |
| AtomicClients.ZeroAt | base/atomic_ref_count.h:31-39 | only the n-th decrement gives zero |
| AtomicClients.BarrierRunsDoneOnce | base/barrier_closure.cc:28-34 | for every interleaving the done closure runs only after the n-th decrement, once, on the thread that made it, and has run when n calls have returned |
| AtomicLoops.Cell.CompareAndSwap | base/atomicops_internals_gcc.h:15-25 | under any interference the result is what the cell held at one instant during the call, when the replacement was put there if that was expected; nothing else is stored |
| AtomicLoops.Cell.Exchange | base/atomicops_internals_gcc.h:27-34 | the result is what the cell held when the new value, and nothing else, was put there |
| AtomicLoops.Cell.Increment | base/atomicops_internals_gcc.h:41-53 | the result is what was put there, the wrapped sum with what the cell held then |
| AtomicLoops.SequenceNumber.GetNext | base/atomic_sequence_num.h:24-27 | under any interference, the number before an increment that took effect during the call |
| AtomicLoops.BarrierInfo.constructor | base/barrier_closure.cc:40-50 | the count, and the done closure run at once when it is 0 |
| AtomicLoops.BarrierInfo.DecN | base/atomic_ref_count.h:31-39 | under any interference, whether the count was non-zero at the instant of this decrement |
| AtomicLoops.BarrierInfo.Run | base/barrier_closure.cc:28-34 | under any interference, runs and resets the done closure exactly when this thread's own decrement gave zero |
| AtomicLoops.RunAll | base/barrier_closure.cc:28-50 | n calls in a row run the done closure once |
| Environment.ParseEnvLine | base/environment.cc:106-118 | the two loops find the key, which goes up to the first '=' or the end, and the length of the line up to and with its first NUL |
| Environment.AlteredIs | base/environment.cc:151-174 | what the loops leave are the lines whose key no change has, in order, and then key=value for every change that is not empty |
| Environment.AlteredAnswers | base/environment.h:56-60 | with well-formed changes looking up a changed key gives key=value, or nothing if the value is empty; every other key gives its old line |
| Environment.AnswersOnlyIf | base/environment.h:56-60 | and only with well-formed changes |
| Environment.BlockReadsBack | base/environment.h:62-65 | a block always ends with two NULs; its lines are read back if and only if none is empty or has a NUL |
| Environment.WindowsEnvironment | base/environment.cc:145-181 | a reader sees the lines whose key no change has and then the non-empty changes if and only if these have no NUL; all lookups are answered so if and only if their keys have no '=' either |
| Environment.AlterEnvironmentWindows | base/environment.cc:145-181 | the cursor loop and the appending loop build the block of these lines |
| EnvironmentPosix.Room | base/environment.cc:216-218 | pointer_count_required words hold n + 1 pointers and all string bytes, with less than a word to spare |
| EnvironmentPosix.LinesTile | base/environment.cc:221-230 | in the bytes of the buffer every pointer is whole, in bounds, behind the pointers and at the start of its NUL-terminated line; the lines tile the storage; the last pointer is null |
| EnvironmentPosix.PosixEnvironment | base/environment.cc:185-233 | a reader of the bytes sees the same lines if and only if no change has a NUL, and lookups are answered as above if and only if the changes are well-formed |
| EnvironmentPosix.CollectLines | base/environment.cc:187-214 | the two loops collect the lines and the index of each |
| EnvironmentPosix.StorePointer | base/environment.cc:228-230 | writes the bytes of one word and no others |
| EnvironmentPosix.Fill | base/environment.cc:221-230 | the copy into the storage and the pointer loop over the same bytes, which leaves the storage and earlier pointers intact |
| EnvironmentPosix.Pack | base/environment.cc:216-230 | one allocation of pointer_count_required words, filled, with less than a word to spare |
| EnvironmentPosix.AlterEnvironment | base/environment.cc:185-233 | the result is one packed buffer of the altered lines |
| DeferredRunner.OrderTransparent | base/deferred_sequenced_task_runner.cc:28-98 | requests handed on followed by those kept back are all requests in order, nothing is handed on before Start, nothing is kept back after it |
| DeferredRunner.DeferredSequencedTaskRunner.PostDelayedTask | base/deferred_sequenced_task_runner.cc:28-40 | handed on or kept back; true before Start, then the target's answer |
| DeferredRunner.DeferredSequencedTaskRunner.PostNonNestableDelayedTask | base/deferred_sequenced_task_runner.cc:46-59 | the same for non-nestable tasks |
| DeferredRunner.DeferredSequencedTaskRunner.QueueDeferredTask | base/deferred_sequenced_task_runner.cc:61-72 | all four parts of the request are kept |
| DeferredRunner.DeferredSequencedTaskRunner.Start | base/deferred_sequenced_task_runner.cc:75-98 | the loop hands on every kept request, in order and with its own kind, and clears the queue |
| DeferredRunner.DeferredSequencedTaskRunner.RunsTasksOnCurrentThread | base/deferred_sequenced_task_runner.cc:42-44 | the target's answer |
| DeferredRunner.DeferredSequencedTaskRunner.Transparent | base/deferred_sequenced_task_runner.cc:28-98 | the theorem about runs, said of the object |
| Counterexamples.EmptyArgument | base/command_line.cc:104-107 | an empty argument disappears |
| Counterexamples.TabbedArgument | base/command_line.cc:104-107 | an argument with a bare tab falls apart |
| Counterexamples.NameWithEquals | base/command_line.cc:324-341 | a switch name with '=' makes map and list disagree |
| Counterexamples.EmptyNameAndValue | base/command_line.cc:333-338 | `--=` becomes the terminator |
| Counterexamples.PrefixedName | base/command_line.cc:352-359 | `----a=1` is entered as `--a`, and copying `--a` enters `a` |
| Counterexamples.BlankAtEdge | base/command_line.cc:396-406 | a tab next to a space in a wrapper is lost, one inside a piece is not |
| Counterexamples.NameWithBlank | base/command_line.cc:258-259 | a switch with a blank in its name falls apart when printed |
| Counterexamples.NameWithQuote | base/command_line.cc:258-259 | a quote in a switch name is lost when printed |
| Counterexamples.ClearKeeps | base/id_map.h:95-98 | Clear of an external-pointer map keeps its entries |
| Counterexamples.VariableWithEquals | base/environment.cc:167-173 | a changed variable with '=' in its name is not found |
| Counterexamples.ValueWithNul | base/environment.cc:167-173 | a NUL in a changed value makes two lines of it |

## Left out

- AtomicClients.SequenceNumbers: stated for fewer than 2^31 increments, after which the int result wraps around.
- AtomicClients.BarrierRunsDoneOnce: stated for fewer than n + 2^32 decrements, far more than the n that the source allows, because the counter would come around to zero again.
- CommandLineObject.CommandLine.AppendArguments: not for a command line appended to itself, whose list would grow under the loop without end.
- LazyInstances.Lives: no task is registered by a task that ProcessCallbacksNow is running, and no constructor comes back to the same instance; both would wait for themselves.
- LazyInstanceObject.LazyInstance.Pointer: a thread that is constructing when this one has to wait is taken to publish in the end; otherwise the spin has no end in the source either.
- AtomicLoops.Cell.Increment: other threads store finitely often during one call (likewise for CompareAndSwap and Exchange), so that the loop ends; that a retry always means somebody's progress is `Atomics.RetryMeansProgress`.
- AtomicLoops.RunAll: one call after the other; every interleaving is `AtomicClients.BarrierRunsDoneOnce`.
- EnvironmentPosix.StorePointer: a pointer is written as symbolic bytes, its distance from the buffer's beginning, so that no word size or byte order is fixed.
- IdMapObject.IDMap.Add: next_id_ is kept below the largest int, here and in the runs of IdMapRuns, since counting on from it is not defined; destructors of stored objects do not call back into the map.
- Splitting of argv[0], CommandLineToArgvW itself, GetCommandLineString, UTF-8 and wide-character conversion, and IsStringASCII: library code not shown, or a different set of rules. TrimWhitespace and SplitString are written as functions.
- The singleton for the current process (Init, Reset, ForCurrentProcess): no behaviour of its own.
- The order in which a hash table enumerates entries and where it puts new ones: a parameter, so that every order is covered. A rehash that invalidates open iterators of the table is not modelled; the walk lemmas are about iterators during which nothing is added.
- IDMap::Iterator::operator=: it refers to members that do not exist and is never instantiated.
- Memory ordering weaker than sequential consistency, and the assembly, OS-call and sanitizer versions of the atomic operations.
- The 64-bit operations, and arithmetic of size_t beyond what fits in memory.
- OnExit destroys and stores 0 in one step, and RunTop pops in that step too: the source asks that no other thread uses the instance meanwhile.
- AssertSingletonAllowed, alignment checks, and LazyInstance::operator==.
- Case-insensitive variable names on Windows, and EnvironmentImpl's GetVar, SetVar and UnSetVar: calls into the operating system.
- The lock of the deferred runner and of AtExitManager: each operation under it is one step.
- Bind, Callback and WeakPtr machinery: type plumbing; a callback is an identity.
