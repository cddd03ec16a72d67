# A verified model of the library's core

These files model the hard parts of a Windows port of a base library and prove what they promise.
`dafny verify dfyconfig.toml` checks everything.

Each group of files models one component:

- `ObserverSpec`, `ObserverSlots`, `ObserverList`: a list of observers that may be changed, iterated
  again or destroyed while it is iterated. `ObserverSpec` is the simple machine: a duplicate-free
  sequence of registrations and, for each iterator, the queue of those still to come. `ObserverSlots`
  relates a vector with tombstones to it, and `ObserverList` is the class with its iterators; each
  method is proved to be one step of the machine. The laws of a pass are about arbitrary runs.
  `ObserverEdits` says what the events do to the list itself, and that passes end.
- `Switches`, `Quoting`, `QuotingRoundTrip`, `Placeholders`: printing a command line and reading it by
  the documented rules for backslashes and quotation marks, also after text was put in for
  placeholders. How a doubled mark inside quotes reads is left open (`PairRule`), since systems
  differ; the results hold for every such rule.
- `CommandLine`: the three fields `argv_`, `switches_` and `begin_args_` under every edit.
- `Values`, `Dictionaries`, `ValuePaths`, `ValueTree`, `ValueMerge`: value trees, their order, paths,
  merging and the copy without empty children.
- `Bits`, `PickleFormat`, `Pickle`, `PickleIterator`: the binary format, the growing buffer and the
  bounds-checked reader. A reader is specified by what it leaves to be read.
- `LazyInstance`, `LazyProgress`, `AtExit`: the create-once protocol as atomic steps of any number of
  threads, that its calls come to an end, and the stacks of exit callbacks.
- `PathService`: overrides, providers that ask for other keys, and the cache over both. A provider is
  a plan for each key: the keys it asks for, and what it makes of the answers.
- `RunLoopSpec`, `RunLoopNesting`, `RunLoop`: nested run loops and deferred quits.
- `NotifierSpec`, `NotifierLaws`, `ObserverListThreadSafe`: posted notifications under any interleaving.
- `Vlog`, `Version`, `RandUtil`: the glob matcher, version numbers, and uniform random numbers.
- `Text`, `Wrappers`: shared helpers.

## Where the code does less than one might expect

Each point names the input at which a property one might expect fails, and the condition under which
it holds; both are members of the table below.

- A switch with a bare `=` does not survive printing and reading (`QuotingRoundTrip.BareEqualsIsLost`,
  exactly `QuotingRoundTrip.RoundTrip`), nor being read twice (`CommandLines.BareEqualsIsLost`,
  exactly `CommandLines.InitTwice`).
- `RemoveSwitch` takes a view but erases what the bare pointer reads, so a view of part of a text
  breaks the fields (`CommandLines.PartOfANameIsRemoved`, exactly `CommandLines.RemoveSwitchKeepsInv`).
- A wrapper comes in front of the program, which then counts as a switch
  (`CommandLines.WrapperBreaksInv`, exactly `CommandLines.WrapperKeepsInv`).
- A command line passed its own vector loses it, or appends to itself without end
  (`CommandLines.OwnVectorFails`, exactly `CommandLines.OwnVectorIsLost` and
  `CommandLines.AppendingToItselfEnds`).
- Quoting for placeholders does not reach the names of switches
  (`Placeholders.PercentNameBreaks`, exactly `Placeholders.PlaceholdersAreSafe`).
- Setting and then extracting a path prunes dictionaries that were empty before
  (`ValuePaths.EmptyDictionaryIsPruned`, exactly `ValuePaths.SetThenExtract`).
- `ExtractPath` rejects paths ending in a dot that `FindPath` accepts
  (`ValueTrees.TrailingDotIsFoundOnly`, exactly `ValueTrees.DottedExtracts`).
- The header of the pickle reader says that nothing can be read after a failure; a wide string with
  an overflowing length is refused without moving to the end (`PickleFormat.ReadsOnAfterFailure`,
  exactly `PickleFormat.FailureExhausts`).
- A pickle of 2 to the 32 bytes, header included, can be written but not wrapped again
  (`Pickles.FullPickleIsRefused`, exactly `PickleFormat.WrapRecovers`).
- A creator that returns 0 is run again by the next call (`LazyInstances.ZeroCreatesTwice`, exactly
  `LazyInstances.CreatedOnceExactly`). One that returns 1 is not, but leaves a word that looks as if it
  were still being created, for which callers wait (`LazyInstances.OneLeavesStuck`, exactly
  `LazyInstances.AttendedExactly`).
- `RegisterProvider` keeps the cache, which can then be out of date
  (`PathServices.RegisteringCanOutdate`, exactly `PathServices.RegisteringIsSafeExactly`).
- An override may bring in a path with a parent reference although `Get` means to give out none
  (`PathServices.OverrideCanReferToParent`, exactly `PathServices.NoParents`).
- A nesting observer that quits the loop being entered is not heard (`RunLoopSpec.LostFromTheStart`,
  exactly `RunLoopSpec.DeliveredExactly`).
- Under ALL an observer may be called twice for one notification (`NotifierSpec.ReaddedIsCalledTwice`,
  exactly `NotifierSpec.AtMostOnceExactly`; how often in any one run is `NotifierSpec.Account`).
- Looking up the level of a file with a module name of fewer than four characters throws
  (`Vlog.ShortModuleThrows`, exactly `Vlog.GetVlogLevel`).
- A version with a leading zero after the first dot prints differently (`Versions.LeadingZeroIsLost`,
  exactly `Versions.PrintParsed`).
- With a range of 2 to the 63, exactly half of all random words are accepted, and with no other
  (`RandUtil.HalfAccepted`).

## Model

| member | source | states |
|---|---|---|
| `ObserverSpec.StepKeepsInv` | BaseLib/observer_list.h:142-187 | every event of every client keeps the list duplicate-free and in registration order, and what each iterator still has to visit a part of it |
| `ObserverSpec.RunKeepsInv` | BaseLib/observer_list.h:286-355 | the same over every run of adds, removes, clears, nested passes, copies, assignments and destruction |
| `ObserverSpec.StepLaw` | BaseLib/observer_list.h:180-236 | one event moves registrations from "to come" to "visited" and loses exactly those it takes off the list before they were reached |
| `ObserverSpec.PassLaw` | BaseLib/observer_list.h:180-236 | at every moment of a pass: visited plus still to come is what was to come at the start plus what was added, in order, less exactly what left before it was reached |
| `ObserverSpec.PassFromStart` | BaseLib/observer_list.h:128-140 | the same law from the moment the pass begins on any list |
| `ObserverSpec.PassVisits` | BaseLib/observer_list.h:128-236 | the promise of a pass under any reentrancy: each registration once, in order, never after its removal; at the end all that were present or (policy ALL) added meanwhile, except those removed before they were reached; under EXISTING_ONLY nothing added meanwhile |
| `ObserverSpec.SurvivorsAreVisited` | BaseLib/observer_list.h:180-187 | a registration that is on the list at both ends of a finished pass was visited exactly once |
| `ObserverSpec.DestroyEndsPasses` | BaseLib/observer_list.h:267-279 | once the list is destroyed, whatever follows short of a new pass, no iterator is attached and none visits anything |
| `ObserverEdits.RemoveLeavesTheOthers` | BaseLib/observer_list.h:298-314 | in every state, removing leaves exactly the registrations of the other observers, as many and in their old order |
| `ObserverEdits.ClearLeavesNothing` | BaseLib/observer_list.h:330-340 | in every state, clearing leaves no registration |
| `ObserverEdits.AddPutsLast` | BaseLib/observer_list.h:286-294 | under either policy, adding an absent observer puts one new registration of it at the end, and adding a present one does nothing |
| `ObserverEdits.OthersKeepTheList` | BaseLib/observer_list.h:128-236 | nothing that iterators do changes the list |
| `ObserverEdits.RegisteredExactly` | BaseLib/observer_list.h:286-340 | over every run, an observer is registered if and only if the last event about it was an addition |
| `ObserverEdits.PassIsFinite` | BaseLib/observer_list.h:180-187 | a pass is advanced at most once for each registration there was and each that is added and shown to it |
| `ObserverEdits.UndisturbedPass` | BaseLib/observer_list.h:180-187 | a pass that nothing disturbs visits the whole list in order and ends |
| `ObserverEdits.CopyGoesOn` | BaseLib/observer_list.h:148-153 | a copied iterator has to visit what the original has still to visit, and obeys the law of a pass from there |
| `ObserverEdits.DetachedOnes` | BaseLib/observer_list.h:142-170 | copying a detached iterator attaches nothing, dropping one detaches it alone, and moving one moves no other |
| `ObserverSlots.CompactionKeepsLive` | BaseLib/observer_list.h:348-355 | compaction leaves no tombstone and the same registrations in the same order |
| `ObserverSlots.LiveMarked` | BaseLib/observer_list_internal.h:31-34 | marking a slot takes exactly that observer out of every stretch of the vector |
| `ObserverSlots.LiveErased` | BaseLib/observer_list.h:307-309 | erasing a slot takes exactly that observer out of what the vector stands for |
| `ObserverSlots.LiveOrdered` | BaseLib/observer_list.h:357 | the unmarked slots of any stretch are distinct and in registration order |
| `ObserverSlots.ViewAtFits` | BaseLib/observer_list.h:221-236 | an index in the vector, tombstones included, always stands for a view of the duplicate-free list |
| `ObserverLists.ObserverList.ValidGivesInv` | BaseLib/observer_list.h:286-355 | the representation (no live iterator means no tombstone; the linked nodes are exactly the iterators pointing here; every live index at most the size) stands for a state that meets the specification invariant |
| `ObserverLists.Iter.At` | BaseLib/observer_list.h:128-140 | creating an iterator is the Begin event: linked in, at the first unmarked slot, bounded by the policy |
| `ObserverLists.Iter.CopyOf` | BaseLib/observer_list.h:148-153 | copying an iterator is the Copy event: same place, linked in once more |
| `ObserverLists.Iter.EnsureValidIndex` | BaseLib/observer_list.h:221-229 | the index moves over tombstones only, to the next unmarked slot or the bound |
| `ObserverLists.Iter.Advance` | BaseLib/observer_list.h:180-187 | incrementing is the Advance event; once the list is gone the iterator stays where it is |
| `ObserverLists.Iter.GetCurrent` | BaseLib/observer_list.h:213-219 | dereferencing gives the observer the specification says the iterator stands on |
| `ObserverLists.Iter.Equals` | BaseLib/observer_list.h:172-176 | two iterators are equal exactly when both have nothing left to visit or both stand at the same index of the same list |
| `ObserverLists.Iter.Assign` | BaseLib/observer_list.h:155-170 | assignment is a Drop (with compaction if it was the last) followed by a Copy, and nothing on self-assignment |
| `ObserverLists.Iter.Destroy` | BaseLib/observer_list.h:142-146 | destruction is the Drop event: compaction by the last iterator, then unlinking |
| `ObserverLists.ObserverList.Register` | BaseLib/observer_list_internal.h:129-135 | linking a copied iterator in adds one view and changes no other |
| `ObserverLists.ObserverList.Unregister` | BaseLib/observer_list_internal.h:137-143 | unlinking removes exactly one node and one view |
| `ObserverLists.ObserverList.constructor` | BaseLib/observer_list.h:260-265 | a new list stands for the empty specification state |
| `ObserverLists.ObserverList.HasObserver` | BaseLib/observer_list.h:317-327 | true exactly for registered observers; a null argument is never found although tombstones compare equal to it |
| `ObserverLists.ObserverList.AddObserver` | BaseLib/observer_list.h:286-294 | appending is the Add event: an absent observer is registered last, a present one leaves everything as it is |
| `ObserverLists.ObserverList.RemoveObserver` | BaseLib/observer_list.h:298-314 | erasing without iterators and marking with them are the same Remove event: exactly the registrations of the others are left, in order |
| `ObserverLists.ObserverList.Clear` | BaseLib/observer_list.h:330-340 | clearing, either way, is the Clear event: nothing is left |
| `ObserverLists.ObserverList.BeginPass` | BaseLib/observer_list.h:252-256 | `begin` of an empty list hands out a detached iterator, of any other list an attached one |
| `ObserverLists.ObserverList.Compact` | BaseLib/observer_list.h:348-355 | compaction changes the vector and not the state it stands for |
| `ObserverLists.ObserverList.Destroy` | BaseLib/observer_list.h:267-279 | destroying the list invalidates every live iterator |
| `Quoting.QuoteForCommandLineToArgvW` | BaseLib/command_line.cpp:102-148 | the index loops compute the recursive printer `Quote`; the text is left as it is if and only if it has no blank, backslash or mark and, in placeholder mode, no percent sign, and stands between marks otherwise |
| `Quoting.QuoteShows` | BaseLib/command_line.cpp:106-120 | the same of the recursive printer |
| `Quoting.PrintOne` | BaseLib/command_line.cpp:465-475 | one element: a switch keeps its name bare and gets its value quoted, anything else is quoted whole |
| `Quoting.GetArgumentsString` | BaseLib/command_line.cpp:453-478 | the whole loop computes `Print`: separators, terminator, switches and arguments |
| `Quoting.LexQuote` | BaseLib/command_line.cpp:102-148 | resolving backslashes and marks in a quoted argument gives back the argument, inside one pair of marks |
| `Quoting.LexConcat` | BaseLib/command_line.cpp:104-105 | the documented reading rules can be applied piece by piece wherever no backslash run meets a mark |
| `QuotingRoundTrip.GoodSurvive` | BaseLib/command_line.cpp:453-478 | every well-formed vector tokenises back to itself |
| `QuotingRoundTrip.SurvivorsAreGood` | BaseLib/command_line.cpp:453-478 | nothing else does, once switches with a bare `=` are set aside |
| `QuotingRoundTrip.RoundTrip` | BaseLib/command_line.cpp:102-148 | tokenising the printed arguments gives them back if and only if switch names have no blank or mark, every `=` has a value, arguments are nonempty, and tabs lie in text that gets quoted; in both placeholder modes, both slash settings, and every reading of doubled marks |
| `QuotingRoundTrip.BareEqualsIsLost` | BaseLib/command_line.cpp:465-471 | `--a=` does not survive |
| `Placeholders.PlaceholdersAreSafe` | BaseLib/command_line.cpp:107-110 | of a vector that survives printing with placeholders quoted, every argument stays one argument, with the text put in, whatever is put in for the percent signs, if and only if no switch has a percent sign in its name |
| `Placeholders.FillBody` | BaseLib/command_line.cpp:121-146 | putting text in and escaping can change places, for any text without marks that does not end in a backslash |
| `Placeholders.PercentNameBreaks` | BaseLib/command_line.cpp:465-471 | the name of `--%1` is not quoted and comes apart |
| `Switches.SwitchesAre` | BaseLib/command_line.cpp:37-58 | a switch is a dash with more behind it than one other dash, or, where the slash counts, a slash with something behind it |
| `Switches.SwitchIsPrefixKeyValue` | BaseLib/command_line.cpp:41-66 | it is made of the longest prefix, a key without `=`, and the value behind the first `=` |
| `CommandLines.SwitchTextReads` | BaseLib/command_line.cpp:297-313 | a well-formed name prints as a switch that reads back as the same name, key and value |
| `CommandLines.SwitchTextIs` | BaseLib/command_line.cpp:299-310 | a switch is printed as its name in small letters, behind `--` if it has no prefix of its own, and its value behind `=` if it has one |
| `CommandLines.CaseDoesNotMatter` | BaseLib/command_line.cpp:299-303 | names that differ in case only append and file the same switch |
| `CommandLines.LowerForgetsCase` | BaseLib/command_line.cpp:299 | two names are lowered to the same text if and only if they differ in the case of letters only |
| `CommandLines.TrimTakesBlanks` | BaseLib/command_line.cpp:87 | trimming takes away blanks at both ends and nothing else |
| `CommandLines.AppendSwitchKeepsInv` | BaseLib/command_line.cpp:297-313 | appending a switch keeps `argv_`, `switches_` and `begin_args_` in step if and only if its name is well formed |
| `CommandLines.AppendArgKeepsInv` | BaseLib/command_line.cpp:379-381 | appending an argument always does |
| `CommandLines.RemoveSwitchKeepsInv` | BaseLib/command_line.cpp:320-348 | removing a switch keeps them in step if and only if the view given ends where its text does or nothing is filed under the whole text; the branch marked NOTREACHED is reached if and only if the whole text is filed and the key viewed is not |
| `CommandLines.RemoveSwitchRemovesKey` | BaseLib/command_line.cpp:320-348 | it removes the key from both fields, and nothing else, if and only if the view ends where its text does or neither is filed |
| `CommandLines.WithoutSwitchIs` | BaseLib/command_line.cpp:325-347 | what is left, in order: the filing loses the text up to the first terminator, the switches of `argv` the key viewed, and program and arguments stay |
| `CommandLines.PartOfANameIsRemoved` | BaseLib/command_line.cpp:325-343 | `foo` as a view of `foobar` removes `foobar` from the filing, leaves it in `argv` and reaches the branch marked NOTREACHED |
| `CommandLines.ReadingKeepsInv` | BaseLib/command_line.cpp:82-99 | reading an argument vector keeps the fields in step if and only if every switch read has a key or a value |
| `CommandLines.ParsedIs` | BaseLib/command_line.cpp:82-99 | reading moves the switches, printed anew, ahead of the arguments, and files them by the last value; nothing else moves |
| `CommandLines.BeforeTerminator` | BaseLib/command_line.cpp:82-99 | before a terminator exactly the elements that are switches count as switches, in order |
| `CommandLines.BehindTerminator` | BaseLib/command_line.cpp:91-97 | the first terminator and everything behind it are arguments |
| `CommandLines.InitTwice` | BaseLib/command_line.cpp:241-247 | `InitFromArgv` on a copy of its own resulting vector is a fixpoint if and only if every switch without a value has a key with no blank at its end |
| `CommandLines.OwnVectorIsLost` | BaseLib/command_line.cpp:241-247 | on a reference to its own vector it gives the empty command line, which is what a copy gives if and only if the vector is a blank program alone |
| `CommandLines.AppendingToItselfEnds` | BaseLib/command_line.cpp:82-99 | appending a command line to itself ends if and only if it has nothing to append, since every turn of the loop makes the vector longer |
| `CommandLines.OwnVectorFails` | BaseLib/command_line.cpp:241-247 | a program name is lost, and one argument is appended forever |
| `CommandLines.OtherIsParsed` | BaseLib/command_line.cpp:82-99 | the same loop over another vector computes `Parsed` |
| `CommandLines.BareEqualsIsLost` | BaseLib/command_line.cpp:241-247 | `--=` becomes the terminator when it is read twice |
| `CommandLines.WrapperKeepsInv` | BaseLib/command_line.cpp:390-405 | prepending a wrapper keeps them in step if and only if it is blank, or its other words and the old program are all switches whose keys are filed already |
| `CommandLines.WrapperBreaksInv` | BaseLib/command_line.cpp:401-404 | one word in front of a program that is no switch puts the program among the switches |
| `CommandLines.EditKeepsInv` | BaseLib/command_line.cpp:241-405 | each edit keeps the invariant if and only if the switches it appends are well formed, the key it removes ends where its text does or has no text filed, and the wrapper it prepends moves in nothing new |
| `CommandLines.EditsKeepInv` | BaseLib/command_line.cpp:241-405 | over a run of edits the fields are in step at every moment if and only if each edit is like that at its time |
| `CommandLines.CommandLine.InitFromArgv` | BaseLib/command_line.cpp:241-247 | resets the fields and computes `Init` of a vector that is not its own |
| `CommandLines.CommandLine.InitFromOwnArgv` | BaseLib/command_line.cpp:241-247 | with its own vector, which is read after it has been emptied, computes `InitOwn` |
| `CommandLines.CommandLine.AppendSwitchesAndArguments` | BaseLib/command_line.cpp:82-99 | the loop over another vector computes `Parsed` |
| `CommandLines.CommandLine.AppendSwitchNative` | BaseLib/command_line.cpp:297-313 | lower-cases, files and inserts at `begin_args_`: `WithSwitch` |
| `CommandLines.CommandLine.AppendArgNative` | BaseLib/command_line.cpp:379-381 | pushes at the end: `WithArg` |
| `CommandLines.CommandLine.RemoveSwitch` | BaseLib/command_line.cpp:320-348 | computes `WithoutSwitch`; from a state in step the arguments are untouched and, if the view ends where its text does, the key is gone and the fields are in step |
| `CommandLines.CommandLine.PrependWrapper` | BaseLib/command_line.cpp:390-405 | computes `WithWrapper` from the words of the wrapper |
| `CommandLines.CommandLine.GetArgs` | BaseLib/command_line.cpp:359-368 | the arguments less the first terminator |
| `CommandLines.CommandLine.GetSwitchValueNative` | BaseLib/command_line.cpp:281-286 | the filed value or empty; in a state in step that is the last value among the switches in `argv_` |
| `Values.EqualIsIdentity` | BaseLib/values.cpp:931-970 | `operator==` holds exactly of identical trees |
| `Values.Trichotomy` | BaseLib/values.cpp:976-1014 | neither side is less exactly when the two are equal |
| `Values.Transitive` | BaseLib/values.cpp:976-1014 | `operator<` is transitive over all nested lists and dictionaries |
| `Values.LessIsStrictTotalOrder` | BaseLib/values.cpp:931-1014 | `operator<` is a strict total order, with the equivalence `operator==` as its equality |
| `Values.ScalarOrder` | BaseLib/values.cpp:976-992 | values of different types are ordered by type, scalars of one type by their usual order, texts by the first byte that differs |
| `Values.TypeOrder` | BaseLib/values.cpp:977-978 | the order of the types |
| `Values.ListsAreLexicographic` | BaseLib/values.cpp:1004-1005 | the first item that differs decides, and a list comes after its own beginnings |
| `Values.DictionariesAreLexicographic` | BaseLib/values.cpp:995-1003 | the first pair that differs decides, by its key, or by its value where the keys are the same |
| `ValuePaths.SetThenFind` | BaseLib/values.cpp:1129-1158 | after a successful set the path finds the value |
| `ValuePaths.SetFailsExactly` | BaseLib/values.cpp:1138-1156 | a set fails if and only if the path runs through something that is no dictionary |
| `ValuePaths.SetLeavesApart` | BaseLib/values.cpp:1129-1158 | paths not prefix-comparable with it keep their values |
| `ValuePaths.ExtractTakesWhatFindFinds` | BaseLib/values.cpp:662-682 | extracting gives what finding finds, and leaves nothing there |
| `ValuePaths.ExtractLeavesApart` | BaseLib/values.cpp:662-682 | and leaves everything apart as it was, pruning included |
| `ValuePaths.ExtractKeepsKind` | BaseLib/values.cpp:663-675 | a failed extract leaves the whole tree unchanged |
| `ValuePaths.SetThenExtract` | BaseLib/values.cpp:662-682 | extracting a value just set on an absent path gives it back, and gives the original tree back if and only if no dictionary on the way was empty |
| `ValuePaths.EmptyDictionaryIsPruned` | BaseLib/values.cpp:677-679 | a tree with an empty dictionary that setting and extracting does not restore |
| `ValueTrees.DottedExtracts` | BaseLib/values.cpp:662-682 | `ExtractPath` on dotted text agrees with extraction by components, except that it rejects the empty path and paths ending in a dot |
| `ValueTrees.ExtractAgreesWithFind` | BaseLib/values.cpp:543-552 | so on all other paths it returns what `FindPath` returns |
| `ValueTrees.TrailingDotIsFoundOnly` | BaseLib/values.cpp:662-671 | a path ending in a dot that is found and not extracted |
| `ValueTrees.PathSplitter.Next` | BaseLib/values.cpp:109-122 | delivers the next component and advances past its dot |
| `ValueTrees.PathSplitter.HasNext` | BaseLib/values.cpp:107 | true exactly when components are left; a trailing empty one is dropped |
| `ValueTrees.ComponentsJoin` | BaseLib/values.cpp:107-122 | the components have no dot in them, and put together with dots they are the path, but for a dot at its end |
| `ValueTrees.ValueTree.FindPath` | BaseLib/values.cpp:543-552 | the loop computes `FindAt` on the components |
| `ValueTrees.ValueTree.SetPath` | BaseLib/values.cpp:1129-1158 | the loop computes `SetAt`, and a failed set leaves the tree unchanged |
| `ValueTrees.ValueTree.ExtractPath` | BaseLib/values.cpp:662-682 | takes what `FindPath` finds, prunes emptied dictionaries, and changes nothing when it fails |
| `ValueMerge.FindMerge` | BaseLib/values.cpp:810-828 | what each key holds after a merge |
| `ValueMerge.ShadowsIsPrefix` | BaseLib/values.cpp:825-826 | a path is shadowed exactly when some prefix of it resolves in the argument to no dictionary |
| `ValueMerge.MergeAt` | BaseLib/values.cpp:810-828 | where every path leads after a merge: shadowed paths where the argument says, all others to the merge of the two sides |
| `ValueMerge.MergeSelf` | BaseLib/values.cpp:810-828 | merging a dictionary into itself changes nothing |
| `ValueMerge.MergeIsIdempotent` | BaseLib/values.cpp:810-828 | merging the same dictionary a second time changes nothing |
| `ValueMerge.MergeDictionary` | BaseLib/values.cpp:810-828 | the loop computes `Merge` |
| `ValueMerge.StripKeepsLeaves` | BaseLib/values.cpp:78-90 | the stripped copy has no empty list or dictionary and the same scalars in the same order under the same keys; there is none exactly when there are no scalars |
| `ValueMerge.FullIsKept` | BaseLib/values.cpp:78-90 | a tree with nothing empty in it is its own copy |
| `ValueMerge.CopyWithoutEmptyChildren` | BaseLib/values.cpp:1555-1562 | nothing empty below the root, every scalar kept in order, and copying the copy gives the copy |
| `ValueMerge.CopyNode` | BaseLib/values.cpp:78-90 | dispatching on the kind computes `Strip` |
| `ValueMerge.CopyList` | BaseLib/values.cpp:53-62 | the loop over a list computes the stripped list |
| `ValueMerge.CopyDictionary` | BaseLib/values.cpp:64-76 | the loop over a dictionary computes the stripped dictionary |
| `Bits.PowersHaveOneBit` | BaseLib/bits.h:28-30 | the test accepts exactly the powers of two |
| `Bits.AlignFits` | BaseLib/bits.h:33-36 | adding and masking gives, for every power of two, the smallest multiple from the size on, exactly when the sum does not wrap |
| `Bits.AlignDownFits` | BaseLib/bits.h:39-42 | masking gives the largest multiple up to the size |
| `Bits.AlignIsRounding` | BaseLib/bits.h:33-36 | at 4, 64 and 4096 the masks do what the rounding functions of the pickle model do, below the wrap |
| `Bits.SplitCounts` | BaseLib/bits.h:81-89 | counting leading zeros half by half gives the count of the whole 64-bit word |
| `Bits.Log2FloorIs` | BaseLib/bits.h:145-147 | the integer i with 2^i <= n < 2^(i+1); -1 for zero |
| `Bits.Log2CeilingIs` | BaseLib/bits.h:150-155 | the integer i with 2^(i-1) < n <= 2^i; -1 for zero, by wrapping around |
| `PickleFormat.ReadEncoded` | BaseLib/pickle.cpp:82-206 | a value of any type reads back whatever follows it, and the reader stops right behind it |
| `PickleFormat.RoundTrip` | BaseLib/pickle.cpp:289-307 | any sequence of writes, read with the matching reads, gives the same values and stops where the writes stopped |
| `PickleFormat.EncodingIsInjective` | BaseLib/pickle.cpp:289-307 | different values of the same types have different bytes |
| `PickleFormat.EncodeOneMore` | BaseLib/pickle.cpp:425-431 | writing one more value appends its encoding |
| `PickleFormat.Layout` | BaseLib/pickle.cpp:425-431 | the bytes: numbers low byte first, short ones and strings padded with zeros, a string behind its length |
| `PickleFormat.Sizes` | BaseLib/pickle.cpp:82-130 | the range of each type, and the bytes its reader takes |
| `PickleFormat.ReadsPlain` | BaseLib/pickle.cpp:29-80 | a value of known size reads if and only if its bytes are there, and leaves what follows its padding |
| `PickleFormat.ReadsCounted` | BaseLib/pickle.cpp:132-206 | a string reads if and only if its length is there, is not negative, counts as an int in bytes, and so many bytes follow |
| `PickleFormat.MakeWrites` | BaseLib/pickle.cpp:29-40 | the bytes a number is read from are those it is written as, and every number read is in range |
| `PickleFormat.FailureExhausts` | BaseLib/pickle.cpp:41-80 | a failed read uses up the payload, except exactly when the byte count of a wide string overflows or is negative |
| `PickleFormat.NothingAtEnd` | BaseLib/pickle.cpp:54-70 | at the end of a payload every read fails but that of no bytes at all (and from a null payload that one too, see `PickleIterators.PickleIterator.Read`) |
| `PickleFormat.ReadsOnAfterFailure` | BaseLib/pickle.cpp:72-80 | a concrete payload where reading goes on after a failure |
| `PickleFormat.WrapRecovers` | BaseLib/pickle.cpp:236-253 | wrapping header and payload as a read-only pickle recovers the header size and the payload if and only if they have less than 2 to the 32 bytes together, and gives a null payload otherwise |
| `PickleFormat.WrapAccepts` | BaseLib/pickle.cpp:236-253 | over all data: it is accepted if and only if its header promises fewer bytes than there are, leaving whole words not longer than the data size cut to 32 bits; the payload is then the last bytes, as many as promised |
| `PickleFormat.ShortDataIsRefused` | BaseLib/pickle.cpp:241-252 | data whose header promises 12 bytes where 4 are there is refused |
| `PickleFormat.FindNextFindsEnd` | BaseLib/pickle.cpp:356-390 | the end of a pickle is found whatever follows it, and not before all of it is there |
| `Pickles.GrownBounds` | BaseLib/pickle.cpp:408-416 | growth is geometric and never past twice the need plus a page |
| `Pickles.GrownByDoubling` | BaseLib/pickle.cpp:408-415 | when doubling is enough the capacity is doubled exactly up to a page, and beyond it goes to whole pages less one unit |
| `Pickles.WrapReads` | BaseLib/pickle.cpp:236-253 | a header and the encoding of some values, wrapped again, read back as those values below 2 to the 32 bytes, and are refused from there on |
| `Pickles.FullPickleIsRefused` | BaseLib/pickle.cpp:244-245 | three values that fill a payload of 2 to the 32 less 4 bytes are refused behind a header of 4 |
| `Pickles.Pickle.constructor` | BaseLib/pickle.cpp:214-223 | a new pickle has 64 bytes of capacity and an empty payload |
| `Pickles.Pickle.WithHeader` | BaseLib/pickle.cpp:225-234 | the header size is rounded up to a multiple of four |
| `Pickles.Pickle.Copy` | BaseLib/pickle.cpp:255-262 | a copy has the same header, the same payload and a capacity that fits it |
| `Pickles.Pickle.Assign` | BaseLib/pickle.cpp:269-287 | assignment does the same into a fresh buffer, and changes nothing on self-assignment; allocations are counted anew from there |
| `Pickles.Pickle.Resize` | BaseLib/pickle.cpp:334-340 | the capacity is rounded up to a multiple of 64 and what fits of the contents stays |
| `Pickles.Pickle.Reserve` | BaseLib/pickle.cpp:309-320 | room for the bytes, the payload unchanged |
| `Pickles.Pickle.ClaimUninitializedBytesInternal` | BaseLib/pickle.cpp:400-423 | room is made, the padding cleared, the header updated, everything before unchanged; offsets stay multiples of four within the capacity |
| `Pickles.Pickle.WriteBytesCommon` | BaseLib/pickle.cpp:425-431 | the payload grows by exactly the bytes and their zero padding |
| `Pickles.Pickle.WriteItem` | BaseLib/pickle.cpp:289-307 | every typed write appends the canonical encoding of its value |
| `Pickles.Pickle.Write` | BaseLib/pickle.cpp:400-431 | over any run of writes the payload is the encoding of what was written, the header holds its size, and all allocations together are at most three times the last one |
| `Pickles.Pickle.ClaimBytes` | BaseLib/pickle.cpp:342-347 | claiming bytes writes zeros |
| `Pickles.Pickle.Data` | BaseLib/pickle.h:166-169 | `data()` wrapped as a read-only pickle reads back as exactly the values written when there are less than 2 to the 32 bytes, and is refused otherwise |
| `PickleIterators.PickleIterator.Advance` | BaseLib/pickle.cpp:41-48 | moves on by the padded size, but never past the end |
| `PickleIterators.PickleIterator.GetReadPointerAndAdvance` | BaseLib/pickle.cpp:61-70 | gives the bytes and moves on, or gives nothing and moves to the end; negative sizes are refused, and a null payload gives not even no bytes |
| `PickleIterators.PickleIterator.ReadCounted` | BaseLib/pickle.cpp:142-200 | a length and that many bytes or code units, with the overflow check that does not move the index |
| `PickleIterators.PickleIterator.Read` | BaseLib/pickle.cpp:82-206 | every typed reader gives, and leaves, what the format says; from a null payload it gives nothing |
| `PickleIterators.PickleIterator.ReadLength` | BaseLib/pickle.h:65-67 | refuses a negative length, which has been read past all the same |
| `PickleIterators.PickleIterator.SkipBytes` | BaseLib/pickle.h:71-73 | succeeds exactly when that many bytes are there and the payload is not null |
| `LazyInstances.StepKeepsInv` | BaseLib/lazy_instance_helpers.h:57-94 | every atomic step of every thread keeps the protocol invariant: a word in state 1 has exactly one holder, a pointer was built before it was published |
| `LazyInstances.RunKeepsInv` | BaseLib/lazy_instance_helpers.cpp:13-59 | so does every interleaving of any number of threads |
| `LazyInstances.CreatedOnce` | BaseLib/lazy_instance_helpers.h:57-94 | in each generation the creator runs at most once, all calls that return give the one pointer it built, and its destructor is registered and run at most once |
| `LazyInstances.WordMoves` | BaseLib/lazy_instance_helpers.cpp:13-59 | the state word only goes from 0 to 1 to a pointer, and back to 0 only at exit |
| `LazyInstances.HolderFinishes` | BaseLib/lazy_instance_helpers.cpp:47-59 | a state of 1 always has a creating thread that publishes a pointer in at most two of its own steps |
| `LazyProgress.WaitersReturn` | BaseLib/lazy_instance_helpers.cpp:29-44 | however threads interleave, a call for which the pointer is there takes at most four more steps of its own thread, each of which counts, and returns that pointer |
| `LazyProgress.WaiterAlone` | BaseLib/lazy_instance_helpers.h:76-93 | its thread alone takes it there, returning the pointer and nothing else |
| `LazyProgress.EveryCallCanReturn` | BaseLib/lazy_instance_helpers.h:66-93 | from every state that can come about every call under way can be brought to its end |
| `LazyInstances.ExitDestroys` | BaseLib/at_exit.cpp:93-97 | processing the stack destroys each registered instance once, last registered first, and zeroes its word |
| `LazyInstances.ExitCleansUp` | BaseLib/lazy_instance.h:192-196 | with no call under way exactly the created non-leaky instances are registered, and exit destroys each once and leaves its word 0 |
| `LazyInstances.CallsReturnPointers` | BaseLib/lazy_instance_helpers.h:76-93 | all calls in all runs return pointers if and only if every creator result is a pointer other than 0 and 1 |
| `LazyInstances.CreatedOnceExactly` | BaseLib/lazy_instance_helpers.cpp:13-21 | in all runs every instance is created at most once in a generation if and only if no creator returns 0 |
| `LazyInstances.ZeroCreatesTwice` | BaseLib/lazy_instance_helpers.cpp:54 | a creator that returns 0: the second call creates the instance again |
| `LazyInstances.AttendedExactly` | BaseLib/lazy_instance_helpers.cpp:29-41 | in all runs a word being created has a thread that creates it if and only if no creator returns 1 |
| `LazyInstances.OneLeavesStuck` | BaseLib/lazy_instance_helpers.cpp:54 | a creator that returns 1 leaves the word at 1 with no thread in any call |
| `LazyInstances.StuckStaysStuck` | BaseLib/lazy_instance_helpers.cpp:29-41 | and short of exit no step of any thread changes it again |
| `LazyInstances.LoneCallReturns` | BaseLib/lazy_instance_helpers.h:81-84 | a call that creates returns whatever its creator gave, a pointer or not |
| `AtExit.ReversedIsLifo` | BaseLib/at_exit.cpp:93-97 | the k-th callback to run is the k-th from the top, and none is left out or run twice |
| `AtExit.AtExitManagers.PushManager` | BaseLib/at_exit.cpp:113-117 | a new manager shadows the one there was, with an empty stack |
| `AtExit.AtExitManagers.RegisterTask` | BaseLib/at_exit.cpp:59-71 | pushes onto the top manager, or does nothing without one |
| `AtExit.AtExitManagers.ProcessCallbacksNow` | BaseLib/at_exit.cpp:74-105 | swaps the stack out and runs it last in, first out; what the callbacks register waits on the fresh stack |
| `AtExit.AtExitManagers.DisableAllAtExitManagers` | BaseLib/at_exit.cpp:107-111 | sets the flag that makes dropping a manager run nothing; no other method resets it |
| `AtExit.AtExitManagers.PopManager` | BaseLib/at_exit.cpp:38-49 | runs the callbacks unless disabled and uncovers the next manager; every callback ever registered has run, waits, or was dropped with its manager |
| `PathServices.PathService.Get` | BaseLib/path_service.cpp:106-156 | the result is what resolving without the cache gives, every cached entry stays so, and an answer is cached unless the cache is disabled; the recursion ends by the rank of the key |
| `PathServices.PathService.Ask` | BaseLib/path_service.cpp:133-138 | a provider that asks through `Get` gets the uncached answers |
| `PathServices.PathService.OverrideAndCreateIfNeeded` | BaseLib/path_service.cpp:166-199 | an override takes effect at once, exactly when the directory and the absolute path can be had; otherwise nothing changes |
| `PathServices.PathService.RemoveOverride` | BaseLib/path_service.cpp:202-217 | removes the override and the cached entries that could depend on it |
| `PathServices.PathService.RegisterProvider` | BaseLib/path_service.cpp:220-248 | the new provider comes first and the cache is kept; it stays right exactly when every entry still resolves, as it does when ranges are disjoint and no key outside the new range asks for one inside it |
| `PathServices.RegisteringIsSafeExactly` | BaseLib/path_service.cpp:220-248 | with disjoint ranges: every coherent cache stays coherent, for every new provider of the range and whatever the older ones make of their answers, if and only if no key outside the range asks for one inside it |
| `PathServices.PathService.DisableCache` | BaseLib/path_service.cpp:251-258 | empties the cache for good |
| `PathServices.AlikeResolve` | BaseLib/path_service.cpp:106-156 | keys whose answers depend on no others resolve alike in two setups that look alike to them |
| `PathServices.OverridesComeFirst` | BaseLib/path_service.cpp:112-129 | nobody is asked for the current directory or for an overridden key |
| `PathServices.FirstAnswerDecides` | BaseLib/path_service.cpp:131-150 | the first provider with an answer decides; an empty path is none, and one with a parent reference is made absolute |
| `PathServices.NoAnswerIsNone` | BaseLib/path_service.cpp:131-141 | without any answer there is none |
| `PathServices.CurrentDirectoryIsApart` | BaseLib/path_service.cpp:112-114 | no other key depends on the current directory unless a provider asks for it, so everything else may be cached |
| `PathServices.OverrideIsLocal` | BaseLib/path_service.cpp:193-196 | an override changes no key that does not depend on the overridden one |
| `PathServices.NewcomerIsApart` | BaseLib/path_service.cpp:235-247 | under that condition a new provider changes no answer there was |
| `PathServices.RegisteringCanOutdate` | BaseLib/path_service.cpp:235-247 | a provider that asks for a key nobody answered yet leaves a stale entry once somebody does |
| `PathServices.NoParents` | BaseLib/path_service.cpp:143-148 | no path given out refers to a parent directory if and only if no override does |
| `PathServices.OverrideCanReferToParent` | BaseLib/path_service.cpp:187-197 | an absolute override with a parent reference is given out as it is |
| `PathServices.BuiltInsAreRanked` | BaseLib/base_paths.cpp:13-50 | the two providers there are from the start ask in no circle |
| `PathServices.BuiltInsIgnoreCurrent` | BaseLib/base_paths_win.cpp:122-174 | and never for the current directory |
| `PathServices.BaseKeys` | BaseLib/base_paths.cpp:16-46 | what the keys derived from other keys give: directories of the executable and the module, assets, test data |
| `PathServices.WinKeys` | BaseLib/base_paths_win.cpp:122-174 | the source root two levels above the directory of the executable, and the places of shortcuts below the application data |
| `PathServices.SystemKeys` | BaseLib/base_paths_win.cpp:35-120 | the keys asked of the system, and the keys that nobody knows |
| `RunLoopSpec.StepKeepsStacked` | BaseLib/run_loop.cpp:305-356 | after every step the stack holds the running loops, each once, and the one being entered; nobody was told to quit unasked |
| `RunLoopSpec.StepKeepsDelivered` | BaseLib/run_loop.cpp:167-184 | "the innermost loop was told to quit if and only if somebody quit it" is kept by exactly those steps in which no observer quits the loop being entered |
| `RunLoopSpec.RunKeepsDelivered` | BaseLib/run_loop.cpp:305-356 | so it holds over every run of nested loops with such observers |
| `RunLoopSpec.DeliveredExactly` | BaseLib/run_loop.cpp:167-184 | it holds at every moment of a run if and only if no observer of the run quits the loop being entered |
| `RunLoopSpec.Withheld` | BaseLib/run_loop.cpp:179-183 | while a loop is buried, nothing changes what its level was told |
| `RunLoopSpec.QuitIsDelivered` | BaseLib/run_loop.cpp:347-355 | once the loops above a quit loop have left, its level has been told to quit |
| `RunLoopSpec.QuitWhileEnteringIsLost` | BaseLib/run_loop.cpp:325-334 | inside any running loop, one that an observer quits while it is entered runs without being told |
| `RunLoopSpec.LostFromTheStart` | BaseLib/run_loop.cpp:325-334 | such a run from the start: two nested loops |
| `RunLoopNesting.NestingBalances` | BaseLib/run_loop.cpp:305-356 | a run that leaves the loops it enters, and no others, gives back the stack and the running loops, and tells the levels there were nothing but a quit of the innermost one |
| `RunLoopNesting.EnterAndLeave` | BaseLib/run_loop.cpp:305-356 | a loop that is entered, runs and leaves changes nothing but the quit that was deferred for the loop it was in |
| `RunLoopNesting.HeightIs` | BaseLib/run_loop.cpp:322-345 | the stack is as high as loops were entered and not yet left |
| `RunLoopNesting.RunsAreRecorded` | BaseLib/run_loop.cpp:179 | over every run a loop counts as quit if and only if it was quit, and as run if and only if it was entered, even in vain |
| `RunLoopNesting.QuitBeforeRun` | BaseLib/run_loop.cpp:317-319 | a loop that was quit before it is entered does not run |
| `RunLoopNesting.QuitInRunIsDelivered` | BaseLib/run_loop.cpp:179-183 | a loop quit in a run, and innermost at its end, has been told |
| `RunLoops.RunLoop.BeginBeforeRun` | BaseLib/run_loop.cpp:305-328 | the first half of entering: a loop quit before it ran does not run |
| `RunLoops.RunLoop.FinishBeforeRun` | BaseLib/run_loop.cpp:334-335 | the second half: the loop is running |
| `RunLoops.RunLoop.BeginAfterRun` | BaseLib/run_loop.cpp:338-345 | the first half of leaving: the loop is off the stack and not running |
| `RunLoops.RunLoop.FinishAfterRun` | BaseLib/run_loop.cpp:348-355 | the second half: a deferred quit is executed |
| `RunLoops.RunLoop.Quit` | BaseLib/run_loop.cpp:167-184 | quits now if innermost and running, and is remembered otherwise |
| `RunLoops.RunLoop.QuitWhenIdle` | BaseLib/run_loop.cpp:186-199 | what the delegate is told about quitting when idle changes only for the innermost loop, and nothing else changes |
| `NotifierSpec.SlotIsRestored` | BaseLib/observer_list_threadsafe.h:221-232 | whatever runs in between, once the dispatches of a thread are those there were, its notification slot is what it was |
| `NotifierSpec.RunKeepsNested` | BaseLib/observer_list_threadsafe.h:216-232 | over every run the slot points to the innermost dispatch of its thread, of whatever sequence or list |
| `NotifierLaws.NestingRestoresSlot` | BaseLib/observer_list_threadsafe.h:216-232 | a run that finishes the dispatches it begins on a thread, and no others, leaves the slot of the thread as it was |
| `NotifierLaws.DispatchesCount` | BaseLib/observer_list_threadsafe.h:216-232 | the dispatches in progress on a thread are those begun and not finished |
| `NotifierLaws.TaskRuns` | BaseLib/observer_list_threadsafe.h:203-228 | a task of a registered observer calls it once with the slot pointing to its notification; one of a gone observer is dropped |
| `NotifierLaws.OtherListsAreApart` | BaseLib/observer_list_threadsafe.h:126-135 | an observer added while the thread dispatches for another list is not caught up |
| `NotifierLaws.IdleThreadsAreApart` | BaseLib/observer_list_threadsafe.h:131-135 | nor one added while it dispatches nothing |
| `NotifierLaws.RegisteredExactly` | BaseLib/observer_list_threadsafe.h:111-154 | over every run an observer is registered, on the sequence of its last addition, if and only if no removal came after that |
| `NotifierSpec.CountStep` | BaseLib/observer_list_threadsafe.h:170-183 | only notifying and catching up add to what an observer gets of a notification; a dropped task takes its share away |
| `NotifierSpec.Account` | BaseLib/observer_list_threadsafe.h:111-213 | the account over any run: calls made and to come are the notifications sent while registered and those caught up with when added, less the tasks that found the observer gone |
| `NotifierSpec.NotifiedOnce` | BaseLib/observer_list_threadsafe.h:170-213 | an observer registered from a Notify until its task runs is called for it exactly once, on its own sequence, under any interleaving |
| `NotifierSpec.AddedMeanwhileOnce` | BaseLib/observer_list_threadsafe.h:126-142 | one first added, from any sequence, on a thread that dispatches a notification of this list gets it exactly once under ALL if it stays registered |
| `NotifierSpec.AddedMeanwhileNever` | BaseLib/observer_list_threadsafe.h:131 | under the other policy it never does |
| `NotifierSpec.RemovedIsLeftAlone` | BaseLib/observer_list_threadsafe.h:206-214 | tasks that run after removal without adding again call nothing |
| `NotifierSpec.AtMostOnceExactly` | BaseLib/observer_list_threadsafe.h:126-142 | in all runs every observer is called at most once for a notification sent once, if and only if the policy is not ALL |
| `NotifierSpec.ReaddedIsCalledTwice` | BaseLib/observer_list_threadsafe.h:131-142 | the run in which it is called twice: it takes itself off the list and puts itself back on in its own callback |
| `ThreadSafeLists.ObserverListThreadSafe.AddObserver` | BaseLib/observer_list_threadsafe.h:111-143 | is the Add step; outside any sequence nothing happens |
| `ThreadSafeLists.ObserverListThreadSafe.RemoveObserver` | BaseLib/observer_list_threadsafe.h:150-154 | is the Remove step |
| `ThreadSafeLists.ObserverListThreadSafe.Notify` | BaseLib/observer_list_threadsafe.h:170-183 | the loop posts exactly one task per registered observer, to its sequence |
| `ThreadSafeLists.ObserverListThreadSafe.BeginNotifyWrapper` | BaseLib/observer_list_threadsafe.h:203-228 | is the Start step: a gone observer is not called, and the slot is set |
| `ThreadSafeLists.ObserverListThreadSafe.FinishNotifyWrapper` | BaseLib/observer_list_threadsafe.h:230-232 | is the Finish step: the slot gets its previous value back |
| `Vlog.MatchesIsGlobs` | BaseLib/vlog.cpp:122-175 | matching character by character is the declarative relation: the string falls into one piece per pattern character, any run for a star, one matching character otherwise |
| `Vlog.StarsCoalesce` | BaseLib/vlog.cpp:153-157 | skipping a further star loses no match |
| `Vlog.MatchVlogPattern` | BaseLib/vlog.cpp:122-175 | the prefix loop, the star loop and the retry on every nonempty suffix terminate and match exactly the declarative relation |
| `Vlog.FirstMatch` | BaseLib/vlog.cpp:104-108 | the first pattern that matches decides, one with a slash against the file and any other against the module |
| `Vlog.GetVlogLevel` | BaseLib/vlog.cpp:101-111 | the level of a file; it throws if and only if there are patterns and the module name, before the suffix is cut off, has fewer than four characters |
| `Vlog.ShortModuleThrows` | BaseLib/vlog.cpp:89-92 | `a.cc` has a module name too short for the suffix |
| `Vlog.SuffixIsCut` | BaseLib/vlog.cpp:88-96 | `-inl` at the end of a name is cut off |
| `Vlog.OthersAreKept` | BaseLib/vlog.cpp:88-96 | any other name of four characters or more is the module itself |
| `Versions.CompareVersionComponents` | BaseLib/version.cpp:53-74 | decides by the first difference of the zero-padded numbers, and gives 0 exactly when there is none |
| `Versions.Transitive` | BaseLib/version.cpp:53-74 | the order is transitive, ties included |
| `Versions.ComparisonIsTotalPreorder` | BaseLib/version.cpp:53-74 | exactly one of smaller, same and greater holds, and not-greater is transitive |
| `Versions.CompareToWildcard` | BaseLib/version.cpp:120-143 | gives 0 exactly when the wildcard numbers are a prefix of the zero-padded version, and otherwise the order |
| `Versions.CompareToWildcardString` | BaseLib/version.cpp:109-144 | the same from the text, with and without a wildcard |
| `Versions.StringToUint` | BaseLib/strings/string_number_conversions.cpp:174-220 | accepts exactly the digit strings whose value fits 32 bits, by checking before each multiplication |
| `Versions.ParseVersionNumbers` | BaseLib/version.cpp:23-48 | accepts exactly numbers between dots whose first has no leading zero |
| `Versions.ParsesExactly` | BaseLib/version.cpp:23-48 | text between dots parses if and only if each piece is digits, not empty and of 32 bits, and the first has no zero in front; the numbers are those of the pieces |
| `Versions.GetString` | BaseLib/version.cpp:152-162 | the loop prints the numbers with dots between them |
| `Versions.ParsePrinted` | BaseLib/version.cpp:152-162 | parsing what was printed gives the version back |
| `Versions.PrintParsed` | BaseLib/version.cpp:38-40 | printing what was parsed gives the text back if and only if no number in it has a leading zero |
| `Versions.LeadingZeroIsLost` | BaseLib/version.cpp:38-40 | `1.01` parses and prints as something else |
| `RandUtil.Uniform` | BaseLib/rand_util.cpp:56-67 | among the accepted words every residue occurs equally often |
| `RandUtil.HalfAccepted` | BaseLib/rand_util.cpp:60-65 | at least half of all words are accepted, and more than half if and only if the range is not 2 to the 63 |
| `RandUtil.RandGenerator` | BaseLib/rand_util.cpp:54-68 | the first accepted draw decides |
| `RandUtil.RangeIsExact` | BaseLib/rand_util.cpp:26 | the wrapping computation of the range is exactly max - min + 1 |
| `RandUtil.ResiduesCover` | BaseLib/rand_util.cpp:26-29 | every integer between the bounds comes from a residue, as often as any other |
| `RandUtil.RandInt` | BaseLib/rand_util.cpp:23-33 | the lower bound plus the residue of the first accepted draw, all earlier ones being rejected, and within the bounds |

## Left out

- Observer list: the linked list of iterator nodes is a sequence; node pointers, and the adapter for
  checked observers with weak pointers, are not modelled. Sequence checks are not modelled.
- ValueTrees.ValueTree.SetPath: the source writes through a pointer into the tree; the model keeps a
  function that puts the changed part back, so aliasing between a tree and pointers into it is not shown.
- ValueTrees.ValueTree.ExtractPath, ValueMerge.MergeDictionary: work on values and assign the result,
  for the same reason. Copies and moves of values are the same thing here.
- Values: doubles are finite reals, so that minus zero is zero; strings are sequences of characters
  compared by code.
- `DictionaryValue::Set` and the deprecated getters and setters: they overwrite what is no dictionary,
  or repeat what is proved.
- Command line: conversions between narrow and wide text are the identity, lower-casing is of ASCII,
  and trimming is of the code units in `kWhitespaceUTF16`. The program name in front of the arguments
  (`GetCommandLineStringInternal`) is not printed, since it is read by other rules.
  The splitting of a wrapper into words is not modelled.
- CommandLines.CommandLine.RemoveSwitch: a terminator follows the text that is viewed into; without
  one the source reads on beyond it.
- CommandLines.CommandLine.AppendSwitchesAndArguments: the vector is a copy, so the method is the loop
  over another vector; the loop over the own one, which may not end, is `ReadOwn`.
- PickleFormat.FindNextFindsEnd: sizes are not bounded by 2 to the 64, so the clamped addition of a
  header size is plain addition.
- Pickles.Pickle.Write: floating-point values are their byte images and wide strings the images of
  their code units; `long` is the 64-bit integer. Attachments and writing to a copy of a read-only
  pickle are not modelled.
- PickleIterators.PickleIterator.ReadCounted: sizes are those of a 64-bit target; where they are 32 bits
  wide a negative length of a wide string is not caught by the overflow check and moves to the end.
- Bits: counting trailing zeros, and words of other widths than 32 and 64 bits.
- LazyInstances: steps are sequentially consistent; memory ordering, yielding and sleeping in the
  spin loop, and thread restrictions are not modelled.
- AtExit: a callback is data, the callbacks it registers in turn; locks and debug checks are not
  modelled.
- PathServices.PathService.Get: calls are serialised; a provider asks for a list of keys that is fixed
  for the key, not one chosen by earlier answers. System paths, the existence of files and operations
  on paths are parameters that do not change, except for the current directory.
- RunLoops: what the delegate runs, whether application tasks are among it, when it is idle, timeouts
  and posting a quit from another thread are not modelled; a posted quit is a quit at the time it runs.
- NotifierSpec: tasks run in any order and on any thread, not first in, first out and one at a time
  for each sequence; the callback itself is not modelled but for the steps it may take.
- Vlog: parsing of the switches that set the levels.
- RandUtil.RandGenerator: the words drawn are given as a list, which may run out; random bytes, the
  unit interval and random strings are not modelled.
- Feature lists, bindings and callbacks, base64, logging, tracing, files and the registry.
