# Component Registry: a verified model

The Component Registry (CR) of an RDK-B gateway keeps the list of software components that a device profile announces, hears from
each of them when it starts, and tells the rest of the system when everybody is there. This project models three of its parts in
Dafny and proves what they promise.

**Registration over rbus** (`Rbus*.dfy`; `source/CrSsp/ssp_rbus.c`). Any number of registration calls run concurrently with the
thread that opens the bus, the thread that waits for SystemReady on a condition variable, and one polling thread per component
with dependencies. `RbusProtocol` is the step system, one shared-memory action per step, and one poller step per dependency
looked up; `RbusInvariant` proves what every step keeps, `RbusSafety` and `RbusProgress` the results about runs: no lost wakeup, one publication at most and only when it is
due, a sound lock-free dependency scan, a bounded number of steps until publication, and exact conditions for readiness to be
reachable and for its publication to be missed. `RbusSchedules` follows one thread's work through arbitrary schedules: the
locked part of a registration, a poller's pass, and when a component with dependencies can become ready. `RbusPollers` is about the
polling threads over whole runs and repeated registrations. `RbusHandlers` holds the same loops as methods on an object, for one thread.

**Data-model export** (`Dm*.dfy`; `source/CCSP_CR/ccsp_cr_exportDM.c`). The registered parameter names are split at dots,
instance placeholders are folded into types in place, each name is inserted into a tree of nodes with fixed arrays of children,
and the tree is printed and freed in one recursive pass whose loops run on a counter that the recursive calls decrement.
`DmNameList`, `DmExport`, `DmWriter` and `DmPipeline` are methods on heap objects. They are proved against values:
`DmNames` (normalisation), `DmTree` and `DmBuild` (the tree and its set of paths), `DmXml` (the stream and a reader for it),
`DmNaming` (names to exported paths and types). `DmExamples` works the export out on literal names. `DmHeap` relates heap and value. `DmQuirks` gives concrete inputs on which the export
departs from what it does for well-named parameters.

**The legacy D-Bus manager** (`Legacy*.dfy`; `source/CCSP_CR/ccsp_cr_operation.c`, `ccsp_cr_utility.c`, `ccsp_cr_profile.c`,
`ccsp_cr_session.c`, and one callback in `source/CrSsp/ssp_dbus.c`). `LegacyLookup` is the name matching, `LegacyRegistry` the
status machine with its readiness scan over whole runs, `LegacyManager` the same as an object with a queue of component objects,
`LegacySession` the session lock.

## Findings

Places where the code does not do what its documentation or its shape suggests. Each is kept as the code has it; the named lemmas
give the exact condition or an input.

- SystemReady can be lost (`RbusProgress.WaiterCanQuitIff`): the flag `g_waitThreadStarted` is set after the waiting thread is
  created (`source/CrSsp/ssp_rbus.c:826-828`), without the mutex. A waiter that tests it first quits for good. This can happen
  exactly when the profile lists an entry that CR's own registration does not set; `QuitsOnlyBeforeStarted` and `PublishableIff` say that it is
  the only obstacle.
- A component without dependencies is `ready` slightly before it is `registered` (`RbusSafety.ReadyVersusRegistered`,
  `ReadyBeforeRegistered`), because the two writes come in that order.
- Lookup is by substring, first entry wins. A profile in which some entry's name contains an earlier one's can never become ready
  (`RbusProgress.SystemReadyReachableIff`).
- An inserted segment equal to the segment before it is taken to be in place already. The exported paths are the expected ones
  exactly when no name repeats a segment just where it leaves the earlier names (`DmNaming.ExportExactIff`,
  `DmBuild.BuildExactIff`, `DmQuirks.RepeatedSegmentExample`).
- Of two placeholders in a row the second survives normalisation (`DmNames.MarkIntendedIff` says exactly when the pass does what
  it should; `DmQuirks.AdjacentPlaceholdersSurvive` is an input). A placeholder starts with a digit from 1 to 8 or holds a brace;
  0 and 9 do not count (`source/CCSP_CR/ccsp_cr_exportDM.c:265`; `DmNames.MarkDropsInstance`, `DmNames.MarkKeepsOrdinary`,
  `DmExamples.ZeroAndNineStay`).
- Where the insertion stops it appends without looking for a child of that name (`source/CCSP_CR/ccsp_cr_exportDM.c:228-233`).
  Whatever the names, the export lists every parameter once if and only if no insertion stops at a node that has the next token
  for a child already (`DmNaming.ExportProperIff`, from `DmTree.AddNodeProperIff` and `DmBuild.BuildProperIff`). A path that
  starts at `Device` and holds no brace never does (`DmTree.RootedHasNoTwin`). The other two kinds of path can: one with a
  surviving brace token (`DmQuirks.AdjacentPlaceholdersDuplicate` is an input; in another order of names the same path loses the
  token instead, `DmQuirks.SurvivorDependsOnOrder`), and one whose first token merely begins with `Device`, such as
  `DeviceInfo.X`, which passes the test for `Device`, lands below the root, and doubles a child of that name if there is one
  (`DmQuirks.LookalikeRoot`).
- `children[count - 1]` is written without a test (`source/CCSP_CR/ccsp_cr_exportDM.c:207`). For any names the whole build stays
  in range if and only if its final tree has no node with more than 128 children (`DmBuild.StagesFitIffLast`); for regular names
  that leave cleanly, if and only if no path has more than 128 distinct successors among them (`DmNaming.ExportFitsIff`).
  `Device.a`, `Device.aa` and so on overflow with the 129th name (`DmQuirks.CrowdFitsIff`).
- `README.md:433-434` of the repository says that the system is ready when all components the profile defines have registered. The
  legacy scan tests all queue entries but the last (`LegacyManager.CrManager.ScanQueue`). Since CR's own entry is always last this
  is the documented test (`LegacyRegistry.ScanIsProfileTest`), and readiness does not wait for CR itself (`ReadyWithoutOwn`); a test
  of the whole queue could never succeed if the profile lists CR under the same name (`OwnEntryShadowed`).
  Readiness is not revoked by unregistration (`ReadyStep`).
- The suffix test looks at the leftmost occurrence only, so a query in which the name occurs twice misses it
  (`LegacyLookup.EndsWithIff`, `RepeatedNameIsMissed`).
- Session identifiers are reused once there have been more grants than values of the counter, and an old identifier can then end
  a session it does not own (`LegacySession.IdsDistinctIff`, `OnlyLatestEnds`; `CounterComesRound` is the run).

## Assumptions

- rbus: flag reads and writes are atomic and sequentially consistent; `pthread_create` stores the thread id and starts the thread
  in one step; mutex and condition-variable calls succeed; `pthread_cond_wait` may wake spuriously; a signal wakes the waiter if it is blocked;
  `rtVector_Find` returns the first match; nobody shuts the program down.
- Export: `AnscAllocateMemory` returns zeroed memory (the root's `count` and `parent` are never set) and does not fail; tokens are
  shorter than 128 characters; data types are below 13, the size of `typeStr`; the file opens. `int` counters are unbounded.
- Legacy: the queue is first-in first-out; the namespace manager is an oracle whose answer is part of each call; the name and
  version of CR are parameters; allocations succeed.

## Model

| member | source | states |
|---|---|---|
| CStrings.StrStr | source/CrSsp/ssp_rbus.c:150 | `strstr`: the leftmost occurrence if there is one, none exactly if the string does not contain the other |
| RbusRegistry.Find | source/CrSsp/ssp_rbus.c:145-151 | the lookup returns the first entry whose name is a substring of the query, and none only if no entry's name is |
| RbusRegistry.FoundByIffNotShadowed | source/CrSsp/ssp_rbus.c:145-151 | an entry is found by some name if and only if no earlier entry's name is inside its own, and then by its own name |
| RbusRegistry.FindIgnoresDependencies | source/CrSsp/ssp_rbus.c:145-151 | the lookup depends on names and order alone |
| RbusRegistry.EventFindsOwnerIff | source/CrSsp/ssp_rbus.c:300-316 | a get on a component's event name reaches that component if and only if no earlier event name extends it |
| RbusRegistry.FindEventIff | source/CrSsp/ssp_rbus.c:300-316 | a get answers for a component if and only if the query is a prefix of its event name and of no earlier one |
| RbusHandlers.CrData.FindComponent | source/CrSsp/ssp_rbus.c:145-151 | the search loop returns what the first-match lookup says |
| RbusHandlers.CrData.IsCompNameRegistered | source/CrSsp/ssp_rbus.c:178-189 | true exactly when the name resolves to an entry whose flag is set |
| RbusHandlers.CrData.ReadyCheck | source/CrSsp/ssp_rbus.c:459-483 | verdict 0 exactly when the system was ready before or every entry is registered, and the flag follows the verdict |
| RbusHandlers.CrData.RegisterLocked | source/CrSsp/ssp_rbus.c:556-575 | the part under the mutex sets exactly its own entry's flags and yields the verdict on the new flags |
| RbusHandlers.CrData.EventGet | source/CrSsp/ssp_rbus.c:300-318 | the answer is the `ready` flag of the first component whose event name the query is a prefix of, false without one |
| RbusInvariant.StepKeepsInv | source/CrSsp/ssp_rbus.c:459-586 | every enabled step of every thread keeps the invariant that ties mutex, flags, program counters, signals and log together |
| RbusInvariant.ExecKeepsInv | source/CrSsp/ssp_rbus.c:459-586 | so does every schedule |
| RbusInvariant.ReachableInv | source/CrSsp/ssp_rbus.c:823-829 | the invariant holds in every state any interleaving reaches from the start |
| RbusSafety.NoLostWakeup | source/CrSsp/ssp_rbus.c:554-583 | if the system is ready while the waiter is blocked, some call that found it ready has yet to signal, and is past its unlock unless it still holds the mutex |
| RbusSafety.SystemReadyAgrees | source/CrSsp/ssp_rbus.c:459-483 | with a non-empty registry and no registration inside its check, `isSystemReady` holds if and only if every entry is registered |
| RbusSafety.EmptyRegistryReadyByWaiter | source/CrSsp/ssp_rbus.c:714-724 | with an empty registry only the waiter can set `isSystemReady` |
| RbusSafety.FlagsNeverCleared | source/CrSsp/ssp_rbus.c:554-576 | along every run no `registered`, `ready` or `isSystemReady` flag is ever cleared |
| RbusSafety.PublishedAtMostOnce | source/CrSsp/ssp_rbus.c:714-724 | SystemReady is published at most once per run, and once it is, every entry is registered |
| RbusSafety.PublishedOnlyWhenReady | source/CrSsp/ssp_rbus.c:717-724 | at the instant of a publication its condition holds: all registered for SystemReady; component ready, registered and all dependencies registered for a dependency event |
| RbusSafety.PublishedOutsideMutex | source/CrSsp/ssp_rbus.c:720-722 | events are published by the waiter or a poller, never by a thread that holds the mutex |
| RbusSafety.WakeupCause | source/CrSsp/ssp_rbus.c:578-583 | a blocked waiter can always wake spuriously, and is otherwise woken exactly by a call whose check found the system ready; woken, it still has to take the mutex |
| RbusSafety.ReadySetOnlyWhenNeedsMet | source/CrSsp/ssp_rbus.c:509-533 | although dependencies are read one at a time without the lock, `ready` of a component with dependencies is set only in a state where all of them are registered at once |
| RbusSafety.ReadyStaysSound | source/CrSsp/ssp_rbus.c:509-533 | a ready component with dependencies is registered and so are they, now and after any further schedule |
| RbusSafety.ReadyVersusRegistered | source/CrSsp/ssp_rbus.c:554-576 | `ready` implies `registered` for components with dependencies; for the others the two agree except between the two writes under the mutex |
| RbusSafety.ReadyBeforeRegistered | source/CrSsp/ssp_rbus.c:571-573 | a reachable state in which a component is ready and not registered |
| RbusSafety.GetAgreesWithPublish | source/CrSsp/ssp_rbus.c:300-318 | if no earlier event name extends a component's, a get on it reports that component, and a true answer means it and its dependencies are registered |
| RbusSafety.PublishedEventGetsTrue | source/CrSsp/ssp_rbus.c:525-528 | whenever a dependency event is in the log, its component is ready and registered with all its dependencies |
| RbusSafety.RegisteredIffNameWritten | source/CrSsp/ssp_rbus.c:547-575 | an entry is registered if and only if some name that resolves to it has been registered |
| RbusSafety.DependenciesNeverBlock | source/CrSsp/ssp_rbus.c:542-586 | runs that registered the same names agree on all `registered` flags and on `isSystemReady`, whatever the dependency data |
| RbusSafety.ScanStepResolves | source/CrSsp/ssp_rbus.c:513-520 | in any state a poller's step over one dependency succeeds if and only if the first entry whose name the dependency contains is registered; otherwise the poller goes to sleep |
| RbusSafety.ScanStepIff | source/CrSsp/ssp_rbus.c:513-520 | in a ready system a poller's step over one dependency succeeds if and only if that name contains some registry name |
| RbusSchedules.FullPassSucceedsIff | source/CrSsp/ssp_rbus.c:509-530 | in a ready system, in any schedule that gives a poller one step per dependency and one more, with any steps of other threads between them, the pass succeeds if and only if every dependency name contains some registry name |
| RbusSchedules.DependencyReadyReachableIff | source/CrSsp/ssp_rbus.c:509-539 | a component with dependencies becomes ready in some run, and has its event published in some run, if and only if it is not shadowed and each dependency names some entry, whatever cycles the dependencies form |
| RbusSchedules.PollerPublishes | source/CrSsp/ssp_rbus.c:509-536 | a poller that has not published yet, asleep or not, can be run by its own steps alone to its event once its dependencies are registered |
| RbusPollers.MonitorHasPoller | source/CrSsp/ssp_rbus.c:536-563 | in every reachable state a component whose monitor is set has a poller that has not exited |
| RbusPollers.RegistrationWatches | source/CrSsp/ssp_rbus.c:561-565 | past the mutex, a registration that finds the monitor set adds no poller and one is there; one that finds it clear goes on to create exactly one and to set the monitor |
| RbusPollers.RegisteredAgain | source/CrSsp/ssp_rbus.c:536-563 | after all pollers of a component have exited, one more registration of it can be run to one more event |
| RbusPollers.EventAlwaysPossible | source/CrSsp/ssp_rbus.c:509-565 | from every reachable state of every interleaving, a component that is not shadowed and whose dependencies name entries can have its event published once more |
| RbusProgress.StepsAreBounded | source/CrSsp/ssp_rbus.c:542-586 | once all entries are registered, each step of a registrar, the waiter or the main thread lowers a measure, a spurious wakeup too, and poller steps leave it alone |
| RbusProgress.RunsAreBounded | source/CrSsp/ssp_rbus.c:542-586 | so every schedule without new calls has a bounded number of such steps |
| RbusProgress.NeverStuck | source/CrSsp/ssp_rbus.c:714-731 | before publication some useful step is enabled in every reachable state with all entries registered whose waiter has not quit |
| RbusProgress.PublishableIff | source/CrSsp/ssp_rbus.c:714-731 | with all entries registered, SystemReady can still be published if and only if the waiter has not quit, without spurious wakeups or new calls |
| RbusProgress.QuitForever | source/CrSsp/ssp_rbus.c:725-729 | a waiter that has quit stays so in every run |
| RbusProgress.QuitsOnlyBeforeStarted | source/CrSsp/ssp_rbus.c:823-828 | it quits only by testing the started flag between its creation and the main thread's write, with some entry unregistered |
| RbusProgress.WaiterCanQuitIff | source/CrSsp/ssp_rbus.c:823-829 | some run ends with the waiter gone if and only if the profile lists an entry that CR's own registration does not set |
| RbusSchedules.LockedSection | source/CrSsp/ssp_rbus.c:556-575 | in every schedule that takes a registration from inside its locked part to its unlock, with any steps of other threads between its reads and writes, flags and verdict are those of one uninterrupted run |
| RbusSchedules.OutForGood | source/CrSsp/ssp_rbus.c:556-583 | in no schedule does a registration get back into its locked part |
| RbusProgress.LockedSectionRuns | source/CrSsp/ssp_rbus.c:556-575 | a registration inside its locked part can always be run to its unlock |
| RbusProgress.RunToReturn | source/CrSsp/ssp_rbus.c:542-586 | before the waiter exists, a call that holds or can take the mutex can be run to its end alone |
| RbusProgress.ShadowedNeverRegistered | source/CrSsp/ssp_rbus.c:145-151 | a shadowed entry is unregistered in every reachable state, and the system is never ready |
| RbusProgress.SystemReadyReachableIff | source/CrSsp/ssp_rbus.c:542-586 | some run gets the system ready, and some run publishes it, if and only if no entry's name contains an earlier entry's |
| RbusProgress.SelfRegistration | source/CrSsp/ssp_rbus.c:823-824 | a profile that lists `com.cisco.spvtg.ccsp.CR` alone is registered and ready by CR's own call |
| DmNames.TokensAreTokens | source/CCSP_CR/ccsp_cr_exportDM.c:167-185 | every piece the split yields is non-empty and free of dots |
| DmNames.TokensAtDot | source/CCSP_CR/ccsp_cr_exportDM.c:161-187 | for any two strings, splitting them joined by a dot gives the pieces of the first and then those of the second |
| DmNames.TokensWithoutDot | source/CCSP_CR/ccsp_cr_exportDM.c:167-185 | a string without dots is its own single piece, or none if it is empty |
| DmNames.TokensOfJoin | source/CCSP_CR/ccsp_cr_exportDM.c:161-187 | splitting undoes joining with dots, with or without a trailing dot |
| DmNames.MarkIntendedIff | source/CCSP_CR/ccsp_cr_exportDM.c:256-277 | the in-place pass equals filtering out placeholders and typing each token by its neighbour (array, object, or the given leaf type) if and only if no placeholder is first or follows another |
| DmNames.IntendedHasNoPlaceholder | source/CCSP_CR/ccsp_cr_exportDM.c:265-270 | the intended result holds no placeholder and only tokens of the name, each typed array, object or with the leaf type |
| DmNames.MarkLeaves | source/CCSP_CR/ccsp_cr_exportDM.c:256-277 | for any tokens: walking back, a token is dropped exactly if it is a placeholder behind a token that stays, and every token that stays is typed by its neighbour |
| DmNames.MarkDropsInstance | source/CCSP_CR/ccsp_cr_exportDM.c:265-270 | a single token with a brace, or with a first character among 12345678, is dropped and makes the token before it an array (11); all others stay, the last with the given type and the rest as objects (12) |
| DmNames.MarkKeepsOrdinary | source/CCSP_CR/ccsp_cr_exportDM.c:265-275 | tokens without a brace that start with any other character, `0` and `9` included, all stay |
| DmNameList.SplitString | source/CCSP_CR/ccsp_cr_exportDM.c:161-187 | the linked list spells exactly the tokens of the string, in new nodes |
| DmNameList.MarkNode | source/CCSP_CR/ccsp_cr_exportDM.c:261-275 | one node is typed by its successor, which is unlinked if it is a placeholder |
| DmNameList.SetTypeField | source/CCSP_CR/ccsp_cr_exportDM.c:256-277 | the list edited in place carries exactly the normalised, typed tokens, and is a proper list again |
| DmTree.AddNodeProperIff | source/CCSP_CR/ccsp_cr_exportDM.c:214-254 | for any list of tokens, insertion keeps siblings distinct if and only if it does not stop at a node that has the next token for a child already |
| DmTree.ImproperStays | source/CCSP_CR/ccsp_cr_exportDM.c:214-254 | equal siblings are never removed by a later insertion |
| DmTree.RootedHasNoTwin | source/CCSP_CR/ccsp_cr_exportDM.c:223-253 | a path that starts at the root and holds no brace never stops at such a node |
| DmTree.AddNodeKeepsPaths | source/CCSP_CR/ccsp_cr_exportDM.c:214-254 | insertion of any list never loses a path |
| DmTree.AddNodeAddsPrefixes | source/CCSP_CR/ccsp_cr_exportDM.c:214-254 | a rooted path that leaves the tree cleanly adds its non-empty prefixes and nothing else |
| DmTree.AddNodeIsUnionIff | source/CCSP_CR/ccsp_cr_exportDM.c:228-236 | insertion is set union with the prefixes if and only if the first missing segment differs from the one before it |
| DmTree.UncleanLosesPrefix | source/CCSP_CR/ccsp_cr_exportDM.c:228-251 | otherwise a prefix ending in a repeated segment is missing after the insertion |
| DmTree.RepeatStaysLost | source/CCSP_CR/ccsp_cr_exportDM.c:214-254 | and no later insertion can ever add it |
| DmBuild.AddNodeKeepsTypes | source/CCSP_CR/ccsp_cr_exportDM.c:214-254 | insertion of any list of tokens leaves every existing node its type |
| DmBuild.AddNodeTypes | source/CCSP_CR/ccsp_cr_exportDM.c:203-207 | each node that a clean insertion adds has the type of its own token |
| DmBuild.BuildKeepsTypes | source/CCSP_CR/ccsp_cr_exportDM.c:279-303 | over any list, a node keeps the type it had at the first stage that had it |
| DmBuild.BuildProperIff | source/CCSP_CR/ccsp_cr_exportDM.c:279-303 | over any list of token lists, siblings are distinct in the end if and only if no insertion stopped at a node that had the next token for a child |
| DmBuild.AddNodeSize | source/CCSP_CR/ccsp_cr_exportDM.c:189-212 | an insertion adds exactly as many nodes as there were missing prefixes |
| DmBuild.BuildExactIff | source/CCSP_CR/ccsp_cr_exportDM.c:279-303 | after any list of rooted names the paths are exactly their prefixes and the root if and only if no name repeats a segment just where it leaves the prefixes of the earlier names |
| DmBuild.BuildIsAllPrefixes | source/CCSP_CR/ccsp_cr_exportDM.c:279-303 | names without equal neighbouring segments always give a tree with distinct siblings, exactly these paths, and one node each |
| DmBuild.FanOutIsSuccessorCount | source/CCSP_CR/ccsp_cr_exportDM.c:195-210 | a node's number of children is the number of distinct next segments after its path |
| DmBuild.StagesFitIffLast | source/CCSP_CR/ccsp_cr_exportDM.c:195-210 | for any list, no stage of the build overflows an array of children if and only if the final tree does not |
| DmBuild.StagesFitIff | source/CCSP_CR/ccsp_cr_exportDM.c:195-210 | for rooted names that never leave uncleanly, no stage overflows if and only if no path has more than 128 distinct successors among all names |
| DmXml.ParseOfPrint | source/CCSP_CR/ccsp_cr_exportDM.c:305-357 | the printed stream is one balanced element, and reading it gives the tree with siblings reversed, types included |
| DmXml.FlipPaths | source/CCSP_CR/ccsp_cr_exportDM.c:348-352 | printing children from last to first keeps every path |
| DmXml.FlipTwice | source/CCSP_CR/ccsp_cr_exportDM.c:348-352 | reversing twice gives the original tree: the export loses nothing |
| DmExport.Exporter.NewChild | source/CCSP_CR/ccsp_cr_exportDM.c:197-207 | one new zeroed node becomes the last child, with name, type and parent set, and the counters rise by one |
| DmExport.Exporter.AddChildNode | source/CCSP_CR/ccsp_cr_exportDM.c:189-212 | the rest of the list becomes a chain of new nodes below the parent; everything else on the heap tree is as before; the node counter rises by the length |
| DmExport.Exporter.FindChild | source/CCSP_CR/ccsp_cr_exportDM.c:240-249 | the search yields the first child with the next segment's name, or the node itself |
| DmExport.Exporter.FindPlace | source/CCSP_CR/ccsp_cr_exportDM.c:216-253 | the descent ends at the node and the list position from which growing gives the inserted tree |
| DmExport.RoomIff | source/CCSP_CR/ccsp_cr_exportDM.c:199-207 | in a tree within its arrays, the next write to `children` is in range if and only if the result is within them |
| DmExport.Exporter.AddNodeToDMTree | source/CCSP_CR/ccsp_cr_exportDM.c:214-254 | the heap tree, parent links included, becomes the inserted tree, all indices in range if the result fits, and the node counter rises by the nodes gained |
| DmWriter.FreedOnce | source/CCSP_CR/ccsp_cr_exportDM.c:328-336 | the order of freeing names every node of the tree once and none twice |
| DmWriter.Writer.WriteNodeToXml | source/CCSP_CR/ccsp_cr_exportDM.c:319-326 | an object start or a simple parameter is printed, by the current count, and the node is flagged |
| DmWriter.Writer.FreeNode | source/CCSP_CR/ccsp_cr_exportDM.c:328-336 | a node that was not freed yet is freed, and a parent that was not freed either has one child less |
| DmWriter.Writer.WriteKids | source/CCSP_CR/ccsp_cr_exportDM.c:348-352 | the loop visits every child once, last to first, although each call decrements the count it indexes by |
| DmWriter.Writer.WriteMultiTreeToXML | source/CCSP_CR/ccsp_cr_exportDM.c:338-357 | the subtree's print is appended, each of its nodes freed once in order, the write counter rises by their number, the parent loses one child; no freed node is touched and no index is out of range |
| DmNaming.AcceptedIff | source/CCSP_CR/ccsp_cr_exportDM.c:286-288 | exactly the present names that start with `Device` are taken |
| DmNaming.RegularIsRooted | source/CCSP_CR/ccsp_cr_exportDM.c:290-292 | a regular name's normalised path is rooted, free of braces and spells its non-placeholder tokens |
| DmNaming.BuildTyped | source/CCSP_CR/ccsp_cr_exportDM.c:305-317 | with data types below 13 every node's type has a word to print |
| DmNaming.BuildTypes | source/CCSP_CR/ccsp_cr_exportDM.c:203-204 | for rooted names that never leave uncleanly, every node has the type given by the first name that has its path as a prefix |
| DmNaming.ExportedTree | source/CCSP_CR/ccsp_cr_exportDM.c:161-357 | for every list of regular names that never leave uncleanly the stream parses, and the result has distinct siblings, exactly the root and the prefixes of the names' segments as paths, and one node per path |
| DmNaming.ExportedTypes | source/CCSP_CR/ccsp_cr_exportDM.c:203-204 | in that file a path has the type given by the first accepted name it begins: the registered data type where it ends with the name's last token, array (11) where the next token is an instance, object (12) otherwise |
| DmNaming.EndsSomewhere | source/CCSP_CR/ccsp_cr_exportDM.c:256-277 | every prefix of a name's segments ends with some token of it that is no instance |
| DmNaming.ExportedRoot | source/CCSP_CR/ccsp_cr_exportDM.c:383-384 | the root `Device` is an object |
| DmNaming.ExportedOthers | source/CCSP_CR/ccsp_cr_exportDM.c:161-357 | a path that is neither the root nor begins a name is not in the file |
| DmNaming.WellNamedIsClean | source/CCSP_CR/ccsp_cr_exportDM.c:228-233 | names without equal neighbouring segments are of that kind, in any order |
| DmNaming.ExportProperIff | source/CCSP_CR/ccsp_cr_exportDM.c:161-357 | for all names, the parsed export has distinct siblings if and only if no insertion stopped at a node that had the next token for a child |
| DmNaming.ExportExactIff | source/CCSP_CR/ccsp_cr_exportDM.c:161-357 | for every list of regular names the parsed export has exactly the expected paths if and only if no name repeats a segment just where it leaves the earlier names |
| DmNaming.ExportFitsIff | source/CCSP_CR/ccsp_cr_exportDM.c:195-210 | for regular names that never leave uncleanly, the build stays within all arrays of children if and only if each path has at most 128 distinct successors among the names |
| DmQuirks.RepeatedSegmentExample | source/CCSP_CR/ccsp_cr_exportDM.c:228-233 | `Device.X.X.Z` after `Device.X.Y` loses `Device.X.X` and adds `Device.X.Z` |
| DmQuirks.AdjacentPlaceholdersSurvive | source/CCSP_CR/ccsp_cr_exportDM.c:259-271 | `Device.A.{i}.{j}.B` keeps `{j}` as a segment |
| DmQuirks.AdjacentPlaceholdersDuplicate | source/CCSP_CR/ccsp_cr_exportDM.c:223-233 | the path `Device.A.{j}.B` inserted twice gives two equal siblings |
| DmQuirks.SurvivorDependsOnOrder | source/CCSP_CR/ccsp_cr_exportDM.c:223-233 | the same path after `Device.A.Q` is placed as `Device.A.B`, without `{j}` and without equal siblings |
| DmQuirks.LookalikeRoot | source/CCSP_CR/ccsp_cr_exportDM.c:288-292 | a first token that only begins with `Device` is accepted; it becomes another child of the root, distinct from the others if and only if none has its name, or is dropped if it holds a brace |
| DmQuirks.CrowdFitsIff | source/CCSP_CR/ccsp_cr_exportDM.c:195-210 | `n` names with different second segments stay within the arrays if and only if `n` is at most 128 |
| DmExamples.TypeWords | source/CCSP_CR/ccsp_cr_exportDM.c:305 | the thirteen words, by number |
| DmExamples.AcceptedExamples | source/CCSP_CR/ccsp_cr_exportDM.c:288 | `Device.X` and `DeviceX` are accepted, `X.Device` is not |
| DmExamples.RadioPath | source/CCSP_CR/ccsp_cr_exportDM.c:256-277 | `Device.WiFi.Radio.1.Enable` with data type 3 becomes Device, WiFi as objects, Radio as an array, Enable of type 3 |
| DmExamples.ZeroAndNineStay | source/CCSP_CR/ccsp_cr_exportDM.c:265 | tokens `0` and `9` stay |
| DmExamples.RadioExport | source/CCSP_CR/ccsp_cr_exportDM.c:305-357 | the whole stream for that one name, word by word |
| DmPipeline.BuildDataModelTree | source/CCSP_CR/ccsp_cr_exportDM.c:279-303 | for any names, in any state of the build, the heap tree becomes the tree of all paths so far, and the node counter rises by the difference in size |
| DmPipeline.InitDMTreeRoot | source/CCSP_CR/ccsp_cr_exportDM.c:378-387 | the root is the empty tree `Device` without a parent, and counts as one node |
| DmPipeline.GenerateDataModelXml | source/CCSP_CR/ccsp_cr_exportDM.c:390-431 | over all components: the file gains the stream of all their names, both counters rise by the same number, and as many nodes are freed as were built, each of them new and none twice |
| LegacyLookup.EndsWithIff | source/CCSP_CR/ccsp_cr_utility.c:173-192 | the suffix test holds if and only if the string ends so and has no earlier occurrence |
| LegacyLookup.PrefixedNameMatches | source/CCSP_CR/ccsp_cr_utility.c:173-192 | a prefixed name matches its entry if and only if the name has no earlier occurrence in the whole |
| LegacyLookup.RepeatedNameIsMissed | source/CCSP_CR/ccsp_cr_utility.c:179-191 | a query in which the name also comes first is missed |
| LegacyLookup.Lookup | source/CCSP_CR/ccsp_cr_utility.c:205-221 | the first entry that matches, none if none does or the query is NULL |
| LegacyLookup.DoubledIsNeverFound | source/CCSP_CR/ccsp_cr_utility.c:205-221 | an entry that repeats an earlier name is found by no query |
| LegacyLookup.FindableIff | source/CCSP_CR/ccsp_cr_utility.c:173-221 | an entry is found by some query if and only if no earlier entry has the same name, given a character that neither occurs in the name nor stands right before it at the end of an earlier one |
| LegacyLookup.WithoutSeparator | source/CCSP_CR/ccsp_cr_utility.c:173-221 | if earlier names put every character before the entry's name, it is found by some query if and only if its bare name finds it |
| LegacyRegistry.StatusChanges | source/CCSP_CR/ccsp_cr_operation.c:203-213 | a call changes the status of at most the entry its name finds; a failure never overwrites a success, which only a successful unregistration undoes |
| LegacyRegistry.RegisterCodes | source/CCSP_CR/ccsp_cr_operation.c:158-265 | the whole outcome of a registration: four reasons to change nothing with their codes, a first failure noted in the entry found, and otherwise success in that entry alone with readiness and signal looked at |
| LegacyRegistry.UnregisterCodes | source/CCSP_CR/ccsp_cr_operation.c:362-389 | the whole outcome of an unregistration: refused without a name; otherwise the answer is returned, and on success the entry found, and it alone, is unregistered; readiness and signals stay |
| LegacyRegistry.CallbackEffect | source/CrSsp/ssp_dbus.c:540-594 | a callback for a name that finds an entry does what a successful registration does, any other does nothing |
| LegacyRegistry.UnregisteredBlocks | source/CCSP_CR/ccsp_cr_operation.c:375-379 | an entry before the last that is unregistered before readiness blocks it until a later call that scans finds that entry again |
| LegacyRegistry.ReadyStep | source/CCSP_CR/ccsp_cr_operation.c:215-262 | `bSystemReady` never reverts; it is set, and the signal sent, exactly by a scanning call after which all entries but the last are successful |
| LegacyRegistry.ReadyStays | source/CCSP_CR/ccsp_cr_operation.c:216-247 | once ready at some point of a run, ready at its end |
| LegacyRegistry.SignalOnce | source/CCSP_CR/ccsp_cr_operation.c:256-259 | over any run the signal has been sent once if the system is ready and there is a signal procedure, and not at all otherwise |
| LegacyRegistry.ReadyIffScanSucceeded | source/CCSP_CR/ccsp_cr_operation.c:213-262 | after any run the system is ready if and only if some scanning call found all entries but the last successful |
| LegacyRegistry.AllButLastIsReady | source/CCSP_CR/ccsp_cr_operation.c:229-247 | with two entries or more, whenever all but the last are successful the system is ready |
| LegacyRegistry.AllSuccessfulIsReady | source/CCSP_CR/ccsp_cr_operation.c:229-247 | a registry of any size whose entries are all successful is ready |
| LegacyRegistry.ScanIsProfileTest | source/CCSP_CR/ccsp_cr_profile.c:303-313 | with CR's own entry last the scan tests exactly the components the profile defines |
| LegacyRegistry.UnfoundStaysUnregistered | source/CCSP_CR/ccsp_cr_utility.c:205-221 | an entry that no query finds stays unregistered in every run |
| LegacyRegistry.OwnEntryShadowed | source/CCSP_CR/ccsp_cr_profile.c:303-313 | if the profile lists CR's name, the appended entry is never found, never registered, and a test of all entries never holds |
| LegacyRegistry.AllSuccessfulReachableIff | source/CCSP_CR/ccsp_cr_utility.c:205-221 | some run makes every entry successful if and only if every entry is found by some query |
| LegacyRegistry.ReadyReachableIff | source/CCSP_CR/ccsp_cr_operation.c:229-262 | some run gets the system ready if and only if every entry before the last is found by some query |
| LegacyRegistry.ReadyWithoutOwn | source/CCSP_CR/ccsp_cr_operation.c:231-247 | with a component in the profile, the system can become ready while CR's own entry is unregistered if and only if it can become ready at all |
| LegacyManager.CrManager.LoadDeviceProfile | source/CCSP_CR/ccsp_cr_profile.c:279-313 | the queue holds the readable component nodes in order, unregistered, then CR's own entry |
| LegacyManager.CrManager.LoadComponentProfile | source/CCSP_CR/ccsp_cr_profile.c:358-392 | one entry is pushed if name and version can be read, otherwise nothing changes and the call fails |
| LegacyManager.LoadedOne | source/CCSP_CR/ccsp_cr_profile.c:358-392 | a node with a non-empty name and a version yields that one entry, any other none |
| LegacyManager.LoadedConcat | source/CCSP_CR/ccsp_cr_profile.c:281-294 | two lists of nodes load one after the other |
| LegacyManager.LoadedAt | source/CCSP_CR/ccsp_cr_profile.c:281-294 | each readable node has its own entry at the place that counts the readable nodes before it |
| LegacyManager.CrManager.LookforComponent | source/CCSP_CR/ccsp_cr_utility.c:205-221 | the loop over the queue returns the component of the first match |
| LegacyManager.CrManager.ScanQueue | source/CCSP_CR/ccsp_cr_operation.c:229-245 | the loop that advances before it tests concludes ready exactly when all entries but the last are successful |
| LegacyManager.CrManager.RegisterCapabilities | source/CCSP_CR/ccsp_cr_operation.c:158-265 | return code and whole new state are those of the state machine's registration |
| LegacyManager.CrManager.UnregisterComponent | source/CCSP_CR/ccsp_cr_operation.c:362-389 | likewise for unregistration |
| LegacyManager.CrManager.ProcessRegisterCap | source/CrSsp/ssp_dbus.c:533-597 | likewise for the callback from the bus |
| LegacyManager.LoadedIsInit | source/CCSP_CR/ccsp_cr_profile.c:303-313 | a freshly loaded registry is a start state of the runs |
| LegacySession.RunInv | source/CCSP_CR/ccsp_cr_session.c:126-144 | over any run: the k-th grant has the k-th counter value, priorities within a session strictly increase, and nobody asked for more than the holder has |
| LegacySession.IdsDistinctIff | source/CCSP_CR/ccsp_cr_session.c:135 | identifiers are never reused if and only if there have been at most as many grants as counter values |
| LegacySession.IdsIncreaseIff | source/CCSP_CR/ccsp_cr_session.c:135 | they strictly increase if and only if there have been fewer |
| LegacySession.CounterComesRound | source/CCSP_CR/ccsp_cr_session.c:135 | after as many sessions as the counter has values, the next one is granted the first identifier, whose old holder can end it |
| LegacySession.OnlyLatestEnds | source/CCSP_CR/ccsp_cr_session.c:271-275 | a granted identifier ends the session in progress if and only if it is the latest, or the counter has come round in between |
| LegacySession.HolderIsHighest | source/CCSP_CR/ccsp_cr_session.c:126-137 | the holder has the highest priority requested since the session began, and the priorities granted since then strictly increase |
| LegacySession.ChainIsBounded | source/CCSP_CR/ccsp_cr_session.c:126-137 | a session is taken over at most as often as there are priorities above its first |
| LegacySession.ReportedIdIff | source/CCSP_CR/ccsp_cr_session.c:205-228 | until the counter comes round, the reported identifier is 0 exactly when no session is in progress |
| LegacySession.SessionLock.RequestSessionID | source/CCSP_CR/ccsp_cr_session.c:126-163 | refused without effect exactly when a session of at least that priority is in progress, otherwise granted with the next counter value |
| LegacySession.SessionLock.GetCurrentSessionID | source/CCSP_CR/ccsp_cr_session.c:205-234 | priority and identifier of the session in progress, zeros without one |
| LegacySession.SessionLock.InformEndOfSession | source/CCSP_CR/ccsp_cr_session.c:271-296 | ends the session if the identifier is the current one, changes nothing otherwise, and reports success either way |

## Left out

- XML reading (`CcspCrLoadDeviceProfile`, `crData_LoadRegistry`), file selection and the DOM libraries: the models start from a loaded list.
- The namespace manager and everything that delegates to it (discovery, remote CR, data-type checks): its source is not part of this model; its answers are parameters.
- rbus and D-Bus handler registration, boxing of values, legacy properties, logging, telemetry and daemonising: no state of their own.
- `isRegisteredHandler` beyond the lookup it makes, and SystemReady subscriptions: formatting around flags that are modelled.
- `WriteXmlHead` and the literal XML around each parameter: the exported stream is a sequence of object starts, simple parameters and object ends.
- `freeList` and the memory of list nodes: their release has no effect on the tree.
- Shutdown (`CRRbusClose`, `crData_Destroy`, `CcspCrCleanAll`): not synchronised with live threads; the models end before it.
- `RbusHandlers`: runs each handler alone; interleaving is in `RbusProtocol`, and `RbusSchedules.LockedSection` connects the two for the locked part.
- LegacyLookup.FindableIff: assumes one character that separates the entry's name from the earlier names, which any profile with
  fewer entries than characters and names of ordinary length has; `LegacyLookup.WithoutSeparator` covers the opposite extreme.
- DmPipeline.GenerateDataModelXml: the lists of components and names are given as values; the calls that fetch them and the option that enables the export are not modelled.
- LegacyManager.CrManager.LoadDeviceProfile: the 512-character limit on a component's name is not modelled.
- `ssp_cmd.c` and `source/test`: command-line demonstrations.
