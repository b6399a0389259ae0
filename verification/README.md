# Foundation library core: hash tables, process entry, test runner

This project models three pieces of the foundation library in Dafny and
proves properties of the model.

- **The fixed-capacity hash tables** (`HashTable`, with `MurmurHash` for the key hash).
  - The 32-bit and the 64-bit tables run the same open-addressing code over different word widths. One model covers both, selected by `Table.width`.
  - A key hashes with the MurmurHash3 finaliser of its width. Probing starts at `hash % capacity` and steps forward one slot at a time, wrapping at the end.
  - Key 0 marks an empty slot and value 0 an absent one. Erase zeroes only the value and leaves the key behind.
  - The proofs rest on an invariant, `Valid`: keys are unique, and no empty slot lies between a key's home slot and the slot that holds it.
  - Against that invariant, `Get` agrees with a plain linear scan (`Lookup`). `Set`, `Erase` and `Clear` preserve the invariant, and `Size` counts the live slots.
- **The process entry points and termination handlers** (`MainEntry`).
  - The Windows console-control handler and the POSIX signal handler.
  - The `WinMain`/`main` start-up and shutdown sequence, modelled as an ordered trace of the steps it performs.
  - The ordered teardown `_app_will_terminate` performs.
- **The test registry and runner** (`TestHarness`).
  - Test cases are registered into named groups and run group by group and case by case.
  - The suite's outcome becomes the exit code.
  - The non-panic behaviour of the test error callback.

Operations are pure functions over immutable datatypes. The two loops that count or aggregate (`HashTable.Size`, `TestHarness.Run`) are methods with loop invariants.

Outside influences are parameters:
- the result of `main_initialize` and the return value of `main_run`;
- the application descriptor;
- the platform and build flavour;
- the daemon configuration flag;
- whether each test fails.

The 64-bit table functions in `foundation/hashtable.c:196-329` mirror the 32-bit ones cited below line for line. The same members model them, with `Table.width == W64`.

Two facts about the code shape the entry model:
- `sighandler` posts the same `FOUNDATIONEVENT_TERMINATE` whatever the signal (`foundation/main.c:126`). `SignalHandler` does the same.
- Both entry points install their termination handlers before they call `thread_set_main` (`foundation/main.c:65-67` and `foundation/main.c:153-177`). `InstallHandlers` comes before `SetMainThread` in `Entry`'s trace.

## Model

| member | source | states |
|---|---|---|
| MurmurHash.Hash | foundation/hashtable.c:17-36 | the hash of a word of the table's width is again a word of that width |
| MurmurHash.HashOfZero | foundation/hashtable.c:17-36 | both finalisers map key 0 to 0 |
| MurmurHash.HashKnownAnswers | foundation/hashtable.c:17-36 | the 32-bit and 64-bit finalisers match the MurmurHash3 fmix32/fmix64 arithmetic on sample keys 1, 42 and 2^32-1 at both widths |
| HashTable.Pos | foundation/hashtable.c:76-86 | a probe position `n` steps from a home slot stays inside the table |
| HashTable.Dist | foundation/hashtable.c:76-86 | every slot is reached from any home slot within one lap; inverse of `Pos` |
| HashTable.PosStep | foundation/hashtable.c:86 | one probe step is `ie = (ie + 1) % capacity` |
| HashTable.PosInjective | foundation/hashtable.c:86-87 | within one lap no slot is visited twice, so the `ie == eend` exit fires only after a full lap |
| HashTable.Start | foundation/hashtable.c:76 | the home slot `hash % capacity` is a valid slot index |
| HashTable.Probe | foundation/hashtable.c:139-150 | the probe loop stops at the first slot holding the key or an empty key, or after a full lap |
| HashTable.Search | foundation/hashtable.c:137-153 | the probe from the key's home slot ends within one lap |
| HashTable.ProbeKeysOnly | foundation/hashtable.c:139-150 | where the probe stops depends only on the slots' keys, not their values |
| HashTable.ProbeFindsStop | foundation/hashtable.c:139-150 | if any slot holds the key or is empty, the probe stops there or earlier and does not wrap round |
| HashTable.Initialize | foundation/hashtable.c:49-53 | a new table has the requested capacity and every slot zeroed |
| HashTable.InitializeEmpty | foundation/hashtable.c:49-53 | a new table satisfies the table invariant, answers 0 for every key and has no live slot |
| HashTable.EmptyTable | foundation/hashtable.c:49-53 | an all-zero table satisfies the invariant and holds nothing |
| HashTable.Get | foundation/hashtable.c:130-154 | a nonzero result is the value of some slot holding the key |
| HashTable.GetIsLookup | foundation/hashtable.c:130-154 | on a valid table, get returns what a linear scan for the key finds (0 if absent) |
| HashTable.GetAbsent | foundation/hashtable.c:143-150 | a key stored in no slot reads as 0, whether the probe hits an empty slot or wraps round |
| HashTable.CanSetProbeStops | foundation/hashtable.c:76-93 | when some slot holds the key or is free, the set probe stops within one lap |
| HashTable.SetSlot | foundation/hashtable.c:76-96 | set writes at the first slot on the key's probe that holds the key or is free |
| HashTable.Set | foundation/hashtable.c:68-99 | set changes exactly one slot, on the key's probe chain, to (key, value), and never overwrites another nonzero key |
| HashTable.GetAfterSet | foundation/hashtable.c:68-99 | after set(key, value), get(key) returns value |
| HashTable.SetKeys | foundation/hashtable.c:81-96 | set adds the key to the stored keys and removes none |
| HashTable.SetExistingKey | foundation/hashtable.c:81-96 | setting a key already stored overwrites that slot's value in place |
| HashTable.SetPreservesValid | foundation/hashtable.c:68-99 | set keeps keys unique and every key reachable from its home slot |
| HashTable.SetLeavesOthers | foundation/hashtable.c:68-99 | on a valid table, set(key, _) leaves get of every other key unchanged |
| HashTable.SetSize | foundation/hashtable.c:68-99 | set raises the live count by one exactly when get of the key read 0 before (absent or erased), and otherwise keeps it |
| HashTable.Erase | foundation/hashtable.c:102-127 | erase keeps every slot's key and changes at most the key's own slot, to value 0 |
| HashTable.GetAfterErase | foundation/hashtable.c:102-127 | after erase(key), get(key) returns 0 |
| HashTable.EraseLeavesOthers | foundation/hashtable.c:102-127 | erase(key) leaves get of every other key unchanged |
| HashTable.EraseKeepsKeys | foundation/hashtable.c:114-117 | erase leaves a tombstone: the stored keys and the table invariant are unchanged |
| HashTable.EraseSize | foundation/hashtable.c:102-127 | erase lowers the live count by one exactly when the key held a nonzero value |
| HashTable.Raw | foundation/hashtable.c:157-162 | a slot with key 0 reads as 0 whatever its value, and a slot with a nonzero key reads as its stored value |
| HashTable.RawIsGet | foundation/hashtable.c:157-162 | raw is nonzero exactly at live slots, and for a stored key it equals get of that key |
| HashTable.Size | foundation/hashtable.c:165-175 | size counts the slots with nonzero key and nonzero value, and never exceeds the capacity |
| HashTable.LiveSlotsBound | foundation/hashtable.c:165-175 | the live slots are at most the capacity |
| HashTable.LiveSlotsUpdate | foundation/hashtable.c:96 | writing one slot adds it to, or removes it from, the live slots and changes no other |
| HashTable.Clear | foundation/hashtable.c:178-182 | clear keeps the capacity and zeroes every slot |
| HashTable.ClearResets | foundation/hashtable.c:178-182 | a cleared table equals a freshly initialised one of the same capacity, and holds nothing |
| HashTable.SameKeysValid | foundation/hashtable.c:114-117 | rewriting values without touching keys preserves the table invariant |
| HashTable.FindKey | foundation/hashtable.c:130-154 | the reference scan returns the first slot holding the key, or none |
| HashTable.LookupAt | foundation/hashtable.c:130-154 | with unique keys, the reference scan returns the value of the key's one slot |
| HashTable.ProbeFindsKey | foundation/hashtable.c:139-142 | on a valid table the probe for a stored key ends exactly at that key's slot |
| MainEntry.DecideConsole | foundation/main.c:28-36 | a control type that posts termination is always reported handled |
| MainEntry.ConsoleHandler | foundation/main.c:22-50 | handled exactly for CTRL_C, CTRL_BREAK, CTRL_CLOSE, CTRL_LOGOFF, CTRL_SHUTDOWN; at most one terminate event; when posted, the actions are exactly the post, the no-retry request and the 1000 ms sleep, in that order; nothing is done otherwise |
| MainEntry.ConsoleTerminalCodes | foundation/main.c:30-34 | CTRL_C, CTRL_CLOSE and CTRL_SHUTDOWN each post one terminate event |
| MainEntry.ConsoleLogoff | foundation/main.c:33 | CTRL_LOGOFF posts termination unless the application is configured as a daemon |
| MainEntry.ConsoleNonTerminalCodes | foundation/main.c:31-35 | every other control posts nothing and is handled only if it is CTRL_BREAK |
| MainEntry.ConsoleHandlerPosts | foundation/main.c:28-42 | one console notification posts one terminate event exactly for CTRL_C, CTRL_CLOSE, CTRL_SHUTDOWN, and CTRL_LOGOFF when not a daemon, and none otherwise |
| MainEntry.PostedAppend | foundation/main.c:42 | the events posted by two consecutive stretches of handling add up |
| MainEntry.ConsoleEventsPerNotification | foundation/main.c:38-48 | over any series of console notifications, one terminate event is posted per terminal notification |
| MainEntry.SignalHandler | foundation/main.c:113-128 | any signal posts exactly one foundation terminate event and does nothing else |
| MainEntry.SignalEventsPerNotification | foundation/main.c:113-128 | n signals post exactly n terminate events |
| MainEntry.GuardName | foundation/main.c:205-212 | the crash-guard name is the short name, or "unknown" without one, then "-", then the version string |
| MainEntry.Entry | foundation/main.c:138-241 | failed initialisation returns -1 after nothing else; otherwise the result is main_run's and the trace ends with exactly one shutdown and marks the main thread once |
| MainEntry.SuccessTrace | foundation/main.c:149-225 | after a successful initialisation the sequence ends in a single shutdown and marks the main thread once |
| MainEntry.InstallHandlers | foundation/main.c:153-175 | POSIX installs `sighandler` for KILL, TERM, QUIT and INT in that order and then ignores SIGPIPE; Windows installs only the console-control handler |
| MainEntry.RunPhase | foundation/main.c:201-221 | a debug build runs main_run directly; a release build registers the dump callback under the guard name exactly when there is one, runs under the crash guard with that name, then frees the name |
| MainEntry.HandlersCounts | foundation/main.c:153-175 | installing handlers neither marks the main thread nor shuts down |
| MainEntry.RunPhaseCounts | foundation/main.c:201-221 | the run phase neither marks the main thread nor shuts down |
| MainEntry.WithinAppend | foundation/main.c:138-241 | concatenating traces whose steps lie in one phase range stays in that range |
| MainEntry.OrderAppend | foundation/main.c:138-241 | an ordered trace of early phases followed by one of later phases is ordered |
| MainEntry.OrderedPrecedes | foundation/main.c:138-241 | in an ordered trace, a step of an earlier phase occurs before a step of a later one |
| MainEntry.HandlersShape | foundation/main.c:153-175 | POSIX installs exactly the KILL, TERM, QUIT and INT handlers in that order and then ignores SIGPIPE, and Windows installs only the console handler; every one of these steps is in the handler phase |
| MainEntry.HandlersOnlyInstall | foundation/main.c:153-175 | handler installation contains only handler-phase steps |
| MainEntry.RunPhaseShape | foundation/main.c:201-221 | the run phase is ordered: dump-callback registration, then the guarded run, then the name release |
| MainEntry.EntryOrder | foundation/main.c:138-241 | entry performs initialise, handler installation, main-thread marking, the run phase and shutdown in that order |
| MainEntry.OrderedSuccess | foundation/main.c:149-225 | any handler-phase steps and run-phase steps placed between initialise, main-thread marking and shutdown give a trace in entry order |
| MainEntry.RunBetween | foundation/main.c:177-225 | in any ordered trace, marking the main thread precedes every run and every run precedes shutdown |
| MainEntry.EntryRunBetween | foundation/main.c:177-225 | the main thread is marked before main_run starts, and main_shutdown follows it |
| MainEntry.EntryDebugRun | foundation/main.c:201-202 | a debug build calls main_run directly once and never engages the crash guard |
| MainEntry.DebugSteps | foundation/main.c:201-202 | with handler-phase steps only, a debug start holds one direct run and no guard step |
| MainEntry.EntryReleaseRun | foundation/main.c:204-220 | a release build never calls main_run directly; it runs once under the crash guard with the guard name, and registers the dump callback first exactly when there is one |
| MainEntry.ReleaseSteps | foundation/main.c:214-217 | with handler-phase steps only, a release start holds one guarded run, no direct run, and a dump registration exactly when requested |
| MainEntry.EntryInitFailure | foundation/main.c:149-150 | when initialisation fails, entry returns -1 without marking the main thread, running or shutting down |
| MainEntry.WillTerminate | foundation/main.c:267-288 | teardown posts the core terminate event first and shuts the core down last, with every step in strictly increasing order and the bundle released only when there is one |
| MainEntry.WillTerminateOrdering | foundation/main.c:267-288 | pending events are pumped before services terminate, the bundle is released before core shutdown, and exactly one core terminate event and no foundation event is posted |
| MainEntry.TeardownPosts | foundation/main.c:269 | teardown posts the core terminate event exactly once and never the foundation one |
| MainEntry.TeardownSteps | foundation/main.c:271-279 | events are pumped second, services terminate fourth, and the bundle, when held, is released right after them |
| TestHarness.AnyFailsSnoc | test/test/test.c:127-131 | running one more test makes the run failed exactly when that test or an earlier one failed |
| TestHarness.FindGroupFrom | test/test/test.c:75-81 | the group search returns the first group of the wanted name, or none |
| TestHarness.FindGroup | test/test/test.c:75-81 | registration settles on the first group named group_name, if one exists |
| TestHarness.FindGroupIs | test/test/test.c:75-81 | the first group with the name is the one found |
| TestHarness.AddTest | test/test/test.c:69-95 | an existing group name adds no group; a new name appends exactly one group at the end holding just the case; group names and positions are unchanged |
| TestHarness.AddTestGroups | test/test/test.c:83-88 | the group count grows by at most one, and by one exactly when no group had the name |
| TestHarness.AddTestUnique | test/test/test.c:75-88 | group names stay unique |
| TestHarness.AddTestCases | test/test/test.c:90-94 | the case is appended at the end of its group's cases, and every other group's cases are unchanged |
| TestHarness.FlattenAppend | test/test/test.c:121-124 | running two registries back to back runs each in turn |
| TestHarness.FlattenAround | test/test/test.c:121-124 | the run of a registry is the groups before one group, that group's cases, then the groups after it |
| TestHarness.AddTestFlatten | test/test/test.c:69-95 | registration adds exactly the new case to the suite's run and loses none |
| TestHarness.AddTestCount | test/test/test.c:69-95 | each registration increases the total number of cases by exactly one |
| TestHarness.DeclaredTests | test/test/test.c:174 | the suite's declarations give one test each |
| TestHarness.DeclareUnique | test/test/test.c:174 | a declared registry never holds two groups of one name |
| TestHarness.DeclareKeepsOrder | test/test/test.c:90-94 | each group holds exactly the tests declared under its name, in declaration order |
| TestHarness.DeclareRunsAll | test/test/test.c:121-127 | the suite runs every declared test, each as often as it was declared |
| TestHarness.DeclaredTestsAt | test/test/test.c:174 | the declared tests are the declarations' tests, position by position |
| TestHarness.FlattenPrefix | test/test/test.c:121-124 | after the first n groups, group n's cases are run next |
| TestHarness.Run | test/test/test.c:97-155 | visits groups in order and cases in order within each group; the failure flag starts clear and ends set exactly when some case failed |
| TestHarness.Free | test/test/test.c:157-168 | after freeing, the registry has no groups and no cases |
| TestHarness.RunAll | test/test/test.c:170-185 | failed initialisation returns -1 with nothing run; otherwise every declared test runs and the result is -1 exactly when one failed, and 0 exactly when none did |
| TestHarness.PassingSuite | test/test/test.c:180-184 | a suite whose every declared test passes has no failure, so it exits with 0 |
| TestHarness.ErrorHandler | test/test/test.c:278-288 | the error callback returns 0 for every non-panic level, and only a panic ends the process, with -2 |

## Left out

- Atomic loads and compare-and-swap in the hash tables. The model is sequential, so a slot claimed by CAS is simply written. Concurrent writers are not modelled.
- HashTable.Set: requires that some slot on the table holds the key or is free (`CanSet`). On a full table the source spins forever in `thread_yield` until another thread frees a slot, and that cannot happen in a sequential model.
- HashTable.Set, HashTable.Get, HashTable.Erase: the `FOUNDATION_ASSERT`s on the key (and on the value for set) become preconditions `key != 0` and `value != 0`.
- HashTable.Get, HashTable.Set, HashTable.Erase: a capacity of zero is excluded by precondition. The source divides by the capacity, which is undefined for zero.
- HashTable.Raw: requires a slot index below the capacity. The source reads out of bounds otherwise.
- HashTable.Set: keys are bounded to the table's word width through `IsWord`, but values and capacities are unbounded naturals. The source's `uint32_t`/`uint64_t` value and `unsigned int` capacity widths are not modelled.
- Allocation, deallocation, `memset` and finalisation of the tables. `hashtable32_allocate`/`deallocate`/`finalize` only manage memory, which the model does not have. Initialisation is modelled as all slots zeroed.
- MurmurHash.Hash: does not prove that the finalisers are bijections on their word width. Only the image bound, the zero case and known answers are stated.
- The Apple and Android entry branches: the Cocoa/UIKit event loops, `android_main` and the bundle release after shutdown. Only Windows (GUI and console) and generic POSIX are modelled.
- Logging and `GetProcessShutdownParameters` are dropped entirely; neither appears in any trace.
- The OS-level signal and console-handler registration, `SetProcessShutdownParameters`, `thread_sleep` and `string_deallocate` of the guard name are not executed; they appear only as named steps in the traces.
- The bodies of `main_initialize`, `main_run`, `crash_guard`, `app_pump_events`, `core_terminate_services` and the other services these entry points call. Their results are parameters, or they are steps of the trace.
- `test_event_thread`, thread start/signal/finalize in `test_run`, and the `process_exit` calls in the crash and panic paths. These are concurrency or process termination. The panic path is reduced to an outcome value.
- The monolithic build's `test_should_terminate` early exit from `test_run`.
- The call to `process_set_exit_code(-1)` in `test_run_all`. Only the returned code is modelled.
- The suite's `initialize`, `declare` and `finalize` callbacks. Initialisation is a status parameter, and declaration is a given sequence of registrations.
