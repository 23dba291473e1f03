# openkal: the conformance suite and the interface's contracts, verified

openkal is a specification written as C headers, with a conformance suite and a portable example
that run real code against it. This project models the algorithms that the suite and the example
build above the interface, and the state machines the headers state, and proves what they are
for. Each `.dfy` file is one component:

- `AtomicLock`: one lock that is free or held by one context, around a counter. It is what both
  mutexes are proved against.
- `SuiteLock`, `SuiteProgram`: the suite's three-state mutex and the contexts that increment
  through it, as a step system and as code on shared fields.
- `PortableLock`, `PortableProgram`: the portable example's lock, a different algorithm, and the
  contexts that count through it.
- `SlotClaim`: contexts that claim slots of a table by compare-exchange.
- `Handshake`: the context that sets a word and wakes, and the one that waits for it.
- `ExecPages`: executable regions, as pages that are reserved, written, published, sealed, made a
  file's and released.
- `RegionPages`: reserved ranges, backed part by part, with a charging and an overcommitting
  implementation against a specification by history.
- `Attenuation`: directory handles that give less than the handle they derive from, one call at a
  time; `Changes`: what a change does and when it is granted, as enquiries tell; `Notes`: what calls
  through recorded handles add to the records; `Parties`: two programs on one tree, over any
  interleaving of their calls and of the writing of their records.
- `Record`: the record of reached names, the scanner that counts an entry, and a recorder.
- `LocateSelf`: the choice of a supplied directory by longest prefix at a component boundary.
- `Printers`: the number printers that fill a buffer from its end.
- `Patterns`: the byte patterns the suite writes and compares, and their periods.
- `TouchLog`: the record of first executions, taken in batches.
- `Channel`: the kit's ring of bytes between a context that writes and one that reads.
- `Endpoint`: the kit's endpoints as text, parsed and formatted.
- `Steps`, `Sums`: the steps of the two locks' runs, and sums of sequences for the measures.

In the two locks, the table, the handshake and the channel, one step is one access to a shared
word. The comparison and the suspension of `kal_task_wait` are one step, a wake releases at most
one sleeper of the environment's choosing, and a suspended context may return although nobody woke
it. The increment under the lock is two steps, a read and a write. A run is any sequence of enabled
steps, for any number of contexts and any number of increments. The shared-field classes carry the
same accesses out as code, under a scheduler that picks any context each time, and end.

The two lock modules prove the same theorems of two algorithms, so their statements read alike;
the steps, the invariants and the measures under them differ.

Where a header leaves an outcome open, the call carries the environment's choice and every theorem
holds for each choice.

## Readings

- `kal_task_wake` states an upper bound on how many contexts it wakes. What is kept safe in the
  locks and the channel holds also where a wake takes nobody while somebody sleeps. Progress does
  not (`SuiteLock.WakeOfNobodyStrands`), and is stated of runs in which a wake takes a sleeper
  where there is one; in the handshake every wake does.
- "Suspended implies the word is 2" is false of both locks; a run that breaks it is given for each,
  beside the condition that does hold.
- The comment on `count_entry` speaks of an entry with its NUL, and the code also counts a last
  entry whose NUL is missing. The code is modelled, with the exact condition under which the two
  differ.
- `exec.h` says of a file's part that it is not published "unless it was made the file's to be
  written" at one place and that such a part is "never executed" at another. Publishing any part
  of a file is refused here, so that the second holds.
- `exec.h` names no error for mapping a part that is sealed for ever or is a file's already, nor
  for a part outside its region, nor for publishing a part twice. These are refused, with an error
  of the environment's choosing. Whether sealing a file's executed part takes its execution away
  is the environment's choice.
- `exec.h` says that where `KAL_EXEC_PROP_REPUBLISH` is set a region may be reserved again for
  writing and published again, and names no call that does it. It is modelled as a call of its own
  (`Reopen`), granted only where the position is set, by the environment's choice, of a part that
  is published, not a file's and not sealed for ever; the part is not executable meanwhile and
  keeps its bytes.
- `fs.h` lets a handle that states that nothing changes answer from what was read before. "The same
  answers as the original" is therefore false of a handle that newly states it after a change
  (`Parties.StaleAnswer`), and is proved with the exact condition.
- `exec.h` leaves open whether a change of a mapped file shows in a part. A change may show in any
  page that is a file's and that the program has not written itself.
- `fs.h` says what is recorded of a name opened for reading, written, asked about, absent or listed.
  What is recorded, if anything, of a directory opened and of a call that fails otherwise is the
  environment's choice. An entry is recorded once for each record file, kind and name in a program.
- `exec.h` gives no outcome for reserving no bytes with `kal_exec_alloc`, nor for releasing what is
  not reserved. Both are refused here.
- `prof.h` does not say what becomes of recorded addresses at an end of recording. They stay to be
  taken.
- `channel.cppm` says that zero with the channel still open cannot occur and that no bytes are lost
  at a close. The second is false, and so is it that a close wakes whoever waits; both are given
  with an input and the exact condition. `endpoint.cppm` calls the formatter the parser's inverse,
  which is true of ports below 1000.
- The patterns are computed in a 64-bit word. They have period 251 only while the product does not
  wrap; the theorems say exactly what happens where it does.

## Model

| member | source | states |
|---|---|---|
| `AtomicLock.Conservation` | conformance/src/sections/task.cpp:52-58 | in every run of the atomic lock, increments counted plus increments still owed never change |
| `AtomicLock.RoundsAreWhole` | conformance/src/sections/task.cpp:53-57 | in every run, each context's acquisitions, increments and releases match one to one, but for the round it is in the middle of, and its releases are what it no longer owes |
| `AtomicLock.EachDoesItsShare` | conformance/src/sections/task.cpp:47-58 | a run that ends with nothing owed gave every context exactly K acquisitions, K increments and K releases |
| `SuiteLock.StepRefines` | conformance/src/sections/task.cpp:26-58 | each access, each wake, whether or not it takes a sleeper, and each spurious return is one allowed event of the atomic lock (or none): acquisition at the successful compare-exchange or the exchange that found 0, release at the exchange to 0; and the invariant holds again |
| `SuiteLock.RunRefines` | conformance/src/sections/task.cpp:26-58 | every run of N contexts, spurious returns and wakes that take nobody included, is a run of the atomic lock with the same counter and the same rounds left |
| `SuiteLock.MutualExclusion` | conformance/src/sections/task.cpp:26-45 | in every reachable state at most one context is between its lock and its unlock, and then the word is not 0 |
| `SuiteLock.CounterIsExact` | conformance/src/sections/task.cpp:47-58 | in every reachable state the counter is the number of increments completed, although the increment is a read and a write, and a value read under the lock is current when it is written back |
| `SuiteLock.UncontendedIsQuick` | conformance/src/sections/task.cpp:22-45 | in every run in which no context finds the word taken, none waits and no unlock wakes anyone |
| `SuiteLock.NoLostWakeUpEver` | conformance/src/sections/task.cpp:29-44 | where every wake takes a sleeper if there is one, and while a context sleeps, the word is 2, or a context is between its unlock exchange and its wake, or an awake context is about to exchange 2 |
| `SuiteLock.SleeperWithClearWord` | conformance/src/sections/task.cpp:40-43 | a run in which a context sleeps while the word is 0: the simpler invariant is false |
| `SuiteLock.WakeOfNobodyStrands` | include/openkal/task.h:208-210 | a run with a wake that takes nobody, at whose end a context sleeps, its increment not made, with no step left but a spurious return |
| `SuiteLock.StepDrops` | conformance/src/sections/task.cpp:29-58 | every access and every wake lowers the measure (unlocks left, then a rank of each context that depends on the word) |
| `SuiteLock.SpuriousCost` | include/openkal/task.h:201-206 | a spurious return raises the measure by exactly 3 |
| `SuiteLock.RunsAreFinite` | conformance/src/sections/task.cpp:26-58 | a run of N contexts making K increments has at most (8N+1)NK + 4N steps and 4 more for each spurious return |
| `SuiteLock.RunsEndWithTheExactCount` | conformance/src/sections/task.cpp:26-58 | where every wake takes a sleeper if there is one, and no step but a spurious return is enabled, every context has finished, the word is 0 and the counter is N*K: no run gets stuck |
| `SuiteLock.EachContextDoesItsShare` | conformance/src/sections/task.cpp:52-58 | at the end of every such run each context has acquired, incremented and released exactly K times |
| `SuiteProgram.Contexts.ScheduleOne` | conformance/src/sections/task.cpp:26-58 | one turn for any awake context keeps the refinement and what is owed, and lowers the measure |
| `SuiteProgram.Contexts.RunAll` | conformance/src/sections/task.cpp:26-58 | under any scheduling and up to any number of spurious returns the program terminates with every context finished, the word 0 and the counter N*K |
| `PortableLock.WrappedIsModulo` | examples/portable/src/main.cpp:75-76 | a 64-bit counter incremented n times from 0 holds n modulo 2^64 |
| `PortableLock.StepRefines` | examples/portable/src/main.cpp:81-107 | each access, each wake, whether or not it takes a sleeper, and each spurious return is one allowed event of the atomic lock (or none); the release takes effect at the fetch_sub when it saw 1 and at the store of 0 otherwise |
| `PortableLock.RunRefines` | examples/portable/src/main.cpp:75-107 | every run of N contexts, spurious returns and wakes that take nobody included, is a run of the atomic lock with the same rounds left and the same counter in its width |
| `PortableLock.MutualExclusion` | examples/portable/src/main.cpp:86-103 | in every reachable state at most one context holds the lock, a releaser between its fetch_sub and its store still counted, and then the word is not 0 |
| `PortableLock.FetchSubNeverUnderflows` | examples/portable/src/main.cpp:96-103 | in every run the fetch_sub finds 1 or 2, leaves one less, and is the atomic release exactly when it found 1 |
| `PortableLock.CounterIsExact` | examples/portable/src/main.cpp:105-107 | in every reachable state the counter is the number of increments completed, modulo 2^64, and a value read under the lock is current when it is written back |
| `PortableLock.UncontendedIsQuick` | examples/portable/src/main.cpp:86-103 | in every run in which no context finds the word taken, none enters the slow loop, and no release stores or wakes |
| `PortableLock.NoLostWakeUpEver` | examples/portable/src/main.cpp:86-103 | where every wake takes a sleeper if there is one, and while a context sleeps, the word is 2, or a releaser is between its fetch_sub and its wake, or an awake context is in the slow loop |
| `PortableLock.SleeperInsideRelease` | examples/portable/src/main.cpp:96-101 | a run in which a context sleeps while the word is 1, between the fetch_sub and the store |
| `PortableLock.WordChangeCounts` | examples/portable/src/main.cpp:81-103 | every change of the word, the one from 2 to 1 inside release included, uses up one of at most five for each round left |
| `PortableLock.StepDrops` | examples/portable/src/main.cpp:81-107 | every access and every wake lowers the measure (changes of the word left, then a rank of each context, stale loads and failed compare-exchanges included) |
| `PortableLock.SpuriousCost` | include/openkal/task.h:201-206 | a spurious return raises the measure by at most 3 |
| `PortableLock.RunsAreFinite` | examples/portable/src/main.cpp:75-107 | a run of N contexts making K increments has at most (8N+1)(5NK+4) + 4N steps and 4 more for each spurious return |
| `PortableLock.RunsEndWithTheExactCount` | examples/portable/src/main.cpp:75-107 | where every wake takes a sleeper if there is one, and no step but a spurious return is enabled, every context has finished, the word is 0 and the counter is N*K modulo 2^64 |
| `PortableLock.EachContextDoesItsShare` | examples/portable/src/main.cpp:105-107 | at the end of every such run each context has acquired, incremented and released exactly K times |
| `PortableProgram.Contexts.ScheduleOne` | examples/portable/src/main.cpp:86-107 | one turn for any awake context keeps the refinement and what is owed, and lowers the measure |
| `PortableProgram.Contexts.RunAll` | examples/portable/src/main.cpp:75-107 | under any scheduling and up to any number of spurious returns the program terminates with every context finished, the word 0 and the counter N*K modulo 2^64 |
| `SlotClaim.ClaimsAreInjective` | conformance/src/sections/task.cpp:84-93 | in every reachable state the claims are by distinct contexts, one for each position below the next one, and a slot that holds an identity holds its claimant's |
| `SlotClaim.FailureHasACause` | conformance/src/sections/task.cpp:90-91 | a compare-exchange fails only where another context has claimed the slot it was after |
| `SlotClaim.FailuresAreBounded` | conformance/src/sections/task.cpp:90-91 | in every run the failed attempts number at most N-1 for each claim |
| `SlotClaim.RunsAreFinite` | conformance/src/sections/task.cpp:88-93 | a run of N contexts on a table has at most 2 N slots + 3 N steps |
| `SlotClaim.AllDoneFillsMin` | conformance/src/sections/task.cpp:84-93 | when nothing can move, exactly min(N, slots) slots hold an identity, each its claimant's, and the rest are empty |
| `SlotClaim.Contexts.ScheduleOne` | conformance/src/sections/task.cpp:88-93 | one turn for any context keeps the invariant and lowers the measure |
| `SlotClaim.Contexts.RunAll` | conformance/src/sections/task.cpp:84-93 | under any scheduling all contexts return and the table is filled up to min(N, slots) |
| `Handshake.ExitSeesTheSetter` | conformance/src/sections/task.cpp:64-70 | in every interleaving, past the waiting loop the flag is 1 and the identity is stored, and no context is asleep once the setter has finished its wake |
| `Handshake.HandshakeCompletes` | conformance/src/sections/task.cpp:190-205 | every interleaving has at most 14 steps and 3 more for each spurious return, and ends with both finished and the flag read as 1 |
| `Handshake.Cells.RunBoth` | conformance/src/sections/task.cpp:190-205 | under any scheduling and up to any number of spurious returns both contexts finish and the identity is there |
| `ExecPages.CallKeepsValid` | include/openkal/exec.h:28-212 | every call, granted or refused, keeps each page of its region's size, in its region, never writable and executable, never writable while it is published (until it is let be written again, where republishing is provided) or once sealed for ever |
| `ExecPages.NeverBoth` | include/openkal/exec.h:15-19 | over every sequence of calls no page is ever writable and executable |
| `ExecPages.SealedForEver` | include/openkal/exec.h:106-114 | a page sealed for ever keeps its protection, its mapping and its address for the rest of every run, releases included, and its bytes where they are not a file's |
| `ExecPages.SealedBytesStayIfOwn` | include/openkal/exec.h:160-163 | what a page sealed for ever holds stays the same in every run if and only if it is the program's own: a change of a mapped file may show |
| `ExecPages.SealedForEverRefuses` | include/openkal/exec.h:106-114 | after any run every call that would change such a page, letting it be written again included, is refused, publishing and sealing with the permission error |
| `ExecPages.FrozenBytes` | include/openkal/exec.h:72-95 | a page that is not writable is never written again, and keeps its bytes where they are not a file's, over every run in which no granted call releases it, makes it a file's or, where republishing is provided, lets it be written again |
| `ExecPages.RepublishedIsRewritten` | include/openkal/exec.h:207-212 | where republishing is provided and granted, any byte of a published page can be written and is what is executed once the page is published again, and nothing else changes |
| `ExecPages.FileNeverGainsExecution` | include/openkal/exec.h:174-178 | a page made a file's without execution is never executed in any run that does not release it; a release of a region with a part sealed for ever releases nothing and may occur |
| `ExecPages.PublishedAtMostOnce` | include/openkal/exec.h:93-95 | where republishing is not provided a page is published at most once in any run that does not release it, and not at all once it is published or a file's; a release that releases nothing may occur |
| `ExecPages.ReservationIsFresh` | include/openkal/exec.h:28-47 | a granted reservation gives pages nobody held, writable, not executable and zero, and leaves every other page alone |
| `ExecPages.PublishAndSealKeepBytes` | include/openkal/exec.h:80-120 | publishing and sealing leave every byte and every page outside the part as they were, and set the part's protection as stated |
| `ExecPages.MapReplacesItsPart` | include/openkal/exec.h:133-160 | a granted map makes each page of the part the file's bytes at its distance, with the protection asked for, and changes nothing else |
| `ExecPages.StoreIsOfWritable` | include/openkal/exec.h:180-192 | a byte of a page that may be written is written and no other, and the page is then the program's own copy; of any other page it is not |
| `ExecPages.FreeReleases` | include/openkal/exec.h:201-203 | after any run, releasing a region with no part sealed for ever leaves none of its pages and no trace of it, and every other page and region as it was |
| `ExecPages.ReservedAgain` | include/openkal/exec.h:49-70 | after any run, what was released is reserved again at the same address wherever the environment grants it, and holds none of what the old region did |
| `ExecPages.PartOfPagesIsInvalid` | include/openkal/exec.h:91-95 | a part that is not of whole pages is refused as invalid by a publication, a seal and a map, whatever else is wrong with it |
| `ExecPages.SealIsRefused` | include/openkal/exec.h:106-118 | a seal with a flag not assigned is invalid, and one of a part with a page sealed for ever lacks permission |
| `ExecPages.MapIsRefused` | include/openkal/exec.h:149-159 | each ground the header names for refusing a map, with its error: not provided, malformed in any of seven ways, a file not opened to read, a volume that cannot be mapped |
| `ExecPages.PlaceIsRefused` | include/openkal/exec.h:66-70 | no region is reserved at an address where placing is not provided, the address is not of the quantum of reservation, the size is zero or something is there |
| `ExecPages.SoundCallIsGranted` | include/openkal/exec.h:80-160 | a publication, a seal or a map against which none of the grounds for refusal stands is granted, if the environment grants it |
| `ExecPages.AddressSpace.Perform` | include/openkal/exec.h:28-203 | any call as code: it answers and does what the theorems above say of it, a refused call changes nothing, and no page is writable and executable afterwards |
| `ExecPages.AddressSpace.ReservePages` | include/openkal/exec.h:28-70 | the loop that reserves a region makes exactly its pages, fresh |
| `ExecPages.AddressSpace.ChangePart` | include/openkal/exec.h:80-160 | the loop that publishes, seals or maps changes exactly the pages of the part |
| `RegionPages.StepConforms` | include/openkal/region.h:70-95 | after any call, write or reclaiming, either implementation again holds what the history says of every byte |
| `RegionPages.ReadsWhatTheHistorySays` | include/openkal/region.h:66-95 | after any well-behaved run a backed byte reads its last write since its page was last decommitted, zero if there is none, and after a discard the old byte or zero until it is written |
| `RegionPages.CallIsOfItsPages` | include/openkal/region.h:71-95 | what each call of whole pages means for a byte of a page it covers, and that it means nothing for any other byte, nor where it is not granted |
| `RegionPages.EitherMayBeRead` | include/openkal/region.h:88-95 | a discarded byte reads as it was until the environment takes its page back, and as zero from then on |
| `RegionPages.OvercommitIsIndistinguishable` | include/openkal/region.h:44-51 | over every sequence of calls that touches only what is backed, an overcommitting implementation and a charging one give the same answers if and only if every backing asked for is granted |
| `RegionPages.NoProgramCanTell` | include/openkal/region.h:44-51 | every program that chooses each request by all the answers it has been given, and touches only what is backed, is answered alike by an overcommitting and a charging implementation under the same environment if and only if the charging one is granted every backing it asks for, and then makes the same requests of both |
| `RegionPages.ReservedRange.constructor` | include/openkal/region.h:57-68 | a reserved range reads as zero where it is backed at once |
| `RegionPages.ReservedRange.Perform` | include/openkal/region.h:71-95 | commit, decommit and discard as code on either implementation: invalid if the part is not of whole pages, out of memory if backing is charged and there is none, and done otherwise; exactly the pages of the part are backed, zero where they were not, or given back; the history is extended, and a refused call changes nothing |
| `RegionPages.ReservedRange.Store` | include/openkal/region.h:71-75 | a write keeps the range in step with its history |
| `RegionPages.ReservedRange.Load` | include/openkal/region.h:71-95 | a read of a backed byte returns what the history says |
| `RegionPages.ReservedRange.Reclaims` | include/openkal/region.h:88-95 | the environment may take a discarded page back at any time |
| `Attenuation.MovedNodes` | include/openkal/fs.h:373-374 | a rename takes a node with everything beneath it to its new place and leaves every other node where it was |
| `Attenuation.OldPlaceIsEmpty` | include/openkal/fs.h:373-374 | after a rename nothing is left at the old place or beneath it |
| `Attenuation.NothingElseAppears` | include/openkal/fs.h:373-374 | every node after a rename was there before, at its own place or at the place it moved from |
| `Attenuation.ChangeKeepsTree` | include/openkal/fs.h:355-397 | every write, creation, removal and rename leaves a tree, and a refused one changes nothing; what a granted one does is stated in `Changes` |
| `Changes.EnquiriesAgree` | include/openkal/fs.h:342-363 | reading, asking, listing and opening answer of one thing: a name is absent, or a file of the length of its content, or a directory that lists exactly the names beneath it |
| `Changes.NamedIsChanged` | include/openkal/fs.h:355-397 | after a granted removal the name is absent; after a write it reads as written; after a making it is a directory and lists nothing; after a rename the old name is absent, with all that was beneath, and the new one is, reads and lists what the old did, with all that was beneath |
| `Changes.ElsewhereIsSame` | include/openkal/fs.h:355-397 | after any change every name neither at nor beneath one it is of is answered as before, and lists what it did unless it is the directory just above |
| `Changes.AnsweredByWhatIsThere` | include/openkal/fs.h:355-397 | exactly when each change is granted and with what error it is refused otherwise, by what the enquiries answer beforehand |
| `Changes.DoneIsSeen` | conformance/src/sections/fs.cpp:592-598 | a change answered as done is seen, and nothing else is, in every enquiry made afterwards through any handle that reaches the name and does not state that nothing changes |
| `Parties.AlwaysATree` | include/openkal/fs.h:355-397 | the tree is a tree after every interleaving of two parties |
| `Attenuation.ReadOnlyCall` | include/openkal/fs.h:655-660 | through read-only handles no call changes the tree, and what it derives is read-only |
| `Attenuation.AttenuationIsAnswered` | include/openkal/fs.h:700-706 | an attenuation is answered with the error stated or with a new handle, and changes nothing else |
| `Attenuation.AttenuatedReachesTheSame` | include/openkal/fs.h:642-648 | an attenuated handle answers every enquiry, when it is derived, as the handle it was derived from answers the same name |
| `Attenuation.AttenuatedChangesTheSame` | include/openkal/fs.h:671-674 | and makes every change the other makes, with the same answer, unless it was derived read-only |
| `Attenuation.OpenedIsTheDirectory` | include/openkal/fs.h:674 | the handle of a directory opened answers every enquiry, and makes every change, as the handle it was opened from does of the longer name |
| `Parties.WithdrawnForGood` | conformance/src/sections/fs.cpp:153-198 | over every run of both programs: once a handle was derived read-only, every change asked through it or through any handle derived from it, by attenuating or opening, to any depth, is refused, as lacking permission where the names are allowed, and the tree is as it was |
| `Parties.StatedForGood` | include/openkal/fs.h:661-666 | over every run of both programs: once a handle was derived with the statement that nothing changes, an enquiry through it or through any handle derived from it may be answered from any tree there has been since, whatever was changed |
| `Parties.UnstatedIsCurrent` | include/openkal/fs.h:661-674 | over every run: a program that states nothing, with handles of which nothing is stated, is answered from the tree as it is through every handle it derives |
| `Parties.GuestLeavesNoTrace` | include/openkal/fs.h:655-694 | erasing from any interleaving all acts of a party that holds only read-only handles changes neither the tree's history, nor the other party's handles and lines in the records, nor any answer it is given of the tree; nor any answer at all, if and only if it never reads a record the erased party has written to |
| `Parties.UnrecordedGuestIsNotSeen` | include/openkal/fs.h:655-660 | a party of read-only handles that are not recorded, and that asks for no record, leaves nothing at all for the other to see |
| `Parties.DerivationOnlyTakesAway` | include/openkal/fs.h:672-676 | over every run, by any mixture and depth of attenuating and opening, each handle held derives from one given: it reaches no further, has no right more, and has every statement: that nothing changes, and each record it is reached under |
| `Attenuation.AnswersAgree` | include/openkal/fs.h:655-666 | a derived handle answers every enquiry as the handle it derives from answers the longer name, as long as what it states and that one does not has held: nothing beneath it differs from what it was since it was stated |
| `Attenuation.AnswersTell` | include/openkal/fs.h:661-666 | and only as long: where every node has a name that may be written and every enquiry is answered alike, what the handle states has held |
| `Parties.GuestReadsAsTheOriginal` | include/openkal/fs.h:648-676 | after any run of both parties, the host changing the tree in between, each handle the guest holds derives from one it was given and is answered in every enquiry as that one, if and only if what it newly states has held (only if: where every node has a name that may be written) |
| `Parties.GuestAloneReadsAsTheOriginal` | include/openkal/fs.h:648-676 | a party of read-only handles that acts alone leaves the tree as it was and is answered, through each handle, as through the one it derives from |
| `Parties.StaleAnswer` | include/openkal/fs.h:661-666 | a run after which a handle that newly states that nothing changes answers that a name is absent which the original reads |
| `Parties.RecordsAreExact` | include/openkal/fs.h:678-688 | over every interleaving of calls and of the writing of batches, the records hold, or have waiting, exactly the entries each program reached through a recorded handle, each once in the program |
| `Parties.NothingEscapesTheRecord` | include/openkal/fs.h:668-684 | after any run, what is found by a name through a handle derived in any way is noted in every record of the handle it derives from, by the name relative to the directory that was attenuated, with the kind the header gives for what was asked and found (where it gives none, the implementation's) |
| `Parties.RecordedFromThere` | include/openkal/fs.h:668-684 | over every run of both programs: once a handle was derived with a record, what is found through it or through any handle derived from it is noted in that record with the kind the header gives, by the name relative to the directory that was attenuated |
| `Parties.CountIsAsFound` | conformance/src/sections/fs.cpp:213-244 | after any run of two programs and the writing of all that waits, the suite's scanner counts an entry once for each program of which some call reached that name through a handle recorded there and found what the kind says, and not at all for a kind that no call of that name gave |
| `Parties.ReachedIsShown` | include/openkal/fs.h:678-684 | what a run adds to the records is what was asked and found says: `r` where a read gave content, `a` where the name was absent, `s` where it was asked about and present, `l` where it was listed, `w` where a change was done |
| `Parties.CountIsReached` | conformance/src/sections/fs.cpp:213-244 | once all that waits is written, the suite's scanner counts an entry once for each program that reached it, after any run of two programs |
| `Notes.GuestLengthens` | include/openkal/fs.h:678-688 | a record holds what it would without one of its programs exactly where that program has written nothing to it |
| `Notes.OfRecordsHas` | include/openkal/fs.h:678-684 | a call through a recorded handle adds one entry for each kind to each record of the handle, and no other |
| `Notes.MarksAreAsFound` | include/openkal/fs.h:678-684 | the kinds recorded of a call are exactly those that what was asked and found gives, and the implementation's where the header gives none |
| `Notes.JoinedIsSplit` | include/openkal/fs.h:678-680 | a record's name is the components with separators between, and they can be told from it; the directory itself is `.` |
| `Attenuation.Holder.Attenuate` | include/openkal/fs.h:655-706 | attenuation as code: refused with the error stated and nothing derived, or one handle more, on the same directory, read-only if and only if the original is or it was asked, stating that nothing changes if and only if the original does or it was asked, with the original's records and the one asked for |
| `Record.FindEnd` | conformance/src/sections/fs.cpp:60-61 | the inner loop finds the first NUL at or after a position, or the end |
| `Record.IsEntry` | conformance/src/sections/fs.cpp:62-65 | the test of a piece is true exactly when the piece is the kind followed by the name |
| `Record.CountEntry` | conformance/src/sections/fs.cpp:56-70 | over any bytes the scanner returns how often the kind followed by the name occurs among the pieces between NULs |
| `Record.CountIsMultiplicity` | conformance/src/sections/fs.cpp:54-70 | on the encoding of any entries the count is the multiplicity of the entry |
| `Record.CountIsAdditive` | include/openkal/fs.h:685-691 | on the batches of several programs, each of whole entries, in any order of writing, the count is the sum of the batches' counts |
| `Record.CountsATruncatedEntry` | conformance/src/sections/fs.cpp:54-70 | over any bytes the count is the number of entries with their NUL, and one more exactly when what follows the last NUL is the entry without it |
| `Record.TruncatedRecordIsCounted` | conformance/src/sections/fs.cpp:54-70 | a record in which the two differ |
| `Record.Recorder.Reach` | include/openkal/fs.h:678-684 | a program appends the entry of each distinct kind and name once |
| `Record.Recorder.Observe` | conformance/src/sections/fs.cpp:239-244 | what the suite observes of one program's record: 1 for what was reached and 0 for what was not |
| `LocateSelf.PrefixAtBoundary` | conformance/src/sections/child.cpp:318-327 | true exactly when the name is a non-empty prefix that ends at a component boundary |
| `LocateSelf.BoundaryIsWhatFollows` | conformance/src/sections/child.cpp:318-327 | a name is such a prefix exactly where what follows it is nothing, or begins with a separator, or it ends with one itself |
| `LocateSelf.Locate` | conformance/src/sections/child.cpp:331-366 | the first of the longest matching directories is chosen, and the program's name is its name, then separators, then a result that begins with none; where none matches the result is the whole name, from the working directory |
| `LocateSelf.ChosenNameIsUnique` | conformance/src/sections/child.cpp:339-347 | over two orders of the same directories the name chosen is the same |
| `LocateSelf.OrderDoesNotMatter` | conformance/src/sections/child.cpp:339-347 | with distinct names the directory chosen is the same in every order, and every other match is shorter |
| `LocateSelf.ComponentsAreSplit` | conformance/src/sections/child.cpp:361-365 | the components of the program's name are those of the directory's name followed by those of the result |
| `Printers.DigitsParse` | conformance/src/report.cpp:27-34 | the digits of any number are canonical and parse back to it, in either base |
| `Printers.ParseDigits` | conformance/src/report.cpp:27-34 | every canonical string is the digits of what it parses to, so the digits are its only canonical form |
| `Printers.DigitsFit` | conformance/src/report.cpp:27-32 | a number below a power of the base has at most that many digits |
| `Printers.FillFromTheEnd` | conformance/src/report.cpp:29-34 | the loop leaves exactly the digits at the end of the buffer and every byte below them as it was |
| `Printers.PutSigned` | conformance/src/report.cpp:26-36 | for every 64-bit value, the most negative included, the output is its canonical decimal, signed, within the 24 bytes |
| `Printers.PutHex` | conformance/src/report.cpp:38-49 | for every 64-bit value the output is its canonical hexadecimal, within the 18 bytes |
| `Printers.SayUnsigned` | examples/portable/src/main.cpp:53-59 | for every 64-bit value the output is its canonical decimal, within the 24 bytes |
| `Patterns.AgreeModulo251` | conformance/src/sections/map.cpp:21-22 | no byte of a file is zero; positions hold the same byte exactly when they agree modulo 251, where the product has wrapped as often, and positions that agree modulo 251 hold different bytes where it has not |
| `Patterns.OneAlignmentOffDiffers` | conformance/src/sections/map.cpp:73-98 | a region mapped one alignment off differs from what is expected at every byte, also where the product wraps in between |
| `Patterns.PeriodBreaksAtTheWord` | conformance/src/sections/map.cpp:22 | past the width of the word two positions that agree modulo 251 hold different bytes |
| `Patterns.MakeMapFile` | conformance/src/sections/map.cpp:24-37 | every byte written is the pattern at its position, the short last block and a write taken only in part included, and a success has written the whole size |
| `Patterns.FillBlock` | conformance/src/sections/map.cpp:33 | the loop fills a block with the pattern from its position in the file |
| `Patterns.MakeExecFile` | conformance/src/sections/exec.cpp:110-124 | the file is two alignments long and holds the pattern, with the code at the second alignment |
| `Patterns.FillByteIsModulo256` | conformance/src/sections/region.cpp:22-24 | the byte computed in a machine word is the seed plus 13 times the distance, modulo 256, at every distance |
| `Patterns.Fill` | conformance/src/sections/region.cpp:22-24 | the bytes asked for hold the fill and no others change |
| `Patterns.Holds` | conformance/src/sections/region.cpp:26-30 | true exactly when the bytes are a fill with that seed |
| `Patterns.ReadsZero` | conformance/src/sections/region.cpp:17-20 | true exactly when every byte is zero |
| `Patterns.FilledFromTheMiddle` | conformance/src/sections/region.cpp:67 | what was filled with a seed holds from its k-th byte on with the seed 13k more, modulo 256, and with no other |
| `Patterns.FillRepeatsEvery256` | conformance/src/sections/region.cpp:22-24 | two bytes of a fill are equal exactly when their distance is a multiple of 256 |
| `TouchLog.FirstSeenIsOrdered` | include/openkal/prof.h:99-104 | the first occurrences hold every element once, in the order in which each first occurs |
| `TouchLog.Touches.Begin` | include/openkal/prof.h:118-121 | a part is added, and one place used, or it is refused with the error stated and nothing changes |
| `TouchLog.Touches.Execute` | include/openkal/prof.h:100-104 | a page of a part is recorded at its first execution and never again |
| `TouchLog.Touches.Take` | include/openkal/prof.h:104-106 | the oldest addresses not yet taken are moved out, as many as there are up to the count |
| `TouchLog.Touches.End` | include/openkal/prof.h:106-107 | recording stops in every part; what was recorded stays to be taken, which is a reading |
| `TouchLog.Touches.TakeAll` | include/openkal/prof.h:104-106 | over any sequence of takes with any counts, what is delivered and what is left are the record: nothing is lost, repeated or reordered |
| `TouchLog.Touches.DeliveredInFirstOrder` | include/openkal/prof.h:99-107 | in every recording, what is delivered after the earlier ones' record is a beginning of its first-execution order, and all of it when everything is taken |
| `Channel.StepKeeps` | kit/src/channel.cppm:86-176 | every access of a write, a read or a close keeps the ring in step with what was published and consumed, the bytes being copied in and out included, in thirty-two-bit indices that wrap; how much a read and a write take is stated below |
| `Channel.FirstInFirstOut` | kit/src/channel.cppm:86-162 | in every run of one writer and one reader the bytes consumed are the first of those published, in order, each once, and never more than 4096 lie between |
| `Channel.WriteReportsWhatItWrote` | kit/src/channel.cppm:81-120 | in every run, whatever ends it, a write reports how many of its caller's bytes, from the first, were published last, and reports fewer than it was given only where it finds the channel closed |
| `Channel.RoomIsFilled` | kit/src/channel.cppm:111-117 | in every run a write that finds room publishes at once all that is left of it, or all there is room for |
| `Channel.ReadReportsWhatItTook` | kit/src/channel.cppm:151-160 | in every run a read that returns bytes reports how many: at least one, no more than its caller gave room for, and the last consumed, which are those in the caller's buffer; fewer than there was room for only where all it saw is consumed |
| `Channel.NothingReadIsTheEnd` | kit/src/channel.cppm:123-150 | in every run, whatever ends it, a read with room returns nothing only where it finds the channel closed |
| `Channel.ClosedForGood` | kit/src/channel.cppm:163-176 | either end closes the channel before it wakes anyone, and it stays closed in every run |
| `Channel.NothingIsWrittenOnceClosed` | kit/src/channel.cppm:92-95 | once either end has closed and the writer is between its calls, no byte is published in any run that follows, and every write returns 0 |
| `Channel.EndOfInputIsTrue` | kit/src/channel.cppm:140-152 | in every run, where the reader reports the end of the input there is nothing unread if and only if `head` has not moved since it was loaded |
| `Channel.EndWithAByteUnread` | kit/src/channel.cppm:136-152 | a run in which the end of the input is reported with a byte unread: it was published, and the channel closed, after the indices were loaded |
| `Channel.NoByteStrands` | kit/src/channel.cppm:97-123 | where every wake takes a sleeper if there is one, a sleeping reader has nothing to read or is about to be woken, a sleeping writer has no room or is about to be woken, and never do both sleep |
| `Channel.CloseStrandsReader` | kit/src/channel.cppm:139-175 | after a writer's close has woken `head`, whatever follows but publishing and spurious returns, the reader ends asleep if and only if it then lay between its test of `closed` and its wait, with `head` as loaded |
| `Channel.CloseStrandsWriter` | kit/src/channel.cppm:95-176 | after a reader's close has woken `tail`, the writer ends asleep if and only if it then lay between its test of `closed` and its wait, with no room |
| `Channel.AsleepThroughTheClose` | kit/src/channel.cppm:139-176 | a run at whose end the channel is closed, the writer is done, and the reader sleeps with no step left to wake it |
| `Channel.SlotOfWord` | kit/src/channel.cppm:114-155 | the wrap of the thirty-two-bit index falls on a wrap of the ring, so that a place computed from the word is the byte's |
| `Endpoint.ReadNumber` | kit/src/endpoint.cppm:52-61 | the loop over one number reads it exactly where it is written with digits, no zero in front and no more than its bound, however early it gives up |
| `Endpoint.ReadAddress` | kit/src/endpoint.cppm:46-63 | the loop over the octets reads four numbers with points between |
| `Endpoint.ParseV4` | kit/src/endpoint.cppm:40-81 | the parser computes what is proved of it below |
| `Endpoint.ParsesExactly` | kit/src/endpoint.cppm:33-81 | a text is accepted, and read as an endpoint, if and only if it is the endpoint's address, or the address, a colon and the port, every number canonical and within its bound |
| `Endpoint.FormatV4` | kit/src/endpoint.cppm:100-122 | the formatter is refused for another kind of endpoint or too little room, and then writes nothing; otherwise it writes the address and the last three digits of the port and nothing beyond |
| `Endpoint.RoundTrips` | kit/src/endpoint.cppm:83-122 | what is formatted parses back to the endpoint if and only if its port is below 1000 |
| `Endpoint.LongPortIsLost` | kit/src/endpoint.cppm:107-120 | a port of 1000 or more is read back as its last three digits, or the text is refused where they begin with a zero |
| `Endpoint.FormatsBack` | kit/src/endpoint.cppm:83-122 | what is parsed formats back to the same text if and only if the port is below 1000 and is not written out as 0 |

## Left out

- Weak memory: each access of a shared word is one step in one order; the atomics' orderings are not modelled.
- Timeouts and real durations of `kal_task_wait`: every wait of the suite and the example asks for none.
- The suite's counter is a `long long`, modelled without a width: it never exceeds N*K, so it is exact where N*K fits. The portable example's counter is modelled in its 64 bits.
- The state another context could leave by ending inside a lock, recursive locking, and more than one lock.
- `kal_exec_publish` of a whole region, which is the publication of all its pages; `prefetch` and `bti`, which change time and enforcement and no bytes.
- `kal_region_reserve`'s checks of size, alignment and flags, `kal_region_release`, and several ranges at once: one range is modelled, from its reservation on.
- A decommit by an overcommitting implementation keeps the page usable without a commit; programs that touch such a page are not among those the theorems speak of, as the header leaves the access undefined.
- The suite's own scripts of calls over a range, a region and a directory, as whole scripts: the theorems are over every sequence of calls.
- Symbolic links, files held open and their streams, node times and modes, volumes' properties other than attenuation, what `kal_fs_props` says of a handle, closing a handle, and starting programs through a handle. A rename to the same name, or to one beneath what is moved, is refused here.
- The record: when a batch is written, by its size or at a close, is any time; the `e` entry at a program's end, where the record's own file lies in the tree, and the names' own length limit. Counting needs names without NUL, which is said where it is needed.
- The `int` and `long` of `count_entry`: a record is shorter than either can count.
- `locate_self`'s enquiry for its own name: a name that is missing, empty or too long for the buffer is refused, as an argument of the model.
- The "0x" in front of `put_hex` and the writing of a printer's output to a stream.
- `make_file`'s opening and closing of its file: how much of a write is taken is the environment's choice.
- Touch recording: what a page's first execution costs, and the widths of counts. Recording that begins anew after an end records a page again.
- The kit's channel: more than one context writing or reading at once, `channel_pending`, and the allocation and release of the ring. The kit's endpoints: a missing text or buffer, and the two endpoints written out as constants.
- Observable process units, the image loader and its notes: no source in the repository decides their behaviour.
- Sockets, terminals, clocks, randomness, process spawning, faults, stack bounds and priorities, whose content is the environment's; byte-range locks and shared mappings, whose outcomes the headers leave open; module wrappers, layout assertions and report counters.
