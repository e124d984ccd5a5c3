# dlopen-rs: a verified model

dlopen-rs loads ELF shared libraries in user space: it keeps its own registry of libraries, opens and unloads
them from many threads, boots a process as the dynamic loader, lays out static thread-local storage, searches
the ld.so cache, reads linker scripts, publishes the debugger's link map and runs exit handlers. This project
models that logic in Dafny and proves what it promises.

`dafny verify dfyconfig.toml` checks everything.

## What is modelled

**The registry** (`OrderedMap`, `OpenFlags`, `Registry`, `RegistryProofs`, `Removal`, `Unloading`, `HostOrder`,
`Registration`, `RelocationScope`, `Manager`). The manager's pending list, global scope, aliases, file
identities, committed graph and two 64-bit counters are a value with one function per operation; the class
`Manager` changes the same fields in place and is proved to compute those functions. The invariant says: no key is pending and committed;
an alias leads to a library exactly when that library is registered and lists it; identities lead to registered
keys; the global scope is exactly the committed libraries flagged RTLD_GLOBAL; additions less removals count the
registered libraries (modulo 2^64, as the counters wrap).

**The open protocol** (`OpenContext`, `OpenProtocol`, `DropSafety`, `DropEffect`, `ProtocolSafety`, `OpenRuns`,
`OpenLifecycle`, `StaleReservation`). A step system with any number of opens in flight, live handles with shared dependency
arrays, and a lock that is given up in exactly two places: when a name or file-identity lookup leads to a library
that another open has reserved, and for the relocation, after which an open reserves nothing more. The methods of
the class `OpenContext` are proved to perform these steps. A reservation is modelled as the code performs it in a
release build: it does not test the name again. That gives an exact result: *a step keeps the system safe if and
only if it is not a reservation of a name that is already a canonical key*, and a run is safe throughout if and
only if none of its reservations is. When the name check and the reservation happen under one unbroken lock the
condition always holds. `inode_fallback` can wait between the two; `StaleReservation` is a run of seventeen steps in
which that happens. Open 3 loads a file under the name y. Open 1 looks for x, which is free, but the file it finds
for x is the one being loaded as y, so it waits. Meanwhile open 2 reserves x for another file, and open 3 fails.
Open 1 wakes up, finds its file free, and reserves x a second time. Open 2 commits x with RTLD_NODELETE and hands
it out; open 1 fails, and its rollback unloads it.

**The bootstrap** (`Arithmetic`, `Relocations`, `CommandLine`, `StartupStack`, `DirectRun`): RELA and RELR
self-relocation of word memory with 64-bit wrapping, the option loop, the overlapping in-place rewrite of the
initial stack, and reading and patching the auxiliary vector.

**Static TLS** (`StaticTls`), **the ld.so cache** (`LdCache`), **linker scripts** (`LinkerScript`), **the debugger's
list** (`LinkMapList`) and **exit handlers** (`Destructors`) follow their source files one to one.

## Assumptions

- elf_loader is not part of this model. Assumed of it: a finished load hands over every name the open reserved,
  each module under its own shortname, and no name that another open has reserved; a dependency scope starts
  with its own library and lists committed libraries; a registered dependency is held by one more reference than
  those of the registry and the handles. The last matters only for the dependency loop of a drop.
- elf_loader's `LinkContext` is an insertion-ordered map from key to module, direct dependencies and metadata.
- Strong counts measured by a drop are parameters, bounded below by the references the model accounts for.
  `DropSafety.DropKeepsOtherRoots` needs no more than that.
- Steps of the protocol are atomic: each happens under the manager's lock.
- Open flags are sets of bits. Names and script text are sequences of characters, names in the cache are bytes;
  the constants of the cache are those of x86_64.
- An alignment mask is modelled arithmetically, for powers of two, which the code's alignments are.
- The fields `inner` and `dylib` of a pending entry are never filled in the code and are left out.

## Where the code and its own checks differ

- The reservation's debug assertion (src/core_impl/register.rs:283-287) states the guard that a release build
  does not test; see `ProtocolSafety.StepSafeIffGuarded` and `StaleReservation.StaleCheckUnloadsLiveLibrary`.
- Promoting a library that is already global with RTLD_NODELETE and RTLD_GLOBAL reaches `add_global` again
  (src/core_impl/register.rs:652-665), against the debug assertion at line 251. The model follows the release
  build; `RegistryProofs.PromoteGlobalScope` shows the second insertion changes nothing.
- Scope deduplication goes by shortname. It preserves every symbol lookup exactly when equal shortnames mean
  equal libraries; `RelocationScope.DeduplicationPreservesLookupIff` states both directions.
- The main arena is aligned to 4096 bytes only. A block in it is aligned exactly when the arena's base is, for
  its alignment; `StaticTls.ArenaBlockAlignedIff` states both directions.

## Model

| member | source | states |
|---|---|---|
| OpenFlags.NormalizedFlagsMeaning | src/core_impl/register.rs:699-710 | normalising adds RTLD_NODELETE exactly for names that contain one of the six names of the C runtime, and changes no other flag |
| OpenFlags.LastComponent | src/core_impl/loader.rs:159-167 | the part of a name after its last separator, and nothing more |
| OpenFlags.LastComponentOf | src/core_impl/loader.rs:159-167 | the file name, whatever the directory in front |
| OpenFlags.CompatAliasesApart | src/core_impl/register.rs:712-724 | no compatibility alias belongs to two libraries, and no alias has aliases of its own |
| Registry.Deduplicated | src/core_impl/register.rs:446-461 | direct dependencies are listed once each, none lost |
| RegistryProofs.DeduplicatedInOrder | src/core_impl/register.rs:446-461 | they stay in the order in which they are first needed |
| RegistryProofs.DirectDepsMeaning | src/core_impl/register.rs:446-461 | a library is a direct dependency exactly when some needed name leads to it, by key or by alias, once; they stand in the order of the first needed names that lead to them |
| RegistryProofs.DependencyListIsDetermined | src/core_impl/register.rs:446-461 | only one list is like that |
| RegistryProofs.CountersCountLibraries | src/core_impl/register.rs:417-423 | in every consistent registry, additions less removals are the number of pending plus committed libraries, modulo 2^64 |
| RegistryProofs.BumpAdds | src/core_impl/register.rs:260-294 | with wrapping counters, one more library keeps additions less removals exact, and a bump without a library breaks it |
| RegistryProofs.AddAliasKeepsInvariant | src/core_impl/register.rs:296-340 | adding an alias to a registered library keeps the invariant in every branch (own name, already listed, shadowed, taken) and changes only aliases and name lists |
| RegistryProofs.AddAliasesKeepsInvariant | src/core_impl/register.rs:296-340 | the same for a list of aliases |
| RegistryProofs.AddIdentityKeepsInvariant | src/core_impl/register.rs:342-345 | recording a file identity for a registered key, newest wins, keeps the invariant |
| RegistryProofs.AddReservationBreaks | src/core_impl/register.rs:282-294 | reserving a key that is already registered breaks the separation of pending and committed or the counters |
| RegistryProofs.ReservePendingKeepsInvariantIff | src/core_impl/register.rs:726-755 | a reservation keeps the whole invariant if and only if its name is not a canonical key |
| RegistryProofs.ReservePendingKeys | src/core_impl/register.rs:726-755 | a reservation adds exactly its own name to the pending keys and leaves every committed library as it was but for its name list |
| RegistryProofs.CommittedInvariant | src/core_impl/register.rs:528-591 | moving a library from pending to committed, or committing a new one, keeps the invariant |
| RegistryProofs.RegisterLoadedKeepsInvariant | src/core_impl/register.rs:757-781 | registering a host library keeps the invariant |
| RegistryProofs.PromoteAddsFlags | src/core_impl/register.rs:643-667 | promotion adds exactly the requested RTLD_GLOBAL and RTLD_NODELETE to one library and clears nothing |
| RegistryProofs.PromoteGlobalScope | src/core_impl/register.rs:244-258 | promotion enters a library into the global scope if and only if it becomes global; entering it twice changes nothing |
| RegistryProofs.PromoteKeepsInvariant | src/core_impl/register.rs:643-667 | promotion keeps the invariant |
| RegistryProofs.MergeOneKeepsInvariant | src/core_impl/register.rs:528-591 | merging one library of a finished load keeps the invariant, whether it was pending, new or already committed |
| RegistryProofs.MergeKeepsInvariant | src/core_impl/register.rs:528-591 | merging a finished load keeps the invariant; its keys leave pending and are committed, and earlier libraries keep module, flags and dependencies |
| RegistryProofs.RebuildKeepsInvariant | src/core_impl/register.rs:496-526 | rebuilding the graph keeps the invariant |
| RegistryProofs.RebuildKeepsLookup | src/core_impl/register.rs:375-386 | rebuilding the graph changes the answer to no lookup |
| Removal.RemoveIsWithdrawn | src/core_impl/register.rs:347-372 | one removal is the declarative withdrawal of a one-element set |
| Removal.WithdrawnStep | src/core_impl/register.rs:347-372 | removals one after the other amount to withdrawing the set of names at once, so their order does not matter |
| Removal.WithdrawnKeepsInvariant | src/core_impl/register.rs:347-372 | withdrawing any registered names keeps the invariant |
| Removal.RemoveForgets | src/core_impl/register.rs:347-372 | after a removal no name, alias or identity leads to the key, and every name or identity that led elsewhere still leads there |
| Removal.WithdrawnLookup | src/core_impl/register.rs:375-386 | the lookup half of that statement for any set of names, aliases included |
| Removal.WithdrawnIdentities | src/core_impl/register.rs:425-433 | the same for lookups by file identity: none leads to a withdrawn library, every other leads where it led |
| Removal.AliasLeadsSomewhere | src/core_impl/register.rs:375-386 | every alias resolves to a registered library |
| Removal.RollbackIsClean | src/core_impl/register.rs:347-372 | withdrawing reserved names leaves the committed graph, flags and global scope untouched, keeps the invariant, and raises the removal counter by exactly their number |
| Unloading.DropHandleKeepsInvariant | src/core_impl/register.rs:32-87 | dropping a handle keeps the invariant, for any measured counts |
| Unloading.DropHandleOnlyDeletes | src/core_impl/register.rs:32-87 | a drop only deletes committed libraries, and never one flagged RTLD_NODELETE |
| HostOrder.AddAliasesContent | src/core_impl/register.rs:296-340 | which aliases exist afterwards and where they lead |
| HostOrder.RegisterAllShape | src/core_impl/register.rs:757-781 | after registering host libraries in any order, every compatibility name of a library is a key or an alias, and every alias is a compatibility name of the registered library it leads to |
| HostOrder.RebuiltDeps | src/core_impl/register.rs:496-526 | after the rebuild each library's dependencies are the libraries its needed names lead to in the final registry, once, in the order of first need; nothing else of the registry changes |
| HostOrder.HostOrderIsIrrelevant | src/core_impl/register.rs:496-526 | for any permutation of distinct host libraries the rebuilt registries have the same keys, modules, flags, dependencies and resolution of every name |
| HostOrder.RegisterAllInvariant | src/core_impl/register.rs:757-781 | registering any distinct host libraries from empty establishes the invariant |
| Registration.ReservationEnters | src/core_impl/register.rs:726-755 | a reservation of a free name is pending, last in order, with the open's flags normalised by the full name; its name, those compatibility aliases that led nowhere, and its identity lead to it; every other name and identity leads where it led |
| Registration.HostLibraryEnters | src/core_impl/register.rs:757-781 | a registered host library is committed as itself, last in order, with normalised flags, and its dependencies are what its needed names led to |
| Registration.HostLibraryIsGlobal | src/core_impl/register.rs:757-781 | it enters the global scope exactly if RTLD_GLOBAL is asked for or it is the main program |
| Registration.HostLibraryIsFound | src/core_impl/register.rs:757-781 | its name, free compatibility aliases and identity lead to it; every other name and identity leads where it led |
| Registration.MergeCommits | src/core_impl/register.rs:528-591 | a finished load commits under each new key the first library loaded under it, with the linker's dependencies and exactly the flags of its reservation, or without one those of the open, normalised |
| Registration.MergeEntersGlobal | src/core_impl/register.rs:581-583 | it is in the global scope, as itself, exactly if those flags have RTLD_GLOBAL |
| Registration.MergeIdentities | src/core_impl/register.rs:575-577 | a file identity leads to the last library with it that was committed, and where it led if there is none |
| Registration.MergeNames | src/core_impl/register.rs:578-580 | every name after a merge: a new key leads to itself, a name that led somewhere still leads there, any other leads to the new library of which it is a compatibility alias, if any |
| Registration.MergeOrder | src/core_impl/register.rs:528-591 | new libraries stand in the load order and in the global scope after everything that was there, in the order in which they are committed |
| RelocationScope.UniqueByNameMeaning | src/core_impl/register.rs:463-493 | the scope has each shortname once, and every shortname of the concatenation |
| RelocationScope.UniqueKeepsFirstDefinition | src/core_impl/register.rs:463-493 | for every symbol the first definition in the deduplicated scope is the first in the plain concatenation, when shortnames identify libraries |
| RelocationScope.DeduplicationPreservesLookupIff | src/core_impl/register.rs:463-493 | that holds for all symbols if and only if equal shortnames mean the same library |
| RelocationScope.FirstDefinitionIsFirst | src/core_impl/register.rs:463-493 | the definition a scope gives is that of the library before which no other defines the symbol |
| RelocationScope.ScopePrecedence | src/core_impl/register.rs:476-490 | without RTLD_DEEPBIND a symbol is found in the first global library that defines it, and only if there is none in the first of the group; with RTLD_DEEPBIND the other way round |
| RelocationScope.BothOrdersHoldTheSameLibraries | src/core_impl/register.rs:463-493 | with and without RTLD_DEEPBIND the scope holds the same libraries: the global ones and the group |
| Manager.Manager.AddAlias | src/core_impl/register.rs:296-340 | the in-place method computes the function on values |
| Manager.Manager.AddAliases | src/core_impl/register.rs:726-755 | likewise for the loop over compatibility aliases |
| Manager.Manager.Remove | src/core_impl/register.rs:347-372 | likewise for removal from all maps |
| Manager.Manager.CanonicalDirectDeps | src/core_impl/register.rs:446-461 | the loop with its seen-set gives each library some needed name leads to, once, in the order of first need, and nothing else |
| Manager.Manager.ReservePending | src/core_impl/register.rs:726-755 | the in-place reservation with identity and aliases computes the function on values |
| Manager.Manager.RegisterLoaded | src/core_impl/register.rs:757-781 | likewise for host registration |
| Manager.Manager.Promote | src/core_impl/register.rs:643-667 | likewise for promotion |
| Manager.Manager.MergeLinkContext | src/core_impl/register.rs:528-591 | likewise for the merge loop; what a merge stores is `Registration.MergeCommits`, `MergeEntersGlobal`, `MergeOrder`, `MergeNames` and `MergeIdentities` |
| Manager.Manager.RebuildLinkCtx | src/core_impl/register.rs:496-526 | likewise for the rebuild loop |
| Manager.Manager.RelocationScope | src/core_impl/register.rs:463-493 | the loop with its seen-set computes the deduplicated scope; which definition a symbol gets in it is `RelocationScope.ScopePrecedence` |
| Manager.Manager.DropHandle | src/core_impl/register.rs:32-87 | root branch and dependency loop compute the outcome on values, panics included; which libraries that unregisters is `DropEffect.DropUnregistersTheUnseen` |
| OpenContext.OpenContext.ReservePending | src/api/dlopen.rs:411-427 | a name is reserved once per open and remembered for the rollback; for a new name this is the protocol's reservation step |
| OpenContext.OpenContext.StartWaiting | src/api/dlopen.rs:181-185 | giving up the lock changes nothing else; where a lookup leads to another open's reservation it is the protocol's wait |
| OpenContext.OpenContext.StopWaiting | src/api/dlopen.rs:181-185 | taking the lock again, over whatever the registry has become, is the protocol's waking up |
| OpenContext.OpenContext.PrepareRelocation | src/api/dlopen.rs:246-255 | the scope is taken from the state under the lock, and the lock is given up: the protocol's relocation step |
| OpenContext.OpenContext.CompleteRelocation | src/api/dlopen.rs:318-329 | the lock is taken again and the load merged: the registry is that of the protocol's commit |
| OpenContext.OpenContext.FinishExisting | src/api/dlopen.rs:279-293 | an existing library is promoted, the open counts as committed, and the library returned is the one the protocol grants a handle on |
| OpenContext.OpenContext.RemoveAddedLibraries | src/api/dlopen.rs:259-263 | the rollback loop withdraws exactly the names this open reserved, in whatever order it visits them |
| OpenContext.OpenContext.Close | src/api/dlopen.rs:127-141 | a committed open changes nothing when it ends; any other gives back its names, which is the protocol's failure step |
| ProtocolSafety.StartIsSafe | src/core_impl/register.rs:193-210 | the empty system is safe |
| ProtocolSafety.StepKeepsRegistry | src/core_impl/register.rs:213-667 | every guarded step keeps the registry's invariant |
| ProtocolSafety.StepKeepsReservations | src/api/dlopen.rs:127-141 | in every interleaving, pending is exactly the disjoint union of the names reserved by unfinished opens |
| ProtocolSafety.StepKeepsChecks | src/api/dlopen.rs:181-205 | an open holds the lock exactly while it searches; a fresh name check belongs to the lock holder only, and its name is still free |
| ProtocolSafety.StepKeepsHandles | src/core_impl/register.rs:32-87 | every library in the scope of a live handle stays registered through every step, drops of other handles included |
| ProtocolSafety.StepSafeIffGuarded | src/core_impl/register.rs:282-294 | a step from a safe state leads to a safe state if and only if it is not a reservation of a registered key |
| ProtocolSafety.FreshCheckGuards | src/api/dlopen.rs:411-427 | a reservation whose name was checked under the same unbroken lock meets that condition |
| ProtocolSafety.FailAlwaysEnabled | src/api/dlopen.rs:259-263 | in a safe state the names an open must give back are all registered, so its rollback cannot go wrong |
| ProtocolSafety.CommitTakesOwn | src/api/dlopen.rs:318-329 | a commit takes exactly the open's own names out of pending |
| OpenRuns.RunSafeIffGuarded | src/api/dlopen.rs:181-255 | a run of any length is safe in every state if and only if all its reservations are guarded |
| OpenRuns.FreshlyCheckedRunsAreGuarded | src/api/dlopen.rs:411-427 | runs that check and reserve under one lock are guarded throughout |
| OpenRuns.FailGivesBackItsOwn | src/api/dlopen.rs:127-141 | an open that fails at any point changes nothing but its own reservations: committed modules, flags, global scope, handles and other opens stay, nothing leads to its names, and the removal counter grows by their number |
| OpenRuns.StepKeepsPinned | src/core_impl/register.rs:32-75 | no step unloads, replaces or unflags a library committed with RTLD_NODELETE |
| OpenRuns.NoDeleteIsForever | src/core_impl/register.rs:32-75 | once committed with RTLD_NODELETE a library stays so in every later state of every guarded run |
| OpenLifecycle.StepKeepsReserved | src/core_impl/register.rs:726-755 | no guarded step changes the flags of a reservation that it does not end |
| OpenLifecycle.CommitPublishes | src/core_impl/register.rs:528-591 | a commit publishes every name the open reserved: the library loaded for it, with the flags it was reserved with, in the global scope exactly if they say so |
| OpenLifecycle.CommittedAsReserved | src/api/dlopen.rs:246-329 | in every guarded run a name reserved at one step and committed at a later one ends up as the key of the library loaded for it, with the normalised flags of the reserving open, whatever all other opens did in between |
| OpenLifecycle.FinishPromotes | src/api/dlopen.rs:279-293 | opening a committed library adds exactly the requested RTLD_GLOBAL and RTLD_NODELETE to it, enters it into the global scope if that is requested, and changes no other library |
| OpenLifecycle.FinishHandsOut | src/api/dlopen.rs:279-293 | the new handle is on that very library |
| StaleReservation.WokenToStaleCheck | src/api/dlopen.rs:217-244 | at the point where the wait ends the file identity leads nowhere, so the code goes on to reserve, but the name checked before the wait is taken |
| StaleReservation.StaleCheckUnloadsLiveLibrary | src/api/dlopen.rs:217-244 | a run, for any two files and names, whose one unguarded step is the reservation after a wait, and in which a rollback unloads a committed RTLD_NODELETE library that has a live handle |
| StaleReservation.StaleCheckExample | src/api/dlopen.rs:217-244 | that run for concrete files and names |
| DropSafety.RegistryReferences | src/core_impl/register.rs:46-60 | the root threshold is two more than the references held by the registry itself, because the global scope holds exactly the flagged libraries |
| DropSafety.FewReferencesToRoot | src/core_impl/register.rs:46-60 | at most two references from handles and arrays mean that no other live handle has or sees the library; a shared array counts once |
| DropSafety.RootDroppedIffUnseen | src/core_impl/register.rs:36-64 | with exact counts, a handle's drop unregisters its root if and only if it is not RTLD_NODELETE and no other live handle has it as root or in its scope |
| DropSafety.RootOfAnother | src/core_impl/register.rs:76-84 | a dependency that is the root of another live handle has at least three references from handles and arrays |
| DropSafety.DropKeepsOtherRoots | src/core_impl/register.rs:32-87 | whatever elf_loader holds: neither the root branch nor the dependency loop removes the root of another live handle, a reservation, or an RTLD_NODELETE library |
| DropSafety.DropLeavesOthersIntact | src/core_impl/register.rs:32-87 | with the reference elf_loader holds, a whole drop keeps everything any other live handle can see |
| DropSafety.DropNeverPanics | src/core_impl/register.rs:347-372 | a whole drop never removes an unregistered key, whatever the counts, if its scope lists each library once |
| DropEffect.RootGoneIff | src/core_impl/register.rs:36-64 | after a whole drop with an exact count of its own library, that library is unregistered if and only if it is not RTLD_NODELETE and no other live handle sees it |
| DropEffect.DependencyDroppedIffUnseen | src/core_impl/register.rs:66-84 | with its own library gone, a dependency listed once and measured at its known references and the held one is unregistered if and only if it is not RTLD_NODELETE and no other live handle sees it |
| DropEffect.DropUnregistersTheUnseen | src/core_impl/register.rs:32-87 | with exact counts, exactly those libraries go that are in the handle's scope, may be unloaded and are seen by no other live handle, provided the same holds of the handle's own library; what stays is unchanged and nothing panics |
| DropEffect.DropUnregistersBoth | src/core_impl/register.rs:32-87 | a concrete drop: one handle on a library and its dependency, three references measured to each, unregisters both |
| DropEffect.RemovedAreTheMissing | src/core_impl/register.rs:62-95 | the libraries whose exit handlers a drop runs are exactly those it unregistered, in scope order, whatever the counts |
| DropSafety.SomeCountsCover | src/core_impl/register.rs:32-87 | the assumption on measured counts can be met for every live handle, with the exact count of its own library |
| DropSafety.SoleDropUnregisters | src/core_impl/register.rs:36-64 | the only handle that sees its library, if that is not RTLD_NODELETE, has a drop that unregisters it |
| DropSafety.ThresholdWithoutHeldReference | src/core_impl/register.rs:76-84 | if elf_loader held no reference of its own, the dependency loop's test would read a library as unused exactly when handles and arrays hold two references to it, so the assumption is needed |
| Relocations.RelocateWord | rtld/impl/src/bootstrap.rs:518-521 | one in-place addition extends the relocated list by one address |
| Relocations.ApplyEntry | rtld/impl/src/bootstrap.rs:518-536 | one entry relocates exactly its own addresses and moves the position as the standard says |
| Relocations.ApplyBitmap | rtld/impl/src/bootstrap.rs:526-535 | the shifting loop relocates exactly the words of the set bits |
| Relocations.ApplyRelr | rtld/impl/src/bootstrap.rs:499-540 | success exactly for an empty or well-sized table that starts with an address; on success memory is the old memory relocated at the decoded addresses, on failure unchanged |
| Relocations.RelrMeaning | rtld/impl/src/bootstrap.rs:499-540 | each word ends as old + load bias × (times its address occurs in the decoded table) modulo 2^64 |
| Relocations.DecodedMeaning | rtld/impl/src/bootstrap.rs:499-540 | an address is decoded if and only if the System V gABI reading of some entry, with bit i of the n-th odd entry after an address, names it |
| Relocations.AscendingTouchesOnce | rtld/impl/src/bootstrap.rs:499-540 | for ascending tables every listed word gets the bias once and every other word is unchanged |
| Relocations.AddSignedIsModular | rtld/impl/src/bootstrap.rs:542-548 | the branch on the addend's sign computes addition modulo 2^64 |
| Relocations.ApplyRela | rtld/impl/src/bootstrap.rs:467-497 | each word holds what the last relative entry for it stores, up to the first unsupported entry; success exactly without one and with well-formed sizes |
| Relocations.LastStoredMeaning | rtld/impl/src/bootstrap.rs:484-497 | that is load bias plus addend of the last relative entry whose biased offset is the word, and nothing if there is none |
| CommandLine.HandleDirectInvocation | rtld/impl/src/cli.rs:62-141 | the loop ends as the grammar of options allows: everything before the end is accepted options with their values |
| CommandLine.ReachesOnce | rtld/impl/src/cli.rs:105-120 | at each position at most one `--argv0` value is in force, the last one |
| CommandLine.OutcomeIsDetermined | rtld/impl/src/cli.rs:62-141 | the grammar allows exactly one outcome for each argument list |
| StartupStack.ShowsOne | rtld/impl/src/bootstrap.rs:290-317 | a stack image can be read in only one way |
| StartupStack.MoveDown | rtld/impl/src/bootstrap.rs:259-265 | the overlapping copy moves the words although source and destination overlap |
| StartupStack.RewriteInitialStack | rtld/impl/src/bootstrap.rs:239-288 | re-reading the new stack gives argc − k, the arguments from k on with argv[0] replaced when asked, the same environment and auxiliary vector with terminators; exec_path is the original argv[k] |
| StartupStack.ParseAuxv | rtld/impl/src/bootstrap.rs:290-317 | each field is the value of the last entry of its kind, zero without one |
| StartupStack.ParsedMeaning | rtld/impl/src/bootstrap.rs:290-317 | each of the sixteen fields is the value of the last entry of its own kind number, zero without one |
| StartupStack.PatchExecAuxv | src/rtld.rs:535-565 | values are replaced in place; kinds, terminator and everything around the vector stay |
| StartupStack.PatchedMeaning | src/rtld.rs:535-565 | entry by entry: kinds 3, 4, 5, 7, 9 and 31 (the file name) get the program's values, all others keep theirs |
| StartupStack.ParseAfterPatch | src/rtld.rs:535-565 | parsing after patching is the original parse with phdr, phent, phnum, base and entry replaced wherever that kind occurs, in any order and with repetitions |
| DirectRun.ProgramIndices | rtld/impl/src/cli.rs:105-135 | the index returned lies inside the arguments after the loader's own name, and `--argv0` stands before it with its value |
| DirectRun.StartProgram | rtld/impl/src/bootstrap.rs:124-165 | option loop and rewrite together: the stack shows the program's own view for the very k and argv0 the options give, and the vector parsed beforehand is still what the moved one says |
| StaticTls.DoubledToMeaning | src/rtld.rs:175-190 | next_power_of_two gives the least power of two that is large enough, or overflows |
| StaticTls.DoubledToFails | src/rtld.rs:183-187 | the power of two overflows if and only if the number is above 2^63 |
| StaticTls.AlignUpMeaning | src/rtld.rs:242-247 | align_up gives the least multiple at or above the value |
| StaticTls.AlignUpFails | src/rtld.rs:242-247 | align_up fails if and only if no multiple at or above the value fits 64 bits |
| StaticTls.NextOffsetMeaning | src/rtld.rs:175-190 | the next offset is round(previous + size, align), the variant II recurrence of section 3 of "ELF Handling For Thread-Local Storage" |
| StaticTls.NextOffsetFails | src/rtld.rs:183-195 | a module has no offset if and only if its alignment is above 2^63 or no aligned offset beyond the bytes taken fits 64 bits |
| StaticTls.RecurrenceStacks | src/rtld.rs:175-212 | blocks placed by the recurrence are pairwise disjoint below the thread pointer |
| StaticTls.ArenaBlockAlignedIff | src/rtld.rs:183-195 | a block in the arena is aligned if and only if the arena's base is, for its alignment |
| StaticTls.PageAlignmentsAreMet | src/rtld.rs:183-195 | alignments up to 4096 are always met in the arena |
| StaticTls.InitModule | src/rtld.rs:332-343 | exactly the block is overwritten, with the image and a zero tail |
| StaticTls.InitAll | src/rtld.rs:214-221 | all blocks hold their images at once, and nothing outside the blocks changes |
| StaticTls.StaticTlsArea.RegisterStaticModule | src/rtld.rs:175-212 | a registration follows the recurrence or fails cleanly; the new block holds its image and zero tail; no earlier block is touched, whatever the program has written there; a module the backend refuses keeps its space but is not listed |
| StaticTls.StaticTlsArea.RefreshStaticTls | src/rtld.rs:214-221 | re-initialising restores every accepted module's block |
| StaticTls.StaticTlsArea.InitThread | src/rtld.rs:282-292 | a new thread's storage holds every accepted module's block and nothing above the thread pointer changes |
| StaticTls.StorageFits | src/rtld.rs:310-330 | storage sized after the last registration holds all blocks and the TCB, each block aligned |
| StaticTls.StorageLayoutIsLeast | src/rtld.rs:310-319 | there is a layout if and only if some power-of-two alignment and thread pointer meet all needs within the allocator's limit, and then it has the least of both |
| StaticTls.ControlBlockAligned | src/rtld.rs:310-330 | the thread pointer meets the alignment of the thread control block |
| StaticTls.TlsAllocations.AllocateStorage | src/rtld.rs:310-330 | allocation records exactly one entry, or fails on overflow with none |
| StaticTls.TlsAllocations.Deallocate | src/rtld.rs:294-308 | exactly the allocation of that thread pointer is freed, if it is known and the TCB is to go; no other is lost |
| LdCache.LessTotal | src/utils/ld_cache.rs:115-121 | byte order is total, so exactly one branch of the probe is taken |
| LdCache.ExtractStrMeaning | src/utils/ld_cache.rs:215-222 | a string is read exactly if it stands at the offset, up to the first zero byte or the end, and is well-formed UTF-8 |
| LdCache.GetNameMeaning | src/utils/ld_cache.rs:152-170 | the name of an entry is what stands at its key, in the header's part of the file if a plain name stands there, else in the string table |
| LdCache.GetPathMeaning | src/utils/ld_cache.rs:172-189 | the path likewise, in the header's part if a path stands there |
| LdCache.CheckFlagsMeaning | src/utils/ld_cache.rs:191-213 | byte by byte: the low byte of the flag word is 3 and one of the two lowest bits of the next is set |
| LdCache.ScanMeaning | src/utils/ld_cache.rs:130-142 | the linear scan finds the first entry in table order with this name, acceptable flags and a readable path, or nothing if there is none |
| LdCache.DirectionDetected | src/utils/ld_cache.rs:96-100 | comparing the first and last name gives the right direction for a table sorted either way, all-equal names included |
| LdCache.HalfIsFree | src/utils/ld_cache.rs:115-146 | the half the search leaves has no entry of that name |
| LdCache.ScanRun | src/utils/ld_cache.rs:122-142 | from a hit: back to the start of the run of equal names, forward to the first usable entry |
| LdCache.Lookup | src/utils/ld_cache.rs:91-150 | for every table sorted either way the search equals the linear scan; for any table at all a path found belongs to a usable entry of that name |
| LinkerScript.Tokenize | src/utils/linker_script.rs:26-61 | the tokenizer's loops compute the token function |
| LinkerScript.ParseGroup | src/utils/linker_script.rs:63-89 | the loop with its recursion appends exactly the group's names and returns the index after it |
| LinkerScript.Group | src/utils/linker_script.rs:63-89 | parsing terminates for every token list; the index always moves on and overshoots the end by at most one |
| LinkerScript.GetLinkerScriptLibs | src/utils/linker_script.rs:5-24 | the names in the whole script, in order |
| LinkerScript.TokenizeUndoesPrint | src/utils/linker_script.rs:26-61 | whatever white space and comments separate tokens, tokenizing gives the tokens back |
| LinkerScript.EveryTextIsPrinted | src/utils/linker_script.rs:26-61 | every text at all is a printing of its own tokens, up to a trailing comment that never closes |
| LinkerScript.GroupReadsMembers | src/utils/linker_script.rs:63-89 | a printed group, AS_NEEDED nested to any depth, is read back as its file names without flags |
| LinkerScript.RoundTrip | src/utils/linker_script.rs:5-89 | tokenizing and parsing any layout of any well-formed script yields exactly its file names in order |
| LinkMapList.DebugList.AdoptHostList | src/host_init.rs:167-179 | taking over a host's list finds its tail and changes no node |
| LinkMapList.DebugList.Add | src/utils/debug.rs:35-73 | adding appends; the list is well formed at each callback |
| LinkMapList.DebugList.Unlink | src/utils/debug.rs:84-115 | the four unlink cases remove exactly that node and keep the order of the rest |
| LinkMapList.DebugList.Drop | src/utils/debug.rs:74-118 | dropping a listed node removes it; a node never added leaves the list unchanged |
| LinkMapList.FilteredIsWithout | src/utils/debug.rs:84-115 | removing a node by identity is removing its one place |
| LinkMapList.Replay | src/utils/debug.rs:35-118 | over any history of adds and drops, on any attached list such as one taken over from the host, the list stays well formed and equals what it held followed by the added nodes not yet dropped, in order |
| Destructors.DestructorTable.RegisterAtexit | src/core_impl/register.rs:838-849 | a registration goes to the end of the table |
| Destructors.DestructorTable.FindRange | src/core_impl/register.rs:862-876 | the range is that of the first library that contains the handle |
| Destructors.RangeOfMeaning | src/core_impl/register.rs:866-876 | that is the range at the least index whose range contains the handle, none exactly if no range does |
| Destructors.DestructorTable.Finalize | src/core_impl/register.rs:862-904 | a null handle runs everything; with a range exactly the handlers registered for an address in it run, without one exactly those registered for the handle, as often as they were registered; the rest stays, in order |
| Destructors.SplitConserves | src/core_impl/register.rs:878-892 | no handler is lost or duplicated by the split |
| Destructors.PickedMeaning | src/core_impl/register.rs:880-892 | how often each handler runs and stays, by its own address and the range or handle given |
| Destructors.PickedInOrder | src/core_impl/register.rs:878-892 | each half is exactly the matching (or other) positions, in order |
| Destructors.LaterRegisteredRunsFirst | src/core_impl/register.rs:878-903 | of two handlers that one finalisation runs the later registered runs first (Itanium C++ ABI, "DSO Object Destruction API") |
| Destructors.EachRunExactlyOnce | src/core_impl/register.rs:838-904 | over any run of registrations and finalisations every handler is either still in the table or has been run exactly once |
| Destructors.FinalizeAllEmpties | src/core_impl/register.rs:862-904 | finalising with a null handle runs everything and empties the table |

## Left out

- Registry.AddReservation: does not test that the name is free, because a release build does not; the exact condition is `ProtocolSafety.StepSafeIffGuarded`.
- DropSafety.DropLeavesOthersIntact: for dependencies that are no other handle's root it rests on the assumption that elf_loader holds one reference to each registered dependency; `DropSafety.ThresholdWithoutHeldReference` shows what the test means without it. Roots of other handles need no such assumption (`DropSafety.DropKeepsOtherRoots`).
- ProtocolSafety.StepKeepsHandles: rests on the same assumption in its drop steps.
- DropEffect.DropUnregistersTheUnseen: rests on the same assumption, exactly one held reference; a dependency held more often stays registered.
- DropSafety.DropNeverPanics: does not say what a scope that lists a library twice does; the linker's scopes do not.
- Removal.RollbackIsClean: does not say that the file identities are as before the open. The table is newest-wins and an overwritten entry is not restored; aliases an open added to surviving libraries stay too.
- HostOrder.HostOrderIsIrrelevant: is about libraries with distinct shortnames registered with RTLD_GLOBAL, as the callers do.
- OpenContext.OpenContext.FinishExisting: returns the library; the dependency array of the handle comes from elf_loader and is the protocol's grant.
- OpenContext.OpenContext.CompleteRelocation: between the merge and the end of the open the same lock is held, so the protocol has one step for both.
- OpenContext.OpenContext.Close: the destruction order of the remaining fields of an open is not modelled.
- LdCache.Lookup: that real cache files are sorted by bytes is a hypothesis, not a result.
- StaticTls.StaticTlsArea.InitThread: requires storage sized after the last registration; the code does not test that.
- Relocations.ApplyRelr: requires that the table does not overlap the words it relocates and that no address wraps around.
- LinkerScript.RoundTrip: bare nested parentheses and comma-separated lists are not in the printer's grammar; the parser reads them as names.
- LinkerScript.Tokenize: works on characters, where the source slices the same text by byte offsets; the decoding of bytes into text comes before it and is not modelled.
- LinkMapList.DebugList: the name, address and dynamic-section fields of a link map, and the host's glibc layouts.
- Everything inside elf_loader: symbol hashing, mapping, breadth-first dependency order, general relocation, its own TLS resolver.
- Liveness of waiting: an open that waits keeps its own reservations, so freedom from deadlock does not follow from the code.
- Termination of resolving a script that names scripts: it needs acyclic scripts, which the code does not test.
- Reading the cache file and guessing its entry size; which file wins along search paths; environment variables.
- The thread pointer, the contents of the TCB, and the callbacks of the TLS backend (their acceptance is a parameter).
- `static_info`, which only reports numbers, and finding the loader's own load bias and dynamic section.
- Help, version, list and verify output of the loader, and what they inspect.
- System calls, logging, inline assembly, glibc structure layouts, symbol versions, the GDB script.
- `dladdr`, `dl_iterate_phdr` and `dl_find_object`: single scans that would add only easy members.
