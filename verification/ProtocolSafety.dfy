/** Every step of the system keeps it safe, except a reservation of a name that is taken; so a run is safe
    exactly when each of its reservations was made under a free name. */
module ProtocolSafety {
  import opened OrderedMap
  import opened OpenFlags
  import opened Registry
  import opened RegistryProofs
  import opened Removal
  import opened Unloading
  import opened OpenProtocol
  import opened DropSafety

  // ---------------------------------------------------------------- registry

  lemma StepKeepsRegistry(s: System, step: Step)
    requires Safe(s) && Enabled(s, step) && Guarded(s, step)
    ensures Invariant(Next(s, step).reg)
  {
    hide Invariant, ChecksFresh, GrantValid;
    match step
    case Alias(c, canonical, alias) => AddAliasKeepsInvariant(s.reg, canonical, alias);
    case Reserve(c, name, fullName, identity) =>
      ReservePendingKeepsInvariantIff(s.reg, name, fullName, identity, s.ctxs[c].flags);
    case Commit(c, linked, _) => MergeKeepsInvariant(s.reg, linked, s.ctxs[c].flags);
    case FinishExisting(c, key, _) => PromoteKeepsInvariant(s.reg, key, s.ctxs[c].flags);
    case Fail(c) => WithdrawnKeepsInvariant(s.reg, s.ctxs[c].added);
    case Drop(h, counts) => DropHandleKeepsInvariant(s.reg, s.handles[h].root, ScopeOf(s, h), counts);
    case RegisterHost(lib, flags) => RegisterLoadedKeepsInvariant(s.reg, lib, flags);
    case RebuildGraph => RebuildKeepsInvariant(s.reg);
    case _ =>
  }

  // ---------------------------------------------------------------- frames of the registry operations

  /** A step that leaves both key sets alone. */
  ghost predicate SameKeys(r: State, r': State) {
    r'.pending.entries.Keys == r.pending.entries.Keys && r'.committed.entries.Keys == r.committed.entries.Keys
  }

  lemma AliasFrame(r: State, canonical: string, alias: string)
    requires IsCanonical(r, canonical)
    ensures SameKeys(r, AddAlias(r, canonical, alias)) && Grows(r, AddAlias(r, canonical, alias))
  {
    AddAliasFrame(r, canonical, alias);
  }

  lemma PromoteFrame(r: State, key: string, flags: Flags)
    requires IsCommitted(r, key)
    ensures SameKeys(r, Promote(r, key, flags)) && Grows(r, Promote(r, key, flags))
  {
    PromoteAddsFlags(r, key, flags);
  }

  lemma RebuildFrame(r: State)
    ensures SameKeys(r, Rebuild(r)) && Grows(r, Rebuild(r))
  {
    assert Rebuild(r).committed.entries.Keys == r.committed.entries.Keys;
  }

  lemma RegisterFrame(r: State, lib: Module, flags: Flags)
    requires !IsCanonical(r, lib.Shortname())
    ensures var r' := RegisterLoaded(r, lib, flags);
            && r'.pending.entries.Keys == r.pending.entries.Keys
            && r'.committed.entries.Keys == r.committed.entries.Keys + {lib.Shortname()}
            && Grows(r, r')
  {
    hide CompatAliases, ShortnameFromName, DirectDeps, NormalizedFlags, AddAliases, Grows, SameExceptAliases;
    var key := lib.Shortname();
    var r1 := AddIdentity(AddLoaded(r, key, lib, NormalizedFlags(lib.name, flags)), lib.identity, key);
    var r2 := AddAliases(r1, key, CompatAliases(key));
    AddLoadedGrows(r, key, lib, NormalizedFlags(lib.name, flags), lib.identity);
    AddAliasesFrame(r1, key, CompatAliases(key));
    AliasesGrow(r1, r2);
    GrowsOn(r, r1, r2);
    GrowsByCommitted(r, r2, RegisterLoaded(r, lib, flags));
  }

  lemma AddLoadedGrows(r: State, key: string, lib: Module, flags: Flags, identity: Option<FileIdentity>)
    requires !IsCanonical(r, key)
    ensures Grows(r, AddIdentity(AddLoaded(r, key, lib, flags), identity, key))
  {
    hide DirectDeps;
  }

  lemma AliasesGrow(r: State, r': State)
    requires SameExceptAliases(r, r')
    ensures SameKeys(r, r') && Grows(r, r')
  {
  }

  lemma GrowsOn(a: State, b: State, c: State)
    requires Grows(a, b) && Grows(b, c)
    ensures Grows(a, c)
  {
  }

  lemma GrowsByCommitted(a: State, b: State, c: State)
    requires Grows(a, b) && c.committed == b.committed
    ensures Grows(a, c)
  {
  }

  lemma ReserveFrame(r: State, name: string, fullName: string, identity: Option<FileIdentity>, flags: Flags)
    ensures var r' := ReservePending(r, name, fullName, identity, flags);
            && r'.pending.entries.Keys == r.pending.entries.Keys + {name}
            && r'.committed.entries.Keys == r.committed.entries.Keys
            && Grows(r, r')
  {
    ReservePendingKeys(r, name, fullName, identity, flags);
  }

  lemma MergeFrame(r: State, linked: seq<Linked>, flags: Flags)
    requires Invariant(r) && WellNamed(linked)
    ensures MergedKeys(r, Merge(r, linked, flags), LinkedKeys(linked))
    ensures Grows(r, Merge(r, linked, flags))
  {
    MergeKeepsInvariant(r, linked, flags);
    hide Invariant;
    assert MergedKeys(r, Merge(r, linked, flags), LinkedKeys(linked));
  }

  // ---------------------------------------------------------------- reservations

  lemma {:induction false} SameReservations(s: System, s': System)
    requires Reservations(s) && s'.reg.pending.entries.Keys == s.reg.pending.entries.Keys
    requires s'.ctxs.Keys == s.ctxs.Keys
    requires forall c :: c in s.ctxs ==> s'.ctxs[c].added == s.ctxs[c].added
    ensures Reservations(s')
  {
  }

  /** A context leaves and takes exactly its own reservations with it. */
  lemma ClosedReservations(s: System, s': System, c: nat)
    requires Reservations(s) && c in s.ctxs
    requires s'.ctxs == s.ctxs - {c}
    requires s'.reg.pending.entries.Keys == s.reg.pending.entries.Keys - s.ctxs[c].added
    ensures Reservations(s')
  {
    forall k | k in s'.reg.pending.entries
      ensures exists d :: d in s'.ctxs && k in s'.ctxs[d].added
    {
      var d :| d in s.ctxs && k in s.ctxs[d].added;
      assert d in s'.ctxs;
    }
  }

  lemma OpenedReservations(s: System, s': System, c: nat, flags: Flags)
    requires Reservations(s) && c !in s.ctxs && s'.reg == s.reg
    requires s'.ctxs == s.ctxs[c := Context({}, flags, None, Searching)]
    ensures Reservations(s')
  {
    forall k | k in s'.reg.pending.entries
      ensures exists d :: d in s'.ctxs && k in s'.ctxs[d].added
    {
      var d :| d in s.ctxs && k in s.ctxs[d].added;
      assert d in s'.ctxs;
    }
  }

  lemma ReservedHasOwner(s: System, s': System, c: nat, name: string)
    requires PendingHasOwner(s) && c in s.ctxs
    requires s'.reg.pending.entries.Keys == s.reg.pending.entries.Keys + {name}
    requires s'.ctxs == s.ctxs[c := s.ctxs[c].(added := s.ctxs[c].added + {name}, checked := None)]
    ensures PendingHasOwner(s')
  {
    forall k | k in s'.reg.pending.entries
      ensures exists d :: d in s'.ctxs && k in s'.ctxs[d].added
    {
      if k == name {
        assert k in s'.ctxs[c].added;
      } else {
        var d :| d in s.ctxs && k in s.ctxs[d].added;
        assert k in s'.ctxs[d].added;
      }
    }
  }

  lemma ReservedApart(s: System, s': System, c: nat, name: string)
    requires OwnedIsPending(s) && OwnersApart(s) && c in s.ctxs && name !in s.reg.pending.entries
    requires s'.ctxs == s.ctxs[c := s.ctxs[c].(added := s.ctxs[c].added + {name}, checked := None)]
    ensures OwnersApart(s')
  {
    forall d | d in s.ctxs
      ensures name !in s.ctxs[d].added
    {
    }
  }

  lemma ReservedReservations(s: System, s': System, c: nat, name: string)
    requires Reservations(s) && c in s.ctxs && name !in s.reg.pending.entries
    requires s'.reg.pending.entries.Keys == s.reg.pending.entries.Keys + {name}
    requires s'.ctxs == s.ctxs[c := s.ctxs[c].(added := s.ctxs[c].added + {name}, checked := None)]
    ensures Reservations(s')
  {
    ReservedHasOwner(s, s', c, name);
    ReservedApart(s, s', c, name);
    hide PendingHasOwner, OwnersApart;
  }

  /** Steps of an open before it commits or fails. */
  predicate Preparing(step: Step) {
    step.Open? || step.Check? || step.Wait? || step.Wake? || step.Relocate? || step.Alias? || step.Reserve?
  }

  lemma SearchKeepsReservations(s: System, step: Step)
    requires Reservations(s) && Enabled(s, step) && Guarded(s, step) && Preparing(step)
    ensures Reservations(Next(s, step))
  {
    var s' := Next(s, step);
    hide Reservations, AddAlias, ReservePending, Grows;
    match step
    case Open(c, flags) => OpenedReservations(s, s', c, flags);
    case Alias(_, canonical, alias) =>
      AliasFrame(s.reg, canonical, alias);
      SameReservations(s, s');
    case Reserve(c, name, fullName, identity) =>
      ReserveFrame(s.reg, name, fullName, identity, s.ctxs[c].flags);
      ReservedReservations(s, s', c, name);
    case _ => SameReservations(s, s');
  }

  lemma OtherStepKeepsReservations(s: System, step: Step)
    requires Invariant(s.reg) && Reservations(s) && HandlesValid(s) && Enabled(s, step) && !Preparing(step)
    ensures Reservations(Next(s, step))
  {
    var s' := Next(s, step);
    hide Reservations, Invariant, GrantValid, CountsCover, HandlesValid, Merge, Promote, RegisterLoaded, Rebuild;
    hide WellNamed, Grows;
    match step
    case Commit(c, linked, _) =>
      CommitTakesOwn(s, c, linked);
      ClosedReservations(s, s', c);
    case FinishExisting(c, key, _) =>
      PromoteFrame(s.reg, key, s.ctxs[c].flags);
      assert s.reg.pending.entries.Keys - s.ctxs[c].added == s.reg.pending.entries.Keys;
      ClosedReservations(s, s', c);
    case Fail(c) =>
      FailTakesOwn(s, c);
      ClosedReservations(s, s', c);
    case Drop(h, counts) =>
      DropPending(s, h, counts);
      SameReservations(s, s');
    case RegisterHost(lib, flags) =>
      RegisterFrame(s.reg, lib, flags);
      SameReservations(s, s');
    case RebuildGraph =>
      RebuildFrame(s.reg);
      SameReservations(s, s');
    case _ => SameReservations(s, s');
  }

  lemma StepKeepsReservations(s: System, step: Step)
    requires Safe(s) && Enabled(s, step) && Guarded(s, step)
    ensures Reservations(Next(s, step))
  {
    hide Invariant, Reservations, HandlesValid, Enabled, ChecksFresh;
    if Preparing(step) {
      SearchKeepsReservations(s, step);
    } else {
      OtherStepKeepsReservations(s, step);
    }
  }

  lemma CommitTakesOwn(s: System, c: nat, linked: seq<Linked>)
    requires Invariant(s.reg) && Reservations(s) && c in s.ctxs && LinkerContract(s, c, linked)
    ensures Merge(s.reg, linked, s.ctxs[c].flags).pending.entries.Keys ==
            s.reg.pending.entries.Keys - s.ctxs[c].added
  {
    MergeFrame(s.reg, linked, s.ctxs[c].flags);
    hide Invariant;
    assert s.reg.pending.entries.Keys - LinkedKeys(linked) == s.reg.pending.entries.Keys - s.ctxs[c].added;
  }

  lemma FailTakesOwn(s: System, c: nat)
    requires Reservations(s) && c in s.ctxs
    ensures Withdrawn(s.reg, s.ctxs[c].added).pending.entries.Keys ==
            s.reg.pending.entries.Keys - s.ctxs[c].added
  {
  }

  lemma DropPending(s: System, h: nat, counts: seq<nat>)
    requires Invariant(s.reg) && HandlesValid(s) && CountsCover(s, h, counts)
    ensures Unloading.DropHandle(s.reg, s.handles[h].root, ScopeOf(s, h), counts).reg.pending == s.reg.pending
  {
    hide Invariant, HandlesValid;
    DropLeavesOthersIntact(s, h, counts);
  }

  // ---------------------------------------------------------------- name checks

  /** Only the context that has (or takes, or gives up) the lock changes. */
  lemma OwnCheck(s: System, s': System, c: nat, own: Context)
    requires ChecksFresh(s) && (s.holder == None || s.holder == Some(c))
    requires s'.ctxs == s.ctxs[c := own] && (s'.holder == None || s'.holder == Some(c))
    requires s'.holder == Some(c) <==> own.phase == Searching
    requires own.checked.Some? ==> s'.holder == Some(c) && !IsCanonical(s'.reg, own.checked.value)
    ensures ChecksFresh(s')
  {
  }

  lemma ClosedCheck(s: System, s': System, c: nat)
    requires ChecksFresh(s) && (s.holder == None || s.holder == Some(c))
    requires s'.ctxs == s.ctxs - {c} && s'.holder == None
    ensures ChecksFresh(s')
  {
  }

  lemma SameChecks(s: System, s': System)
    requires ChecksFresh(s) && s'.ctxs == s.ctxs && s'.holder == s.holder
    requires s.holder.Some? ==> SameKeys(s.reg, s'.reg)
    ensures ChecksFresh(s')
  {
  }

  lemma PreparingKeepsChecks(s: System, step: Step)
    requires ChecksFresh(s) && Enabled(s, step) && Preparing(step)
    ensures ChecksFresh(Next(s, step))
  {
    var s' := Next(s, step);
    hide ChecksFresh, AddAlias, ReservePending, Lookup, LookupByIdentity, Grows;
    match step
    case Open(c, flags) => OwnCheck(s, s', c, Context({}, flags, None, Searching));
    case Check(c, name) =>
      HolderSearches(s, c);
      FreeName(s.reg, name);
      OwnCheck(s, s', c, s.ctxs[c].(checked := Some(name)));
    case Wait(c, _) => OwnCheck(s, s', c, s.ctxs[c].(checked := None, phase := Waiting));
    case Wake(c) =>
      NobodyChecks(s, c);
      OwnCheck(s, s', c, s.ctxs[c].(phase := Searching));
    case Relocate(c) => OwnCheck(s, s', c, s.ctxs[c].(checked := None, phase := Relocating));
    case Alias(_, canonical, alias) =>
      AliasFrame(s.reg, canonical, alias);
      SameChecks(s, s');
    case Reserve(c, name, _, _) =>
      HolderSearches(s, c);
      OwnCheck(s, s', c, s.ctxs[c].(added := s.ctxs[c].added + {name}, checked := None));
  }

  lemma OtherStepKeepsChecks(s: System, step: Step)
    requires ChecksFresh(s) && Enabled(s, step) && !Preparing(step)
    ensures ChecksFresh(Next(s, step))
  {
    var s' := Next(s, step);
    hide ChecksFresh, GrantValid, CountsCover, LinkerContract, Merge, Promote, RegisterLoaded, Rebuild, Withdrawn;
    match step
    case Commit(c, _, _) => ClosedCheck(s, s', c);
    case FinishExisting(c, _, _) => ClosedCheck(s, s', c);
    case Fail(c) => ClosedCheck(s, s', c);
    case _ => SameChecks(s, s');
  }

  lemma FreeName(r: State, name: string)
    requires Lookup(r, name) == None
    ensures !IsCanonical(r, name)
  {
  }

  lemma StepKeepsChecks(s: System, step: Step)
    requires ChecksFresh(s) && Enabled(s, step)
    ensures ChecksFresh(Next(s, step))
  {
    hide ChecksFresh, Enabled;
    if Preparing(step) {
      PreparingKeepsChecks(s, step);
    } else {
      OtherStepKeepsChecks(s, step);
    }
  }

  lemma HolderSearches(s: System, c: nat)
    requires ChecksFresh(s) && HoldsLock(s, c)
    ensures s.ctxs[c].phase == Searching
  {
  }

  lemma NobodyChecks(s: System, c: nat)
    requires ChecksFresh(s) && c in s.ctxs && s.holder == None
    ensures s.ctxs[c].checked == None
  {
  }

  // ---------------------------------------------------------------- handles

  lemma SearchKeepsHandles(s: System, step: Step)
    requires HandlesValid(s) && Enabled(s, step) && Preparing(step)
    ensures HandlesValid(Next(s, step))
  {
    var s' := Next(s, step);
    hide HandlesValid, Grows, AddAlias, ReservePending;
    match step
    case Alias(_, canonical, alias) =>
      AliasFrame(s.reg, canonical, alias);
      GrowsKeepsHandles(s, s'.reg);
    case Reserve(c, name, fullName, identity) =>
      ReserveFrame(s.reg, name, fullName, identity, s.ctxs[c].flags);
      GrowsKeepsHandles(s, s'.reg);
      SameHandles(s.(reg := s'.reg), s');
    case _ => SameHandles(s, s');
  }

  lemma OtherStepKeepsHandles(s: System, step: Step)
    requires Invariant(s.reg) && Reservations(s) && HandlesValid(s) && Enabled(s, step) && !Preparing(step)
    ensures HandlesValid(Next(s, step))
  {
    var s' := Next(s, step);
    hide Invariant, Reservations, GrantValid, CountsCover, HandlesValid, Grows;
    hide Merge, Promote, Withdrawn, RegisterLoaded, Rebuild;
    match step
    case Commit(c, linked, grant) =>
      MergeFrame(s.reg, linked, s.ctxs[c].flags);
      GrantAfter(s, s'.reg, grant);
      SameHandles(Granted(s.(reg := s'.reg), grant), s');
    case FinishExisting(c, key, grant) =>
      PromoteFrame(s.reg, key, s.ctxs[c].flags);
      PromotedGrant(s, key, s.ctxs[c].flags, grant);
      GrantAfter(s, s'.reg, grant);
      SameHandles(Granted(s.(reg := s'.reg), grant), s');
    case Fail(c) =>
      FailGrows(s, c);
      GrowsKeepsHandles(s, s'.reg);
      SameHandles(s.(reg := s'.reg), s');
    case Get(grant) => GrantKeepsHandles(s, grant);
    case Clone(h, copy) => CloneHandles(s, s', h, copy);
    case Drop(h, counts) => DropKeepsHandles(s, h, counts);
    case RegisterHost(lib, flags) =>
      RegisterFrame(s.reg, lib, flags);
      GrowsKeepsHandles(s, s'.reg);
    case RebuildGraph =>
      RebuildFrame(s.reg);
      GrowsKeepsHandles(s, s'.reg);
  }

  lemma StepKeepsHandles(s: System, step: Step)
    requires Safe(s) && Enabled(s, step) && Guarded(s, step)
    ensures HandlesValid(Next(s, step))
  {
    hide Invariant, Reservations, HandlesValid, Enabled, ChecksFresh;
    if Preparing(step) {
      SearchKeepsHandles(s, step);
    } else {
      OtherStepKeepsHandles(s, step);
    }
  }

  lemma DropKeepsHandles(s: System, h: nat, counts: seq<nat>)
    requires Invariant(s.reg) && HandlesValid(s) && Enabled(s, Drop(h, counts))
    ensures HandlesValid(Next(s, Drop(h, counts)))
  {
    hide Invariant, HandlesValid, CountsCover, OthersValid;
    DropLeavesOthersIntact(s, h, counts);
    DropHandles(s, Next(s, Drop(h, counts)), h);
  }

  lemma SameHandles(s: System, s': System)
    requires HandlesValid(s) && s'.reg == s.reg && s'.handles == s.handles && s'.scopes == s.scopes
    ensures HandlesValid(s')
  {
    forall h | h in s'.handles
      ensures HandleValid(s', s'.reg, h)
    {
      assert HandleValid(s, s.reg, h) && ScopeOf(s', h) == ScopeOf(s, h);
    }
  }

  lemma GrantAfter(s: System, r': State, grant: Grant)
    requires HandlesValid(s) && Grows(s.reg, r') && GrantValid(s, r', grant)
    ensures HandlesValid(Granted(s.(reg := r'), grant))
  {
    GrowsKeepsHandles(s, r');
    GrantKeepsHandles(s.(reg := r'), grant);
  }

  lemma PromotedGrant(s: System, key: string, flags: Flags, grant: Grant)
    requires IsCommitted(s.reg, key) && GrantValid(s, s.reg, grant)
    ensures GrantValid(s, Promote(s.reg, key, flags), grant)
  {
    PromoteAddsFlags(s.reg, key, flags);
    forall m | m in grant.scope
      ensures Registered(Promote(s.reg, key, flags), m)
    {
      assert Registered(s.reg, m);
    }
  }

  /** A rollback only withdraws reservations. */
  lemma FailGrows(s: System, c: nat)
    requires Invariant(s.reg) && Reservations(s) && c in s.ctxs
    ensures Withdrawn(s.reg, s.ctxs[c].added).committed == s.reg.committed
    ensures Grows(s.reg, Withdrawn(s.reg, s.ctxs[c].added))
  {
    RollbackLeavesCommitted(s.reg, s.ctxs[c].added);
  }

  lemma CloneHandles(s: System, s': System, h: nat, copy: nat)
    requires HandlesValid(s) && h in s.handles && s' == s.(handles := s.handles[copy := s.handles[h]])
    ensures HandlesValid(s')
  {
    forall h2 | h2 in s'.handles
      ensures HandleValid(s', s'.reg, h2)
    {
      var source := if h2 == copy then h else h2;
      assert HandleValid(s, s.reg, source) && ScopeOf(s', h2) == ScopeOf(s, source);
    }
  }

  lemma DropHandles(s: System, s': System, h: nat)
    requires HandlesValid(s) && OthersValid(s, h, s'.reg)
    requires s'.handles == s.handles - {h} && s'.scopes == s.scopes
    ensures HandlesValid(s')
  {
    forall h2 | h2 in s'.handles
      ensures HandleValid(s', s'.reg, h2)
    {
      assert HandleValid(s, s.reg, h2) && ScopeOf(s', h2) == ScopeOf(s, h2);
    }
  }

  // ---------------------------------------------------------------- one step

  lemma StartIsSafe()
    ensures Safe(Start())
  {
    assert Initial().pending.order == [];
  }

  /** From a safe state, a step leads to a safe state exactly when it is not a reservation of a taken name. */
  lemma StepSafeIffGuarded(s: System, step: Step)
    requires Safe(s) && Enabled(s, step)
    ensures Safe(Next(s, step)) <==> Guarded(s, step)
  {
    if Guarded(s, step) {
      StepKeepsRegistry(s, step);
      StepKeepsReservations(s, step);
      StepKeepsChecks(s, step);
      StepKeepsHandles(s, step);
    } else {
      ReservePendingKeepsInvariantIff(s.reg, step.name, step.fullName, step.identity, s.ctxs[step.c].flags);
    }
    hide Invariant, Reservations, ChecksFresh, HandlesValid, Enabled;
  }

  /** A reservation made right after its own name check, the lock never given up in between, is guarded. */
  lemma FreshCheckGuards(s: System, step: Step)
    requires Safe(s) && Enabled(s, step)
    requires step.Reserve? && s.ctxs[step.c].checked == Some(step.name)
    ensures Guarded(s, step)
  {
  }

  /** Rolling back never meets a missing library: a safe open can always be abandoned. */
  lemma FailAlwaysEnabled(s: System, c: nat)
    requires Safe(s) && CanLock(s, c)
    ensures Enabled(s, Fail(c))
  {
  }
}
