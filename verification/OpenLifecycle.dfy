/** From reservation to commit: what a library was reserved with is what it is committed with, whatever other
    opens do in between. */
module OpenLifecycle {
  import opened OrderedMap
  import opened OpenFlags
  import opened Registry
  import opened RegistryProofs
  import opened Removal
  import opened Unloading
  import opened OpenProtocol
  import opened DropSafety
  import opened ProtocolSafety
  import opened OpenRuns
  import opened Registration

  ghost predicate ReservedWith(r: State, key: string, flags: Flags) {
    IsPending(r, key) && r.pending.entries[key].flags == flags
  }

  lemma AliasKeepsReserved(r: State, canonical: string, alias: string)
    requires IsCanonical(r, canonical)
    ensures KeepsReserved(r, AddAlias(r, canonical, alias))
  {
    AddAliasFrame(r, canonical, alias);
  }

  lemma ReservePendingKeepsReserved(r: State, name: string, fullName: string, identity: Option<FileIdentity>, flags: Flags)
    requires !IsPending(r, name)
    ensures KeepsReserved(r, ReservePending(r, name, fullName, identity, flags))
  {
    hide CompatAliases, NormalizedFlags;
    var r1 := AddIdentity(AddReservation(r, name, NormalizedFlags(fullName, flags)), identity, name);
    AddAliasesFrame(r1, name, CompatAliases(name));
    hide AddAliases;
  }

  lemma RegisterLoadedKeepsReserved(r: State, lib: Module, flags: Flags)
    ensures KeepsReserved(r, RegisterLoaded(r, lib, flags))
  {
    hide CompatAliases, ShortnameFromName, DirectDeps, NormalizedFlags;
    var key := lib.Shortname();
    var r1 := AddIdentity(AddLoaded(r, key, lib, NormalizedFlags(lib.name, flags)), lib.identity, key);
    AddAliasesFrame(r1, key, CompatAliases(key));
    hide AddAliases;
  }

  lemma SamePendingKeeps(r: State, r': State)
    requires r'.pending == r.pending
    ensures KeepsReserved(r, r')
  {
  }

  lemma WithdrawnKeepsReserved(r: State, names: set<string>)
    ensures KeepsReserved(r, Withdrawn(r, names))
  {
  }

  lemma PromotePending(r: State, key: string, flags: Flags)
    requires IsCommitted(r, key)
    ensures Promote(r, key, flags).pending == r.pending
  {
  }

  /** No step changes the flags of a reservation that it does not end. */
  lemma StepKeepsReserved(s: System, step: Step)
    requires Safe(s) && Enabled(s, step) && Guarded(s, step)
    ensures KeepsReserved(s.reg, Next(s, step).reg)
  {
    hide Invariant, Reservations, ChecksFresh, HandlesValid, GrantValid, KeepsReserved, Merge, CountsCover;
    match step
    case Alias(_, canonical, alias) => AliasKeepsReserved(s.reg, canonical, alias);
    case Reserve(c, name, fullName, identity) =>
      ReservePendingKeepsReserved(s.reg, name, fullName, identity, s.ctxs[c].flags);
    case Commit(c, linked, _) => MergeKeepsReserved(s.reg, linked, s.ctxs[c].flags);
    case FinishExisting(c, key, _) =>
      PromotePending(s.reg, key, s.ctxs[c].flags);
      SamePendingKeeps(s.reg, Next(s, step).reg);
    case Fail(c) => WithdrawnKeepsReserved(s.reg, s.ctxs[c].added);
    case Drop(h, counts) =>
      DropPending(s, h, counts);
      SamePendingKeeps(s.reg, Next(s, step).reg);
    case RegisterHost(lib, flags) => RegisterLoadedKeepsReserved(s.reg, lib, flags);
    case _ => SamePendingKeeps(s.reg, Next(s, step).reg);
  }

  /** The key is pending in every state from i to j. */
  ghost predicate PendingThroughout(states: seq<System>, i: nat, j: nat, key: string) {
    forall n :: i <= n <= j < |states| ==> IsPending(states[n].reg, key)
  }

  /** Over any stretch of a guarded run a reservation keeps its flags. */
  lemma {:induction false} ReservationKeepsFlags(states: seq<System>, steps: seq<Step>, i: nat, j: nat, key: string, flags: Flags)
    requires IsRun(states, steps) && RunGuarded(states, steps) && i <= j < |states|
    requires ReservedWith(states[i].reg, key, flags) && PendingThroughout(states, i, j, key)
    ensures ReservedWith(states[j].reg, key, flags)
  {
    if i < j {
      ReservationKeepsFlags(states, steps, i, j - 1, key, flags);
      GuardedPrefixIsSafe(states, steps, j - 1);
      assert StepAt(states, steps, j - 1);
      assert IsPending(states[j].reg, key);
      hide Safe, Enabled, Guarded;
      StepKeepsReserved(states[j - 1], steps[j - 1]);
    }
  }

  /** Every name an open reserved is brought by its load. */
  lemma OwnIsCommitted(s: System, c: nat, linked: seq<Linked>, key: string) returns (k: nat)
    requires Separate(s.reg) && OwnedIsPending(s) && c in s.ctxs && key in s.ctxs[c].added && LinkerContract(s, c, linked)
    ensures Commits(s.reg, linked, k) && linked[k].key == key && IsPending(s.reg, key)
  {
    assert key in LinkedKeys(linked);
    assert !IsCommitted(s.reg, key);
    k := FirstLoaded(linked, key);
  }

  lemma {:induction false} FirstLoaded(linked: seq<Linked>, key: string) returns (k: nat)
    requires key in LinkedKeys(linked)
    ensures k < |linked| && linked[k].mod.Some? && linked[k].key == key
    ensures forall j :: 0 <= j < k && linked[j].key == key ==> linked[j].mod == None
  {
    var l :| l in linked && l.mod.Some? && l.key == key;
    k := 0;
    while linked[k].mod == None || linked[k].key != key
      invariant k < |linked| && l in linked[k..]
      invariant forall j :: 0 <= j < k && linked[j].key == key ==> linked[j].mod == None
      decreases |linked| - k
    {
      assert linked[k..] == [linked[k]] + linked[k + 1..];
      k := k + 1;
    }
  }

  /** `key` is committed as this library, with these flags, and stands in the global scope exactly if they say
      so. */
  ghost predicate Published(r: State, key: string, m: Module, deps: seq<string>, flags: Flags) {
    && IsCommitted(r, key) && !IsPending(r, key)
    && SameButLibnames(Entry(m, deps, Meta(flags, [])), r.committed.entries[key])
    && (key in r.global.entries <==> Global in flags)
    && (key in r.global.entries ==> r.global.entries[key] == m)
  }

  lemma MergePublishes(r: State, linked: seq<Linked>, flags: Flags, k: nat, all: Flags)
    requires Invariant(r) && WellNamed(linked) && Commits(r, linked, k) && ReservedWith(r, linked[k].key, all)
    ensures Published(Merge(r, linked, flags), linked[k].key, linked[k].mod.value, linked[k].deps, all)
  {
    MergeCommits(r, linked, flags, k);
    MergeEntersGlobal(r, linked, flags, k);
    MergeKeepsInvariant(r, linked, flags);
    InvariantIsSeparate(Merge(r, linked, flags));
    hide Invariant, Merge, WellNamed, Commits, NormalizedFlags;
  }

  lemma InvariantIsSeparate(r: State)
    requires Invariant(r)
    ensures Separate(r)
  {
  }

  lemma CommitPublishes(s: System, step: Step, key: string, flags: Flags) returns (k: nat)
    requires Safe(s) && step.Commit? && Enabled(s, step)
    requires step.c in s.ctxs && key in s.ctxs[step.c].added && ReservedWith(s.reg, key, flags)
    ensures k < |step.linked| && step.linked[k].key == key && step.linked[k].mod.Some?
    ensures Published(Next(s, step).reg, key, step.linked[k].mod.value, step.linked[k].deps, flags)
  {
    hide Invariant, HandlesValid, ChecksFresh, Merge, Published, WellNamed;
    InvariantIsSeparate(s.reg);
    k := OwnIsCommitted(s, step.c, step.linked, key);
    MergePublishes(s.reg, step.linked, s.ctxs[step.c].flags, k, flags);
  }

  lemma ReserveReserves(s: System, step: Step)
    requires Safe(s) && step.Reserve? && Enabled(s, step) && Guarded(s, step)
    ensures step.c in s.ctxs
    ensures ReservedWith(Next(s, step).reg, step.name, NormalizedFlags(step.fullName, s.ctxs[step.c].flags))
  {
    hide Invariant, HandlesValid, ChecksFresh, ReservePending, NormalizedFlags, NamesEnter, IdentitiesEnter;
    ReservationEnters(s.reg, step.name, step.fullName, step.identity, s.ctxs[step.c].flags);
  }

  /** From reservation to commit. In every guarded run: a name that an open reserves at step i, and that stays
      reserved until an open that owns it commits at step j, is then the key of the library loaded for it, with
      the flags of the open that reserved it - and RTLD_NODELETE for the C runtime, by its full name - whatever
      all the other opens did in between; it is in the global scope exactly if those flags have RTLD_GLOBAL. */
  lemma CommittedAsReserved(states: seq<System>, steps: seq<Step>, i: nat, j: nat) returns (k: nat)
    requires IsRun(states, steps) && RunGuarded(states, steps) && i < j < |steps|
    requires steps[i].Reserve? && steps[j].Commit? && PendingThroughout(states, i + 1, j, steps[i].name)
    requires steps[j].c in states[j].ctxs && steps[i].name in states[j].ctxs[steps[j].c].added
    ensures steps[i].c in states[i].ctxs
    ensures k < |steps[j].linked| && steps[j].linked[k].key == steps[i].name && steps[j].linked[k].mod.Some?
    ensures var l := steps[j].linked[k];
            Published(states[j + 1].reg, steps[i].name, l.mod.value, l.deps,
                      NormalizedFlags(steps[i].fullName, states[i].ctxs[steps[i].c].flags))
  {
    hide *;
    StepOf(states, steps, i);
    StepOf(states, steps, j);
    ReserveReserves(states[i], steps[i]);
    var flags := NormalizedFlags(steps[i].fullName, states[i].ctxs[steps[i].c].flags);
    ReservationKeepsFlags(states, steps, i + 1, j, steps[i].name, flags);
    k := CommitPublishes(states[j], steps[j], steps[i].name, flags);
  }

  lemma StepOf(states: seq<System>, steps: seq<Step>, i: nat)
    requires IsRun(states, steps) && RunGuarded(states, steps) && i < |steps|
    ensures |states| == |steps| + 1
    ensures Safe(states[i]) && Enabled(states[i], steps[i]) && Guarded(states[i], steps[i])
    ensures states[i + 1] == Next(states[i], steps[i])
  {
    hide Safe, Enabled, Guarded;
    GuardedPrefixIsSafe(states, steps, i);
    assert StepAt(states, steps, i);
  }

  // ---------------------------------------------------------------- opens of libraries already there

  /** Opening a library that is already committed adds the requested RTLD_GLOBAL and RTLD_NODELETE to it, puts
      it in the global scope if that is requested, and changes no other library. */
  lemma FinishPromotes(s: System, step: Step)
    requires Safe(s) && step.FinishExisting? && Enabled(s, step)
    ensures step.c in s.ctxs && IsCommitted(s.reg, step.key)
    ensures Promoted(s.reg, Next(s, step).reg, step.key, s.ctxs[step.c].flags)
  {
    hide Invariant, HandlesValid, ChecksFresh, Reservations, Promote, Promoted, GrantValid;
    PromotionPromotes(s.reg, step.key, s.ctxs[step.c].flags);
  }

  ghost predicate Promoted(r: State, r': State, key: string, flags: Flags) {
    && r'.committed.entries.Keys == r.committed.entries.Keys && IsCommitted(r, key)
    && (forall k :: k in r.committed.entries && k != key ==> r'.committed.entries[k] == r.committed.entries[k])
    && (var e := r.committed.entries[key];
        SameButLibnames(e.(meta := e.meta.(flags := e.meta.flags + flags * {Global, NoDelete})), r'.committed.entries[key]))
    && (Global in flags ==> key in r'.global.entries)
  }

  lemma PromotionPromotes(r: State, key: string, flags: Flags)
    requires Invariant(r) && IsCommitted(r, key)
    ensures Promoted(r, Promote(r, key, flags), key, flags)
  {
    PromoteAddsFlags(r, key, flags);
    PromoteGlobalScope(r, key, flags);
    hide Promote, AliasesExact, Ordered, CountersBalance, IdentitiesLive, NamesMatch;
  }

  /** The handle it hands out is on that very library. */
  lemma FinishHandsOut(s: System, step: Step)
    requires step.FinishExisting? && Enabled(s, step)
    ensures IsCommitted(s.reg, step.key) && step.grant.id !in s.handles
    ensures step.grant.id in Next(s, step).handles
    ensures Next(s, step).handles[step.grant.id] == Handle(s.reg.committed.entries[step.key].mod, step.grant.slot)
  {
    hide Promote;
    assert step.grant.scope[0] in step.grant.scope;
    assert Registered(s.reg, step.grant.scope[0]);
  }
}
