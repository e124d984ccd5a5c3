/** Many `dlopen` calls in flight, live handles, and the lock that is given up in the middle of an open:
    the steps of the system and what every run keeps.

    Assumed of the linker (elf_loader): a finished load hands over every name the open reserved, under the
    module's own shortname, and no name that another open has reserved; a dependency scope starts with its
    own library and lists committed libraries; a loaded library keeps one reference to each member of its
    scope. */
module OpenProtocol {
  import opened OrderedMap
  import opened OpenFlags
  import opened Registry
  import opened RegistryProofs
  import opened Removal
  import opened Unloading

  /** Where an open stands: looking for its libraries with the lock held, waiting for a library that
      another open has reserved, or relocating. */
  datatype Phase = Searching | Waiting | Relocating

  /** One `OpenContext`. `checked`: the name found free since the lock was last taken. */
  datatype Context = Context(added: set<string>, flags: Flags, checked: Option<string>, phase: Phase)

  /** What an open looks up and may have to wait for. */
  datatype Sought = ByName(name: string) | ByIdentity(identity: FileIdentity)

  /** An `ElfLibrary`; clones and repeated opens may share one dependency array. */
  datatype Handle = Handle(root: Module, scope: nat)

  datatype System = System(
    reg: State,
    ctxs: map<nat, Context>,
    holder: Option<nat>,
    handles: map<nat, Handle>,
    scopes: map<nat, seq<Module>>)

  function Start(): System {
    System(Initial(), map[], None, map[], map[])
  }

  /** A new handle `id` on the first library of `scope`, kept as array number `slot`. */
  datatype Grant = Grant(id: nat, slot: nat, scope: seq<Module>)

  datatype Step =
    | Open(c: nat, flags: Flags)
    | Check(c: nat, name: string)
    | Wait(c: nat, sought: Sought)
    | Wake(c: nat)
    | Relocate(c: nat)
    | Alias(c: nat, canonical: string, alias: string)
    | Reserve(c: nat, name: string, fullName: string, identity: Option<FileIdentity>)
    | Commit(c: nat, linked: seq<Linked>, grant: Grant)
    | FinishExisting(c: nat, key: string, grant: Grant)
    | Fail(c: nat)
    | Get(grant: Grant)
    | Clone(h: nat, copy: nat)
    | Drop(h: nat, counts: seq<nat>)
    | RegisterHost(lib: Module, hostFlags: Flags)
    | RebuildGraph

  // ---------------------------------------------------------------- strong counts

  /** The committed library under its key is this very module. */
  ghost predicate Registered(r: State, m: Module) {
    IsCommitted(r, m.Shortname()) && r.committed.entries[m.Shortname()].mod == m
  }

  ghost function LiveArrays(s: System): set<nat> {
    set h | h in s.handles :: s.handles[h].scope
  }

  ghost function Roots(s: System, m: Module): set<nat> {
    set h | h in s.handles && s.handles[h].root == m
  }

  /** Where `m` occurs in live dependency arrays; a shared array counts once. */
  ghost function Places(s: System, m: Module): set<(nat, nat)> {
    set a, i | a in LiveArrays(s) && a in s.scopes && 0 <= i < |s.scopes[a]| && s.scopes[a][i] == m :: (a, i)
  }

  /** The strong references the registry and the handles account for; elf_loader may hold more. */
  ghost function Known(s: System, r: State, m: Module): nat {
    (if Registered(r, m) then 1 else 0)
    + (if m.Shortname() in r.global.entries && r.global.entries[m.Shortname()] == m then 1 else 0)
    + |Roots(s, m)| + |Places(s, m)|
  }

  ghost function ScopeOf(s: System, h: nat): seq<Module> {
    if h in s.handles && s.handles[h].scope in s.scopes then s.scopes[s.handles[h].scope] else []
  }

  /** The state of a drop just before dependency number i (1 is the first) is looked at. */
  ghost function Before(s: System, h: nat, counts: seq<nat>, i: nat): Outcome
    requires h in s.handles && |ScopeOf(s, h)| == |counts| && 1 <= i <= |counts|
  {
    DropDeps(DropOne(Outcome(s.reg, [], false), s.handles[h].root, counts[0]),
             ScopeOf(s, h)[1..i], counts[1..i])
  }

  /** The measured counts include every known reference, and for a registered dependency the one its
      dependents hold. */
  ghost predicate CountsCover(s: System, h: nat, counts: seq<nat>) {
    && h in s.handles && |ScopeOf(s, h)| == |counts| > 0
    && counts[0] >= Known(s, s.reg, s.handles[h].root)
    && (forall i :: 1 <= i < |counts| ==> DependencyCovered(s, h, counts, i))
  }

  ghost predicate DependencyCovered(s: System, h: nat, counts: seq<nat>, i: nat)
    requires h in s.handles && |ScopeOf(s, h)| == |counts| && 1 <= i < |counts|
  {
    var r := Before(s, h, counts, i).reg;
    Registered(r, ScopeOf(s, h)[i]) ==> counts[i] >= Known(s, r, ScopeOf(s, h)[i]) + 1
  }

  // ---------------------------------------------------------------- steps

  ghost predicate HoldsLock(s: System, c: nat) {
    c in s.ctxs && s.holder == Some(c)
  }

  /** An open that relocates takes the lock again when it is done; one that waits does nothing else. */
  ghost predicate CanLock(s: System, c: nat) {
    c in s.ctxs && (s.holder == Some(c) || (s.holder == None && s.ctxs[c].phase == Relocating))
  }

  function Find(r: State, sought: Sought): Option<Found> {
    match sought
    case ByName(name) => Lookup(r, name)
    case ByIdentity(identity) => LookupByIdentity(r, identity)
  }

  /** A lookup that makes an open wait: it leads to a library reserved by somebody else. */
  ghost predicate MustWait(s: System, c: nat, sought: Sought)
    requires c in s.ctxs
  {
    && var found := Find(s.reg, sought);
       found.Some? && found.value.Pending? && found.value.shortname !in s.ctxs[c].added
  }

  ghost predicate GrantValid(s: System, r: State, g: Grant) {
    && g.id !in s.handles
    && |g.scope| > 0
    && (g.slot in s.scopes ==> s.scopes[g.slot] == g.scope)
    && (forall m :: m in g.scope ==> Registered(r, m))
  }

  ghost function Granted(s: System, g: Grant): System
    requires |g.scope| > 0
  {
    s.(handles := s.handles[g.id := Handle(g.scope[0], g.slot)], scopes := s.scopes[g.slot := g.scope])
  }

  ghost predicate LinkerContract(s: System, c: nat, linked: seq<Linked>)
    requires c in s.ctxs
  {
    && WellNamed(linked)
    && s.ctxs[c].added <= LinkedKeys(linked)
    && (forall k :: k in LinkedKeys(linked) && IsPending(s.reg, k) ==> k in s.ctxs[c].added)
  }

  ghost predicate Enabled(s: System, step: Step) {
    match step
    case Open(c, _) => c !in s.ctxs && s.holder == None
    case Check(c, name) => HoldsLock(s, c) && Lookup(s.reg, name) == None
    case Wait(c, sought) => HoldsLock(s, c) && MustWait(s, c, sought)
    case Wake(c) => c in s.ctxs && s.ctxs[c].phase == Waiting && s.holder == None
    case Relocate(c) => HoldsLock(s, c)
    case Alias(c, canonical, _) =>
      HoldsLock(s, c) && IsCanonical(s.reg, canonical) &&
      (IsCommitted(s.reg, canonical) || canonical in s.ctxs[c].added)
    case Reserve(c, name, _, _) => HoldsLock(s, c) && name !in s.ctxs[c].added
    case Commit(c, linked, grant) =>
      CanLock(s, c) && LinkerContract(s, c, linked) &&
      GrantValid(s, Merge(s.reg, linked, s.ctxs[c].flags), grant)
    case FinishExisting(c, key, grant) =>
      HoldsLock(s, c) && IsCommitted(s.reg, key) && s.ctxs[c].added == {} &&
      GrantValid(s, s.reg, grant) && grant.scope[0].Shortname() == key
    case Fail(c) => CanLock(s, c) && AllCanonical(s.reg, s.ctxs[c].added)
    case Get(grant) => s.holder == None && GrantValid(s, s.reg, grant)
    case Clone(h, copy) => h in s.handles && copy !in s.handles
    case Drop(h, counts) => s.holder == None && CountsCover(s, h, counts)
    case RegisterHost(lib, flags) =>
      s.holder == None && !IsCanonical(s.reg, lib.Shortname()) && (lib.name == "" ==> Global in flags)
    case RebuildGraph => s.holder == None
  }

  ghost function Closed(s: System, c: nat): System {
    s.(ctxs := s.ctxs - {c}, holder := None)
  }

  ghost function Next(s: System, step: Step): System
    requires Enabled(s, step)
  {
    match step
    case Open(c, flags) => s.(ctxs := s.ctxs[c := Context({}, flags, None, Searching)], holder := Some(c))
    case Check(c, name) => s.(ctxs := s.ctxs[c := s.ctxs[c].(checked := Some(name))])
    case Wait(c, _) => s.(ctxs := s.ctxs[c := s.ctxs[c].(checked := None, phase := Waiting)], holder := None)
    case Wake(c) => s.(ctxs := s.ctxs[c := s.ctxs[c].(phase := Searching)], holder := Some(c))
    case Relocate(c) => s.(ctxs := s.ctxs[c := s.ctxs[c].(checked := None, phase := Relocating)], holder := None)
    case Alias(c, canonical, alias) => s.(reg := AddAlias(s.reg, canonical, alias))
    case Reserve(c, name, fullName, identity) =>
      s.(reg := ReservePending(s.reg, name, fullName, identity, s.ctxs[c].flags),
         ctxs := s.ctxs[c := s.ctxs[c].(added := s.ctxs[c].added + {name}, checked := None)])
    case Commit(c, linked, grant) =>
      Closed(Granted(s.(reg := Merge(s.reg, linked, s.ctxs[c].flags)), grant), c)
    case FinishExisting(c, key, grant) =>
      Closed(Granted(s.(reg := Promote(s.reg, key, s.ctxs[c].flags)), grant), c)
    case Fail(c) => Closed(s.(reg := Withdrawn(s.reg, s.ctxs[c].added)), c)
    case Get(grant) => Granted(s, grant)
    case Clone(h, copy) => s.(handles := s.handles[copy := s.handles[h]])
    case Drop(h, counts) =>
      s.(reg := Unloading.DropHandle(s.reg, s.handles[h].root, ScopeOf(s, h), counts).reg, handles := s.handles - {h})
    case RegisterHost(lib, flags) => s.(reg := RegisterLoaded(s.reg, lib, flags))
    case RebuildGraph => s.(reg := Rebuild(s.reg))
  }

  // ---------------------------------------------------------------- the invariant

  /** `pending` is the disjoint union of the names that the unfinished opens reserved. */
  ghost predicate Reservations(s: System) {
    PendingHasOwner(s) && OwnedIsPending(s) && OwnersApart(s)
  }

  ghost predicate PendingHasOwner(s: System) {
    forall k :: k in s.reg.pending.entries ==> exists c :: c in s.ctxs && k in s.ctxs[c].added
  }

  ghost predicate OwnedIsPending(s: System) {
    forall c, k :: c in s.ctxs && k in s.ctxs[c].added ==> k in s.reg.pending.entries
  }

  ghost predicate OwnersApart(s: System) {
    forall c, d :: c in s.ctxs && d in s.ctxs && c != d ==> s.ctxs[c].added !! s.ctxs[d].added
  }

  /** An open holds the lock exactly while it searches. Only the lock holder has a fresh name check, and the
      name is still free. */
  ghost predicate ChecksFresh(s: System) {
    && (s.holder.Some? ==> s.holder.value in s.ctxs)
    && (forall c :: c in s.ctxs ==> (s.holder == Some(c) <==> s.ctxs[c].phase == Searching))
    && (forall c :: c in s.ctxs && s.ctxs[c].checked.Some? ==>
                    s.holder == Some(c) && !IsCanonical(s.reg, s.ctxs[c].checked.value))
  }

  ghost predicate HandleValid(s: System, r: State, h: nat) {
    && h in s.handles && s.handles[h].scope in s.scopes
    && |ScopeOf(s, h)| > 0 && ScopeOf(s, h)[0] == s.handles[h].root
    && (forall m :: m in ScopeOf(s, h) ==> Registered(r, m))
  }

  /** Everything a live handle can see is still registered. */
  ghost predicate HandlesValid(s: System) {
    forall h :: h in s.handles ==> HandleValid(s, s.reg, h)
  }

  ghost predicate Safe(s: System) {
    && Invariant(s.reg)
    && Reservations(s)
    && ChecksFresh(s)
    && HandlesValid(s)
  }

  /** The condition a reservation needs: the name is not a canonical key at that moment. */
  ghost predicate Guarded(s: System, step: Step) {
    step.Reserve? ==> !IsCanonical(s.reg, step.name)
  }

  // ---------------------------------------------------------------- frames

  /** Committed libraries stay, as the same modules, with at least their flags. */
  ghost predicate Grows(r: State, r': State) {
    forall k :: k in r.committed.entries ==>
                && k in r'.committed.entries
                && r'.committed.entries[k].mod == r.committed.entries[k].mod
                && r.committed.entries[k].meta.flags <= r'.committed.entries[k].meta.flags
  }

  lemma GrowsKeepsHandles(s: System, r': State)
    requires HandlesValid(s) && Grows(s.reg, r')
    ensures HandlesValid(s.(reg := r'))
  {
    var s' := s.(reg := r');
    forall h | h in s'.handles
      ensures HandleValid(s', s'.reg, h)
    {
      assert HandleValid(s, s.reg, h);
      assert ScopeOf(s', h) == ScopeOf(s, h);
      forall m | m in ScopeOf(s', h)
        ensures Registered(r', m)
      {
        assert Registered(s.reg, m);
      }
    }
  }

  lemma GrantKeepsHandles(s: System, g: Grant)
    requires HandlesValid(s) && GrantValid(s, s.reg, g)
    ensures HandlesValid(Granted(s, g))
  {
    var s' := Granted(s, g);
    forall h | h in s'.handles
      ensures HandleValid(s', s'.reg, h)
    {
      if h == g.id {
        assert ScopeOf(s', h) == g.scope;
      } else {
        assert HandleValid(s, s.reg, h);
        assert ScopeOf(s', h) == ScopeOf(s, h);
      }
    }
  }
}
