/** What a drop unregisters: not only no library that another live handle sees, but every one that none
    does. */
module DropEffect {
  import opened OrderedMap
  import opened OpenFlags
  import opened Registry
  import opened RegistryProofs
  import opened Removal
  import opened Unloading
  import opened OpenProtocol
  import opened DropSafety

  // ---------------------------------------------------------------- one library's turn

  /** Whether the key is committed, and as what, is the same in both. */
  ghost predicate SameAt(r: State, r': State, key: string) {
    && (IsCommitted(r', key) <==> IsCommitted(r, key))
    && (IsCommitted(r, key) ==> r'.committed.entries[key] == r.committed.entries[key])
  }

  lemma SameAtCompose(a: State, b: State, c: State, key: string)
    requires SameAt(a, b, key) && SameAt(b, c, key)
    ensures SameAt(a, c, key)
  {
  }

  lemma DropOneElsewhere(o: Outcome, lib: Module, count: nat, key: string)
    requires lib.Shortname() != key
    ensures SameAt(o.reg, DropOne(o, lib, count).reg, key)
  {
    hide ShortnameFromName, FlagsOf, Threshold, Libnames;
  }

  ghost predicate ListedOnce(scope: seq<Module>, i: nat) {
    i < |scope| && forall j :: 0 <= j < |scope| && scope[j] == scope[i] ==> j == i
  }

  ghost predicate Dropping(s: System, h: nat, counts: seq<nat>) {
    HandlesValid(s) && h in s.handles && |ScopeOf(s, h)| == |counts| > 0
  }

  /** The registry when library number i of the scope has its turn; number 0 is the handle's own. */
  ghost function Turn(s: System, h: nat, counts: seq<nat>, i: nat): State {
    if h in s.handles && |ScopeOf(s, h)| == |counts| && 1 <= i <= |counts| then Before(s, h, counts, i).reg else s.reg
  }

  ghost function Key(s: System, h: nat, i: nat): string {
    if i < |ScopeOf(s, h)| then ScopeOf(s, h)[i].Shortname() else ""
  }

  lemma OtherKeys(s: System, h: nat, counts: seq<nat>, i: nat, j: nat)
    requires Dropping(s, h, counts) && ListedOnce(ScopeOf(s, h), i) && j < |counts| && j != i
    ensures Key(s, h, j) != Key(s, h, i)
  {
    hide ShortnameFromName;
    assert HandleValid(s, s.reg, h);
    assert Registered(s.reg, ScopeOf(s, h)[j]) && Registered(s.reg, ScopeOf(s, h)[i]);
  }

  lemma RootFirst(s: System, h: nat, counts: seq<nat>)
    requires Dropping(s, h, counts)
    ensures ScopeOf(s, h)[0] == s.handles[h].root && Key(s, h, 0) == s.handles[h].root.Shortname()
  {
    assert HandleValid(s, s.reg, h);
  }

  lemma OtherTurn(s: System, h: nat, counts: seq<nat>, i: nat, j: nat)
    requires Dropping(s, h, counts) && ListedOnce(ScopeOf(s, h), i) && j < |counts| && j != i
    ensures SameAt(Turn(s, h, counts, j), Turn(s, h, counts, j + 1), Key(s, h, i))
  {
    hide Before, DropOne, HandlesValid, SameAt, Module.Shortname, ListedOnce, ScopeOf;
    OtherKeys(s, h, counts, i, j);
    if j == 0 {
      RootFirst(s, h, counts);
      BeforeFirst(s, h, counts);
      DropOneElsewhere(Outcome(s.reg, [], false), s.handles[h].root, counts[0], Key(s, h, i));
    } else {
      BeforeNext(s, h, counts, j);
      DropOneElsewhere(Before(s, h, counts, j), ScopeOf(s, h)[j], counts[j], Key(s, h, i));
    }
  }

  lemma SameAtSelf(r: State, key: string)
    ensures SameAt(r, r, key)
  {
  }

  /** The turns of the others change nothing for a library. */
  lemma {:induction false} Elsewhere(s: System, h: nat, counts: seq<nat>, i: nat, first: nat, last: nat)
    requires Dropping(s, h, counts) && ListedOnce(ScopeOf(s, h), i)
    requires first <= last <= |counts| && !(first <= i < last)
    ensures SameAt(Turn(s, h, counts, first), Turn(s, h, counts, last), Key(s, h, i))
    decreases last - first
  {
    hide *;
    SameAtSelf(Turn(s, h, counts, first), Key(s, h, i));
    if first < last {
      Elsewhere(s, h, counts, i, first, last - 1);
      OtherTurn(s, h, counts, i, last - 1);
      SameAtCompose(Turn(s, h, counts, first), Turn(s, h, counts, last - 1), Turn(s, h, counts, last), Key(s, h, i));
    }
  }

  lemma GoneIfUnused(o: Outcome, lib: Module, count: nat)
    requires !o.panicked && Registered(o.reg, lib) && Separate(o.reg)
    ensures var flags := o.reg.committed.entries[lib.Shortname()].meta.flags;
            IsCommitted(DropOne(o, lib, count).reg, lib.Shortname()) <==>
              NoDelete in flags || count != Threshold(flags)
  {
    hide ShortnameFromName, Libnames, Threshold;
  }

  /** A drop that goes on to the dependencies and does not panic has not panicked before. */
  lemma {:induction false} NoPanicBefore(s: System, h: nat, counts: seq<nat>, i: nat)
    requires h in s.handles && |ScopeOf(s, h)| == |counts| && 1 <= i <= |counts|
    requires !Before(s, h, counts, |counts|).panicked
    ensures !Before(s, h, counts, i).panicked
    decreases |counts| - i
  {
    hide Before, ScopeOf;
    if i < |counts| {
      NoPanicBefore(s, h, counts, i + 1);
      BeforeNext(s, h, counts, i);
    }
  }

  /** The whole drop. */
  ghost function Dropped(s: System, h: nat, counts: seq<nat>): Outcome {
    if h in s.handles && |ScopeOf(s, h)| == |counts| > 0
    then Unloading.DropHandle(s.reg, s.handles[h].root, ScopeOf(s, h), counts)
    else Outcome(s.reg, [], false)
  }

  /** Without its own library gone a drop changes nothing; with it gone nobody else sees that library, and the
      dependencies have had their turns. */
  lemma RootGone(s: System, h: nat, counts: seq<nat>)
    requires Invariant(s.reg) && Dropping(s, h, counts) && counts[0] >= Known(s, s.reg, s.handles[h].root)
    requires !IsCommitted(Dropped(s, h, counts).reg, s.handles[h].root.Shortname())
    ensures Dropped(s, h, counts) == Before(s, h, counts, |counts|)
    ensures SeenOnlyBy(s, h, s.handles[h].root)
  {
    hide Invariant, Known, DropOne, ScopeOf, Before, Unloading.DropHandle, HandlesValid, SeenOnlyBy;
    RootStage(s, h, counts[0]);
    BeforeEnd(s, h, counts);
    RootRegistered(s, h);
    NothingRemoved(s.reg, s.handles[h].root, counts[0]);
  }

  lemma NothingRemoved(r: State, lib: Module, count: nat)
    ensures var o := DropOne(Outcome(r, [], false), lib, count); (o.removed == [] && o.reg == r) || o.removed == [lib]
  {
  }

  /** One reference besides the registry's is the place in the dropped handle's array. */
  lemma DependencyReferencesIff(s: System, h: nat, counts: seq<nat>, i: nat)
    requires Dropping(s, h, counts) && 1 <= i < |counts| && ListedOnce(ScopeOf(s, h), i)
    requires SeenOnlyBy(s, h, s.handles[h].root)
    ensures var m := ScopeOf(s, h)[i];
            |Roots(s, m)| + |Places(s, m)| == 1 <==> SeenOnlyBy(s, h, m)
  {
    var m := ScopeOf(s, h)[i];
    hide HandlesValid, SeenOnlyBy, Roots, Places, ListedOnce;
    if |Roots(s, m)| + |Places(s, m)| == 1 {
      FewReferencesToDependency(s, h, m);
    }
    if SeenOnlyBy(s, h, m) {
      NoRoot(s, h, counts, i);
      OnePlace(s, h, counts, i);
    }
  }

  lemma NoRoot(s: System, h: nat, counts: seq<nat>, i: nat)
    requires Dropping(s, h, counts) && 1 <= i < |counts| && ListedOnce(ScopeOf(s, h), i)
    requires SeenOnlyBy(s, h, ScopeOf(s, h)[i])
    ensures Roots(s, ScopeOf(s, h)[i]) == {}
  {
    RootFirst(s, h, counts);
    assert forall h2 :: h2 in s.handles ==> HandleValid(s, s.reg, h2) && s.handles[h2].root in ScopeOf(s, h2);
  }

  lemma OnePlace(s: System, h: nat, counts: seq<nat>, i: nat)
    requires Dropping(s, h, counts) && 1 <= i < |counts| && ListedOnce(ScopeOf(s, h), i)
    requires SeenOnlyBy(s, h, ScopeOf(s, h)[i])
    ensures Places(s, ScopeOf(s, h)[i]) == {(s.handles[h].scope, i)}
  {
    var m := ScopeOf(s, h)[i];
    assert HandleValid(s, s.reg, h);
    forall p
      ensures p in Places(s, m) <==> p == (s.handles[h].scope, i)
    {
      if p in Places(s, m) {
        var h2 :| h2 in s.handles && s.handles[h2].scope == p.0;
        assert m in ScopeOf(s, h2);
      }
    }
  }

  // ---------------------------------------------------------------- the references the model accounts for

  /** A library that stays as it was keeps its number of known references, whatever else is removed. */
  lemma KnownStays(s: System, r: State, m: Module)
    requires GlobalExact(s.reg) && GlobalExact(r) && Registered(s.reg, m) && SameAt(s.reg, r, m.Shortname())
    ensures Known(s, r, m) == Known(s, s.reg, m)
  {
    RegistryReferences(s, s.reg, m);
    RegistryReferences(s, r, m);
  }

  lemma TurnInvariant(s: System, h: nat, counts: seq<nat>, i: nat)
    requires Invariant(s.reg) && Dropping(s, h, counts) && i <= |counts|
    ensures Invariant(Turn(s, h, counts, i))
  {
    if i >= 1 {
      hide Invariant, DropOne, DropDeps, HandlesValid;
      var o := Outcome(s.reg, [], false);
      DropOneKeepsInvariant(o, s.handles[h].root, counts[0]);
      DropDepsKeepsInvariant(DropOne(o, s.handles[h].root, counts[0]), ScopeOf(s, h)[1..i], counts[1..i]);
    }
  }

  /** The flags of a library that is registered before the drop. */
  ghost function FlagsAt(s: System, m: Module): Flags {
    if IsCommitted(s.reg, m.Shortname()) then s.reg.committed.entries[m.Shortname()].meta.flags else {}
  }

  lemma InScope(s: System, h: nat, counts: seq<nat>, i: nat)
    requires Dropping(s, h, counts) && i < |counts|
    ensures Registered(s.reg, ScopeOf(s, h)[i]) && Key(s, h, i) == ScopeOf(s, h)[i].Shortname()
  {
    assert HandleValid(s, s.reg, h);
  }

  lemma TheOneTurn(s: System, h: nat, counts: seq<nat>, i: nat)
    requires Invariant(s.reg) && Dropping(s, h, counts) && 1 <= i < |counts| && ListedOnce(ScopeOf(s, h), i)
    requires !Before(s, h, counts, i).panicked
    ensures IsCommitted(Turn(s, h, counts, |counts|), Key(s, h, i)) <==>
              var m := ScopeOf(s, h)[i]; NoDelete in FlagsAt(s, m) || counts[i] != Threshold(FlagsAt(s, m))
  {
    hide Invariant, DropOne, DropDeps, HandlesValid, Module.Shortname, ListedOnce, Threshold, Before, ScopeOf;
    var m := ScopeOf(s, h)[i];
    InScope(s, h, counts, i);
    Elsewhere(s, h, counts, i, 0, i);
    TurnInvariant(s, h, counts, i);
    InvariantSeparate(Turn(s, h, counts, i));
    BeforeNext(s, h, counts, i);
    GoneIfUnused(Before(s, h, counts, i), m, counts[i]);
    Elsewhere(s, h, counts, i, i + 1, |counts|);
  }

  lemma InvariantSeparate(r: State)
    requires Invariant(r)
    ensures Separate(r) && GlobalExact(r)
  {
  }

  /** With its own library gone, a drop unregisters a dependency exactly when that may be unloaded and no
      other live handle sees it; it was measured at the references the model knows and the one held by those
      that depend on it. */
  lemma DependencyDroppedIffUnseen(s: System, h: nat, counts: seq<nat>, i: nat)
    requires Invariant(s.reg) && Dropping(s, h, counts) && counts[0] >= Known(s, s.reg, s.handles[h].root)
    requires 1 <= i < |counts| && ListedOnce(ScopeOf(s, h), i)
    requires counts[i] == Known(s, s.reg, ScopeOf(s, h)[i]) + 1
    requires !Dropped(s, h, counts).panicked
    requires !IsCommitted(Dropped(s, h, counts).reg, s.handles[h].root.Shortname())
    ensures var m := ScopeOf(s, h)[i];
            !IsCommitted(Dropped(s, h, counts).reg, m.Shortname()) <==>
              NoDelete !in FlagsAt(s, m) && SeenOnlyBy(s, h, m)
  {
    RootGone(s, h, counts);
    hide *;
    NoPanicBefore(s, h, counts, i);
    TheOneTurn(s, h, counts, i);
    InScope(s, h, counts, i);
    InvariantSeparate(s.reg);
    RegistryReferences(s, s.reg, ScopeOf(s, h)[i]);
    DependencyReferencesIff(s, h, counts, i);
  }

  /** May be unloaded, and no other live handle sees it. */
  ghost predicate Unloadable(s: System, h: nat, m: Module) {
    NoDelete !in FlagsAt(s, m) && SeenOnlyBy(s, h, m)
  }

  /** The handle's own library goes exactly when it is unloadable; it was measured at the references the model
      knows. */
  lemma RootGoneIff(s: System, h: nat, counts: seq<nat>)
    requires Invariant(s.reg) && Dropping(s, h, counts) && ListedOnce(ScopeOf(s, h), 0)
    requires counts[0] == Known(s, s.reg, s.handles[h].root)
    ensures !IsCommitted(Dropped(s, h, counts).reg, s.handles[h].root.Shortname()) <==>
              Unloadable(s, h, s.handles[h].root)
  {
    hide Known, DropOne, Before, Unloading.DropHandle, HandlesValid, SeenOnlyBy;
    var root := s.handles[h].root;
    var o := DropOne(Outcome(s.reg, [], false), root, counts[0]);
    RootFirst(s, h, counts);
    RootRegistered(s, h);
    RootDroppedIffUnseen(s, h, counts);
    BeforeFirst(s, h, counts);
    BeforeEnd(s, h, counts);
    InvariantSeparate(s.reg);
    hide Invariant, Threshold;
    GoneIfUnused(Outcome(s.reg, [], false), root, counts[0]);
    NothingRemoved(s.reg, root, counts[0]);
    RemovedIsGone(Outcome(s.reg, [], false), root, counts[0]);
    Elsewhere(s, h, counts, 0, 1, |counts|);
  }

  // ---------------------------------------------------------------- the whole drop

  /** Every count is exact when it is measured: what the model knows, and for a dependency the one reference
      that those that depend on it hold. */
  ghost predicate ExactCounts(s: System, h: nat, counts: seq<nat>) {
    && Dropping(s, h, counts)
    && counts[0] == Known(s, s.reg, s.handles[h].root)
    && forall i :: 1 <= i < |counts| ==> counts[i] == Known(s, s.reg, ScopeOf(s, h)[i]) + 1
  }

  lemma ExactCover(s: System, h: nat, counts: seq<nat>)
    requires Invariant(s.reg) && ExactCounts(s, h, counts) && NoDuplicates(ScopeOf(s, h))
    ensures CountsCover(s, h, counts)
  {
    hide Invariant, Known, Before, HandlesValid;
    forall i | 1 <= i < |counts|
      ensures DependencyCovered(s, h, counts, i)
    {
      ExactAtTurn(s, h, counts, i);
    }
  }

  lemma ExactAtTurn(s: System, h: nat, counts: seq<nat>, i: nat)
    requires Invariant(s.reg) && ExactCounts(s, h, counts) && NoDuplicates(ScopeOf(s, h)) && 1 <= i < |counts|
    ensures Known(s, Before(s, h, counts, i).reg, ScopeOf(s, h)[i]) == Known(s, s.reg, ScopeOf(s, h)[i])
  {
    hide Invariant, Known, Before, HandlesValid, SameAt, Module.Shortname, ScopeOf;
    InScope(s, h, counts, i);
    Elsewhere(s, h, counts, i, 0, i);
    TurnInvariant(s, h, counts, i);
    InvariantSeparate(s.reg);
    InvariantSeparate(Turn(s, h, counts, i));
    KnownStays(s, Turn(s, h, counts, i), ScopeOf(s, h)[i]);
  }

  lemma MemberGoneIff(s: System, h: nat, counts: seq<nat>, m: Module)
    requires Invariant(s.reg) && ExactCounts(s, h, counts) && NoDuplicates(ScopeOf(s, h)) && m in ScopeOf(s, h)
    ensures !IsCommitted(Dropped(s, h, counts).reg, m.Shortname()) <==>
              Unloadable(s, h, s.handles[h].root) && Unloadable(s, h, m)
  {
    var root := s.handles[h].root;
    var i: nat :| i < |ScopeOf(s, h)| && ScopeOf(s, h)[i] == m;
    RootFirst(s, h, counts);
    hide Invariant, Known, HandlesValid, ScopeOf, SeenOnlyBy, Dropped, Module.Shortname;
    RootGoneIff(s, h, counts);
    if Unloadable(s, h, root) {
      if i > 0 {
        DropDoesNotPanic(s, h, counts);
        DependencyDroppedIffUnseen(s, h, counts, i);
      }
    } else {
      NothingDropped(s, h, counts);
      InScope(s, h, counts, i);
    }
  }

  lemma DropDoesNotPanic(s: System, h: nat, counts: seq<nat>)
    requires Dropping(s, h, counts) && NoDuplicates(ScopeOf(s, h))
    ensures !Dropped(s, h, counts).panicked
  {
    DropNeverPanics(s, h, counts);
    hide Unloading.DropHandle, HandlesValid;
  }

  lemma NothingDropped(s: System, h: nat, counts: seq<nat>)
    requires Invariant(s.reg) && ExactCounts(s, h, counts) && NoDuplicates(ScopeOf(s, h))
    requires !Unloadable(s, h, s.handles[h].root)
    ensures Dropped(s, h, counts).reg == s.reg
  {
    RootFirst(s, h, counts);
    hide Known, DropOne, Before, Unloading.DropHandle, HandlesValid, SeenOnlyBy, Invariant;
    RootDroppedIffUnseen(s, h, counts);
    RootRegistered(s, h);
    BeforeEnd(s, h, counts);
    NothingRemoved(s.reg, s.handles[h].root, counts[0]);
  }

  /** Exactly what goes: with exact counts, a library is unregistered by a drop if and only if both the
      handle's own library and that library may be unloaded, it is in the handle's scope, and no other live
      handle sees either. What stays is unchanged. */
  lemma DropUnregistersTheUnseen(s: System, h: nat, counts: seq<nat>)
    requires Invariant(s.reg) && ExactCounts(s, h, counts) && NoDuplicates(ScopeOf(s, h))
    ensures var o := Dropped(s, h, counts);
            && !o.panicked
            && OnlyDeletes(s.reg, o.reg)
            && (forall k :: k in s.reg.committed.entries ==>
                  (k !in o.reg.committed.entries <==>
                     && s.reg.committed.entries[k].mod in ScopeOf(s, h)
                     && Unloadable(s, h, s.handles[h].root)
                     && Unloadable(s, h, s.reg.committed.entries[k].mod)))
  {
    var o := Dropped(s, h, counts);
    DropDoesNotPanic(s, h, counts);
    ExactCover(s, h, counts);
    DropLeavesOthersIntact(s, h, counts);
    InvariantNames(s.reg);
    hide Invariant, Known, HandlesValid, CountsCover, ExactCounts, Unloadable, OnlyDeletes, Unloading.DropHandle;
    hide OthersValid, NoDuplicates;
    forall k | k in s.reg.committed.entries
      ensures k !in o.reg.committed.entries <==>
                && s.reg.committed.entries[k].mod in ScopeOf(s, h)
                && Unloadable(s, h, s.handles[h].root)
                && Unloadable(s, h, s.reg.committed.entries[k].mod)
    {
      var m := s.reg.committed.entries[k].mod;
      if m in ScopeOf(s, h) {
        MemberGoneIff(s, h, counts, m);
      }
    }
  }

  lemma InvariantNames(r: State)
    requires Invariant(r)
    ensures NamesMatch(r)
  {
  }

  // ---------------------------------------------------------------- two libraries

  /** One handle on library `a`, which depends on `b`; both may be unloaded. */
  ghost function TwoLibraries(a: Module, b: Module): System {
    var entries := map[a.Shortname() := Entry(a, [b.Shortname()], Meta({}, [])), b.Shortname() := Entry(b, [], Meta({}, []))];
    System(State(Empty(), Empty(), map[], map[], IndexMap([a.Shortname(), b.Shortname()], entries), 2, 0),
           map[], None, map[0 := Handle(a, 0)], map[0 := [a, b]])
  }

  lemma TwoAreConsistent(a: Module, b: Module)
    requires a.Shortname() != b.Shortname()
    ensures Invariant(TwoLibraries(a, b).reg)
  {
    hide ShortnameFromName;
  }

  lemma TwoAreHandled(a: Module, b: Module)
    requires a.Shortname() != b.Shortname()
    ensures HandlesValid(TwoLibraries(a, b)) && ScopeOf(TwoLibraries(a, b), 0) == [a, b]
  {
    hide ShortnameFromName;
  }

  lemma TwoAreCounted(a: Module, b: Module)
    requires a.Shortname() != b.Shortname()
    ensures var s := TwoLibraries(a, b); Known(s, s.reg, a) == 3 && Known(s, s.reg, b) == 2
  {
    hide ShortnameFromName;
    var s := TwoLibraries(a, b);
    assert LiveArrays(s) == {0};
    assert Roots(s, a) == {0} && Roots(s, b) == {};
    assert Places(s, a) == {(0, 0)} && Places(s, b) == {(0, 1)};
  }

  /** Dropping the handle, with three references to each, unregisters both. */
  lemma DropUnregistersBoth(a: Module, b: Module)
    requires a.Shortname() != b.Shortname()
    ensures var s := TwoLibraries(a, b); Dropped(s, 0, [3, 3]).reg.committed.entries == map[]
  {
    hide ShortnameFromName, Invariant, Known, HandlesValid, Dropped, ScopeOf;
    var s := TwoLibraries(a, b);
    TwoAreConsistent(a, b);
    TwoAreHandled(a, b);
    TwoAreCounted(a, b);
    DropUnregistersTheUnseen(s, 0, [3, 3]);
    assert a in ScopeOf(s, 0) && b in ScopeOf(s, 0);
  }

  // ---------------------------------------------------------------- what is finalised

  /** The libraries of the scope that are no longer committed, in scope order. */
  ghost function Missing(scope: seq<Module>, r: State): seq<Module> {
    if scope == [] then []
    else
      var n := |scope| - 1;
      Missing(scope[..n], r) + if IsCommitted(r, scope[n].Shortname()) then [] else [scope[n]]
  }

  lemma {:induction false} MissingSame(scope: seq<Module>, r: State, r': State)
    requires forall m :: m in scope ==> (IsCommitted(r', m.Shortname()) <==> IsCommitted(r, m.Shortname()))
    ensures Missing(scope, r') == Missing(scope, r)
  {
    if scope != [] {
      MissingSame(scope[..|scope| - 1], r, r');
    }
  }

  lemma {:induction false} NothingMissing(scope: seq<Module>, r: State)
    requires forall m :: m in scope ==> IsCommitted(r, m.Shortname())
    ensures Missing(scope, r) == []
  {
    if scope != [] {
      NothingMissing(scope[..|scope| - 1], r);
    }
  }

  lemma MissingNext(scope: seq<Module>, n: nat, r: State)
    requires n < |scope|
    ensures Missing(scope[..n + 1], r) ==
            Missing(scope[..n], r) + if IsCommitted(r, scope[n].Shortname()) then [] else [scope[n]]
  {
    assert scope[..n + 1][..n] == scope[..n];
  }

  lemma RemovedIfGone(o: Outcome, lib: Module, count: nat)
    requires !o.panicked && Registered(o.reg, lib) && Separate(o.reg)
    ensures DropOne(o, lib, count).removed ==
            o.removed + if IsCommitted(DropOne(o, lib, count).reg, lib.Shortname()) then [] else [lib]
  {
    hide ShortnameFromName, Libnames, Threshold;
  }

  /** The turns up to number j have recorded what they removed. */
  ghost predicate Recorded(s: System, h: nat, counts: seq<nat>, j: nat) {
    && Dropping(s, h, counts) && 1 <= j <= |counts|
    && Before(s, h, counts, j).removed == Missing(ScopeOf(s, h)[..j], Turn(s, h, counts, j))
  }

  lemma EarlierStay(s: System, h: nat, counts: seq<nat>, j: nat)
    requires Dropping(s, h, counts) && NoDuplicates(ScopeOf(s, h)) && j < |counts|
    ensures Missing(ScopeOf(s, h)[..j], Turn(s, h, counts, j + 1)) == Missing(ScopeOf(s, h)[..j], Turn(s, h, counts, j))
  {
    hide HandlesValid, Turn, Module.Shortname, ScopeOf;
    var scope := ScopeOf(s, h);
    forall m | m in scope[..j]
      ensures IsCommitted(Turn(s, h, counts, j + 1), m.Shortname()) <==> IsCommitted(Turn(s, h, counts, j), m.Shortname())
    {
      var i: nat :| i < j && scope[i] == m;
      OtherTurn(s, h, counts, i, j);
    }
    MissingSame(scope[..j], Turn(s, h, counts, j), Turn(s, h, counts, j + 1));
  }

  lemma RecordedFirst(s: System, h: nat, counts: seq<nat>)
    requires Invariant(s.reg) && Dropping(s, h, counts) && NoDuplicates(ScopeOf(s, h))
    ensures Recorded(s, h, counts, 1)
  {
    hide Invariant, HandlesValid, DropOne, Before, Missing, NoDuplicates, Module.Shortname;
    var scope := ScopeOf(s, h);
    RootFirst(s, h, counts);
    RootRegistered(s, h);
    BeforeFirst(s, h, counts);
    InvariantSeparate(s.reg);
    RemovedIfGone(Outcome(s.reg, [], false), scope[0], counts[0]);
    MissingNext(scope, 0, Turn(s, h, counts, 1));
    NoneMissing(Turn(s, h, counts, 1));
  }

  lemma NoneMissing(r: State)
    ensures Missing([], r) == []
  {
  }

  lemma RecordedNext(s: System, h: nat, counts: seq<nat>, j: nat)
    requires Invariant(s.reg) && Recorded(s, h, counts, j) && j < |counts| && NoDuplicates(ScopeOf(s, h))
    requires !Before(s, h, counts, j).panicked
    ensures Recorded(s, h, counts, j + 1)
  {
    hide Invariant, HandlesValid, DropOne, Before, Missing, Module.Shortname, ScopeOf, SameAt;
    EarlierStay(s, h, counts, j);
    StillRegistered(s, h, counts, j);
    TurnInvariant(s, h, counts, j);
    InvariantSeparate(Turn(s, h, counts, j));
    BeforeNext(s, h, counts, j);
    RemovedIfGone(Before(s, h, counts, j), ScopeOf(s, h)[j], counts[j]);
    MissingNext(ScopeOf(s, h), j, Turn(s, h, counts, j + 1));
  }

  lemma StillRegistered(s: System, h: nat, counts: seq<nat>, j: nat)
    requires Dropping(s, h, counts) && 1 <= j < |counts| && NoDuplicates(ScopeOf(s, h))
    ensures Registered(Turn(s, h, counts, j), ScopeOf(s, h)[j])
  {
    hide HandlesValid, Turn, Module.Shortname, ScopeOf;
    InScope(s, h, counts, j);
    Elsewhere(s, h, counts, j, 0, j);
    StartsAs(s, h, counts);
  }

  lemma StartsAs(s: System, h: nat, counts: seq<nat>)
    ensures Turn(s, h, counts, 0) == s.reg
  {
  }

  lemma {:induction false} AllRecorded(s: System, h: nat, counts: seq<nat>, j: nat)
    requires Invariant(s.reg) && Dropping(s, h, counts) && NoDuplicates(ScopeOf(s, h)) && 1 <= j <= |counts|
    requires !Before(s, h, counts, |counts|).panicked
    ensures Recorded(s, h, counts, j)
  {
    hide Invariant, Recorded, HandlesValid, Before, ScopeOf, NoDuplicates;
    if j == 1 {
      RecordedFirst(s, h, counts);
    } else {
      AllRecorded(s, h, counts, j - 1);
      NoPanicBefore(s, h, counts, j - 1);
      RecordedNext(s, h, counts, j - 1);
    }
  }

  /** The libraries whose exit handlers a drop runs are exactly those that it unregisters, in the order of the
      scope, whatever the counts. */
  lemma RemovedAreTheMissing(s: System, h: nat, counts: seq<nat>)
    requires Invariant(s.reg) && Dropping(s, h, counts) && NoDuplicates(ScopeOf(s, h))
    ensures var o := Dropped(s, h, counts); o.removed == Missing(ScopeOf(s, h), o.reg)
  {
    hide Invariant, HandlesValid, DropOne, Before, Missing, NoDuplicates, Unloading.DropHandle;
    DropDoesNotPanic(s, h, counts);
    BeforeEnd(s, h, counts);
    RootFirst(s, h, counts);
    NothingRemoved(s.reg, s.handles[h].root, counts[0]);
    if Dropped(s, h, counts).removed == [] {
      RegisteredScope(s, h, counts);
      NothingMissing(ScopeOf(s, h), s.reg);
    }
    if Dropped(s, h, counts) == Before(s, h, counts, |counts|) {
      AllRecorded(s, h, counts, |counts|);
      assert ScopeOf(s, h)[..|counts|] == ScopeOf(s, h);
    }
  }

  lemma RegisteredScope(s: System, h: nat, counts: seq<nat>)
    requires Dropping(s, h, counts)
    ensures forall m :: m in ScopeOf(s, h) ==> IsCommitted(s.reg, m.Shortname())
  {
    assert HandleValid(s, s.reg, h);
  }
}
