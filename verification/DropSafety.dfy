/** Counting strong references: a drop unregisters only libraries that no other live handle can see. */
module DropSafety {
  import opened OrderedMap
  import opened OpenFlags
  import opened Registry
  import opened RegistryProofs
  import opened Removal
  import opened Unloading
  import opened OpenProtocol

  lemma TwoMembers<T>(s: set<T>, a: T, b: T)
    requires a in s && b in s && a != b
    ensures |s| >= 2
  {
    assert {a, b} <= s;
    assert |{a, b}| == 2;
    SubsetSize({a, b}, s);
  }

  lemma SubsetSize<T>(a: set<T>, b: set<T>)
    requires a <= b
    ensures |a| <= |b|
  {
    assert b == a + (b - a);
  }

  /** A place of `m` in the dependency array of a live handle. */
  lemma PlaceOf(s: System, h: nat, m: Module) returns (i: nat)
    requires HandleValid(s, s.reg, h) && m in ScopeOf(s, h)
    ensures i < |ScopeOf(s, h)| && ScopeOf(s, h)[i] == m
    ensures (s.handles[h].scope, i) in Places(s, m)
  {
    i :| 0 <= i < |ScopeOf(s, h)| && ScopeOf(s, h)[i] == m;
  }

  /** `h` is the only live handle that can see `m`. */
  ghost predicate SeenOnlyBy(s: System, h: nat, m: Module) {
    forall h2 :: h2 in s.handles && h2 != h ==> m !in ScopeOf(s, h2)
  }

  /** The counting argument for the handle's own library: if its known references besides the registry's
      are at most two, then they are the handle and its dependency array. */
  lemma FewReferencesToRoot(s: System, h: nat)
    requires HandlesValid(s) && h in s.handles
    requires |Roots(s, s.handles[h].root)| + |Places(s, s.handles[h].root)| <= 2
    ensures SeenOnlyBy(s, h, s.handles[h].root)
  {
    var root := s.handles[h].root;
    assert HandleValid(s, s.reg, h);
    assert h in Roots(s, root);
    var i0 := PlaceOf(s, h, root);
    assert |Roots(s, root)| >= 1 && |Places(s, root)| >= 1 by {
      SubsetSize({h}, Roots(s, root));
      SubsetSize({(s.handles[h].scope, i0)}, Places(s, root));
    }
    forall h2 | h2 in s.handles && h2 != h
      ensures root !in ScopeOf(s, h2)
    {
      assert HandleValid(s, s.reg, h2);
      if root in ScopeOf(s, h2) {
        if s.handles[h2].root == root {
          TwoMembers(Roots(s, root), h, h2);
        } else {
          var j := PlaceOf(s, h2, root);
          assert (s.handles[h].scope, 0) in Places(s, root);
          TwoMembers(Places(s, root), (s.handles[h].scope, 0), (s.handles[h2].scope, j));
        }
      }
    }
  }

  /** The same for a dependency: one known reference besides the registry's is the dropped handle's array. */
  lemma FewReferencesToDependency(s: System, h: nat, m: Module)
    requires HandlesValid(s) && h in s.handles && m in ScopeOf(s, h)
    requires SeenOnlyBy(s, h, s.handles[h].root)
    requires |Roots(s, m)| + |Places(s, m)| <= 1
    ensures SeenOnlyBy(s, h, m)
  {
    assert HandleValid(s, s.reg, h);
    var i := PlaceOf(s, h, m);
    forall h2 | h2 in s.handles && h2 != h
      ensures m !in ScopeOf(s, h2)
    {
      assert HandleValid(s, s.reg, h2);
      if m in ScopeOf(s, h2) {
        var j := PlaceOf(s, h2, m);
        assert s.handles[h].root !in ScopeOf(s, h2);
        TwoMembers(Places(s, m), (s.handles[h].scope, i), (s.handles[h2].scope, j));
      }
    }
  }

  /** The registry's own references to a registered library: the graph, and the global scope if flagged. */
  lemma RegistryReferences(s: System, r: State, m: Module)
    requires GlobalExact(r) && Registered(r, m)
    ensures Known(s, r, m) + 2 ==
            Threshold(r.committed.entries[m.Shortname()].meta.flags) + |Roots(s, m)| + |Places(s, m)|
  {
  }

  /** What a drop must leave for the other handles. */
  ghost predicate OthersValid(s: System, h: nat, r: State) {
    forall h2 :: h2 in s.handles && h2 != h ==> forall m :: m in ScopeOf(s, h2) ==> Registered(r, m)
  }

  lemma RemovingUnseen(s: System, h: nat, r: State, m: Module)
    requires OthersValid(s, h, r) && Registered(r, m) && SeenOnlyBy(s, h, m)
    ensures OthersValid(s, h, Remove(r, m.Shortname()))
  {
    var r' := Remove(r, m.Shortname());
    forall h2, m2 | h2 in s.handles && h2 != h && m2 in ScopeOf(s, h2)
      ensures Registered(r', m2)
    {
      assert Registered(r, m2) && m2 != m;
    }
  }

  /** Progress of a drop: the others are intact, no reservation was touched, and only what nobody else
      sees is gone. */
  ghost predicate DropGood(s: System, h: nat, r: State) {
    && Invariant(r)
    && OthersValid(s, h, r)
    && r.pending == s.reg.pending
    && OnlyDeletes(s.reg, r)
    && GoneUnseen(s, h, r)
  }

  ghost predicate GoneUnseen(s: System, h: nat, r: State) {
    forall k :: k in s.reg.committed.entries && k !in r.committed.entries ==>
                SeenOnlyBy(s, h, s.reg.committed.entries[k].mod) &&
                s.reg.committed.entries[k].mod in ScopeOf(s, h)
  }

  lemma RemoveCommittedFrame(r: State, key: string)
    requires IsCommitted(r, key) && !IsPending(r, key)
    requires NoDelete !in r.committed.entries[key].meta.flags
    ensures OnlyDeletes(r, Remove(r, key)) && Remove(r, key).pending == r.pending
    ensures Remove(r, key).committed.entries.Keys == r.committed.entries.Keys - {key}
  {
  }

  lemma RemoveGood(s: System, h: nat, r: State, m: Module)
    requires DropGood(s, h, r) && Registered(r, m) && SeenOnlyBy(s, h, m) && m in ScopeOf(s, h)
    requires NoDelete !in r.committed.entries[m.Shortname()].meta.flags
    ensures DropGood(s, h, Remove(r, m.Shortname()))
  {
    var key := m.Shortname();
    var r' := Remove(r, key);
    assert !IsPending(r, key);
    assert s.reg.committed.entries[key].mod == m;
    hide Consistent, CountersBalance, Remove, SeenOnlyBy, ScopeOf;
    RemovingUnseen(s, h, r, m);
    RemoveForgets(r, key);
    RemoveCommittedFrame(r, key);
    OnlyDeletesCompose(s.reg, r, r');
    assert GoneUnseen(s, h, r');
  }

  // ---------------------------------------------------------------- the two stages

  lemma RootStage(s: System, h: nat, count: nat)
    requires Invariant(s.reg) && HandlesValid(s) && h in s.handles && count >= Known(s, s.reg, s.handles[h].root)
    ensures var o := DropOne(Outcome(s.reg, [], false), s.handles[h].root, count);
            && DropGood(s, h, o.reg) && !o.panicked
            && (o.removed != [] ==> SeenOnlyBy(s, h, s.handles[h].root))
  {
    var root := s.handles[h].root;
    assert HandleValid(s, s.reg, h) && Registered(s.reg, root);
    assert DropGood(s, h, s.reg) by {
      assert forall h2 :: h2 in s.handles ==> HandleValid(s, s.reg, h2);
    }
    if Unused(s.reg, root, count) {
      RegistryReferences(s, s.reg, root);
      FewReferencesToRoot(s, h);
      RemoveGood(s, h, s.reg, root);
    }
  }

  /** A registered dependency is unregistered only if nobody else sees it; one that is no longer
      registered has no key of its own, so nothing is removed in its place. */
  lemma DependencyStage(s: System, h: nat, o: Outcome, m: Module, count: nat)
    requires Invariant(s.reg) && HandlesValid(s) && h in s.handles && DropGood(s, h, o.reg)
    requires m in ScopeOf(s, h) && SeenOnlyBy(s, h, s.handles[h].root)
    requires Registered(o.reg, m) ==> count >= Known(s, o.reg, m) + 1
    ensures DropGood(s, h, DropOne(o, m, count).reg)
  {
    assert HandleValid(s, s.reg, h) && Registered(s.reg, m);
    if Registered(o.reg, m) {
      if !o.panicked && Unused(o.reg, m, count) {
        RegistryReferences(s, o.reg, m);
        FewReferencesToDependency(s, h, m);
        RemoveGood(s, h, o.reg, m);
      }
    } else {
      assert !IsCanonical(o.reg, m.Shortname());
    }
  }

  lemma BeforeFirst(s: System, h: nat, counts: seq<nat>)
    requires h in s.handles && |ScopeOf(s, h)| == |counts| > 0
    ensures Before(s, h, counts, 1) == DropOne(Outcome(s.reg, [], false), s.handles[h].root, counts[0])
  {
    assert ScopeOf(s, h)[1..1] == [] && counts[1..1] == [];
  }

  lemma CoveredAt(s: System, h: nat, counts: seq<nat>, i: nat)
    requires CountsCover(s, h, counts) && 1 <= i < |counts|
    ensures var r := Before(s, h, counts, i).reg;
            Registered(r, ScopeOf(s, h)[i]) ==> counts[i] >= Known(s, r, ScopeOf(s, h)[i]) + 1
  {
    hide Known, DropOne, DropDeps;
    assert DependencyCovered(s, h, counts, i);
  }

  lemma BeforeNext(s: System, h: nat, counts: seq<nat>, i: nat)
    requires h in s.handles && |ScopeOf(s, h)| == |counts| && 1 <= i < |counts|
    ensures Before(s, h, counts, i + 1) == DropOne(Before(s, h, counts, i), ScopeOf(s, h)[i], counts[i])
  {
    assert ScopeOf(s, h)[1..i + 1][..i - 1] == ScopeOf(s, h)[1..i];
    assert counts[1..i + 1][..i - 1] == counts[1..i];
  }

  lemma BeforeEnd(s: System, h: nat, counts: seq<nat>)
    requires h in s.handles && |ScopeOf(s, h)| == |counts| > 0
    ensures var o := DropOne(Outcome(s.reg, [], false), s.handles[h].root, counts[0]);
            Unloading.DropHandle(s.reg, s.handles[h].root, ScopeOf(s, h), counts) ==
            if o.removed == [] then o else Before(s, h, counts, |counts|)
  {
    assert ScopeOf(s, h)[1..] == ScopeOf(s, h)[1..|counts|] && counts[1..] == counts[1..|counts|];
  }

  lemma CoverShape(s: System, h: nat, counts: seq<nat>)
    requires CountsCover(s, h, counts)
    ensures h in s.handles && |ScopeOf(s, h)| == |counts| > 0 && counts[0] >= Known(s, s.reg, s.handles[h].root)
  {
    hide Known, Before, ScopeOf, DependencyCovered;
  }

  ghost predicate GoodAt(s: System, h: nat, counts: seq<nat>, i: nat)
    requires h in s.handles && |ScopeOf(s, h)| == |counts| && 1 <= i <= |counts|
  {
    DropGood(s, h, Before(s, h, counts, i).reg)
  }

  lemma GoodFirst(s: System, h: nat, counts: seq<nat>)
    requires h in s.handles && |ScopeOf(s, h)| == |counts| > 0
    requires Invariant(s.reg) && HandlesValid(s) && CountsCover(s, h, counts)
    ensures GoodAt(s, h, counts, 1)
  {
    CoverShape(s, h, counts);
    RootStage(s, h, counts[0]);
    BeforeFirst(s, h, counts);
    hide DropGood, DropOne, Before, Known, HandlesValid, Invariant, CountsCover;
  }

  lemma GoodNext(s: System, h: nat, counts: seq<nat>, i: nat)
    requires h in s.handles && |ScopeOf(s, h)| == |counts| && 1 <= i < |counts|
    requires Invariant(s.reg) && HandlesValid(s) && CountsCover(s, h, counts)
    requires SeenOnlyBy(s, h, s.handles[h].root) && GoodAt(s, h, counts, i)
    ensures GoodAt(s, h, counts, i + 1)
  {
    hide DropGood, DropOne, DropDeps, Before, Known, HandlesValid, Invariant, CountsCover, Registered, SeenOnlyBy;
    var m := ScopeOf(s, h)[i];
    assert m in ScopeOf(s, h);
    CoveredAt(s, h, counts, i);
    BeforeNext(s, h, counts, i);
    DependencyStage(s, h, Before(s, h, counts, i), m, counts[i]);
  }

  lemma {:induction false} AllStages(s: System, h: nat, counts: seq<nat>, i: nat)
    requires h in s.handles && |ScopeOf(s, h)| == |counts| && 1 <= i <= |counts|
    requires Invariant(s.reg) && HandlesValid(s) && CountsCover(s, h, counts)
    requires SeenOnlyBy(s, h, s.handles[h].root)
    ensures GoodAt(s, h, counts, i)
  {
    hide *;
    if i == 1 {
      GoodFirst(s, h, counts);
    } else {
      AllStages(s, h, counts, i - 1);
      GoodNext(s, h, counts, i - 1);
    }
  }

  lemma GoodIs(s: System, h: nat, counts: seq<nat>, i: nat)
    requires h in s.handles && |ScopeOf(s, h)| == |counts| && 1 <= i <= |counts|
    ensures GoodAt(s, h, counts, i) == DropGood(s, h, Before(s, h, counts, i).reg)
  {
    hide DropGood, Before, ScopeOf;
  }

  /** A drop, whatever it unregisters: every other live handle still finds its whole scope registered, no
      reservation of an open in flight is touched, NODELETE libraries stay, and whatever is gone was in the
      dropped handle's scope and in no other live one. */
  lemma DropLeavesOthersIntact(s: System, h: nat, counts: seq<nat>)
    requires Invariant(s.reg) && HandlesValid(s) && CountsCover(s, h, counts)
    ensures DropGood(s, h, Unloading.DropHandle(s.reg, s.handles[h].root, ScopeOf(s, h), counts).reg)
  {
    CoverShape(s, h, counts);
    hide *;
    RootStage(s, h, counts[0]);
    BeforeEnd(s, h, counts);
    var o := DropOne(Outcome(s.reg, [], false), s.handles[h].root, counts[0]);
    if o.removed != [] {
      AllStages(s, h, counts, |counts|);
      GoodIs(s, h, counts, |counts|);
    }
  }

  // ---------------------------------------------------------------- the roots of other handles

  /** The measured counts include every reference of the registry and the handles; nothing is assumed about
      references elsewhere. */
  ghost predicate CountsKnown(s: System, h: nat, counts: seq<nat>) {
    && h in s.handles && |ScopeOf(s, h)| == |counts| > 0
    && counts[0] >= Known(s, s.reg, s.handles[h].root)
    && (forall i :: 1 <= i < |counts| ==> DependencyKnown(s, h, counts, i))
  }

  ghost predicate DependencyKnown(s: System, h: nat, counts: seq<nat>, i: nat)
    requires h in s.handles && |ScopeOf(s, h)| == |counts| && 1 <= i < |counts|
  {
    var r := Before(s, h, counts, i).reg;
    Registered(r, ScopeOf(s, h)[i]) ==> counts[i] >= Known(s, r, ScopeOf(s, h)[i])
  }

  ghost predicate RootsValid(s: System, h: nat, r: State) {
    forall h2 :: h2 in s.handles && h2 != h ==> Registered(r, s.handles[h2].root)
  }

  ghost predicate RootsGood(s: System, h: nat, r: State) {
    Invariant(r) && RootsValid(s, h, r) && r.pending == s.reg.pending && OnlyDeletes(s.reg, r)
  }

  /** A dependency that is the root of another live handle is held by that handle, by the first place of its
      array, and by a later place of the dropped handle's. */
  lemma RootOfAnother(s: System, h: nat, i: nat, h2: nat)
    requires HandlesValid(s) && h in s.handles && h2 in s.handles && h2 != h
    requires 1 <= i < |ScopeOf(s, h)| && ScopeOf(s, h)[i] == s.handles[h2].root
    ensures |Roots(s, ScopeOf(s, h)[i])| + |Places(s, ScopeOf(s, h)[i])| >= 3
  {
    var m := ScopeOf(s, h)[i];
    assert HandleValid(s, s.reg, h) && HandleValid(s, s.reg, h2);
    SubsetSize({h2}, Roots(s, m));
    TwoMembers(Places(s, m), (s.handles[h].scope, i), (s.handles[h2].scope, 0));
  }

  lemma RemoveKeepsRoots(s: System, h: nat, r: State, m: Module)
    requires RootsGood(s, h, r) && Registered(r, m)
    requires NoDelete !in r.committed.entries[m.Shortname()].meta.flags
    requires forall h2 :: h2 in s.handles && h2 != h ==> s.handles[h2].root != m
    ensures RootsGood(s, h, Remove(r, m.Shortname()))
  {
    var r' := Remove(r, m.Shortname());
    assert !IsPending(r, m.Shortname());
    forall h2 | h2 in s.handles && h2 != h
      ensures Registered(r', s.handles[h2].root)
    {
      assert Registered(r, s.handles[h2].root);
    }
    RemoveForgets(r, m.Shortname());
    RemoveCommittedFrame(r, m.Shortname());
    hide Consistent, CountersBalance, Remove;
    OnlyDeletesCompose(s.reg, r, r');
  }

  lemma DependencyKeepsRoots(s: System, h: nat, o: Outcome, i: nat, count: nat)
    requires Invariant(s.reg) && HandlesValid(s) && h in s.handles && RootsGood(s, h, o.reg)
    requires 1 <= i < |ScopeOf(s, h)|
    requires Registered(o.reg, ScopeOf(s, h)[i]) ==> count >= Known(s, o.reg, ScopeOf(s, h)[i])
    ensures RootsGood(s, h, DropOne(o, ScopeOf(s, h)[i], count).reg)
  {
    var m := ScopeOf(s, h)[i];
    assert HandleValid(s, s.reg, h) && Registered(s.reg, m);
    if Registered(o.reg, m) {
      if !o.panicked && Unused(o.reg, m, count) {
        RegistryReferences(s, o.reg, m);
        forall h2 | h2 in s.handles && h2 != h
          ensures s.handles[h2].root != m
        {
          if s.handles[h2].root == m {
            RootOfAnother(s, h, i, h2);
          }
        }
        RemoveKeepsRoots(s, h, o.reg, m);
      }
    } else {
      assert !IsCanonical(o.reg, m.Shortname());
    }
  }

  lemma RootStageKeepsRoots(s: System, h: nat, count: nat)
    requires Invariant(s.reg) && HandlesValid(s) && h in s.handles && count >= Known(s, s.reg, s.handles[h].root)
    ensures RootsGood(s, h, DropOne(Outcome(s.reg, [], false), s.handles[h].root, count).reg)
  {
    var r := DropOne(Outcome(s.reg, [], false), s.handles[h].root, count).reg;
    RootStage(s, h, count);
    hide DropOne, Invariant, Known, OnlyDeletes, GoneUnseen;
    forall h2 | h2 in s.handles && h2 != h
      ensures Registered(r, s.handles[h2].root)
    {
      assert HandleValid(s, s.reg, h2);
      assert s.handles[h2].root in ScopeOf(s, h2);
    }
  }

  lemma KnownAt(s: System, h: nat, counts: seq<nat>, i: nat)
    requires CountsKnown(s, h, counts) && 1 <= i < |counts|
    ensures h in s.handles && |ScopeOf(s, h)| == |counts|
    ensures var r := Before(s, h, counts, i).reg;
            Registered(r, ScopeOf(s, h)[i]) ==> counts[i] >= Known(s, r, ScopeOf(s, h)[i])
  {
    hide Known, DropOne, DropDeps;
    assert DependencyKnown(s, h, counts, i);
  }

  lemma KnownShape(s: System, h: nat, counts: seq<nat>)
    requires CountsKnown(s, h, counts)
    ensures h in s.handles && |ScopeOf(s, h)| == |counts| > 0 && counts[0] >= Known(s, s.reg, s.handles[h].root)
  {
    hide Known, Before, ScopeOf, DependencyKnown;
  }

  ghost predicate RootsGoodAt(s: System, h: nat, counts: seq<nat>, i: nat)
    requires h in s.handles && |ScopeOf(s, h)| == |counts| && 1 <= i <= |counts|
  {
    RootsGood(s, h, Before(s, h, counts, i).reg)
  }

  lemma RootsGoodIs(s: System, h: nat, counts: seq<nat>, i: nat)
    requires h in s.handles && |ScopeOf(s, h)| == |counts| && 1 <= i <= |counts|
    ensures RootsGoodAt(s, h, counts, i) == RootsGood(s, h, Before(s, h, counts, i).reg)
  {
    hide RootsGood, Before, ScopeOf;
  }

  lemma RootsGoodFirst(s: System, h: nat, counts: seq<nat>)
    requires h in s.handles && |ScopeOf(s, h)| == |counts| > 0
    requires Invariant(s.reg) && HandlesValid(s) && CountsKnown(s, h, counts)
    ensures RootsGoodAt(s, h, counts, 1)
  {
    KnownShape(s, h, counts);
    RootStageKeepsRoots(s, h, counts[0]);
    BeforeFirst(s, h, counts);
    hide RootsGood, DropOne, Before, Known, HandlesValid, Invariant, CountsKnown;
  }

  lemma RootsGoodNext(s: System, h: nat, counts: seq<nat>, i: nat)
    requires h in s.handles && |ScopeOf(s, h)| == |counts| && 1 <= i < |counts|
    requires Invariant(s.reg) && HandlesValid(s) && CountsKnown(s, h, counts)
    requires RootsGoodAt(s, h, counts, i)
    ensures RootsGoodAt(s, h, counts, i + 1)
  {
    hide RootsGood, DropOne, DropDeps, Before, Known, HandlesValid, Invariant, CountsKnown, Registered;
    KnownAt(s, h, counts, i);
    BeforeNext(s, h, counts, i);
    DependencyKeepsRoots(s, h, Before(s, h, counts, i), i, counts[i]);
  }

  lemma {:induction false} RootsAtStage(s: System, h: nat, counts: seq<nat>, i: nat)
    requires h in s.handles && |ScopeOf(s, h)| == |counts| && 1 <= i <= |counts|
    requires Invariant(s.reg) && HandlesValid(s) && CountsKnown(s, h, counts)
    ensures RootsGoodAt(s, h, counts, i)
  {
    hide *;
    if i == 1 {
      RootsGoodFirst(s, h, counts);
    } else {
      RootsAtStage(s, h, counts, i - 1);
      RootsGoodNext(s, h, counts, i - 1);
    }
  }

  /** Whatever elf_loader may hold besides: neither the root branch nor the dependency loop removes the
      library of another live handle, a reservation, or a NODELETE library. */
  lemma DropKeepsOtherRoots(s: System, h: nat, counts: seq<nat>)
    requires Invariant(s.reg) && HandlesValid(s) && CountsKnown(s, h, counts)
    ensures RootsGood(s, h, Unloading.DropHandle(s.reg, s.handles[h].root, ScopeOf(s, h), counts).reg)
  {
    KnownShape(s, h, counts);
    hide *;
    RootStageKeepsRoots(s, h, counts[0]);
    BeforeEnd(s, h, counts);
    RootsAtStage(s, h, counts, |counts|);
    RootsGoodIs(s, h, counts, |counts|);
  }

  // ---------------------------------------------------------------- no panic

  lemma DropOneSpares(o: Outcome, lib: Module, count: nat, others: seq<Module>)
    requires !o.panicked && Registered(o.reg, lib) && lib !in others
    requires forall m :: m in others ==> Registered(o.reg, m)
    ensures !DropOne(o, lib, count).panicked
    ensures forall m :: m in others ==> Registered(DropOne(o, lib, count).reg, m)
  {
    forall m | m in others
      ensures Registered(DropOne(o, lib, count).reg, m)
    {
      assert Registered(o.reg, m);
    }
  }

  lemma {:induction false} DropDepsNeverPanics(o: Outcome, deps: seq<Module>, counts: seq<nat>, others: seq<Module>)
    requires |deps| == |counts| && !o.panicked && NoDuplicates(deps + others)
    requires forall m :: m in deps + others ==> Registered(o.reg, m)
    ensures !DropDeps(o, deps, counts).panicked
    ensures forall m :: m in others ==> Registered(DropDeps(o, deps, counts).reg, m)
  {
    hide DropOne, Registered;
    if deps == [] {
      assert deps + others == others;
    } else {
      var n := |deps| - 1;
      assert deps + others == deps[..n] + ([deps[n]] + others);
      DropDepsNeverPanics(o, deps[..n], counts[..n], [deps[n]] + others);
      assert deps[n] !in others by {
        assert (deps + others)[n] == deps[n];
        assert forall k :: 0 <= k < |others| ==> (deps + others)[|deps| + k] == others[k];
      }
      DropOneSpares(DropDeps(o, deps[..n], counts[..n]), deps[n], counts[n], others);
    }
  }

  /** A drop never tries to remove an unregistered key, whatever the counts, if its scope lists each library
      once: what is still to come is still registered. */
  lemma DropNeverPanics(s: System, h: nat, counts: seq<nat>)
    requires HandlesValid(s) && h in s.handles && |ScopeOf(s, h)| == |counts| && NoDuplicates(ScopeOf(s, h))
    ensures !Unloading.DropHandle(s.reg, s.handles[h].root, ScopeOf(s, h), counts).panicked
  {
    var scope := ScopeOf(s, h);
    assert HandleValid(s, s.reg, h);
    assert scope == [scope[0]] + scope[1..];
    assert scope[0] !in scope[1..];
    hide Registered, ScopeOf, DropOne, DropDeps;
    var o := Outcome(s.reg, [], false);
    DropOneSpares(o, scope[0], counts[0], scope[1..]);
    assert scope[1..] + [] == scope[1..];
    DropDepsNeverPanics(DropOne(o, scope[0], counts[0]), scope[1..], counts[1..], []);
  }

  // ---------------------------------------------------------------- exactness

  /** With no hidden references, a handle's own library is unregistered exactly when it may be unloaded and
      no other live handle has it as root or in its scope. */
  lemma RootDroppedIffUnseen(s: System, h: nat, counts: seq<nat>)
    requires Invariant(s.reg) && HandlesValid(s) && h in s.handles && |ScopeOf(s, h)| == |counts| > 0
    requires counts[0] == Known(s, s.reg, s.handles[h].root)
    requires forall i :: 1 <= i < |ScopeOf(s, h)| ==> ScopeOf(s, h)[i] != s.handles[h].root
    ensures var root := s.handles[h].root;
            var o := DropOne(Outcome(s.reg, [], false), root, counts[0]);
            o.removed == [root] <==>
              NoDelete !in s.reg.committed.entries[root.Shortname()].meta.flags && SeenOnlyBy(s, h, root)
  {
    var root := s.handles[h].root;
    RootRegistered(s, h);
    hide *;
    ScopeExact(s.reg);
    RegistryReferences(s, s.reg, root);
    RemovesIffUnused(s.reg, root, counts[0]);
    RootReferencesIff(s, h);
  }

  lemma ScopeExact(r: State)
    requires Invariant(r)
    ensures GlobalExact(r)
  {
  }

  lemma RootRegistered(s: System, h: nat)
    requires HandlesValid(s) && h in s.handles
    ensures Registered(s.reg, s.handles[h].root)
    ensures IsCommitted(s.reg, s.handles[h].root.Shortname())
  {
    assert HandleValid(s, s.reg, h);
  }

  lemma RemovesIffUnused(r: State, lib: Module, count: nat)
    requires Registered(r, lib) && IsCommitted(r, lib.Shortname())
    ensures var flags := r.committed.entries[lib.Shortname()].meta.flags;
            DropOne(Outcome(r, [], false), lib, count).removed == [lib] <==>
              NoDelete !in flags && count == Threshold(flags)
  {
    hide Remove, Threshold;
  }

  /** Two references besides the registry's are the handle and the first place of its own array. */
  lemma RootReferencesIff(s: System, h: nat)
    requires HandlesValid(s) && h in s.handles
    requires forall i :: 1 <= i < |ScopeOf(s, h)| ==> ScopeOf(s, h)[i] != s.handles[h].root
    ensures |Roots(s, s.handles[h].root)| + |Places(s, s.handles[h].root)| == 2 <==>
            SeenOnlyBy(s, h, s.handles[h].root)
  {
    hide HandlesValid, SeenOnlyBy, Roots, Places, ScopeOf;
    if |Roots(s, s.handles[h].root)| + |Places(s, s.handles[h].root)| == 2 {
      FewReferencesToRoot(s, h);
    }
    if SeenOnlyBy(s, h, s.handles[h].root) {
      LoneReferences(s, h);
    }
  }

  lemma LoneReferences(s: System, h: nat)
    requires HandlesValid(s) && h in s.handles && SeenOnlyBy(s, h, s.handles[h].root)
    requires forall i :: 1 <= i < |ScopeOf(s, h)| ==> ScopeOf(s, h)[i] != s.handles[h].root
    ensures |Roots(s, s.handles[h].root)| == 1 && |Places(s, s.handles[h].root)| == 1
  {
    LoneRoot(s, h);
    LonePlace(s, h);
  }

  lemma LoneRoot(s: System, h: nat)
    requires HandlesValid(s) && h in s.handles && SeenOnlyBy(s, h, s.handles[h].root)
    ensures Roots(s, s.handles[h].root) == {h}
  {
    assert forall h2 :: h2 in s.handles ==> HandleValid(s, s.reg, h2) && s.handles[h2].root in ScopeOf(s, h2);
  }

  lemma LonePlace(s: System, h: nat)
    requires HandlesValid(s) && h in s.handles && SeenOnlyBy(s, h, s.handles[h].root)
    requires forall i :: 1 <= i < |ScopeOf(s, h)| ==> ScopeOf(s, h)[i] != s.handles[h].root
    ensures Places(s, s.handles[h].root) == {(s.handles[h].scope, 0)}
  {
    var root := s.handles[h].root;
    assert HandleValid(s, s.reg, h);
    forall p
      ensures p in Places(s, root) <==> p == (s.handles[h].scope, 0)
    {
      if p in Places(s, root) {
        var h2 :| h2 in s.handles && s.handles[h2].scope == p.0;
        assert root in ScopeOf(s, h2);
      }
    }
  }

  /** Counts at least this large cover a library in every later state of the registry. */
  ghost function Ample(s: System, m: Module): nat {
    3 + |Roots(s, m)| + |Places(s, m)|
  }

  /** The counts a drop may measure exist for every live handle, with the exact count of its own library: a
      drop is never ruled out. */
  lemma SomeCountsCover(s: System, h: nat) returns (counts: seq<nat>)
    requires HandlesValid(s) && h in s.handles
    ensures CountsCover(s, h, counts) && counts[0] == Known(s, s.reg, s.handles[h].root)
  {
    hide Known, Ample, DropOne, DropDeps, Registered, Roots, Places;
    var scope := ScopeOf(s, h);
    assert HandleValid(s, s.reg, h);
    counts := [Known(s, s.reg, s.handles[h].root)];
    while |counts| < |scope|
      invariant 1 <= |counts| <= |scope|
      invariant counts[0] == Known(s, s.reg, s.handles[h].root)
      invariant forall i :: 1 <= i < |counts| ==> counts[i] == Ample(s, scope[i])
    {
      counts := counts + [Ample(s, scope[|counts|])];
    }
    forall i | 1 <= i < |counts|
      ensures DependencyCovered(s, h, counts, i)
    {
      AmpleCounts(s, Before(s, h, counts, i).reg, scope[i]);
    }
  }

  /** Drops that unload: the only handle that sees its library, if that is not NODELETE, can measure counts
      by which the library is unregistered. */
  lemma SoleDropUnregisters(s: System, h: nat) returns (counts: seq<nat>)
    requires Invariant(s.reg) && HandlesValid(s) && h in s.handles && SeenOnlyBy(s, h, s.handles[h].root)
    requires forall i :: 1 <= i < |ScopeOf(s, h)| ==> ScopeOf(s, h)[i] != s.handles[h].root
    requires IsCommitted(s.reg, s.handles[h].root.Shortname())
    requires NoDelete !in s.reg.committed.entries[s.handles[h].root.Shortname()].meta.flags
    ensures CountsCover(s, h, counts)
    ensures var r := Unloading.DropHandle(s.reg, s.handles[h].root, ScopeOf(s, h), counts).reg;
            !IsCommitted(r, s.handles[h].root.Shortname())
  {
    counts := SomeCountsCover(s, h);
    CoverShape(s, h, counts);
    assert !IsPending(s.reg, s.handles[h].root.Shortname());
    RootDroppedIffUnseen(s, h, counts);
    var root, o := s.handles[h].root, DropOne(Outcome(s.reg, [], false), s.handles[h].root, counts[0]);
    RemovedIsGone(Outcome(s.reg, [], false), root, counts[0]);
    DropDepsOnlyDeletes(o, ScopeOf(s, h)[1..], counts[1..]);
    hide CountsCover, DropOne, DropDeps, Known, HandlesValid, Invariant, SeenOnlyBy;
  }

  lemma RemovedIsGone(o: Outcome, lib: Module, count: nat)
    requires o.removed == [] && !IsPending(o.reg, lib.Shortname())
    ensures DropOne(o, lib, count).removed == [lib] ==> !IsCommitted(DropOne(o, lib, count).reg, lib.Shortname())
  {
  }

  lemma AmpleCounts(s: System, r: State, m: Module)
    ensures Known(s, r, m) + 1 <= Ample(s, m)
  {
  }

  /** Why the reference held inside elf_loader matters: without it the dependency threshold is met exactly
      when one more live array (or root) besides the dropped handle's shows the library. */
  lemma ThresholdWithoutHeldReference(s: System, r: State, m: Module, count: nat)
    requires GlobalExact(r) && Registered(r, m) && count == Known(s, r, m)
    requires NoDelete !in r.committed.entries[m.Shortname()].meta.flags
    ensures Unused(r, m, count) <==> |Roots(s, m)| + |Places(s, m)| == 2
  {
    RegistryReferences(s, r, m);
  }
}
