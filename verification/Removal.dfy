/** Removing libraries: one by one as the code does, or all at once. What lookups see afterwards, and what
    a rollback of reservations leaves untouched. */
module Removal {
  import opened OrderedMap
  import opened OpenFlags
  import opened Registry
  import opened RegistryProofs

  ghost function AliasesOf(r: State, names: set<string>): set<string> {
    set n, a | n in names && a in Libnames(r, n) :: a
  }

  function WithoutIdentities(r: State, names: set<string>): map<FileIdentity, string> {
    map i | i in r.identities && r.identities[i] !in names :: r.identities[i]
  }

  /** `n` wrapping increments. */
  ghost function BumpBy(counter: nat, n: nat): nat {
    if n == 0 then counter else Bump(BumpBy(counter, n - 1))
  }

  lemma {:induction false} BumpByCounts(adds: nat, subs: nat, total: nat, n: nat)
    requires Balanced(adds, subs, total) && n <= total
    ensures Balanced(adds, BumpBy(subs, n), total - n)
  {
    if n > 0 {
      BumpByCounts(adds, subs, total, n - 1);
    }
  }

  lemma {:induction false} BumpByIsModular(subs: nat, n: nat)
    requires subs < U64
    ensures BumpBy(subs, n) == (subs + n) % U64
  {
    if n > 0 {
      BumpByIsModular(subs, n - 1);
      BumpIsModular(subs + n - 1);
    }
  }

  lemma BumpIsModular(x: nat)
    ensures Bump(x % U64) == (x + 1) % U64
  {
  }

  /** The registry without the libraries in `names`. A name that is both reserved and committed (which the
      invariant excludes) only loses its reservation, as in `Remove`. */
  ghost function Withdrawn(r: State, names: set<string>): State {
    var reserved := names * r.pending.entries.Keys;
    r.(pending := RemoveAll(r.pending, reserved),
       committed := RemoveAll(r.committed, names - reserved),
       global := RemoveAll(r.global, names),
       aliases := r.aliases - AliasesOf(r, names),
       identities := WithoutIdentities(r, names),
       subs := BumpBy(r.subs, |names|))
  }

  lemma WithdrawnNone(r: State)
    ensures Withdrawn(r, {}) == r
  {
    RemoveNone(r.pending);
    RemoveNone(r.committed);
    RemoveNone(r.global);
    var none: set<string> := {};
    assert none * r.pending.entries.Keys == {} && none - none == {};
    assert r.aliases - AliasesOf(r, {}) == r.aliases;
    assert WithoutIdentities(r, {}) == r.identities;
  }

  lemma StepMaps(r: State, names: set<string>, n: string)
    requires n !in names && IsCanonical(r, n)
    ensures var w := Withdrawn(r, names);
            var next := Withdrawn(r, names + {n});
            && next.pending == (if IsPending(r, n) then ShiftRemove(w.pending, n) else w.pending)
            && next.committed == (if IsPending(r, n) then w.committed else ShiftRemove(w.committed, n))
            && next.global == ShiftRemove(w.global, n)
  {
    var reserved := names * r.pending.entries.Keys;
    if IsPending(r, n) {
      assert (names + {n}) * r.pending.entries.Keys == reserved + {n};
      assert names + {n} - (reserved + {n}) == names - reserved;
      RemoveTwice(r.pending, reserved, {n});
    } else {
      assert (names + {n}) * r.pending.entries.Keys == reserved;
      assert names + {n} - reserved == names - reserved + {n};
      RemoveTwice(r.committed, names - reserved, {n});
    }
    RemoveTwice(r.global, names, {n});
  }

  lemma StepAliases(r: State, names: set<string>, n: string)
    ensures Withdrawn(r, names + {n}).aliases == Withdrawn(r, names).aliases - (set a | a in Libnames(r, n))
  {
    var listed := set a | a in Libnames(r, n);
    assert AliasesOf(r, names + {n}) == AliasesOf(r, names) + listed;
  }

  lemma StepRest(r: State, names: set<string>, n: string)
    requires n !in names && IsCanonical(r, n)
    ensures var w := Withdrawn(r, names);
            && IsPending(w, n) == IsPending(r, n) && IsCanonical(w, n)
            && Libnames(w, n) == Libnames(r, n)
            && Withdrawn(r, names + {n}).identities == WithoutIdentities(w, {n})
            && Withdrawn(r, names + {n}).subs == Bump(w.subs)
  {
    var next := Withdrawn(r, names + {n});
    assert |names + {n}| == |names| + 1;
    assert next.identities == WithoutIdentities(Withdrawn(r, names), {n});
  }

  /** Removing one more library extends the set of withdrawn ones. */
  lemma WithdrawnStep(r: State, names: set<string>, n: string)
    requires n !in names && IsCanonical(r, n)
    ensures IsCanonical(Withdrawn(r, names), n)
    ensures Remove(Withdrawn(r, names), n) == Withdrawn(r, names + {n})
  {
    StepMaps(r, names, n);
    StepAliases(r, names, n);
    StepRest(r, names, n);
    RemoveFields(Withdrawn(r, names), n);
    hide Withdrawn, Remove;
  }

  lemma RemoveFields(r: State, key: string)
    requires IsCanonical(r, key)
    ensures Remove(r, key) ==
            State(if IsPending(r, key) then ShiftRemove(r.pending, key) else r.pending,
                  ShiftRemove(r.global, key),
                  r.aliases - (set a | a in Libnames(r, key)),
                  WithoutIdentities(r, {key}),
                  if IsPending(r, key) then r.committed else ShiftRemove(r.committed, key),
                  r.adds, Bump(r.subs))
  {
    assert Remove(r, key).identities == WithoutIdentities(r, {key});
  }

  lemma RemoveIsWithdrawn(r: State, key: string)
    requires IsCanonical(r, key)
    ensures Remove(r, key) == Withdrawn(r, {key})
  {
    WithdrawnNone(r);
    WithdrawnStep(r, {}, key);
    assert {} + {key} == {key};
  }

  // ---------------------------------------------------------------- the invariant

  ghost predicate AllCanonical(r: State, names: set<string>) {
    forall n :: n in names ==> IsCanonical(r, n)
  }

  lemma WithdrawnParts(r: State, names: set<string>)
    requires Separate(r)
    ensures var w := Withdrawn(r, names);
            && (Ordered(r) ==> Ordered(w))
            && Separate(w)
            && (NamesMatch(r) ==> NamesMatch(w))
            && (IdentitiesLive(r) ==> IdentitiesLive(w))
            && (GlobalExact(r) ==> GlobalExact(w))
  {
    var reserved := names * r.pending.entries.Keys;
    if Ordered(r) {
      RemoveAllValid(r.pending, reserved);
      RemoveAllValid(r.committed, names - reserved);
      RemoveAllValid(r.global, names);
    }
  }

  lemma WithdrawnLibnames(r: State, names: set<string>, k: string)
    requires Separate(r)
    ensures Libnames(Withdrawn(r, names), k) == if k in names then [] else Libnames(r, k)
  {
  }

  lemma WithdrawnAliases(r: State, names: set<string>)
    requires Separate(r) && AliasesExact(r)
    ensures AliasesExact(Withdrawn(r, names))
    ensures forall a :: a in Withdrawn(r, names).aliases <==> a in r.aliases && r.aliases[a] !in names
  {
    var w := Withdrawn(r, names);
    forall k
      ensures Libnames(w, k) == if k in names then [] else Libnames(r, k)
    {
      WithdrawnLibnames(r, names, k);
    }
    forall a
      ensures a in w.aliases <==> a in r.aliases && r.aliases[a] !in names
    {
      if a in r.aliases && a in AliasesOf(r, names) {
        var n :| n in names && a in Libnames(r, n);
      }
    }
  }

  lemma SplitSize(names: set<string>, keys: set<string>)
    ensures |names| == |names * keys| + |names - names * keys|
  {
    assert names == names * keys + (names - names * keys);
  }

  lemma WithdrawnCount(r: State, names: set<string>)
    requires r.pending.Valid() && r.committed.Valid() && AllCanonical(r, names)
    ensures var w := Withdrawn(r, names);
            |w.pending.order| + |w.committed.order| == |r.pending.order| + |r.committed.order| - |names|
  {
    var reserved := names * r.pending.entries.Keys;
    SplitSize(names, r.pending.entries.Keys);
    WithoutLength(r.pending.order, reserved);
    WithoutLength(r.committed.order, names - reserved);
  }

  lemma WithdrawnBalances(r: State, names: set<string>)
    requires r.pending.Valid() && r.committed.Valid() && CountersBalance(r) && AllCanonical(r, names)
    ensures CountersBalance(Withdrawn(r, names))
  {
    WithdrawnCount(r, names);
    hide Balanced;
    BumpByCounts(r.adds, r.subs, |r.pending.order| + |r.committed.order|, |names|);
  }

  lemma WithdrawnKeepsInvariant(r: State, names: set<string>)
    requires Invariant(r) && AllCanonical(r, names)
    ensures Invariant(Withdrawn(r, names))
  {
    hide AliasesExact, IdentitiesLive, GlobalExact, NamesMatch, CountersBalance;
    WithdrawnParts(r, names);
    WithdrawnAliases(r, names);
    WithdrawnBalances(r, names);
  }

  // ---------------------------------------------------------------- lookups

  /** Every alias leads to a registered library. */
  lemma AliasLeadsSomewhere(r: State, alias: string)
    requires AliasesExact(r) && alias in r.aliases
    ensures IsCanonical(r, r.aliases[alias])
  {
    assert alias in Libnames(r, r.aliases[alias]);
  }

  /** After a withdrawal nothing resolves to a withdrawn library, and a name that resolved elsewhere
      resolves as before. */
  lemma WithdrawnLookup(r: State, names: set<string>, name: string)
    requires Separate(r) && AliasesExact(r)
    ensures var w := Withdrawn(r, names);
            && (Lookup(w, name).Some? ==> Lookup(w, name).value.shortname !in names)
            && (Lookup(r, name).Some? && Lookup(r, name).value.shortname !in names ==>
                Lookup(w, name) == Lookup(r, name))
  {
    WithdrawnAliases(r, names);
    if name in r.aliases {
      AliasLeadsSomewhere(r, name);
    }
  }

  /** The same for file identities, each of which leads to the library registered under its key. */
  lemma WithdrawnIdentities(r: State, names: set<string>, i: FileIdentity)
    requires Separate(r) && AliasesExact(r)
    ensures var w := Withdrawn(r, names);
            && (LookupByIdentity(w, i).Some? ==> LookupByIdentity(w, i).value.shortname !in names)
            && (i in r.identities && r.identities[i] !in names ==>
                LookupByIdentity(w, i) == Lookup(w, r.identities[i]))
            && (IdentitiesLive(r) && LookupByIdentity(r, i).Some? && LookupByIdentity(r, i).value.shortname !in names ==>
                LookupByIdentity(w, i) == LookupByIdentity(r, i))
  {
    if i in r.identities {
      WithdrawnLookup(r, names, r.identities[i]);
    }
  }

  /** No name, alias or file identity leads to a library in `gone`; other names and identities lead where
      they led. */
  ghost predicate Forgotten(r: State, w: State, gone: set<string>) {
    && (forall name :: Lookup(w, name).Some? ==> Lookup(w, name).value.shortname !in gone)
    && (forall i :: LookupByIdentity(w, i).Some? ==> LookupByIdentity(w, i).value.shortname !in gone)
    && (forall name :: Lookup(r, name).Some? && Lookup(r, name).value.shortname !in gone ==>
                       Lookup(w, name) == Lookup(r, name))
    && (forall i :: LookupByIdentity(r, i).Some? && LookupByIdentity(r, i).value.shortname !in gone ==>
                    LookupByIdentity(w, i) == LookupByIdentity(r, i))
  }

  lemma WithdrawnIsForgotten(r: State, names: set<string>)
    requires Separate(r) && AliasesExact(r) && IdentitiesLive(r)
    ensures Forgotten(r, Withdrawn(r, names), names)
  {
    var w := Withdrawn(r, names);
    forall name
      ensures Lookup(w, name).Some? ==> Lookup(w, name).value.shortname !in names
      ensures Lookup(r, name).Some? && Lookup(r, name).value.shortname !in names ==>
              Lookup(w, name) == Lookup(r, name)
    {
      WithdrawnLookup(r, names, name);
    }
    forall i
      ensures LookupByIdentity(w, i).Some? ==> LookupByIdentity(w, i).value.shortname !in names
      ensures LookupByIdentity(r, i).Some? && LookupByIdentity(r, i).value.shortname !in names ==>
              LookupByIdentity(w, i) == LookupByIdentity(r, i)
    {
      WithdrawnIdentities(r, names, i);
    }
  }

  /** Removing one library: nothing leads to it any more. */
  lemma RemoveForgets(r: State, key: string)
    requires Invariant(r) && IsCanonical(r, key)
    ensures Invariant(Remove(r, key))
    ensures Forgotten(r, Remove(r, key), {key})
  {
    RemoveIsWithdrawn(r, key);
    WithdrawnIsForgotten(r, {key});
    WithdrawnKeepsInvariant(r, {key});
  }

  /** A failed open: rolling back exactly the reserved names leaves the committed graph, all flags and the
      global scope as they were, and no name, alias or file identity leads to a rolled-back library. */
  lemma RollbackIsClean(r: State, reserved: set<string>)
    requires Invariant(r) && reserved <= r.pending.entries.Keys
    ensures var w := Withdrawn(r, reserved);
            && w.committed == r.committed && w.global == r.global
            && w.pending == RemoveAll(r.pending, reserved)
            && w.adds == r.adds && w.subs == (r.subs + |reserved|) % U64
            && Forgotten(r, w, reserved)
            && Invariant(w)
  {
    WithdrawnKeepsInvariant(r, reserved);
    WithdrawnIsForgotten(r, reserved);
    RollbackLeavesCommitted(r, reserved);
    BumpByIsModular(r.subs, |reserved|);
    hide Consistent, Forgotten;
  }

  lemma RollbackLeavesCommitted(r: State, reserved: set<string>)
    requires Consistent(r) && reserved <= r.pending.entries.Keys
    ensures Withdrawn(r, reserved).committed == r.committed
    ensures Withdrawn(r, reserved).global == r.global
    ensures Withdrawn(r, reserved).pending == RemoveAll(r.pending, reserved)
  {
    assert reserved * r.pending.entries.Keys == reserved && reserved - reserved == {};
    RemoveAbsent(r.committed, {});
    RemoveAbsent(r.global, reserved);
  }
}
