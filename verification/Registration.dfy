/** What the registry holds once a library has been reserved, registered or committed: its module, flags and
    dependencies, its place in the two orders, and the names and identities that lead to it. */
module Registration {
  import opened OrderedMap
  import opened OpenFlags
  import opened Registry
  import opened RegistryProofs
  import opened HostOrder

  // ---------------------------------------------------------------- one library

  /** In `r'` the names that lead nowhere in `r` lead to `found` if they are its key or compatibility aliases
      of that key; every other name leads where it led. */
  ghost predicate NamesEnter(r: State, r': State, key: string, found: Found) {
    forall name :: Lookup(r', name) == AfterEntering(r, name, key, found)
  }

  ghost function AfterEntering(r: State, name: string, key: string, found: Found): Option<Found> {
    if name == key || (name in CompatAliases(key) && Lookup(r, name) == None) then Some(found) else Lookup(r, name)
  }

  /** The same for file identities; the newest library with an identity gets it. */
  ghost predicate IdentitiesEnter(r: State, r': State, identity: Option<FileIdentity>, found: Found) {
    forall i :: LookupByIdentity(r', i) == if identity == Some(i) then Some(found) else LookupByIdentity(r, i)
  }

  /** The keys of `r'` are those of `r` and, new, `key`. */
  ghost predicate KeyEnters(r: State, r': State, key: string, found: Found) {
    !IsCanonical(r, key) && forall k :: LookupKey(r', k) == if k == key then Some(found) else LookupKey(r, k)
  }

  lemma AliasesKeepKeys(r: State, key: string, names: seq<string>)
    requires IsCanonical(r, key)
    ensures forall k :: LookupKey(AddAliases(r, key, names), k) == LookupKey(r, k)
  {
    AddAliasesFrame(r, key, names);
    hide AddAliases;
  }

  lemma KeysKnown(r: State, k: string)
    ensures LookupKey(r, k).Some? <==> IsCanonical(r, k)
  {
  }

  lemma AliasTarget(r: State, name: string)
    requires AliasesExact(r)
    ensures name in r.aliases ==> IsCanonical(r, r.aliases[name]) && Lookup(r, name).Some?
  {
  }

  lemma NameEnters(r: State, r': State, name: string, key: string, found: Found)
    requires AliasesExact(r) && KeyEnters(r, r', key, found)
    requires forall a :: a in r'.aliases <==> a in r.aliases || (a in CompatAliases(key) && !IsCanonical(r', a))
    requires forall a :: a in r'.aliases ==> r'.aliases[a] == if a in r.aliases then r.aliases[a] else key
    ensures Lookup(r', name) == AfterEntering(r, name, key, found)
  {
    hide AliasesExact, CompatAliases, LookupKey, IsCanonical;
    AliasTarget(r, name);
    KeysKnown(r, name);
    KeysKnown(r', name);
    if name in r.aliases {
      KeysKnown(r, r.aliases[name]);
    }
  }

  lemma AliasesEnter(r: State, r1: State, key: string, found: Found)
    requires AliasesExact(r) && KeyEnters(r, r1, key, found) && r1.aliases == r.aliases
    ensures IsCanonical(r1, key) && NamesEnter(r, AddAliases(r1, key, CompatAliases(key)), key, found)
  {
    KeysKnown(r1, key);
    var r' := AddAliases(r1, key, CompatAliases(key));
    AliasesKeepKeys(r1, key, CompatAliases(key));
    AddAliasesContent(r1, key, CompatAliases(key));
    hide CompatAliases, AddAliases, LookupKey, Lookup, AliasesExact, AfterEntering, IsCanonical;
    forall a
      ensures IsCanonical(r', a) <==> IsCanonical(r1, a)
    {
      KeysKnown(r1, a);
      KeysKnown(r', a);
    }
    forall name
      ensures Lookup(r', name) == AfterEntering(r, name, key, found)
    {
      NameEnters(r, r', name, key, found);
    }
  }

  lemma IdentityEnters(r: State, r': State, key: string, identity: Option<FileIdentity>, found: Found)
    requires IdentitiesLive(r) && NamesEnter(r, r', key, found) && !IsCanonical(r, key)
    requires r'.identities == AddIdentity(r, identity, key).identities
    ensures IdentitiesEnter(r, r', identity, found)
  {
    hide NamesEnter, CompatAliases, LookupKey;
    forall i
      ensures LookupByIdentity(r', i) == if identity == Some(i) then Some(found) else LookupByIdentity(r, i)
    {
      if i in r.identities {
        KeyLeadsAsBefore(r, r', r.identities[i], key, found);
      }
      KeyLeadsToFound(r, r', key, found);
    }
  }

  lemma KeyLeadsAsBefore(r: State, r': State, k: string, key: string, found: Found)
    requires NamesEnter(r, r', key, found) && IsCanonical(r, k) && !IsCanonical(r, key)
    ensures Lookup(r', k) == Lookup(r, k)
  {
    KeysKnown(r, k);
  }

  lemma KeyLeadsToFound(r: State, r': State, key: string, found: Found)
    requires NamesEnter(r, r', key, found)
    ensures Lookup(r', key) == Some(found)
  {
    hide Lookup, CompatAliases;
  }

  // ---------------------------------------------------------------- reservations

  /** A reservation of a free name: it is pending, last in order, with the flags asked for and, for a library
      of the C runtime by its full name, RTLD_NODELETE; its name, its compatibility aliases and its file
      identity lead to it, and every other name and identity leads where it led. */
  lemma ReservationEnters(r: State, shortname: string, fullName: string, identity: Option<FileIdentity>, flags: Flags)
    requires Invariant(r) && !IsCanonical(r, shortname)
    ensures var r' := ReservePending(r, shortname, fullName, identity, flags);
            && r'.pending.order == r.pending.order + [shortname]
            && IsPending(r', shortname)
            && r'.pending.entries[shortname].flags == NormalizedFlags(fullName, flags)
            && NamesEnter(r, r', shortname, Pending(shortname))
            && IdentitiesEnter(r, r', identity, Pending(shortname))
  {
    hide CompatAliases, CountersBalance;
    var r1 := AddIdentity(AddReservation(r, shortname, NormalizedFlags(fullName, flags)), identity, shortname);
    assert KeyEnters(r, r1, shortname, Pending(shortname));
    AddAliasesFrame(r1, shortname, CompatAliases(shortname));
    AliasesEnter(r, r1, shortname, Pending(shortname));
    IdentityEnters(r, ReservePending(r, shortname, fullName, identity, flags), shortname, identity, Pending(shortname));
  }

  // ---------------------------------------------------------------- host libraries

  /** A registered host library: it is committed, last in order, as itself, with the flags asked for (and
      RTLD_NODELETE if it belongs to the C runtime) and the libraries its needed names led to before; it is in
      the global scope exactly if it is flagged RTLD_GLOBAL or is the main program; and names and identities
      are as for a reservation. */
  lemma HostLibraryEnters(r: State, lib: Module, flags: Flags)
    requires Invariant(r) && !IsCanonical(r, lib.Shortname())
    ensures var key, r' := lib.Shortname(), RegisterLoaded(r, lib, flags);
            && r'.committed.order == r.committed.order + [key]
            && IsCommitted(r', key)
            && r'.committed.entries[key].mod == lib
            && r'.committed.entries[key].meta.flags == NormalizedFlags(lib.name, flags)
            && DependencyList(r, lib.needed, r'.committed.entries[key].deps)
  {
    hide ShortnameFromName, NormalizedFlags, CompatAliases, Promotable, DependencyList, DirectDeps, CountersBalance;
    var key := lib.Shortname();
    var r1 := AddIdentity(AddLoaded(r, key, lib, NormalizedFlags(lib.name, flags)), lib.identity, key);
    AddAliasesFrame(r1, key, CompatAliases(key));
    DirectDepsMeaning(r, lib.needed);
  }

  lemma HostLibraryIsGlobal(r: State, lib: Module, flags: Flags)
    requires Invariant(r) && !IsCanonical(r, lib.Shortname())
    ensures var key, r' := lib.Shortname(), RegisterLoaded(r, lib, flags);
            r'.global == if Global in flags || lib.name == "" then Insert(r.global, key, lib) else r.global
  {
    hide ShortnameFromName, CompatAliases, DirectDeps, CountersBalance;
    NormalizedFlagsMeaning(lib.name, flags);
    var key := lib.Shortname();
    var all := NormalizedFlags(lib.name, flags);
    assert Global in all <==> Global in flags by {
      assert Global in all <==> Global in all - {NoDelete};
    }
    var r1 := AddIdentity(AddLoaded(r, key, lib, all), lib.identity, key);
    AddAliasesFrame(r1, key, CompatAliases(key));
  }

  lemma HostLibraryIsFound(r: State, lib: Module, flags: Flags)
    requires Invariant(r) && !IsCanonical(r, lib.Shortname())
    ensures var key, r' := lib.Shortname(), RegisterLoaded(r, lib, flags);
            && NamesEnter(r, r', key, Relocated(key, lib.name))
            && IdentitiesEnter(r, r', lib.identity, Relocated(key, lib.name))
  {
    hide ShortnameFromName, NormalizedFlags, CompatAliases, DirectDeps, CountersBalance;
    var key := lib.Shortname();
    var found := Relocated(key, lib.name);
    var r1 := AddIdentity(AddLoaded(r, key, lib, NormalizedFlags(lib.name, flags)), lib.identity, key);
    assert KeyEnters(r, r1, key, found);
    AddAliasesFrame(r1, key, CompatAliases(key));
    AliasesEnter(r, r1, key, found);
    GlobalApart(r, AddAliases(r1, key, CompatAliases(key)), RegisterLoaded(r, lib, flags), key, found);
    IdentityEnters(r, RegisterLoaded(r, lib, flags), key, lib.identity, found);
  }

  lemma GlobalApart(r: State, r1: State, r2: State, key: string, found: Found)
    requires NamesEnter(r, r1, key, found) && r2 == r1.(global := r2.global)
    ensures NamesEnter(r, r2, key, found)
  {
    hide AfterEntering;
    forall name
      ensures Lookup(r2, name) == Lookup(r1, name)
    {
    }
  }

  // ---------------------------------------------------------------- finished loads

  /** Library number i of a finished load is the one that gets committed under its key: it was loaded, its key
      was not committed before, and no earlier one was loaded under that key. */
  ghost predicate Commits(r: State, ls: seq<Linked>, i: nat) {
    && i < |ls| && ls[i].mod.Some? && !IsCommitted(r, ls[i].key)
    && forall j :: 0 <= j < i && ls[j].key == ls[i].key ==> ls[j].mod == None
  }

  /** What becomes of `r` when `l`, new, is committed with these flags. */
  ghost predicate Stores(r: State, r': State, l: Linked, flags: Flags) {
    && l.mod.Some?
    && r'.committed.order == r.committed.order + [l.key]
    && IsCommitted(r', l.key)
    && SameButLibnames(Entry(l.mod.value, l.deps, Meta(flags, [])), r'.committed.entries[l.key])
    && r'.global == (if Global in flags then Insert(r.global, l.key, l.mod.value) else r.global)
    && r'.identities == AddIdentity(r, l.mod.value.identity, l.key).identities
  }

  /** What a library takes over when it is committed: the flags and aliases of its reservation, if it has one. */
  ghost function TakenOver(r: State, l: Linked, flags: Flags): Meta {
    if IsPending(r, l.key) then r.pending.entries[l.key]
    else if l.mod.Some? then Meta(NormalizedFlags(l.mod.value.name, flags), [])
    else Meta({}, [])
  }

  /** Aliases apart, merging one new library commits it and records its identity. */
  lemma MergeOneFrame(r: State, l: Linked, flags: Flags)
    requires !IsCommitted(r, l.key) && l.mod.Some?
    ensures var r1 := AddIdentity(Committed(r, l.key, l.mod.value, l.deps, TakenOver(r, l, flags)), l.mod.value.identity, l.key)
                      .(adds := if IsPending(r, l.key) then r.adds else Bump(r.adds));
            SameExceptAliases(r1, MergeOne(r, l, flags))
  {
    hide CompatAliases, NormalizedFlags;
    var m, meta := l.mod.value, TakenOver(r, l, flags);
    var r1 := r.(pending := ShiftRemove(r.pending, l.key),
                 committed := Insert(r.committed, l.key, Entry(m, l.deps, meta)),
                 adds := if IsPending(r, l.key) then r.adds else Bump(r.adds));
    AddAliasesFrame(AddIdentity(r1, m.identity, l.key), l.key, CompatAliases(l.key));
    hide AddAliases;
  }

  lemma MergeOneStores(r: State, l: Linked, flags: Flags)
    requires !IsCommitted(r, l.key) && l.mod.Some?
    ensures Stores(r, MergeOne(r, l, flags), l,
                   if IsPending(r, l.key) then r.pending.entries[l.key].flags
                   else NormalizedFlags(l.mod.value.name, flags))
  {
    MergeOneFrame(r, l, flags);
    hide MergeOne, NormalizedFlags;
  }

  /** The reservations that a merge leaves keep their flags. */
  ghost predicate KeepsReserved(r: State, r': State) {
    forall k :: k in r.pending.entries && k in r'.pending.entries ==>
                r'.pending.entries[k].flags == r.pending.entries[k].flags
  }

  lemma MergeOneKeepsReserved(r: State, l: Linked, flags: Flags)
    ensures KeepsReserved(r, MergeOne(r, l, flags))
  {
    if !IsCommitted(r, l.key) && l.mod.Some? {
      MergeOneFrame(r, l, flags);
      hide MergeOne, NormalizedFlags;
    }
  }

  /** The keys of the pending and committed libraries alone decide what is still to be committed. */
  lemma {:induction false} MergeKeepsReserved(r: State, ls: seq<Linked>, flags: Flags)
    requires Invariant(r) && WellNamed(ls)
    ensures KeepsReserved(r, Merge(r, ls, flags))
  {
    if ls != [] {
      hide Invariant, MergeOne;
      var shorter, last := ls[..|ls| - 1], ls[|ls| - 1];
      assert WellNamed(shorter);
      MergeKeepsReserved(r, shorter, flags);
      MergeKeepsInvariant(r, shorter, flags);
      MergeOneKeepsReserved(Merge(r, shorter, flags), last, flags);
      MergeKeepsInvariant(r, ls, flags);
      assert LinkedKeys(shorter) <= LinkedKeys(ls);
      hide WellNamed, LinkedKeys;
    }
  }

  /** When its turn comes, such a library is as new as it was in the beginning. */
  lemma StillNew(r: State, ls: seq<Linked>, i: nat, flags: Flags)
    requires Invariant(r) && WellNamed(ls) && Commits(r, ls, i)
    ensures var mid := Merge(r, ls[..i], flags);
            && !IsCommitted(mid, ls[i].key)
            && (IsPending(mid, ls[i].key) <==> IsPending(r, ls[i].key))
            && (IsPending(mid, ls[i].key) ==>
                mid.pending.entries[ls[i].key].flags == r.pending.entries[ls[i].key].flags)
  {
    assert WellNamed(ls[..i]);
    hide Invariant, Merge;
    MergeKeepsInvariant(r, ls[..i], flags);
    MergeKeepsReserved(r, ls[..i], flags);
    assert ls[i].key !in LinkedKeys(ls[..i]);
  }

  lemma CommitsPrefix(r: State, ls: seq<Linked>, n: nat, i: nat)
    requires i < n <= |ls|
    ensures Commits(r, ls[..n], i) <==> Commits(r, ls, i)
  {
  }

  /** The last library of a load is committed, or changes nothing. */
  lemma MergeStep(r: State, ls: seq<Linked>, flags: Flags)
    requires Invariant(r) && WellNamed(ls) && ls != []
    ensures var n := |ls| - 1;
            var mid, r' := Merge(r, ls[..n], flags), Merge(r, ls, flags);
            if Commits(r, ls, n) then
              && !IsCommitted(mid, ls[n].key)
              && Stores(mid, r', ls[n], if IsPending(r, ls[n].key) then r.pending.entries[ls[n].key].flags
                                        else NormalizedFlags(ls[n].mod.value.name, flags))
            else r' == mid
  {
    hide Invariant, MergeOne, Stores, NormalizedFlags;
    var n := |ls| - 1;
    if Commits(r, ls, n) {
      StillNew(r, ls, n, flags);
      MergeOneStores(Merge(r, ls[..n], flags), ls[n], flags);
    } else {
      NothingNew(r, ls, n, flags);
    }
  }

  lemma NothingNew(r: State, ls: seq<Linked>, n: nat, flags: Flags)
    requires Invariant(r) && WellNamed(ls) && n < |ls| && !Commits(r, ls, n)
    ensures MergeOne(Merge(r, ls[..n], flags), ls[n], flags) == Merge(r, ls[..n], flags)
  {
    hide Invariant, Merge;
    assert WellNamed(ls[..n]);
    MergeKeepsInvariant(r, ls[..n], flags);
    if ls[n].mod.Some? && !IsCommitted(r, ls[n].key) {
      var j :| 0 <= j < n && ls[j].key == ls[n].key && ls[j].mod != None;
      assert ls[j] in ls[..n];
      assert ls[n].key in LinkedKeys(ls[..n]);
    }
  }

  lemma CommittedStay(r: State, ls: seq<Linked>, flags: Flags, key: string)
    requires Invariant(r) && WellNamed(ls) && ls != [] && IsCommitted(Merge(r, ls[..|ls| - 1], flags), key)
    ensures IsCommitted(Merge(r, ls, flags), key)
    ensures SameButLibnames(Merge(r, ls[..|ls| - 1], flags).committed.entries[key],
                            Merge(r, ls, flags).committed.entries[key])
  {
    hide Invariant, MergeOne;
    assert WellNamed(ls[..|ls| - 1]);
    MergeKeepsInvariant(r, ls[..|ls| - 1], flags);
    assert Separate(Merge(r, ls[..|ls| - 1], flags)) by { IsSeparate(Merge(r, ls[..|ls| - 1], flags)); }
    MergeOneKeys(Merge(r, ls[..|ls| - 1], flags), ls[|ls| - 1], flags);
  }

  lemma IsSeparate(r: State)
    requires Invariant(r)
    ensures Separate(r)
  {
  }

  /** What a finished load commits: under each key that is new, the first library loaded under it, with the
      dependencies the linker found and with exactly the flags of its reservation; a library that was not
      reserved gets those of the open, normalised. */
  lemma {:induction false} MergeCommits(r: State, ls: seq<Linked>, flags: Flags, i: nat)
    requires Invariant(r) && WellNamed(ls) && Commits(r, ls, i)
    ensures var key, m, r' := ls[i].key, ls[i].mod.value, Merge(r, ls, flags);
            && IsCommitted(r', key)
            && r'.committed.entries[key].mod == m
            && r'.committed.entries[key].deps == ls[i].deps
            && r'.committed.entries[key].meta.flags ==
               (if IsPending(r, key) then r.pending.entries[key].flags else NormalizedFlags(m.name, flags))
  {
    hide Invariant, Merge, NormalizedFlags, WellNamed, Commits;
    assert Commits(r, ls, i);
    var n := |ls| - 1;
    InRange(r, ls, i);
    MergeStep(r, ls, flags);
    if i < n {
      CommitsPrefix(r, ls, n, i);
      ShorterNamed(ls);
      MergeCommits(r, ls[..n], flags, i);
      CommittedStay(r, ls, flags, ls[i].key);
    }
  }

  lemma InRange(r: State, ls: seq<Linked>, i: nat)
    requires Commits(r, ls, i)
    ensures i < |ls| && ls[i].mod.Some? && !IsCommitted(r, ls[i].key)
  {
  }

  lemma ShorterNamed(ls: seq<Linked>)
    requires WellNamed(ls) && ls != []
    ensures WellNamed(ls[..|ls| - 1])
  {
  }

  /** It is in the global scope exactly if those flags have RTLD_GLOBAL. */
  lemma MergeEntersGlobal(r: State, ls: seq<Linked>, flags: Flags, i: nat)
    requires Invariant(r) && WellNamed(ls) && Commits(r, ls, i)
    ensures var key, m, global := ls[i].key, ls[i].mod.value, Merge(r, ls, flags).global.entries;
            && (key in global <==>
                Global in if IsPending(r, key) then r.pending.entries[key].flags else flags)
            && (key in global ==> global[key] == m)
  {
    hide Merge, WellNamed, Commits, NormalizedFlags, CountersBalance;
    InRange(r, ls, i);
    MergeCommits(r, ls, flags, i);
    MergeKeepsInvariant(r, ls, flags);
    NormalizedFlagsMeaning(ls[i].mod.value.name, flags);
    assert Global in NormalizedFlags(ls[i].mod.value.name, flags) <==> Global in flags - {NoDelete};
  }

  ghost predicate Claims(r: State, ls: seq<Linked>, id: FileIdentity, i: nat) {
    Commits(r, ls, i) && ls[i].mod.value.identity == Some(id)
  }

  /** Library number `at` is the last one that is committed with this identity; |ls| stands for none. */
  ghost predicate LastClaim(r: State, ls: seq<Linked>, id: FileIdentity, at: nat) {
    && at <= |ls|
    && (at < |ls| ==> Claims(r, ls, id, at))
    && (forall j: nat :: Claims(r, ls, id, j) ==> j <= at < |ls|)
  }

  lemma LastClaimNext(r: State, ls: seq<Linked>, id: FileIdentity, at: nat)
    requires ls != [] && LastClaim(r, ls[..|ls| - 1], id, at)
    ensures var n := |ls| - 1;
            LastClaim(r, ls, id, if Claims(r, ls, id, n) then n else if at < n then at else |ls|)
  {
    var n := |ls| - 1;
    forall j: nat | j < n
      ensures Claims(r, ls, id, j) <==> Claims(r, ls[..n], id, j)
    {
      CommitsPrefix(r, ls, n, j);
    }
    assert forall j: nat :: Claims(r, ls, id, j) ==> j < |ls|;
    hide Claims;
  }

  /** A file identity leads to the last library with it that was committed, and where it led if there is
      none. */
  lemma {:induction false} MergeIdentities(r: State, ls: seq<Linked>, flags: Flags, id: FileIdentity) returns (at: nat)
    requires Invariant(r) && WellNamed(ls)
    ensures LastClaim(r, ls, id, at)
    ensures var ids := Merge(r, ls, flags).identities;
            if at < |ls| then id in ids && ids[id] == ls[at].key
            else if id in r.identities then id in ids && ids[id] == r.identities[id]
            else id !in ids
  {
    at := |ls|;
    if ls != [] {
      hide Invariant, Merge, NormalizedFlags, WellNamed, Commits, LastClaim;
      var n := |ls| - 1;
      ShorterNamed(ls);
      MergeStep(r, ls, flags);
      var before := MergeIdentities(r, ls[..n], flags, id);
      LastClaimNext(r, ls, id, before);
      InLoad(r, ls[..n], id, before);
      at := if Claims(r, ls, id, n) then n else if before < n then before else |ls|;
    }
  }

  lemma InLoad(r: State, ls: seq<Linked>, id: FileIdentity, at: nat)
    requires LastClaim(r, ls, id, at)
    ensures at <= |ls|
  {
  }

  /** Where names lead once `keys` have been committed: a new key leads to itself; a name that led somewhere
      still leads there; any other leads to the new library of which it is a compatibility alias, if any. */
  ghost predicate NamesCommit(r: State, r': State, keys: set<string>) {
    forall name :: Target(r', name) ==
      if name in keys || Target(r, name) == None then HostTarget(keys, name) else Target(r, name)
  }

  lemma OneMoreTarget(keys: set<string>, key: string, name: string)
    ensures HostTarget(keys + {key}, name) ==
            if name == key then Some(key)
            else if HostTarget(keys, name).Some? then HostTarget(keys, name)
            else if name in CompatAliases(key) then Some(key) else None
  {
    if name in CompatAliases(key) {
      CompatAliasLengths(key, name);
      CompatAliasesApart(key, LIBC, name);
      CompatAliasesApart(key, LOADER, name);
    }
    if name in CompatAliases(LIBC) {
      CompatAliasesApart(LIBC, LOADER, name);
    }
    hide CompatAliases;
  }

  ghost predicate CompatAliasesOnly(r: State, r1: State, key: string) {
    && (forall a :: a in r1.aliases <==> a in r.aliases || (a in CompatAliases(key) && !IsCanonical(r1, a)))
    && (forall a :: a in r1.aliases ==> r1.aliases[a] == if a in r.aliases then r.aliases[a] else key)
  }

  lemma TargetCommits(r: State, r1: State, key: string, name: string)
    requires AliasesExact(r) && CompatAliasesOnly(r, r1, key)
    requires forall k :: IsCanonical(r1, k) <==> IsCanonical(r, k) || k == key
    ensures Target(r1, name) ==
            if name == key then Some(key)
            else if Target(r, name).Some? then Target(r, name)
            else if name in CompatAliases(key) then Some(key) else None
  {
    hide CompatAliases, AliasesExact, IsCanonical, LookupKey;
    AliasTarget(r, name);
    KeyIsTarget(r, name);
    KeyIsTarget(r1, name);
    KeyIsTarget(r1, key);
    if name in r.aliases {
      KeyIsTarget(r, r.aliases[name]);
      KeyIsTarget(r1, r.aliases[name]);
    }
  }

  lemma KeyIsTarget(r: State, k: string)
    ensures LookupKey(r, k).Some? <==> IsCanonical(r, k)
    ensures IsCanonical(r, k) ==> LookupKey(r, k).value.shortname == k
  {
  }

  ghost predicate SameKeys(r: State, r': State) {
    forall k :: IsCanonical(r', k) <==> IsCanonical(r, k)
  }

  lemma AliasesKeepCanonical(r: State, key: string, names: seq<string>)
    requires IsCanonical(r, key)
    ensures SameKeys(r, AddAliases(r, key, names))
  {
    AddAliasesFrame(r, key, names);
    hide AddAliases;
  }

  lemma CompatAliasesAdded(r: State, r1: State, key: string)
    requires IsCanonical(r1, key) && r1.aliases == r.aliases
    ensures var r' := AddAliases(r1, key, CompatAliases(key)); CompatAliasesOnly(r, r', key) && SameKeys(r1, r')
  {
    AliasesKeepCanonical(r1, key, CompatAliases(key));
    AddAliasesContent(r1, key, CompatAliases(key));
    hide CompatAliases, AddAliases, IsCanonical;
  }

  lemma MergeOneAliases(r: State, l: Linked, flags: Flags)
    requires !IsCommitted(r, l.key) && l.mod.Some?
    ensures CompatAliasesOnly(r, MergeOne(r, l, flags), l.key)
    ensures forall k :: IsCanonical(MergeOne(r, l, flags), k) <==> IsCanonical(r, k) || k == l.key
  {
    hide CompatAliases, NormalizedFlags, CompatAliasesOnly;
    var m, meta := l.mod.value, TakenOver(r, l, flags);
    var r1 := r.(pending := ShiftRemove(r.pending, l.key),
                 committed := Insert(r.committed, l.key, Entry(m, l.deps, meta)),
                 adds := if IsPending(r, l.key) then r.adds else Bump(r.adds));
    var r2 := AddIdentity(r1, m.identity, l.key);
    CompatAliasesAdded(r, r2, l.key);
    hide AddAliases, SameKeys;
    var r3 := AddAliases(r2, l.key, CompatAliases(l.key));
    GlobalKeepsAliases(r, r3, MergeOne(r, l, flags), l.key);
    CommittedAddsKey(r, r2, r3, l.key);
    SameKeysTwice(r3, MergeOne(r, l, flags));
  }

  lemma SameKeysTwice(r: State, r': State)
    requires SameKeys(r, r')
    ensures forall k :: IsCanonical(r', k) <==> IsCanonical(r, k)
  {
  }

  lemma GlobalKeepsAliases(r: State, r1: State, r2: State, key: string)
    requires CompatAliasesOnly(r, r1, key) && r2 == r1.(global := r2.global)
    ensures CompatAliasesOnly(r, r2, key) && SameKeys(r1, r2)
  {
    hide CompatAliases;
  }

  lemma CommittedAddsKey(r: State, r1: State, r2: State, key: string)
    requires r1.pending.entries.Keys == r.pending.entries.Keys - {key} && SameKeys(r1, r2)
    requires r1.committed.entries.Keys == r.committed.entries.Keys + {key}
    ensures forall k :: IsCanonical(r2, k) <==> IsCanonical(r, k) || k == key
  {
  }

  lemma NamesCommitNext(r: State, mid: State, r': State, keys: set<string>, key: string)
    requires NamesCommit(r, mid, keys) && AliasesExact(mid) && CompatAliasesOnly(mid, r', key) && key !in keys
    requires forall k :: IsCanonical(r', k) <==> IsCanonical(mid, k) || k == key
    ensures NamesCommit(r, r', keys + {key})
  {
    hide CompatAliases, AliasesExact, CompatAliasesOnly, HostTarget, Target, IsCanonical;
    forall name
      ensures Target(r', name) ==
        if name in keys + {key} || Target(r, name) == None then HostTarget(keys + {key}, name) else Target(r, name)
    {
      OneMoreTarget(keys, key, name);
      TargetCommits(mid, r', key, name);
      TargetOfKey(keys, name);
    }
  }

  lemma TargetOfKey(keys: set<string>, name: string)
    ensures name in keys ==> HostTarget(keys, name) == Some(name)
  {
    hide CompatAliases;
  }

  /** Every name after a finished load leads where it should. */
  lemma {:induction false} MergeNames(r: State, ls: seq<Linked>, flags: Flags)
    requires Invariant(r) && WellNamed(ls)
    ensures NamesCommit(r, Merge(r, ls, flags), LinkedKeys(ls) - r.committed.entries.Keys)
  {
    if ls == [] {
      assert LinkedKeys(ls) - r.committed.entries.Keys == {};
    } else {
      hide Invariant, MergeOne, NormalizedFlags, WellNamed, Commits, NamesCommit, LinkedKeys;
      var n := |ls| - 1;
      var mid := Merge(r, ls[..n], flags);
      ShorterNamed(ls);
      MergeNames(r, ls[..n], flags);
      NewKeys(r, ls);
      if Commits(r, ls, n) {
        InRange(r, ls, n);
        StillNew(r, ls, n, flags);
        MergeOneAliases(mid, ls[n], flags);
        MidExact(r, ls[..n], flags);
        NamesCommitNext(r, mid, Merge(r, ls, flags), LinkedKeys(ls[..n]) - r.committed.entries.Keys, ls[n].key);
      } else {
        NothingNew(r, ls, n, flags);
      }
    }
  }

  lemma MidExact(r: State, ls: seq<Linked>, flags: Flags)
    requires Invariant(r) && WellNamed(ls)
    ensures AliasesExact(Merge(r, ls, flags))
  {
    MergeKeepsInvariant(r, ls, flags);
    hide Merge, AliasesExact, Ordered, Separate, CountersBalance, GlobalExact, NamesMatch, IdentitiesLive;
  }

  /** The keys that a load commits, one library after the other. */
  lemma NewKeys(r: State, ls: seq<Linked>)
    requires ls != []
    ensures var n := |ls| - 1;
            var before := LinkedKeys(ls[..n]) - r.committed.entries.Keys;
            && LinkedKeys(ls) - r.committed.entries.Keys == before + (if Commits(r, ls, n) then {ls[n].key} else {})
            && (Commits(r, ls, n) ==> ls[n].key !in before)
  {
    var n := |ls| - 1;
    assert forall l :: l in ls <==> l in ls[..n] || l == ls[n];
  }

  /** The keys that a load commits, in the order in which it does. */
  ghost function NewInOrder(r: State, ls: seq<Linked>): seq<string> {
    if ls == [] then []
    else
      var n := |ls| - 1;
      NewInOrder(r, ls[..n]) + if Commits(r, ls, n) then [ls[n].key] else []
  }

  /** The keys among these that are committed with RTLD_GLOBAL, in the same order. */
  ghost function OnlyGlobal(r: State, keys: seq<string>): seq<string> {
    if keys == [] then []
    else
      var n := |keys| - 1;
      OnlyGlobal(r, keys[..n]) +
      if IsCommitted(r, keys[n]) && Global in r.committed.entries[keys[n]].meta.flags then [keys[n]] else []
  }

  /** These libraries are committed before and after, but for their aliases unchanged. */
  ghost predicate Kept(r: State, r': State, keys: seq<string>) {
    forall k :: k in keys ==> IsCommitted(r, k) && IsCommitted(r', k)
                              && SameButLibnames(r.committed.entries[k], r'.committed.entries[k])
  }

  lemma {:induction false} OnlyGlobalSame(r: State, r': State, keys: seq<string>)
    requires Kept(r, r', keys)
    ensures OnlyGlobal(r', keys) == OnlyGlobal(r, keys)
  {
    if keys != [] {
      OnlyGlobalSame(r, r', keys[..|keys| - 1]);
    }
  }

  lemma OnlyGlobalNext(r: State, keys: seq<string>, key: string)
    ensures OnlyGlobal(r, keys + [key]) == OnlyGlobal(r, keys) +
            if IsCommitted(r, key) && Global in r.committed.entries[key].meta.flags then [key] else []
  {
    assert (keys + [key])[..|keys|] == keys;
  }

  /** `keys` are committed, in both orders after everything that was there in `r`. */
  ghost predicate Appended(r: State, r': State, keys: seq<string>) {
    && (forall k :: k in keys ==> IsCommitted(r', k))
    && r'.committed.order == r.committed.order + keys
    && r'.global.order == r.global.order + OnlyGlobal(r', keys)
  }

  lemma AppendedNext(r: State, mid: State, r': State, keys: seq<string>, l: Linked, flags: Flags)
    requires Appended(r, mid, keys) && Kept(mid, r', keys)
    requires Stores(mid, r', l, flags) && l.key !in mid.global.entries
    ensures Appended(r, r', keys + [l.key])
  {
    hide OnlyGlobal, Stores, SameButLibnames;
    StoresOrder(mid, r', l, flags);
    OnlyGlobalSame(mid, r', keys);
    OnlyGlobalNext(r', keys, l.key);
  }

  /** The libraries of a load stand in the load order and in the global scope after everything that was there,
      in the order in which they are committed. */
  lemma {:induction false} MergeOrder(r: State, ls: seq<Linked>, flags: Flags)
    requires Invariant(r) && WellNamed(ls)
    ensures Appended(r, Merge(r, ls, flags), NewInOrder(r, ls))
  {
    if ls == [] {
      assert r.committed.order + [] == r.committed.order && r.global.order + [] == r.global.order;
    } else {
      hide Invariant, Merge, NormalizedFlags, WellNamed, Commits, NewInOrder, Stores, Appended, Kept, IsPending;
      var n := |ls| - 1;
      var mid, keys := Merge(r, ls[..n], flags), NewInOrder(r, ls[..n]);
      ShorterNamed(ls);
      MergeOrder(r, ls[..n], flags);
      MergeStep(r, ls, flags);
      NewInOrderNext(r, ls);
      if Commits(r, ls, n) {
        AllKept(r, ls, flags, keys);
        NotYetGlobal(r, ls[..n], flags, ls[n].key);
        AppendedNext(r, mid, Merge(r, ls, flags), keys, ls[n],
                     if IsPending(r, ls[n].key) then r.pending.entries[ls[n].key].flags
                     else NormalizedFlags(ls[n].mod.value.name, flags));
      } else {
        assert NewInOrder(r, ls) == keys;
      }
    }
  }

  lemma AllKept(r: State, ls: seq<Linked>, flags: Flags, keys: seq<string>)
    requires Invariant(r) && WellNamed(ls) && ls != []
    requires Appended(r, Merge(r, ls[..|ls| - 1], flags), keys)
    ensures Kept(Merge(r, ls[..|ls| - 1], flags), Merge(r, ls, flags), keys)
  {
    hide Invariant, Merge, WellNamed, SameButLibnames, OnlyGlobal;
    forall k | k in keys
      ensures IsCommitted(Merge(r, ls, flags), k)
      ensures SameButLibnames(Merge(r, ls[..|ls| - 1], flags).committed.entries[k], Merge(r, ls, flags).committed.entries[k])
    {
      CommittedStay(r, ls, flags, k);
    }
  }

  lemma NewInOrderNext(r: State, ls: seq<Linked>)
    requires ls != []
    ensures var n := |ls| - 1;
            NewInOrder(r, ls) == NewInOrder(r, ls[..n]) + if Commits(r, ls, n) then [ls[n].key] else []
  {
  }

  lemma NotYetGlobal(r: State, ls: seq<Linked>, flags: Flags, key: string)
    requires Invariant(r) && WellNamed(ls) && !IsCommitted(Merge(r, ls, flags), key)
    ensures key !in Merge(r, ls, flags).global.entries
  {
    MergeKeepsInvariant(r, ls, flags);
    hide Merge, AliasesExact, Ordered, Separate, CountersBalance, NamesMatch, IdentitiesLive;
  }

  lemma StoresOrder(r: State, r': State, l: Linked, flags: Flags)
    requires Stores(r, r', l, flags) && l.key !in r.global.entries
    ensures IsCommitted(r', l.key) && r'.committed.order == r.committed.order + [l.key]
    ensures r'.global.order == r.global.order +
            if Global in r'.committed.entries[l.key].meta.flags then [l.key] else []
  {
  }
}