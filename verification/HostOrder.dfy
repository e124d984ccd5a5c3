/** Start-up: the libraries already in the process are registered one by one, then the graph is rebuilt.
    The result does not depend on the order in which the host lists them. */
module HostOrder {
  import opened OrderedMap
  import opened OpenFlags
  import opened Registry
  import opened RegistryProofs

  const HOST_FLAGS: Flags := {NoDelete, Global}

  function RegisterAll(libs: seq<Module>): State {
    if libs == [] then Initial()
    else RegisterLoaded(RegisterAll(libs[..|libs| - 1]), libs[|libs| - 1], HOST_FLAGS)
  }

  ghost predicate DistinctNames(libs: seq<Module>) {
    forall i, j :: 0 <= i < j < |libs| ==> libs[i].Shortname() != libs[j].Shortname()
  }

  ghost function SetOf(libs: seq<Module>): set<Module> {
    set m | m in libs
  }

  ghost function KeysOf(libs: set<Module>): set<string> {
    set m | m in libs :: m.Shortname()
  }

  /** Resolution among host libraries: a library of that name, else the one that absorbed it. */
  ghost function HostTarget(keys: set<string>, name: string): Option<string> {
    if name in keys then Some(name)
    else if LIBC in keys && name in CompatAliases(LIBC) then Some(LIBC)
    else if LOADER in keys && name in CompatAliases(LOADER) then Some(LOADER)
    else None
  }

  ghost function Target(r: State, name: string): Option<string> {
    match Lookup(r, name)
    case Some(found) => Some(found.shortname)
    case None => None
  }

  /** What every prefix of the host registration looks like. An alias that was taken when its library
      came is skipped; one that is taken later is shadowed. */
  ghost predicate HostShape(r: State, libs: set<Module>) {
    HostLibraries(r, libs) && HostAliases(r, KeysOf(libs))
  }

  ghost predicate HostLibraries(r: State, libs: set<Module>) {
    && r.pending.entries.Keys == {}
    && r.committed.entries.Keys == KeysOf(libs)
    && (forall m :: m in libs ==> HostEntry(r, m))
  }

  ghost predicate HostEntry(r: State, m: Module) {
    && IsCommitted(r, m.Shortname())
    && r.committed.entries[m.Shortname()].mod == m
    && r.committed.entries[m.Shortname()].meta.flags == NormalizedFlags(m.name, HOST_FLAGS)
  }

  ghost predicate HostAliases(r: State, keys: set<string>) {
    && (forall a :: a in r.aliases ==> r.aliases[a] in keys && a in CompatAliases(r.aliases[a]))
    && (forall k, a :: k in keys && a in CompatAliases(k) ==> a in keys || a in r.aliases)
  }

  lemma {:induction false} AddAliasesContent(r: State, canonical: string, names: seq<string>)
    requires IsCanonical(r, canonical)
    ensures var r' := AddAliases(r, canonical, names);
            && (forall a :: a in r'.aliases <==> a in r.aliases || (a in names && !IsCanonical(r, a)))
            && (forall a :: a in r'.aliases ==>
                            r'.aliases[a] == if a in r.aliases then r.aliases[a] else canonical)
  {
    if names != [] {
      var shorter := names[..|names| - 1];
      AddAliasesContent(r, canonical, shorter);
      AddAliasesFrame(r, canonical, shorter);
      assert forall a :: a in names <==> a in shorter || a == names[|names| - 1];
    }
  }

  /** What registering `lib` adds: one library, and its compatibility aliases that are still free. */
  ghost predicate AddsLibrary(r: State, r': State, lib: Module) {
    && r'.pending.entries.Keys == r.pending.entries.Keys
    && r'.committed.entries.Keys == r.committed.entries.Keys + {lib.Shortname()}
    && (forall k :: k in r.committed.entries && k != lib.Shortname() ==>
                    SameButLibnames(r.committed.entries[k], r'.committed.entries[k]))
    && HostEntry(r', lib)
  }

  ghost predicate AddsAliases(r: State, r': State, key: string) {
    && (forall a :: a in r'.aliases <==>
                    a in r.aliases || (a in CompatAliases(key) && !IsCanonical(r, a) && a != key))
    && (forall a :: a in r'.aliases ==> r'.aliases[a] == if a in r.aliases then r.aliases[a] else key)
  }

  lemma RegisterAddsLibrary(r: State, lib: Module)
    ensures AddsLibrary(r, RegisterLoaded(r, lib, HOST_FLAGS), lib)
  {
    var key := lib.Shortname();
    var r1 := AddIdentity(AddLoaded(r, key, lib, NormalizedFlags(lib.name, HOST_FLAGS)), lib.identity, key);
    AddAliasesFrame(r1, key, CompatAliases(key));
  }

  lemma RegisterAddsAliases(r: State, lib: Module)
    ensures AddsAliases(r, RegisterLoaded(r, lib, HOST_FLAGS), lib.Shortname())
  {
    var key := lib.Shortname();
    var r1 := AddIdentity(AddLoaded(r, key, lib, NormalizedFlags(lib.name, HOST_FLAGS)), lib.identity, key);
    AddAliasesContent(r1, key, CompatAliases(key));
  }

  lemma AddsLibraryKeeps(r: State, r': State, libs: set<Module>, lib: Module)
    requires HostLibraries(r, libs) && lib.Shortname() !in KeysOf(libs) && AddsLibrary(r, r', lib)
    ensures HostLibraries(r', libs + {lib})
  {
    assert KeysOf(libs + {lib}) == KeysOf(libs) + {lib.Shortname()};
    forall m | m in libs
      ensures HostEntry(r', m)
    {
      assert m.Shortname() in KeysOf(libs) && HostEntry(r, m);
    }
  }

  lemma AddsAliasesKeeps(r: State, r': State, keys: set<string>, key: string)
    requires HostAliases(r, keys) && AddsAliases(r, r', key)
    requires forall k :: IsCanonical(r, k) <==> k in keys
    ensures HostAliases(r', keys + {key})
  {
  }

  lemma OneKeyMore(libs: set<Module>, lib: Module)
    ensures KeysOf(libs + {lib}) == KeysOf(libs) + {lib.Shortname()}
  {
    hide ShortnameFromName;
  }

  lemma KeysAreCanonical(r: State, libs: set<Module>)
    requires HostLibraries(r, libs)
    ensures forall k :: IsCanonical(r, k) <==> k in KeysOf(libs)
  {
    hide KeysOf, HostEntry;
  }

  lemma RegisterKeepsShape(r: State, libs: set<Module>, lib: Module)
    requires HostShape(r, libs) && lib.Shortname() !in KeysOf(libs)
    ensures HostShape(RegisterLoaded(r, lib, HOST_FLAGS), libs + {lib})
  {
    hide HostLibraries, HostAliases, AddsLibrary, AddsAliases, RegisterLoaded, IsCanonical, KeysOf;
    hide CompatAliases, ShortnameFromName, NormalizedFlags;
    var r' := RegisterLoaded(r, lib, HOST_FLAGS);
    OneKeyMore(libs, lib);
    KeysAreCanonical(r, libs);
    RegisterAddsLibrary(r, lib);
    RegisterAddsAliases(r, lib);
    AddsLibraryKeeps(r, r', libs, lib);
    AddsAliasesKeeps(r, r', KeysOf(libs), lib.Shortname());
  }

  lemma LastIsNew(libs: seq<Module>)
    requires DistinctNames(libs) && libs != []
    ensures var shorter, last := libs[..|libs| - 1], libs[|libs| - 1];
            && DistinctNames(shorter) && SetOf(libs) == SetOf(shorter) + {last}
            && last.Shortname() !in KeysOf(SetOf(shorter))
  {
    hide ShortnameFromName;
    var shorter, last := libs[..|libs| - 1], libs[|libs| - 1];
    assert forall m :: m in libs <==> m in shorter || m == last;
  }

  lemma {:induction false} RegisterAllShape(libs: seq<Module>)
    requires DistinctNames(libs)
    ensures HostShape(RegisterAll(libs), SetOf(libs))
  {
    if libs != [] {
      hide HostShape, RegisterLoaded, DistinctNames, SetOf, KeysOf, Module.Shortname;
      var shorter, last := libs[..|libs| - 1], libs[|libs| - 1];
      LastIsNew(libs);
      RegisterAllShape(shorter);
      RegisterKeepsShape(RegisterAll(shorter), SetOf(shorter), last);
    }
  }

  /** Lookups in the finished registry only depend on which libraries there are. */
  lemma ShapeDecidesLookup(r: State, libs: set<Module>, name: string)
    requires HostShape(r, libs)
    ensures Target(r, name) == HostTarget(KeysOf(libs), name)
  {
    if name in r.aliases {
      CompatAliasLengths(r.aliases[name], name);
      CompatAliasesApart(r.aliases[name], LIBC, name);
      CompatAliasesApart(r.aliases[name], LOADER, name);
    }
  }

  lemma {:induction false} SameTargetsSameDeps(r: State, r': State, needed: seq<string>)
    requires forall name :: Target(r, name) == Target(r', name)
    ensures Resolved(r, needed) == Resolved(r', needed)
  {
    if needed != [] {
      SameTargetsSameDeps(r, r', needed[..|needed| - 1]);
      assert Target(r, needed[|needed| - 1]) == Target(r', needed[|needed| - 1]);
    }
  }

  lemma SameLibrariesSameSet(a: seq<Module>, b: seq<Module>)
    requires multiset(a) == multiset(b)
    ensures SetOf(a) == SetOf(b)
  {
    forall m
      ensures m in a <==> m in b
    {
      assert m in a <==> m in multiset(a);
    }
  }

  /** After start-up every library's dependencies are the libraries its needed names lead to in the final
      registry, each once, in the order in which they are first needed; the rest of its entry is as before. */
  lemma RebuiltDeps(r: State, key: string)
    requires IsCommitted(r, key)
    ensures var final := Rebuild(r);
            && final == r.(committed := IndexMap(r.committed.order, final.committed.entries))
            && final.committed.entries.Keys == r.committed.entries.Keys
            && var deps := final.committed.entries[key].deps;
               && final.committed.entries[key] == r.committed.entries[key].(deps := deps)
               && DependencyList(final, final.committed.entries[key].mod.needed, deps)
  {
    var final := Rebuild(r);
    var needed := r.committed.entries[key].mod.needed;
    forall name
      ensures Target(r, name) == Target(final, name)
    {
      RebuildKeepsLookup(r, name);
    }
    SameTargetsSameDeps(r, final, needed);
    DirectDepsMeaning(final, needed);
    hide DependencyList, Lookup;
  }

  /** Any two orders of the same host libraries give the same graph and the same lookups. */
  lemma HostOrderIsIrrelevant(a: seq<Module>, b: seq<Module>)
    requires multiset(a) == multiset(b) && DistinctNames(a) && DistinctNames(b)
    ensures var ra, rb := Rebuild(RegisterAll(a)), Rebuild(RegisterAll(b));
            && ra.committed.entries.Keys == rb.committed.entries.Keys
            && (forall k :: k in ra.committed.entries ==> SameButLibnames(ra.committed.entries[k], rb.committed.entries[k]))
            && (forall name :: Target(ra, name) == Target(rb, name))
  {
    var ra, rb := RegisterAll(a), RegisterAll(b);
    RegisterAllShape(a);
    RegisterAllShape(b);
    SameLibrariesSameSet(a, b);
    hide HostAliases, HostEntry, RegisterAll, DistinctNames;
    ShapesAgree(ra, rb, SetOf(a));
    forall k | k in ra.committed.entries
      ensures SameButLibnames(Rebuild(ra).committed.entries[k], Rebuild(rb).committed.entries[k])
    {
      SameEntries(ra, rb, SetOf(a), k);
    }
  }

  lemma ShapesAgree(ra: State, rb: State, libs: set<Module>)
    requires HostShape(ra, libs) && HostShape(rb, libs)
    ensures forall name :: Target(ra, name) == Target(rb, name)
    ensures forall name :: Target(Rebuild(ra), name) == Target(Rebuild(rb), name)
  {
    hide HostShape, HostTarget;
    forall name
      ensures Target(ra, name) == Target(rb, name)
      ensures Target(Rebuild(ra), name) == Target(Rebuild(rb), name)
    {
      ShapeDecidesLookup(ra, libs, name);
      ShapeDecidesLookup(rb, libs, name);
      RebuildKeepsLookup(ra, name);
      RebuildKeepsLookup(rb, name);
    }
  }

  lemma SameEntries(ra: State, rb: State, libs: set<Module>, k: string)
    requires HostLibraries(ra, libs) && HostLibraries(rb, libs) && IsCommitted(ra, k)
    requires forall name :: Target(ra, name) == Target(rb, name)
    ensures IsCommitted(rb, k) && SameButLibnames(Rebuild(ra).committed.entries[k], Rebuild(rb).committed.entries[k])
  {
    var m :| m in libs && m.Shortname() == k;
    assert HostEntry(ra, m) && HostEntry(rb, m);
    SameTargetsSameDeps(ra, rb, m.needed);
  }

  /** The registration itself keeps the registry invariant. */
  lemma {:induction false} RegisterAllInvariant(libs: seq<Module>)
    requires DistinctNames(libs)
    ensures Invariant(RegisterAll(libs))
  {
    if libs != [] {
      hide Invariant, HostAliases, HostLibraries, DistinctNames, SetOf, KeysOf, Module.Shortname, IsCanonical, RegisterLoaded;
      var shorter, last := libs[..|libs| - 1], libs[|libs| - 1];
      LastIsNew(libs);
      RegisterAllInvariant(shorter);
      RegisterAllShape(shorter);
      KeysAreCanonical(RegisterAll(shorter), SetOf(shorter));
      RegisterLoadedKeepsInvariant(RegisterAll(shorter), last, HOST_FLAGS);
    }
  }
}
