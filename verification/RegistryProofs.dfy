/** Every registry operation keeps the invariant; what a promotion and a merge leave alone. */
module RegistryProofs {
  import opened OrderedMap
  import opened OpenFlags
  import opened Registry

  // ---------------------------------------------------------------- counters

  /** What the counters count: one for each key, pending or committed. */
  lemma CountersCountLibraries(r: State)
    requires Invariant(r)
    ensures (r.adds - r.subs - (|r.pending.entries| + |r.committed.entries|)) % U64 == 0
    ensures |r.pending.entries.Keys + r.committed.entries.Keys| == |r.pending.entries| + |r.committed.entries|
  {
    OrderCountsKeys(r.pending);
    OrderCountsKeys(r.committed);
    var p, c := r.pending.entries.Keys, r.committed.entries.Keys;
    assert |p + c| == |p| + |c|;
    hide AliasesExact, IdentitiesLive, GlobalExact, NamesMatch;
  }

  lemma BumpAdds(adds: nat, subs: nat, n: nat)
    requires Balanced(adds, subs, n)
    ensures Balanced(Bump(adds), subs, n + 1)
    ensures !Balanced(Bump(adds), subs, n)
  {
  }

  // ---------------------------------------------------------------- direct dependencies

  /** Where a name is first mentioned. */
  function FirstAt(s: seq<string>, x: string): (i: nat)
    requires x in s
    ensures i < |s| && s[i] == x && forall k :: 0 <= k < i ==> s[k] != x
  {
    if s[0] == x then 0 else 1 + FirstAt(s[1..], x)
  }

  lemma FirstAtPrefix(s: seq<string>, n: nat, x: string)
    requires n <= |s| && x in s[..n]
    ensures x in s && FirstAt(s[..n], x) == FirstAt(s, x)
  {
    var i, j := FirstAt(s[..n], x), FirstAt(s, x);
    assert s[i] == s[..n][i];
    assert j < n ==> s[..n][j] == s[j];
  }

  lemma FirstIfNew(s: seq<string>, n: nat)
    requires n < |s| && s[n] !in s[..n]
    ensures FirstAt(s, s[n]) == n
  {
    assert forall k :: 0 <= k < n ==> s[..n][k] == s[k];
  }

  /** Removing duplicates keeps the order of first mention. */
  lemma {:induction false} DeduplicatedInOrder(s: seq<string>)
    ensures forall i, j :: 0 <= i < j < |Deduplicated(s)| ==>
              FirstAt(s, Deduplicated(s)[i]) < FirstAt(s, Deduplicated(s)[j])
  {
    hide FirstAt;
    if s != [] {
      var n, d := |s| - 1, Deduplicated(s);
      var before := Deduplicated(s[..n]);
      DeduplicatedInOrder(s[..n]);
      assert before <= d && |d| <= |before| + 1;
      forall i, j | 0 <= i < j < |d|
        ensures FirstAt(s, d[i]) < FirstAt(s, d[j])
      {
        FirstAtPrefix(s, n, d[i]);
        if j < |before| {
          FirstAtPrefix(s, n, d[j]);
        } else {
          assert d[j] == s[n] && s[n] !in s[..n];
          FirstIfNew(s, n);
        }
      }
    }
  }

  /** The registered library that a name leads to. */
  ghost predicate LeadsTo(r: State, name: string, key: string) {
    Lookup(r, name).Some? && Lookup(r, name).value.shortname == key
  }

  /** Some needed name leads to `key`, and none up to there leads to `other`. */
  ghost predicate NeededBefore(r: State, needed: seq<string>, key: string, other: string) {
    exists i :: 0 <= i < |needed| && LeadsTo(r, needed[i], key) && forall j :: 0 <= j <= i ==> !LeadsTo(r, needed[j], other)
  }

  /** What a list of direct dependencies has to be: a library is in it exactly when some needed name leads
      to it, once, and the libraries stand in the order of the first names that lead to them. */
  ghost predicate DependencyList(r: State, needed: seq<string>, deps: seq<string>) {
    && NoDuplicates(deps)
    && (forall key :: key in deps <==> exists i :: 0 <= i < |needed| && LeadsTo(r, needed[i], key))
    && (forall a, b :: 0 <= a < b < |deps| ==> NeededBefore(r, needed, deps[a], deps[b]))
  }

  lemma NeededBeforeMonotone(r: State, needed: seq<string>, n: nat, key: string, other: string)
    requires n <= |needed| && NeededBefore(r, needed[..n], key, other)
    ensures NeededBefore(r, needed, key, other)
  {
    hide LeadsTo;
    var i :| 0 <= i < |needed[..n]| && LeadsTo(r, needed[..n][i], key)
             && forall j :: 0 <= j <= i ==> !LeadsTo(r, needed[..n][j], other);
    assert forall j :: 0 <= j <= i ==> needed[..n][j] == needed[j];
  }

  /** One needed name more: it adds the library it leads to, at the end, if that is new. */
  lemma DependencyStep(r: State, needed: seq<string>, n: nat, deps: seq<string>)
    requires n < |needed| && DependencyList(r, needed[..n], deps)
    ensures DependencyList(r, needed[..n + 1],
                           if Lookup(r, needed[n]).None? || Lookup(r, needed[n]).value.shortname in deps then deps
                           else deps + [Lookup(r, needed[n]).value.shortname])
  {
    hide Lookup;
    var longer := needed[..n + 1];
    var deps' := if Lookup(r, needed[n]).None? || Lookup(r, needed[n]).value.shortname in deps then deps
                 else deps + [Lookup(r, needed[n]).value.shortname];
    assert longer[..n] == needed[..n] && longer == needed[..n] + [needed[n]];
    forall key
      ensures key in deps' <==> exists i :: 0 <= i < |longer| && LeadsTo(r, longer[i], key)
    {
      LeadsToNext(r, needed[..n], needed[n], key);
    }
    forall a, b | 0 <= a < b < |deps'|
      ensures NeededBefore(r, longer, deps'[a], deps'[b])
    {
      if b < |deps| {
        NeededBeforeMonotone(r, longer, n, deps[a], deps[b]);
      } else {
        NewIsLast(r, needed[..n], deps, deps[a], deps'[b]);
        NeededBeforeMonotone(r, longer, n, deps[a], deps'[b]);
      }
    }
  }

  lemma LeadsToNext(r: State, before: seq<string>, name: string, key: string)
    ensures (exists i :: 0 <= i < |before + [name]| && LeadsTo(r, (before + [name])[i], key)) <==>
              (exists i :: 0 <= i < |before| && LeadsTo(r, before[i], key)) || LeadsTo(r, name, key)
  {
    hide LeadsTo;
    var longer := before + [name];
    assert longer[|before|] == name;
    assert forall i :: 0 <= i < |before| ==> longer[i] == before[i];
  }

  lemma NewIsLast(r: State, needed: seq<string>, deps: seq<string>, key: string, other: string)
    requires DependencyList(r, needed, deps) && key in deps && other !in deps
    ensures NeededBefore(r, needed, key, other)
  {
    hide LeadsTo;
  }

  /** The computed list of direct dependencies is one. */
  lemma {:induction false} DirectDepsMeaning(r: State, needed: seq<string>)
    ensures DependencyList(r, needed, DirectDeps(r, needed))
  {
    if needed != [] {
      var n := |needed| - 1;
      DirectDepsMeaning(r, needed[..n]);
      DependencyStep(r, needed, n, DirectDeps(r, needed[..n]));
      DirectDepsStep(r, needed, n);
      hide DependencyList, DirectDeps, Lookup;
      assert needed[..n + 1] == needed;
    }
  }

  lemma DirectDepsStep(r: State, needed: seq<string>, n: nat)
    requires n + 1 == |needed|
    ensures var deps := DirectDeps(r, needed[..n]);
            DirectDeps(r, needed) ==
            if Lookup(r, needed[n]).None? || Lookup(r, needed[n]).value.shortname in deps then deps
            else deps + [Lookup(r, needed[n]).value.shortname]
  {
    hide Lookup;
    var before := Resolved(r, needed[..n]);
    if Lookup(r, needed[n]).Some? {
      assert (before + [Lookup(r, needed[n]).value.shortname])[..|before|] == before;
    }
  }

  lemma NotBothBefore(r: State, needed: seq<string>, a: string, b: string)
    requires NeededBefore(r, needed, a, b)
    ensures !NeededBefore(r, needed, b, a)
  {
    hide LeadsTo;
  }

  /** There is only one such list. */
  lemma {:induction false} DependencyListIsDetermined(r: State, needed: seq<string>, a: seq<string>, b: seq<string>)
    requires DependencyList(r, needed, a) && DependencyList(r, needed, b)
    ensures a == b
  {
    hide LeadsTo;
    assert forall key :: key in a <==> key in b;
    OneOrder(r, needed, a, b);
  }

  lemma {:induction false} OneOrder(r: State, needed: seq<string>, a: seq<string>, b: seq<string>)
    requires NoDuplicates(a) && NoDuplicates(b) && forall key :: key in a <==> key in b
    requires forall i, j :: 0 <= i < j < |a| ==> NeededBefore(r, needed, a[i], a[j])
    requires forall i, j :: 0 <= i < j < |b| ==> NeededBefore(r, needed, b[i], b[j])
    ensures a == b
  {
    hide NeededBefore;
    assert b != [] ==> b[0] in a;
    if a != [] {
      assert a[0] in b;
      var i :| 0 <= i < |b| && b[i] == a[0];
      var j :| 0 <= j < |a| && a[j] == b[0];
      if i > 0 && j > 0 {
        NotBothBefore(r, needed, a[0], b[0]);
      }
      assert a[0] == b[0];
      assert forall key :: key in a <==> key == a[0] || key in a[1..];
      assert forall key :: key in b <==> key == b[0] || key in b[1..];
      OneOrder(r, needed, a[1..], b[1..]);
    }
  }

  // ---------------------------------------------------------------- adding

  /** The two maps that carry alias lists list the same aliases under every key. */
  ghost predicate SameLibnames(r: State, r': State) {
    forall k :: Libnames(r', k) == Libnames(r, k)
  }

  lemma SameLibnamesKeeps(r: State, r': State)
    requires AliasesExact(r) && r'.aliases == r.aliases && SameLibnames(r, r')
    ensures AliasesExact(r')
  {
  }

  lemma AddReservationKeeps(r: State, name: string, flags: Flags)
    requires Invariant(r) && !IsCanonical(r, name)
    ensures Invariant(AddReservation(r, name, flags))
  {
    var r' := AddReservation(r, name, flags);
    BumpAdds(r.adds, r.subs, |r.pending.order| + |r.committed.order|);
    AddReservationConsistent(r, name, flags);
  }

  lemma AddReservationConsistent(r: State, name: string, flags: Flags)
    requires Consistent(r) && !IsCanonical(r, name)
    ensures Consistent(AddReservation(r, name, flags))
  {
    var r' := AddReservation(r, name, flags);
    assert Ordered(r') by { InsertValid(r.pending, name, Meta(flags, [])); }
    assert AliasesExact(r') by { SameLibnamesKeeps(r, r'); }
  }

  lemma AddReservationBreaks(r: State, name: string, flags: Flags)
    requires Invariant(r) && IsCanonical(r, name)
    ensures var r' := AddReservation(r, name, flags); !Separate(r') || !CountersBalance(r')
  {
    var r' := AddReservation(r, name, flags);
    if IsCommitted(r, name) {
      assert name in r'.pending.entries.Keys * r'.committed.entries.Keys;
    } else {
      BumpAdds(r.adds, r.subs, |r.pending.order| + |r.committed.order|);
    }
  }

  /** Everything but the alias map and the lists of aliases. */
  ghost predicate SameExceptAliases(r: State, r': State) {
    && r'.global == r.global && r'.identities == r.identities && r'.adds == r.adds && r'.subs == r.subs
    && r'.pending.order == r.pending.order && r'.committed.order == r.committed.order
    && r'.pending.entries.Keys == r.pending.entries.Keys
    && r'.committed.entries.Keys == r.committed.entries.Keys
    && (forall k :: k in r.pending.entries ==>
                    r'.pending.entries[k].flags == r.pending.entries[k].flags)
    && (forall k :: k in r.committed.entries ==> SameButLibnames(r.committed.entries[k], r'.committed.entries[k]))
  }

  ghost predicate SameButLibnames(e: Entry, e': Entry) {
    e'.mod == e.mod && e'.deps == e.deps && e'.meta.flags == e.meta.flags
  }

  lemma AddAliasKeepsAliases(r: State, canonical: string, alias: string)
    requires IsCanonical(r, canonical) && Separate(r) && AliasesExact(r)
    ensures AliasesExact(AddAlias(r, canonical, alias))
  {
    var r' := AddAlias(r, canonical, alias);
    assert forall k :: k != canonical ==> Libnames(r', k) == Libnames(r, k);
    if !IsCanonical(r, alias) && alias !in r.aliases {
      assert Libnames(r', canonical) == Libnames(r, canonical) + [alias];
      forall c, a | a in Libnames(r', c)
        ensures a in r'.aliases && r'.aliases[a] == c
      {
        assert a in Libnames(r, c) || (c == canonical && a == alias);
      }
    }
  }

  /** Aliases alone: the rest of the invariant only looks at what stays the same. */
  lemma SameExceptAliasesKeeps(r: State, r': State)
    requires Invariant(r) && SameExceptAliases(r, r') && AliasesExact(r')
    ensures Invariant(r')
  {
  }

  lemma AddAliasKeepsInvariant(r: State, canonical: string, alias: string)
    requires Invariant(r) && IsCanonical(r, canonical)
    ensures Invariant(AddAlias(r, canonical, alias))
    ensures SameExceptAliases(r, AddAlias(r, canonical, alias))
  {
    AddAliasFrame(r, canonical, alias);
    AddAliasKeepsAliases(r, canonical, alias);
    SameExceptAliasesKeeps(r, AddAlias(r, canonical, alias));
  }

  lemma AddAliasFrame(r: State, canonical: string, alias: string)
    requires IsCanonical(r, canonical)
    ensures SameExceptAliases(r, AddAlias(r, canonical, alias))
  {
  }

  /** Adding aliases never changes keys or counters, whatever the state. */
  lemma {:induction false} AddAliasesFrame(r: State, canonical: string, names: seq<string>)
    requires IsCanonical(r, canonical)
    ensures SameExceptAliases(r, AddAliases(r, canonical, names))
  {
    if names != [] {
      AddAliasesFrame(r, canonical, names[..|names| - 1]);
    }
  }

  lemma {:induction false} AddAliasesKeepsAliases(r: State, canonical: string, names: seq<string>)
    requires IsCanonical(r, canonical) && Separate(r) && AliasesExact(r)
    ensures AliasesExact(AddAliases(r, canonical, names))
  {
    if names != [] {
      var mid := AddAliases(r, canonical, names[..|names| - 1]);
      AddAliasesFrame(r, canonical, names[..|names| - 1]);
      AddAliasesKeepsAliases(r, canonical, names[..|names| - 1]);
      AddAliasKeepsAliases(mid, canonical, names[|names| - 1]);
    }
  }

  lemma AddAliasesKeepsInvariant(r: State, canonical: string, names: seq<string>)
    requires Invariant(r) && IsCanonical(r, canonical)
    ensures Invariant(AddAliases(r, canonical, names))
  {
    AddAliasesFrame(r, canonical, names);
    AddAliasesKeepsAliases(r, canonical, names);
    SameExceptAliasesKeeps(r, AddAliases(r, canonical, names));
  }

  lemma AddIdentityKeepsInvariant(r: State, identity: Option<FileIdentity>, name: string)
    requires Invariant(r) && IsCanonical(r, name)
    ensures Invariant(AddIdentity(r, identity, name))
  {
    var r' := AddIdentity(r, identity, name);
    assert CountersBalance(r');
    assert SameLibnames(r, r');
  }

  /** The release build does not check the name, so a reservation keeps the invariant exactly when the
      name was free. */
  lemma ReservePendingKeepsInvariantIff(r: State, shortname: string, fullName: string,
                                        identity: Option<FileIdentity>, flags: Flags)
    requires Invariant(r)
    ensures Invariant(ReservePending(r, shortname, fullName, identity, flags)) <==> !IsCanonical(r, shortname)
  {
    var all := NormalizedFlags(fullName, flags);
    var r1 := AddReservation(r, shortname, all);
    var r2 := AddIdentity(r1, identity, shortname);
    if IsCanonical(r, shortname) {
      AddReservationBreaks(r, shortname, all);
      AddAliasesFrame(r2, shortname, CompatAliases(shortname));
      var r3 := ReservePending(r, shortname, fullName, identity, flags);
      assert r3.pending.entries.Keys == r1.pending.entries.Keys;
      assert r3.committed.entries.Keys == r1.committed.entries.Keys;
      assert !Separate(r3) || !CountersBalance(r3);
    } else {
      AddReservationKeeps(r, shortname, all);
      AddIdentityKeepsInvariant(r1, identity, shortname);
      AddAliasesKeepsInvariant(r2, shortname, CompatAliases(shortname));
    }
  }

  lemma ReservePendingKeys(r: State, shortname: string, fullName: string,
                           identity: Option<FileIdentity>, flags: Flags)
    ensures var r' := ReservePending(r, shortname, fullName, identity, flags);
            && r'.pending.entries.Keys == r.pending.entries.Keys + {shortname}
            && r'.committed.entries.Keys == r.committed.entries.Keys
            && (forall k :: k in r.committed.entries ==> SameButLibnames(r.committed.entries[k], r'.committed.entries[k]))
  {
    var r1 := AddIdentity(AddReservation(r, shortname, NormalizedFlags(fullName, flags)), identity, shortname);
    AddAliasesFrame(r1, shortname, CompatAliases(shortname));
  }

  /** A library enters the committed graph (and, if so flagged, the global scope), leaving `pending` if it
      was reserved; counters apart. */
  ghost function Committed(r: State, key: string, mod: Module, deps: seq<string>, meta: Meta): State {
    r.(pending := ShiftRemove(r.pending, key),
       committed := Insert(r.committed, key, Entry(mod, deps, meta)),
       global := if Global in meta.flags then Insert(r.global, key, mod) else r.global)
  }

  lemma CommittedParts(r: State, key: string, mod: Module, deps: seq<string>, meta: Meta)
    ensures var r' := Committed(r, key, mod, deps, meta);
            && (Ordered(r) ==> Ordered(r'))
            && (Separate(r) ==> Separate(r'))
            && (NamesMatch(r) && mod.Shortname() == key ==> NamesMatch(r'))
            && (IdentitiesLive(r) ==> IdentitiesLive(r'))
            && (GlobalExact(r) && !IsCommitted(r, key) ==> GlobalExact(r'))
  {
    if Ordered(r) {
      InsertValid(r.committed, key, Entry(mod, deps, meta));
      InsertValid(r.global, key, mod);
      RemoveAllValid(r.pending, {key});
    }
  }

  lemma CommittedAliases(r: State, key: string, mod: Module, deps: seq<string>, meta: Meta)
    requires AliasesExact(r) && Separate(r) && !IsCommitted(r, key)
    requires meta.libnames == Libnames(r, key)
    ensures AliasesExact(Committed(r, key, mod, deps, meta))
  {
    SameLibnamesKeeps(r, Committed(r, key, mod, deps, meta));
  }

  /** The module takes the place of its reservation, alias list included; a key that was free starts
      without aliases. */
  lemma CommittedConsistent(r: State, key: string, mod: Module, deps: seq<string>, meta: Meta)
    requires Consistent(r) && !IsCommitted(r, key) && mod.Shortname() == key
    requires meta.libnames == Libnames(r, key)
    ensures Consistent(Committed(r, key, mod, deps, meta))
  {
    hide Ordered, Separate, AliasesExact, IdentitiesLive, GlobalExact, NamesMatch;
    CommittedParts(r, key, mod, deps, meta);
    CommittedAliases(r, key, mod, deps, meta);
  }

  lemma CommittedBalances(r: State, key: string, mod: Module, deps: seq<string>, meta: Meta)
    requires r.pending.Valid() && CountersBalance(r) && !IsCommitted(r, key)
    ensures CountersBalance(Committed(r, key, mod, deps, meta)
                            .(adds := if IsPending(r, key) then r.adds else Bump(r.adds)))
  {
    ShiftRemoveLength(r.pending, key);
    BumpAdds(r.adds, r.subs, |r.pending.order| + |r.committed.order|);
  }

  lemma CommittedInvariant(r: State, key: string, mod: Module, deps: seq<string>, meta: Meta)
    requires Invariant(r) && !IsCommitted(r, key) && mod.Shortname() == key
    requires meta.libnames == Libnames(r, key)
    ensures Invariant(Committed(r, key, mod, deps, meta)
                      .(adds := if IsPending(r, key) then r.adds else Bump(r.adds)))
  {
    var r1 := Committed(r, key, mod, deps, meta);
    var r2 := r1.(adds := if IsPending(r, key) then r.adds else Bump(r.adds));
    assert Consistent(r2) by {
      CommittedConsistent(r, key, mod, deps, meta);
      CountersApart(r1, r2);
    }
    CommittedBalances(r, key, mod, deps, meta);
  }

  /** Entering the global scope commutes with the identity and alias updates. */
  lemma {:induction false} AddGlobalCommutes(r: State, key: string, mod: Module, canonical: string, names: seq<string>)
    requires IsCanonical(r, canonical)
    ensures AddGlobal(AddAliases(r, canonical, names), key, mod) ==
            AddAliases(AddGlobal(r, key, mod), canonical, names)
  {
    if names != [] {
      AddGlobalCommutes(r, key, mod, canonical, names[..|names| - 1]);
      AddAliasesFrame(r, canonical, names[..|names| - 1]);
    }
  }

  lemma RegisterLoadedKeepsInvariant(r: State, lib: Module, flags: Flags)
    requires Invariant(r) && !IsCanonical(r, lib.Shortname())
    requires lib.name == "" ==> Global in flags
    ensures Invariant(RegisterLoaded(r, lib, flags))
  {
    hide Consistent, CountersBalance;
    var key := lib.Shortname();
    var all := NormalizedFlags(lib.name, flags);
    var r0 := AddLoaded(r, key, lib, all);
    var g0 := if Global in all then AddGlobal(r0, key, lib) else r0;
    assert Invariant(g0) by {
      CommittedInvariant(r, key, lib, DirectDeps(r, lib.needed), Meta(all, []));
      assert ShiftRemove(r.pending, key) == r.pending by { NotPending(r, key); }
    }
    AddIdentityKeepsInvariant(g0, lib.identity, key);
    AddAliasesKeepsInvariant(AddIdentity(g0, lib.identity, key), key, CompatAliases(key));
    if Global in all {
      AddGlobalCommutes(AddIdentity(r0, lib.identity, key), key, lib, key, CompatAliases(key));
    }
  }

  lemma NotPending(r: State, key: string)
    requires Consistent(r) && !IsPending(r, key)
    ensures ShiftRemove(r.pending, key) == r.pending
  {
    RemoveAbsent(r.pending, {key});
  }

  /** The counters play no part in the structural half of the invariant. */
  lemma CountersApart(r: State, r': State)
    requires Consistent(r) && r' == r.(adds := r'.adds, subs := r'.subs)
    ensures Consistent(r')
  {
    assert SameLibnames(r, r');
  }

  // ---------------------------------------------------------------- promotion

  /** Promotion touches one library, and never clears a flag. */
  lemma PromoteAddsFlags(r: State, key: string, flags: Flags)
    requires IsCommitted(r, key)
    ensures var r' := Promote(r, key, flags);
            var e := r.committed.entries[key];
            && r' == r.(committed := r'.committed, global := r'.global)
            && r'.committed.order == r.committed.order
            && r'.committed.entries ==
               r.committed.entries[key := e.(meta := e.meta.(flags := e.meta.flags + flags * {Global, NoDelete}))]
  {
    var e := r.committed.entries[key];
    if Promotable(flags) <= e.meta.flags {
      assert e.meta.flags + flags * {Global, NoDelete} == e.meta.flags;
      assert r.committed.entries[key := e] == r.committed.entries;
    }
  }

  /** Promotion enters a library into the global scope once; a second entry changes nothing. */
  lemma PromoteGlobalScope(r: State, key: string, flags: Flags)
    requires GlobalExact(r) && IsCommitted(r, key)
    ensures Promote(r, key, flags).global ==
            if Global in flags && Global !in r.committed.entries[key].meta.flags
            then Insert(r.global, key, r.committed.entries[key].mod) else r.global
  {
    if key in r.global.entries {
      assert r.global.entries[key := r.global.entries[key]] == r.global.entries;
    }
  }

  lemma PromoteParts(r: State, key: string, flags: Flags)
    requires IsCommitted(r, key)
    ensures var r' := Promote(r, key, flags);
            && (Separate(r) ==> Separate(r'))
            && (NamesMatch(r) ==> NamesMatch(r'))
            && (IdentitiesLive(r) ==> IdentitiesLive(r'))
            && (CountersBalance(r) ==> CountersBalance(r'))
  {
    PromoteAddsFlags(r, key, flags);
    hide Promote, Balanced;
  }

  lemma PromoteOrdered(r: State, key: string, flags: Flags)
    requires IsCommitted(r, key) && Ordered(r)
    ensures Ordered(Promote(r, key, flags))
  {
    PromoteAddsFlags(r, key, flags);
    InsertValid(r.global, key, r.committed.entries[key].mod);
  }

  lemma PromoteScope(r: State, key: string, flags: Flags)
    requires IsCommitted(r, key) && GlobalExact(r)
    ensures GlobalExact(Promote(r, key, flags))
  {
    PromoteAddsFlags(r, key, flags);
    PromoteGlobalScope(r, key, flags);
  }

  lemma PromoteAliases(r: State, key: string, flags: Flags)
    requires IsCommitted(r, key) && AliasesExact(r)
    ensures AliasesExact(Promote(r, key, flags))
  {
    PromoteAddsFlags(r, key, flags);
    SameLibnamesKeeps(r, Promote(r, key, flags));
  }

  lemma PromoteKeepsInvariant(r: State, key: string, flags: Flags)
    requires Invariant(r) && IsCommitted(r, key)
    ensures Invariant(Promote(r, key, flags))
  {
    hide Ordered, Separate, AliasesExact, IdentitiesLive, GlobalExact, NamesMatch, CountersBalance;
    PromoteParts(r, key, flags);
    PromoteOrdered(r, key, flags);
    PromoteScope(r, key, flags);
    PromoteAliases(r, key, flags);
  }

  // ---------------------------------------------------------------- merging

  lemma MergeOneKeepsInvariant(r: State, l: Linked, flags: Flags)
    requires Invariant(r)
    requires l.mod.Some? ==> l.mod.value.Shortname() == l.key
    ensures Invariant(MergeOne(r, l, flags))
  {
    hide Consistent, CountersBalance;
    if !IsCommitted(r, l.key) && l.mod.Some? {
      var m := l.mod.value;
      var meta := if IsPending(r, l.key) then r.pending.entries[l.key]
                  else Meta(NormalizedFlags(m.name, flags), []);
      var r1 := r.(pending := ShiftRemove(r.pending, l.key),
                   committed := Insert(r.committed, l.key, Entry(m, l.deps, meta)),
                   adds := if IsPending(r, l.key) then r.adds else Bump(r.adds));
      var g1 := if Global in meta.flags then AddGlobal(r1, l.key, m) else r1;
      CommittedInvariant(r, l.key, m, l.deps, meta);
      AddIdentityKeepsInvariant(g1, m.identity, l.key);
      AddAliasesKeepsInvariant(AddIdentity(g1, m.identity, l.key), l.key, CompatAliases(l.key));
      AddGlobalCommutes(AddIdentity(r1, m.identity, l.key), l.key, m, l.key, CompatAliases(l.key));
    }
  }

  /** What a merge does to the two key sets: the merged keys leave `pending` and are committed. */
  ghost predicate MergedKeys(r: State, r': State, keys: set<string>) {
    && r'.committed.entries.Keys == r.committed.entries.Keys + keys
    && r'.pending.entries.Keys == r.pending.entries.Keys - keys
    && r'.subs == r.subs
    && (forall k :: k in r.committed.entries ==> SameButLibnames(r.committed.entries[k], r'.committed.entries[k]))
  }

  lemma CommittedKeys(r: State, key: string, mod: Module, deps: seq<string>, meta: Meta)
    requires Separate(r) && !IsCommitted(r, key)
    ensures MergedKeys(r, Committed(r, key, mod, deps, meta), {key})
  {
  }

  lemma AliasesKeepMergedKeys(r: State, r1: State, r2: State, keys: set<string>)
    requires MergedKeys(r, r1, keys) && SameExceptAliases(r1, r2)
    ensures MergedKeys(r, r2, keys)
  {
  }

  lemma MergeOneKeys(r: State, l: Linked, flags: Flags)
    requires Separate(r)
    ensures MergedKeys(r, MergeOne(r, l, flags), if l.mod.Some? then {l.key} else {})
  {
    if !IsCommitted(r, l.key) && l.mod.Some? {
      hide Separate, SameExceptAliases;
      var m := l.mod.value;
      var meta := if IsPending(r, l.key) then r.pending.entries[l.key]
                  else Meta(NormalizedFlags(m.name, flags), []);
      CommittedKeys(r, l.key, m, l.deps, meta);
      var r1 := Committed(r, l.key, m, l.deps, meta)
                .(global := r.global, adds := if IsPending(r, l.key) then r.adds else Bump(r.adds));
      var r2 := AddIdentity(r1, m.identity, l.key);
      AddAliasesFrame(r2, l.key, CompatAliases(l.key));
      AliasesKeepMergedKeys(r, r2, AddAliases(r2, l.key, CompatAliases(l.key)), {l.key});
    }
  }

  /** The keys that `ls` brings a module for. */
  ghost function LinkedKeys(ls: seq<Linked>): set<string> {
    set l | l in ls && l.mod.Some? :: l.key
  }

  ghost predicate WellNamed(ls: seq<Linked>) {
    forall l :: l in ls && l.mod.Some? ==> l.mod.value.Shortname() == l.key
  }

  lemma {:induction false} MergeKeepsInvariant(r: State, ls: seq<Linked>, flags: Flags)
    requires Invariant(r) && WellNamed(ls)
    ensures Invariant(Merge(r, ls, flags))
    ensures MergedKeys(r, Merge(r, ls, flags), LinkedKeys(ls))
  {
    if ls != [] {
      var shorter, last := ls[..|ls| - 1], ls[|ls| - 1];
      assert forall l :: l in ls <==> l in shorter || l == last;
      MergeKeepsInvariant(r, shorter, flags);
      MergeOneKeepsInvariant(Merge(r, shorter, flags), last, flags);
      MergeOneKeys(Merge(r, shorter, flags), last, flags);
      var lastKeys := if last.mod.Some? then {last.key} else {};
      assert LinkedKeys(ls) == LinkedKeys(shorter) + lastKeys;
      MergedKeysCompose(r, Merge(r, shorter, flags), Merge(r, ls, flags), LinkedKeys(shorter), lastKeys);
    }
  }

  lemma MergedKeysCompose(r: State, r1: State, r2: State, a: set<string>, b: set<string>)
    requires MergedKeys(r, r1, a) && MergedKeys(r1, r2, b)
    ensures MergedKeys(r, r2, a + b)
  {
  }

  // ---------------------------------------------------------------- rebuilding

  lemma RebuildParts(r: State)
    ensures var r' := Rebuild(r);
            && (Ordered(r) ==> Ordered(r'))
            && (Separate(r) ==> Separate(r'))
            && (NamesMatch(r) ==> NamesMatch(r'))
            && (IdentitiesLive(r) ==> IdentitiesLive(r'))
            && (GlobalExact(r) ==> GlobalExact(r'))
            && (CountersBalance(r) ==> CountersBalance(r'))
  {
    assert Rebuild(r).committed.entries.Keys == r.committed.entries.Keys;
  }

  lemma RebuildAliases(r: State)
    requires AliasesExact(r)
    ensures AliasesExact(Rebuild(r))
  {
    SameLibnamesKeeps(r, Rebuild(r));
  }

  lemma RebuildKeepsInvariant(r: State)
    requires Invariant(r)
    ensures Invariant(Rebuild(r))
  {
    hide Ordered, Separate, AliasesExact, IdentitiesLive, GlobalExact, NamesMatch, CountersBalance;
    RebuildParts(r);
    RebuildAliases(r);
  }

  lemma RebuildKeepsLookup(r: State, name: string)
    ensures Lookup(Rebuild(r), name) == Lookup(r, name)
  {
  }
}
