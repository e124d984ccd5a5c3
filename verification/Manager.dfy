/** The manager object: each method updates the fields as the code does and is proved against the
    corresponding function on registry values. */
module Manager {
  import opened OrderedMap
  import opened OpenFlags
  import R = Registry
  import S = RelocationScope
  import U = Unloading
  import W = Removal
  import P = RegistryProofs

  ghost function Elements(s: seq<string>): set<string> {
    set x | x in s
  }

  class Manager {
    var pending: IndexMap<R.Meta>
    var global: IndexMap<R.Module>
    var aliases: map<string, string>
    var identities: map<R.FileIdentity, string>
    var committed: IndexMap<R.Entry>
    var adds: nat
    var subs: nat

    function View(): R.State
      reads this
    {
      R.State(pending, global, aliases, identities, committed, adds, subs)
    }

    constructor ()
      ensures View() == R.Initial()
    {
      pending, global, aliases, identities, committed := Empty(), Empty(), map[], map[], Empty();
      adds, subs := 0, 0;
    }

    method AddReservation(name: string, flags: Flags)
      modifies this
      ensures View() == R.AddReservation(old(View()), name, flags)
    {
      pending := Insert(pending, name, R.Meta(flags, []));
      adds := R.Bump(adds);
    }

    method AddAlias(canonical: string, alias: string)
      requires R.IsCanonical(View(), canonical)
      modifies this
      ensures View() == R.AddAlias(old(View()), canonical, alias)
      ensures R.IsCanonical(View(), canonical)
    {
      if alias in pending.entries || alias in committed.entries {
        return;
      }
      if alias in aliases {
        return;
      }
      if canonical in pending.entries {
        var lib := pending.entries[canonical];
        pending := Insert(pending, canonical, lib.(libnames := lib.libnames + [alias]));
      } else {
        var e := committed.entries[canonical];
        committed := Insert(committed, canonical, e.(meta := e.meta.(libnames := e.meta.libnames + [alias])));
      }
      aliases := aliases[alias := canonical];
    }

    method AddAliases(canonical: string, names: seq<string>)
      requires R.IsCanonical(View(), canonical)
      modifies this
      ensures View() == R.AddAliases(old(View()), canonical, names)
    {
      for i := 0 to |names|
        invariant R.IsCanonical(View(), canonical)
        invariant View() == R.AddAliases(old(View()), canonical, names[..i])
      {
        assert names[..i + 1][..i] == names[..i];
        AddAlias(canonical, names[i]);
      }
      assert names[..|names|] == names;
    }

    method AddIdentity(identity: Option<R.FileIdentity>, name: string)
      modifies this`identities
      ensures View() == R.AddIdentity(old(View()), identity, name)
    {
      if identity.Some? {
        identities := identities[identity.value := name];
      }
    }

    method RemoveAliases(libnames: seq<string>)
      modifies this`aliases
      ensures aliases == old(aliases) - set a | a in libnames
    {
      for i := 0 to |libnames|
        invariant aliases == old(aliases) - Elements(libnames[..i])
      {
        assert Elements(libnames[..i + 1]) == Elements(libnames[..i]) + {libnames[i]};
        aliases := aliases - {libnames[i]};
      }
      assert libnames[..|libnames|] == libnames;
      assert Elements(libnames) == set a | a in libnames;
    }

    method Remove(shortname: string)
      requires R.IsCanonical(View(), shortname)
      modifies this
      ensures View() == R.Remove(old(View()), shortname)
    {
      var libnames;
      if shortname in pending.entries {
        libnames := pending.entries[shortname].libnames;
        pending := ShiftRemove(pending, shortname);
      } else {
        libnames := committed.entries[shortname].meta.libnames;
        committed := ShiftRemove(committed, shortname);
      }
      subs := R.Bump(subs);
      global := ShiftRemove(global, shortname);
      RemoveAliases(libnames);
      identities := map i | i in identities && identities[i] != shortname :: identities[i];
    }

    /** The libraries that the names in `needed` lead to, each once, in the order in which they are first
        needed. */
    method CanonicalDirectDeps(needed: seq<string>) returns (deps: seq<string>)
      ensures deps == R.DirectDeps(View(), needed)
      ensures P.DependencyList(View(), needed, deps)
    {
      deps := [];
      var seen: set<string> := {};
      for i := 0 to |needed|
        invariant deps == R.DirectDeps(View(), needed[..i])
        invariant seen == set d | d in deps
      {
        assert needed[..i + 1][..i] == needed[..i];
        ghost var before := R.Resolved(View(), needed[..i]);
        var found := R.Lookup(View(), needed[i]);
        if found.Some? {
          var shortname := found.value.shortname;
          assert (before + [shortname])[..|before|] == before;
          if shortname !in seen {
            seen := seen + {shortname};
            deps := deps + [shortname];
          }
        }
      }
      assert needed[..|needed|] == needed;
      P.DirectDepsMeaning(View(), needed);
    }

    method AddLoaded(name: string, lib: R.Module, flags: Flags)
      requires name !in committed.entries
      modifies this
      ensures View() == R.AddLoaded(old(View()), name, lib, flags)
    {
      var deps := CanonicalDirectDeps(lib.needed);
      committed := Insert(committed, name, R.Entry(lib, deps, R.Meta(flags, [])));
      adds := R.Bump(adds);
    }

    method ReservePending(shortname: string, fullName: string, identity: Option<R.FileIdentity>, flags: Flags)
      modifies this
      ensures View() == R.ReservePending(old(View()), shortname, fullName, identity, flags)
    {
      AddReservation(shortname, NormalizedFlags(fullName, flags));
      AddIdentity(identity, shortname);
      AddAliases(shortname, CompatAliases(shortname));
    }

    static lemma LoadedIsCanonical(r: R.State, name: string, lib: R.Module, flags: Flags)
      ensures R.IsCanonical(R.AddIdentity(R.AddLoaded(r, name, lib, flags), lib.identity, name), name)
    {
      hide R.DirectDeps;
    }

    method RegisterLoaded(lib: R.Module, flags: Flags)
      requires lib.Shortname() !in committed.entries
      modifies this
      ensures View() == R.RegisterLoaded(old(View()), lib, flags)
    {
      hide NormalizedFlags, CompatAliases, Promotable, Insert, ShortnameFromName, R.DirectDeps;
      var shortname := lib.Shortname();
      var all := NormalizedFlags(lib.name, flags);
      LoadedIsCanonical(View(), shortname, lib, all);
      hide R.AddAliases, R.AddAlias, R.AddLoaded, R.AddIdentity, R.IsCanonical;
      AddLoaded(shortname, lib, all);
      AddIdentity(lib.identity, shortname);
      AddAliases(shortname, CompatAliases(shortname));
      if Global in all || lib.name == "" {
        global := Insert(global, shortname, lib);
      }
    }

    method Promote(shortname: string, flags: Flags)
      requires R.IsCommitted(View(), shortname)
      modifies this
      ensures View() == R.Promote(old(View()), shortname, flags)
    {
      var e := committed.entries[shortname];
      var promotable := Promotable(flags);
      var addGlobal := false;
      if !(promotable <= e.meta.flags) {
        committed := Insert(committed, shortname, e.(meta := e.meta.(flags := e.meta.flags + promotable)));
        addGlobal := Global in flags;
      }
      if addGlobal {
        global := Insert(global, shortname, e.mod);
      }
    }

    method MergeLinkContext(source: seq<R.Linked>, flags: Flags)
      modifies this
      ensures View() == R.Merge(old(View()), source, flags)
    {
      for i := 0 to |source|
        invariant View() == R.Merge(old(View()), source[..i], flags)
      {
        assert source[..i + 1][..i] == source[..i];
        MergeOne(source[i], flags);
      }
      assert source[..|source|] == source;
    }

    method MergeOne(l: R.Linked, flags: Flags)
      modifies this
      ensures View() == R.MergeOne(old(View()), l, flags)
    {
      if l.key in committed.entries || l.mod.None? {
        return;
      }
      var m := l.mod.value;
      var wasPending := l.key in pending.entries;
      var meta := if wasPending then pending.entries[l.key] else R.Meta(NormalizedFlags(m.name, flags), []);
      pending := ShiftRemove(pending, l.key);
      committed := Insert(committed, l.key, R.Entry(m, l.deps, meta));
      if !wasPending {
        adds := R.Bump(adds);
      }
      AddIdentity(m.identity, l.key);
      AddAliases(l.key, CompatAliases(l.key));
      if Global in meta.flags {
        global := Insert(global, l.key, m);
      }
    }

    /** Two passes, as in the code: all dependency lists are computed against the old graph. */
    method RebuildLinkCtx()
      requires committed.Valid()
      modifies this
      ensures View() == R.Rebuild(old(View()))
    {
      var entries: map<string, R.Entry> := map[];
      for i := 0 to |committed.order|
        modifies {}
        invariant entries.Keys == Elements(committed.order[..i])
        invariant forall k :: k in entries ==>
          entries[k] == committed.entries[k].(deps := R.DirectDeps(View(), committed.entries[k].mod.needed))
      {
        var key := committed.order[i];
        var deps := CanonicalDirectDeps(committed.entries[key].mod.needed);
        entries := entries[key := committed.entries[key].(deps := deps)];
        assert Elements(committed.order[..i + 1]) == Elements(committed.order[..i]) + {key};
      }
      assert committed.order[..|committed.order|] == committed.order;
      assert entries.Keys == committed.entries.Keys;
      assert entries == R.Rebuild(View()).committed.entries;
      committed := IndexMap(committed.order, entries);
    }

    /** Symbol scope of a group: `seen` holds the shortnames already in `scope`. */
    method RelocationScope(group: seq<R.Module>, flags: Flags) returns (scope: seq<R.Module>)
      requires global.Valid()
      ensures scope == S.Scope(View(), group, flags)
    {
      var libs := if DeepBind in flags then group + Values(global) else Values(global) + group;
      scope := [];
      var seen: set<string> := {};
      assert libs == S.Concatenated(View(), group, flags);
      hide Values, S.Concatenated;
      for i := 0 to |libs|
        invariant scope == S.UniqueByName(libs[..i])
        invariant seen == S.NamesIn(scope)
      {
        hide *;
        S.UniqueStep(libs, i);
        if libs[i].Shortname() !in seen {
          seen := seen + {libs[i].Shortname()};
          scope := scope + [libs[i]];
        }
      }
      assert libs[..|libs|] == libs;
    }

    /** The registry half of dropping a handle; `counts` are the strong counts as they are measured. */
    method DropHandle(root: R.Module, scope: seq<R.Module>, counts: seq<nat>)
      returns (removed: seq<R.Module>, panicked: bool)
      requires |scope| == |counts| > 0
      modifies this
      ensures U.DropHandle(old(View()), root, scope, counts) == U.Outcome(View(), removed, panicked)
    {
      removed, panicked := DropOne([], root, counts[0]);
      if removed == [] {
        return;
      }
      removed, panicked := DropDeps(removed, scope[1..], counts[1..]);
    }

    method DropDeps(earlier: seq<R.Module>, deps: seq<R.Module>, counts: seq<nat>)
      returns (removed: seq<R.Module>, panicked: bool)
      requires |deps| == |counts|
      modifies this
      ensures U.DropDeps(U.Outcome(old(View()), earlier, false), deps, counts) == U.Outcome(View(), removed, panicked)
    {
      removed, panicked := earlier, false;
      for i := 0 to |deps|
        invariant U.DropDeps(U.Outcome(old(View()), earlier, false), deps[..i], counts[..i])
                  == U.Outcome(View(), removed, panicked)
      {
        assert deps[..i + 1][..i] == deps[..i] && counts[..i + 1][..i] == counts[..i];
        if !panicked {
          removed, panicked := DropOne(removed, deps[i], counts[i]);
        }
      }
      assert deps[..|deps|] == deps && counts[..|counts|] == counts;
    }

    method DropOne(earlier: seq<R.Module>, lib: R.Module, count: nat)
      returns (removed: seq<R.Module>, panicked: bool)
      modifies this
      ensures U.DropOne(U.Outcome(old(View()), earlier, false), lib, count) == U.Outcome(View(), removed, panicked)
    {
      removed, panicked := earlier, false;
      var flags := R.FlagsOf(View(), lib.Shortname());
      if flags.None? || NoDelete in flags.value {
        return;
      }
      if count == U.Threshold(flags.value) {
        if !R.IsCanonical(View(), lib.Shortname()) {
          panicked := true;
        } else {
          removed := removed + [lib];
          Remove(lib.Shortname());
        }
      }
    }
  }
}
