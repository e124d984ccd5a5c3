/** One `dlopen` call as an object: its own methods change the manager and the list of names it must give
    back. Each method that takes a system `s` performs the step of OpenProtocol.dfy that its contract names:
    where the object stands for open `c` of `s` before, it stands for it in the next system after. */
module OpenContext {
  import opened OrderedMap
  import opened OpenFlags
  import R = Registry
  import S = RelocationScope
  import W = Removal
  import P = OpenProtocol
  import opened Manager

  class OpenContext {
    const manager: Manager
    const flags: Flags
    var addedNames: set<string>
    var committed: bool
    var locked: bool

    /** The object is open `c` of the system. */
    ghost predicate StandsFor(s: P.System, c: nat)
      reads this, manager
    {
      && manager.View() == s.reg
      && c in s.ctxs && s.ctxs[c].added == addedNames && s.ctxs[c].flags == flags
      && (locked <==> s.holder == Some(c))
      && !committed
    }

    constructor (manager: Manager, flags: Flags, ghost s: P.System, ghost c: nat)
      ensures this.manager == manager && this.flags == flags
      ensures addedNames == {} && !committed && locked
      ensures manager.View() == s.reg && P.Enabled(s, P.Open(c, flags)) ==> StandsFor(P.Next(s, P.Open(c, flags)), c)
    {
      this.manager, this.flags := manager, flags;
      addedNames, committed, locked := {}, false, true;
    }

    /** A name is reserved once per open; the names reserved are remembered for the rollback. */
    method ReservePending(shortname: string, fullName: string, identity: Option<R.FileIdentity>,
                          ghost s: P.System, ghost c: nat)
      requires locked
      modifies manager, this`addedNames
      ensures addedNames == old(addedNames) + {shortname}
      ensures manager.View() ==
              if shortname in old(addedNames) then old(manager.View())
              else R.ReservePending(old(manager.View()), shortname, fullName, identity, flags)
      ensures old(StandsFor(s, c)) && shortname !in old(addedNames) ==>
                var step := P.Reserve(c, shortname, fullName, identity);
                P.Enabled(s, step) && StandsFor(P.Next(s, step), c)
    {
      if shortname in addedNames {
        return;
      }
      manager.ReservePending(shortname, fullName, identity, flags);
      addedNames := addedNames + {shortname};
    }

    /** The lock is given up while another open loads what this one looks for ... */
    method StartWaiting(ghost s: P.System, ghost c: nat, ghost sought: P.Sought)
      requires locked
      modifies this`locked
      ensures !locked && manager.View() == old(manager.View())
      ensures old(StandsFor(s, c)) && P.MustWait(s, c, sought) ==>
                P.Enabled(s, P.Wait(c, sought)) && StandsFor(P.Next(s, P.Wait(c, sought)), c)
    {
      locked := false;
    }

    /** ... and taken again to look once more. The registry may be any by now. */
    method StopWaiting(ghost s: P.System, ghost c: nat)
      requires !locked
      modifies this`locked
      ensures locked && manager.View() == old(manager.View())
      ensures old(StandsFor(s, c)) && P.Enabled(s, P.Wake(c)) ==> StandsFor(P.Next(s, P.Wake(c)), c)
    {
      locked := true;
    }

    /** The scope is computed under the lock, which is then given up for the relocation. */
    method PrepareRelocation(group: seq<R.Module>, ghost s: P.System, ghost c: nat) returns (scope: seq<R.Module>)
      requires locked && manager.View().global.Valid()
      modifies this`locked
      ensures scope == S.Scope(manager.View(), group, flags) && !locked
      ensures old(StandsFor(s, c)) ==> P.Enabled(s, P.Relocate(c)) && StandsFor(P.Next(s, P.Relocate(c)), c)
    {
      scope := manager.RelocationScope(group, flags);
      locked := false;
    }

    /** The load is merged under the lock. */
    method CompleteRelocation(linked: seq<R.Linked>, ghost s: P.System, ghost c: nat, ghost grant: P.Grant)
      modifies manager, this`locked
      ensures manager.View() == R.Merge(old(manager.View()), linked, flags) && locked
      ensures old(StandsFor(s, c)) && P.Enabled(s, P.Commit(c, linked, grant)) ==>
                manager.View() == P.Next(s, P.Commit(c, linked, grant)).reg
    {
      locked := true;
      manager.MergeLinkContext(linked, flags);
    }

    method Finish()
      modifies this`committed
      ensures committed
    {
      committed := true;
    }

    /** The library found is promoted, and is what the returned handle is for. */
    method FinishExisting(canonical: string, ghost s: P.System, ghost c: nat, ghost grant: P.Grant)
      returns (root: R.Module)
      requires locked && R.IsCommitted(manager.View(), canonical)
      modifies manager, this`committed
      ensures manager.View() == R.Promote(old(manager.View()), canonical, flags) && committed
      ensures R.IsCommitted(manager.View(), canonical) && root == manager.View().committed.entries[canonical].mod
      ensures old(StandsFor(s, c)) && P.Enabled(s, P.FinishExisting(c, canonical, grant)) ==>
                && manager.View() == P.Next(s, P.FinishExisting(c, canonical, grant)).reg
                && root == grant.scope[0]
    {
      ghost var before := manager.View();
      manager.Promote(canonical, flags);
      root := manager.committed.entries[canonical].mod;
      committed := true;
      assert root == before.committed.entries[canonical].mod;
      if P.Enabled(s, P.FinishExisting(c, canonical, grant)) {
        GrantedRoot(s, c, canonical, grant);
      }
    }

    static lemma GrantedRoot(s: P.System, c: nat, canonical: string, grant: P.Grant)
      requires P.Enabled(s, P.FinishExisting(c, canonical, grant))
      ensures R.IsCommitted(s.reg, canonical) && s.reg.committed.entries[canonical].mod == grant.scope[0]
    {
      assert grant.scope[0] in grant.scope;
      assert P.Registered(s.reg, grant.scope[0]);
    }

    /** Removes the names one by one, in any order; the outcome is the same. */
    method RemoveAddedLibraries()
      requires W.AllCanonical(manager.View(), addedNames)
      modifies manager
      ensures manager.View() == W.Withdrawn(old(manager.View()), addedNames)
    {
      ghost var before := manager.View();
      ghost var gone: set<string> := {};
      var rest := addedNames;
      W.WithdrawnNone(before);
      hide W.Withdrawn, R.Remove, R.IsCanonical;
      while rest != {}
        invariant gone !! rest && gone + rest == addedNames
        invariant manager.View() == W.Withdrawn(before, gone)
        decreases rest
      {
        var name :| name in rest;
        NextName(gone, rest, name);
        assert R.IsCanonical(before, name);
        W.WithdrawnStep(before, gone, name);
        manager.Remove(name);
        rest, gone := rest - {name}, gone + {name};
      }
      assert gone == addedNames;
    }

    static lemma NextName(gone: set<string>, rest: set<string>, name: string)
      requires gone !! rest && name in rest
      ensures name !in gone && gone + {name} !! rest - {name}
      ensures (gone + {name}) + (rest - {name}) == gone + rest
    {
    }

    /** Dropping the context: what was not committed is given back. */
    method Close(ghost s: P.System, ghost c: nat)
      requires !committed ==> W.AllCanonical(manager.View(), addedNames)
      modifies manager, this`locked
      ensures manager.View() ==
              if committed then old(manager.View()) else W.Withdrawn(old(manager.View()), addedNames)
      ensures !locked
      ensures old(StandsFor(s, c)) && P.Enabled(s, P.Fail(c)) ==> manager.View() == P.Next(s, P.Fail(c)).reg
    {
      if !committed {
        locked := true;
        RemoveAddedLibraries();
      }
      locked := false;
    }
  }
}
