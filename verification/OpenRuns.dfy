/** Whole runs of opens, promotions, rollbacks and drops in any interleaving. */
module OpenRuns {
  import opened OrderedMap
  import opened OpenFlags
  import opened Registry
  import opened RegistryProofs
  import opened Removal
  import opened Unloading
  import opened OpenProtocol
  import opened DropSafety
  import opened ProtocolSafety

  ghost predicate StepAt(states: seq<System>, steps: seq<Step>, i: nat)
    requires i < |steps| && |states| == |steps| + 1
  {
    Enabled(states[i], steps[i]) && states[i + 1] == Next(states[i], steps[i])
  }

  ghost predicate IsRun(states: seq<System>, steps: seq<Step>) {
    && |states| == |steps| + 1
    && states[0] == Start()
    && (forall i :: 0 <= i < |steps| ==> StepAt(states, steps, i))
  }

  /** Every reservation of the run is made under a name that is free at that moment. */
  ghost predicate RunGuarded(states: seq<System>, steps: seq<Step>)
    requires |states| == |steps| + 1
  {
    forall i :: 0 <= i < |steps| ==> Guarded(states[i], steps[i])
  }

  lemma {:induction false} GuardedPrefixIsSafe(states: seq<System>, steps: seq<Step>, n: nat)
    requires IsRun(states, steps) && n < |states|
    requires forall i :: 0 <= i < n ==> Guarded(states[i], steps[i])
    ensures Safe(states[n])
  {
    hide Safe, Enabled, Guarded;
    if n == 0 {
      StartIsSafe();
    } else {
      GuardedPrefixIsSafe(states, steps, n - 1);
      assert StepAt(states, steps, n - 1);
      StepSafeIffGuarded(states[n - 1], steps[n - 1]);
    }
  }

  /** All states of a run are safe - in particular `pending` is at all times the disjoint union of the
      reservations of the unfinished opens, and no key is both pending and committed - exactly when every
      reservation was made under a free name. */
  lemma RunSafeIffGuarded(states: seq<System>, steps: seq<Step>)
    requires IsRun(states, steps)
    ensures (forall i :: 0 <= i < |states| ==> Safe(states[i])) <==> RunGuarded(states, steps)
  {
    hide Safe, Enabled, Guarded;
    if RunGuarded(states, steps) {
      forall i | 0 <= i < |states|
        ensures Safe(states[i])
      {
        GuardedPrefixIsSafe(states, steps, i);
      }
    }
    if forall i :: 0 <= i < |states| ==> Safe(states[i]) {
      forall i | 0 <= i < |steps|
        ensures Guarded(states[i], steps[i])
      {
        assert StepAt(states, steps, i);
        StepSafeIffGuarded(states[i], steps[i]);
      }
    }
  }

  /** Runs in which every reservation follows its own name check under an unbroken lock are safe. */
  lemma {:induction false} FreshlyCheckedRunsAreGuarded(states: seq<System>, steps: seq<Step>, n: nat)
    requires IsRun(states, steps) && n <= |steps|
    requires forall i :: 0 <= i < |steps| && steps[i].Reserve? ==>
               steps[i].c in states[i].ctxs && states[i].ctxs[steps[i].c].checked == Some(steps[i].name)
    ensures forall i :: 0 <= i < n ==> Guarded(states[i], steps[i])
  {
    if n > 0 {
      FreshlyCheckedRunsAreGuarded(states, steps, n - 1);
      GuardedPrefixIsSafe(states, steps, n - 1);
      assert StepAt(states, steps, n - 1);
      hide Safe, Enabled, Guarded;
      assert Guarded(states[n - 1], steps[n - 1]) by {
        if steps[n - 1].Reserve? {
          FreshCheckGuards(states[n - 1], steps[n - 1]);
        } else {
          NotAReservation(states[n - 1], steps[n - 1]);
        }
      }
    }
  }

  lemma NotAReservation(s: System, step: Step)
    requires !step.Reserve?
    ensures Guarded(s, step)
  {
  }

  /** An open that fails gives back exactly the names it reserved: the committed graph with its flags, the
      global scope, the handles and every other open are as before, and nothing leads to those names. */
  lemma FailGivesBackItsOwn(s: System, c: nat)
    requires Safe(s) && CanLock(s, c)
    ensures Enabled(s, Fail(c))
    ensures var s' := Next(s, Fail(c));
            var mine := s.ctxs[c].added;
            && s'.reg.committed == s.reg.committed && s'.reg.global == s.reg.global
            && s'.reg.pending == RemoveAll(s.reg.pending, mine)
            && s'.reg.adds == s.reg.adds && s'.reg.subs == (s.reg.subs + |mine|) % U64
            && Forgotten(s.reg, s'.reg, mine)
            && s'.handles == s.handles
            && s'.ctxs == s.ctxs - {c}
  {
    hide *;
    assert Invariant(s.reg) && Reservations(s) && c in s.ctxs by { PartsOf(s, c); }
    FailAlwaysEnabled(s, c);
    FailIs(s, c);
    OwnNamesArePending(s, c);
    RollbackIsClean(s.reg, s.ctxs[c].added);
  }

  lemma PartsOf(s: System, c: nat)
    requires Safe(s) && CanLock(s, c)
    ensures Invariant(s.reg) && Reservations(s) && c in s.ctxs
  {
  }

  lemma FailIs(s: System, c: nat)
    requires Enabled(s, Fail(c))
    ensures c in s.ctxs && AllCanonical(s.reg, s.ctxs[c].added)
    ensures var s' := Next(s, Fail(c));
            s'.reg == Withdrawn(s.reg, s.ctxs[c].added) && s'.handles == s.handles && s'.ctxs == s.ctxs - {c}
  {
  }

  lemma OwnNamesArePending(s: System, c: nat)
    requires Reservations(s) && c in s.ctxs
    ensures s.ctxs[c].added <= s.reg.pending.entries.Keys
  {
  }

  // ---------------------------------------------------------------- RTLD_NODELETE

  ghost predicate Pinned(s: System, key: string, m: Module) {
    && IsCommitted(s.reg, key)
    && s.reg.committed.entries[key].mod == m
    && NoDelete in s.reg.committed.entries[key].meta.flags
  }

  lemma StepKeepsPinned(s: System, step: Step, key: string, m: Module)
    requires Safe(s) && Enabled(s, step) && Pinned(s, key, m)
    ensures Pinned(Next(s, step), key, m)
  {
    hide Invariant, Reservations, ChecksFresh, HandlesValid, GrantValid;
    match step
    case Alias(_, canonical, alias) => AliasFrame(s.reg, canonical, alias);
    case Reserve(c, name, fullName, identity) => ReserveFrame(s.reg, name, fullName, identity, s.ctxs[c].flags);
    case Commit(c, linked, _) => MergeFrame(s.reg, linked, s.ctxs[c].flags);
    case FinishExisting(c, k, _) => PromoteFrame(s.reg, k, s.ctxs[c].flags);
    case Fail(c) => FailGrows(s, c);
    case Drop(h, counts) => DropHandleOnlyDeletes(s.reg, s.handles[h].root, ScopeOf(s, h), counts);
    case RegisterHost(lib, flags) => RegisterFrame(s.reg, lib, flags);
    case RebuildGraph => RebuildFrame(s.reg);
    case _ =>
  }

  /** Once committed with RTLD_NODELETE, a library stays, as the same module and with the flag, in every
      later state of every guarded run. */
  lemma {:induction false} NoDeleteIsForever(states: seq<System>, steps: seq<Step>, i: nat, j: nat, key: string, m: Module)
    requires IsRun(states, steps) && RunGuarded(states, steps) && i <= j < |states|
    requires Pinned(states[i], key, m)
    ensures Pinned(states[j], key, m)
  {
    if i < j {
      NoDeleteIsForever(states, steps, i, j - 1, key, m);
      GuardedPrefixIsSafe(states, steps, j - 1);
      assert StepAt(states, steps, j - 1);
      hide Safe, Enabled, Pinned, Guarded;
      StepKeepsPinned(states[j - 1], steps[j - 1], key, m);
    }
  }
}
