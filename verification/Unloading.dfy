/** What dropping a library handle does to the registry: the handle's own library, then its
    dependencies, are unregistered when their measured strong counts equal the thresholds. */
module Unloading {
  import opened OrderedMap
  import opened OpenFlags
  import opened Registry
  import opened RegistryProofs
  import opened Removal

  /** `panicked`: an unregistered key was about to be removed, which aborts the drop. */
  datatype Outcome = Outcome(reg: State, removed: seq<Module>, panicked: bool)

  /** The strong count at which a library counts as unused: committed graph, dependency list and one more
      reference, plus the global scope. */
  function Threshold(flags: Flags): nat {
    if Global in flags then 4 else 3
  }

  /** True if a library with this measured count is to be unregistered. */
  predicate Unused(r: State, lib: Module, count: nat) {
    var flags := FlagsOf(r, lib.Shortname());
    flags.Some? && NoDelete !in flags.value && count == Threshold(flags.value)
  }

  function DropOne(o: Outcome, lib: Module, count: nat): Outcome {
    if o.panicked || !Unused(o.reg, lib, count) then o
    else if !IsCanonical(o.reg, lib.Shortname()) then o.(panicked := true)
    else Outcome(Remove(o.reg, lib.Shortname()), o.removed + [lib], false)
  }

  /** The dependencies in order, each with the strong count measured when its turn comes. */
  function DropDeps(o: Outcome, deps: seq<Module>, counts: seq<nat>): Outcome
    requires |deps| == |counts|
  {
    if deps == [] then o
    else DropOne(DropDeps(o, deps[..|deps| - 1], counts[..|deps| - 1]), deps[|deps| - 1], counts[|deps| - 1])
  }

  /** `scope` is the handle's dependency list, itself first; `counts[0]` is the root's strong count. */
  function DropHandle(r: State, root: Module, scope: seq<Module>, counts: seq<nat>): Outcome
    requires |scope| == |counts| > 0
  {
    var o := DropOne(Outcome(r, [], false), root, counts[0]);
    if o.removed == [] then o else DropDeps(o, scope[1..], counts[1..])
  }

  // ---------------------------------------------------------------- what a drop keeps

  lemma DropOneKeepsInvariant(o: Outcome, lib: Module, count: nat)
    requires Invariant(o.reg)
    ensures Invariant(DropOne(o, lib, count).reg)
  {
    if IsCanonical(o.reg, lib.Shortname()) {
      RemoveForgets(o.reg, lib.Shortname());
    }
  }

  lemma {:induction false} DropDepsKeepsInvariant(o: Outcome, deps: seq<Module>, counts: seq<nat>)
    requires |deps| == |counts| && Invariant(o.reg)
    ensures Invariant(DropDeps(o, deps, counts).reg)
  {
    if deps != [] {
      DropDepsKeepsInvariant(o, deps[..|deps| - 1], counts[..|deps| - 1]);
      DropOneKeepsInvariant(DropDeps(o, deps[..|deps| - 1], counts[..|deps| - 1]), deps[|deps| - 1], counts[|deps| - 1]);
    }
  }

  lemma DropHandleKeepsInvariant(r: State, root: Module, scope: seq<Module>, counts: seq<nat>)
    requires |scope| == |counts| > 0 && Invariant(r)
    ensures Invariant(DropHandle(r, root, scope, counts).reg)
  {
    hide Invariant;
    DropOneKeepsInvariant(Outcome(r, [], false), root, counts[0]);
    DropDepsKeepsInvariant(DropOne(Outcome(r, [], false), root, counts[0]), scope[1..], counts[1..]);
  }

  /** What survives from `r` to `r'` is unchanged, and everything flagged RTLD_NODELETE survives. */
  ghost predicate OnlyDeletes(r: State, r': State) {
    && r'.committed.entries.Keys <= r.committed.entries.Keys
    && (forall k :: k in r'.committed.entries ==> r'.committed.entries[k] == r.committed.entries[k])
    && (forall k :: k in r.committed.entries && NoDelete in r.committed.entries[k].meta.flags ==>
                    k in r'.committed.entries)
  }

  lemma OnlyDeletesCompose(a: State, b: State, c: State)
    requires OnlyDeletes(a, b) && OnlyDeletes(b, c)
    ensures OnlyDeletes(a, c)
  {
  }

  lemma DropOneOnlyDeletes(o: Outcome, lib: Module, count: nat)
    ensures OnlyDeletes(o.reg, DropOne(o, lib, count).reg)
  {
  }

  lemma {:induction false} DropDepsOnlyDeletes(o: Outcome, deps: seq<Module>, counts: seq<nat>)
    requires |deps| == |counts|
    ensures OnlyDeletes(o.reg, DropDeps(o, deps, counts).reg)
  {
    if deps != [] {
      var mid := DropDeps(o, deps[..|deps| - 1], counts[..|deps| - 1]);
      DropDepsOnlyDeletes(o, deps[..|deps| - 1], counts[..|deps| - 1]);
      DropOneOnlyDeletes(mid, deps[|deps| - 1], counts[|deps| - 1]);
      OnlyDeletesCompose(o.reg, mid.reg, DropDeps(o, deps, counts).reg);
    }
  }

  /** A drop never touches a library flagged RTLD_NODELETE, whatever the counts. */
  lemma DropHandleOnlyDeletes(r: State, root: Module, scope: seq<Module>, counts: seq<nat>)
    requires |scope| == |counts| > 0
    ensures OnlyDeletes(r, DropHandle(r, root, scope, counts).reg)
  {
    var o := DropOne(Outcome(r, [], false), root, counts[0]);
    DropOneOnlyDeletes(Outcome(r, [], false), root, counts[0]);
    DropDepsOnlyDeletes(o, scope[1..], counts[1..]);
    OnlyDeletesCompose(r, o.reg, DropDeps(o, scope[1..], counts[1..]).reg);
  }
}
