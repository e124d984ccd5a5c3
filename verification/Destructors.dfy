/** The table of exit handlers (src/core_impl/register.rs, `register_atexit` and `finalize`). */
module Destructors {
  import opened OrderedMap

  /** `dso` is the handle the handler was registered for; zero stands for no library. */
  datatype Destructor = Destructor(dso: nat, func: nat, arg: nat)

  datatype Range = Range(start: nat, end: nat)
  {
    predicate Contains(a: nat) {
      start <= a < end
    }
  }

  /** The address range of the library that contains a handle, in load order. */
  function RangeOf(libs: seq<Range>, dso: nat): (r: Option<Range>) {
    if libs == [] then None
    else if libs[0].Contains(dso) then Some(libs[0])
    else RangeOf(libs[1..], dso)
  }

  /** Zero finalises everything; otherwise a range decides if there is one, else the exact handle. */
  predicate Matches(d: Destructor, dso: nat, range: Option<Range>) {
    if dso == 0 then true
    else if range.Some? then range.value.Contains(d.dso)
    else d.dso == dso
  }

  /** The handlers that match (or, with `wanted` false, do not match), in their order in the table. */
  function Picked(table: seq<Destructor>, dso: nat, range: Option<Range>, wanted: bool): seq<Destructor> {
    if table == [] then []
    else
      var before := Picked(table[..|table| - 1], dso, range, wanted);
      var last := table[|table| - 1];
      if Matches(last, dso, range) == wanted then before + [last] else before
  }

  function Backwards(s: seq<Destructor>): seq<Destructor> {
    seq(|s|, i requires 0 <= i < |s| => s[|s| - 1 - i])
  }

  lemma PickedNext(all: seq<Destructor>, seen: nat, dso: nat, range: Option<Range>)
    requires seen < |all|
    ensures forall wanted :: Picked(all[..seen + 1], dso, range, wanted) ==
              Picked(all[..seen], dso, range, wanted) +
              if Matches(all[seen], dso, range) == wanted then [all[seen]] else []
  {
    assert all[..seen + 1][..seen] == all[..seen];
    hide Matches;
  }

  /** What is left of the table is what is left of the original one. */
  lemma RestNext(table: seq<Destructor>, i: nat, all: seq<Destructor>, seen: nat)
    requires i < |table| && seen <= |all| && table[i..] == all[seen..]
    ensures seen < |all| && table[i] == all[seen] && table[i + 1..] == all[seen + 1..]
    ensures table[..i + 1] == table[..i] + [table[i]]
    ensures var shorter := table[..i] + table[i + 1..];
            |shorter| == |table| - 1 && shorter[..i] == table[..i] && shorter[i..] == table[i + 1..]
  {
    assert table[i] == table[i..][0];
    assert table[i + 1..] == table[i..][1..];
  }

  class DestructorTable {
    var table: seq<Destructor>

    constructor ()
      ensures table == []
    {
      table := [];
    }

    method RegisterAtexit(d: Destructor)
      modifies this
      ensures table == old(table) + [d]
    {
      table := table + [d];
    }

    /** Takes the handlers concerned out of the table and returns them in the order they are run: all for a
        null handle, else those registered for an address in the range, else those registered for the
        handle. */
    method Finalize(dso: nat, known: Option<Range>, libs: seq<Range>) returns (run: seq<Destructor>)
      modifies this
      ensures var range := if known == None && dso != 0 then RangeOf(libs, dso) else known;
              && table == Picked(old(table), dso, range, false)
              && run == Backwards(Picked(old(table), dso, range, true))
      ensures var range := if known == None && dso != 0 then RangeOf(libs, dso) else known;
              && (dso == 0 ==> table == [] && run == Backwards(old(table)))
              && (dso != 0 && range.Some? ==>
                    forall d :: multiset(run)[d] == (if range.value.start <= d.dso < range.value.end then multiset(old(table))[d] else 0))
              && (dso != 0 && range.None? ==>
                    forall d :: multiset(run)[d] == (if d.dso == dso then multiset(old(table))[d] else 0))
              && multiset(table) + multiset(run) == multiset(old(table))
    {
      var range := known;
      if range == None && dso != 0 {
        range := FindRange(libs, dso);
      }
      ghost var all := table;
      var toRun: seq<Destructor> := [];
      var i := 0;
      ghost var seen := 0;
      hide Matches, RangeOf;
      while i < |table|
        invariant 0 <= i <= |table| && 0 <= seen <= |all|
        invariant table[i..] == all[seen..]
        invariant table[..i] == Picked(all[..seen], dso, range, false)
        invariant toRun == Picked(all[..seen], dso, range, true)
        decreases |table| - i
      {
        PickedNext(all, seen, dso, range);
        RestNext(table, i, all, seen);
        if Matches(table[i], dso, range) {
          toRun := toRun + [table[i]];
          table := table[..i] + table[i + 1..];
        } else {
          i := i + 1;
        }
        seen := seen + 1;
      }
      assert all[..seen] == all;
      run := RunBackwards(toRun);
      FinalizedMeaning(all, dso, range);
    }

    method RunBackwards(toRun: seq<Destructor>) returns (run: seq<Destructor>)
      ensures run == Backwards(toRun)
    {
      run := [];
      var left := |toRun|;
      while left > 0
        invariant 0 <= left <= |toRun|
        invariant run == Backwards(toRun[left..])
      {
        left := left - 1;
        assert toRun[left..] == [toRun[left]] + toRun[left + 1..];
        run := run + [toRun[left]];
      }
      assert toRun[0..] == toRun;
    }

    method FindRange(libs: seq<Range>, dso: nat) returns (range: Option<Range>)
      ensures range == RangeOf(libs, dso)
    {
      for i := 0 to |libs|
        invariant RangeOf(libs, dso) == RangeOf(libs[i..], dso)
      {
        if libs[i].Contains(dso) {
          return Some(libs[i]);
        }
      }
      return None;
    }
  }

  // ---------------------------------------------------------------- what the split means

  /** Nothing is lost or duplicated by a split. */
  lemma {:induction false} SplitConserves(table: seq<Destructor>, dso: nat, range: Option<Range>)
    ensures multiset(Picked(table, dso, range, true)) + multiset(Picked(table, dso, range, false)) == multiset(table)
  {
    if table != [] {
      SplitConserves(table[..|table| - 1], dso, range);
      assert table == table[..|table| - 1] + [table[|table| - 1]];
    }
  }

  /** The places in the table of the picked handlers. */
  ghost function Places(table: seq<Destructor>, dso: nat, range: Option<Range>, wanted: bool): (p: seq<nat>)
    ensures forall k :: 0 <= k < |p| ==> p[k] < |table|
  {
    if table == [] then []
    else
      var n := |table| - 1;
      var before := Places(table[..n], dso, range, wanted);
      if Matches(table[n], dso, range) == wanted then before + [n] else before
  }

  /** Picked handlers are exactly those that match as wanted, each at its own place, in table order. */
  lemma {:induction false} PickedInOrder(table: seq<Destructor>, dso: nat, range: Option<Range>, wanted: bool)
    ensures var p, picked := Places(table, dso, range, wanted), Picked(table, dso, range, wanted);
            && |p| == |picked|
            && (forall k :: 0 <= k < |p| ==> picked[k] == table[p[k]])
            && (forall j, k :: 0 <= j < k < |p| ==> p[j] < p[k])
            && (forall i :: 0 <= i < |table| ==> (i in p <==> Matches(table[i], dso, range) == wanted))
  {
    if table != [] {
      PickedInOrder(table[..|table| - 1], dso, range, wanted);
    }
  }

  /** Which library's range a handle gets: that of the least index whose range contains it, none exactly
      when no range does. */
  lemma {:induction false} RangeOfMeaning(libs: seq<Range>, dso: nat) returns (at: nat)
    ensures at <= |libs| && forall i :: 0 <= i < at ==> !(libs[i].start <= dso < libs[i].end)
    ensures at < |libs| ==> libs[at].start <= dso < libs[at].end && RangeOf(libs, dso) == Some(libs[at])
    ensures at == |libs| ==> RangeOf(libs, dso) == None
  {
    at := 0;
    if libs != [] && !libs[0].Contains(dso) {
      at := RangeOfMeaning(libs[1..], dso);
      at := at + 1;
    }
  }

  /** How often a handler runs and how often it stays. A null handle takes everything; with a known range
      all that was registered for an address in it, and nothing else; without one what was registered for
      that very handle. */
  lemma {:induction false} PickedMeaning(table: seq<Destructor>, dso: nat, range: Option<Range>, d: Destructor)
    ensures var takes := dso == 0 || (if range.Some? then range.value.start <= d.dso < range.value.end else d.dso == dso);
            && multiset(Picked(table, dso, range, true))[d] == (if takes then multiset(table)[d] else 0)
            && multiset(Picked(table, dso, range, false))[d] == (if takes then 0 else multiset(table)[d])
  {
    if table != [] {
      PickedMeaning(table[..|table| - 1], dso, range, d);
      assert table == table[..|table| - 1] + [table[|table| - 1]];
    }
  }

  /** Of two handlers that one finalisation runs, the one registered later is run first. */
  lemma LaterRegisteredRunsFirst(table: seq<Destructor>, dso: nat, range: Option<Range>, i: nat, j: nat)
    returns (a: nat, b: nat)
    requires i < j < |table|
    requires var run := Backwards(Picked(table, dso, range, true)); table[i] in run && table[j] in run
    ensures var run := Backwards(Picked(table, dso, range, true));
            a < b < |run| && run[a] == table[j] && run[b] == table[i]
  {
    hide Picked, Places, Matches, Backwards;
    var p := Places(table, dso, range, true);
    PlacePicked(table, dso, range, i);
    PlacePicked(table, dso, range, j);
    var k: nat :| k < |p| && p[k] == i;
    var l: nat :| l < |p| && p[l] == j;
    RunAt(table, dso, range, k);
    RunAt(table, dso, range, l);
    PlacesAscend(table, dso, range, l, k);
    a, b := |p| - 1 - l, |p| - 1 - k;
  }

  lemma RunAt(table: seq<Destructor>, dso: nat, range: Option<Range>, k: nat)
    requires k < |Places(table, dso, range, true)|
    ensures var run, p := Backwards(Picked(table, dso, range, true)), Places(table, dso, range, true);
            |run| == |p| && run[|p| - 1 - k] == table[p[k]]
  {
    hide Picked, Places, Matches;
    PickedInOrder(table, dso, range, true);
  }

  lemma PlacesAscend(table: seq<Destructor>, dso: nat, range: Option<Range>, l: nat, k: nat)
    requires var p := Places(table, dso, range, true); l < |p| && k < |p| && p[k] < p[l]
    ensures k < l
  {
    hide Picked, Places, Matches;
    PickedInOrder(table, dso, range, true);
  }

  lemma PlacePicked(table: seq<Destructor>, dso: nat, range: Option<Range>, i: nat)
    requires i < |table| && table[i] in Backwards(Picked(table, dso, range, true))
    ensures i in Places(table, dso, range, true)
  {
    hide Picked, Places, Matches;
    PickedInOrder(table, dso, range, true);
    var p, picked := Places(table, dso, range, true), Picked(table, dso, range, true);
    var k: nat :| k < |picked| && picked[k] == table[i];
    assert p[k] in p;
  }

  lemma FinalizedMeaning(table: seq<Destructor>, dso: nat, range: Option<Range>)
    ensures var rest, run := Picked(table, dso, range, false), Backwards(Picked(table, dso, range, true));
            && (dso == 0 ==> rest == [] && run == Backwards(table))
            && (dso != 0 && range.Some? ==>
                  forall d :: multiset(run)[d] == (if range.value.start <= d.dso < range.value.end then multiset(table)[d] else 0))
            && (dso != 0 && range.None? ==>
                  forall d :: multiset(run)[d] == (if d.dso == dso then multiset(table)[d] else 0))
            && multiset(rest) + multiset(run) == multiset(table)
  {
    SplitConserves(table, dso, range);
    BackwardsConserves(Picked(table, dso, range, true));
    if dso == 0 {
      FinalizeAllEmpties(table, range);
    }
    hide Picked, Backwards;
    forall d: Destructor
      ensures multiset(Picked(table, dso, range, true))[d] ==
              if dso == 0 || (if range.Some? then range.value.start <= d.dso < range.value.end else d.dso == dso)
              then multiset(table)[d] else 0
    {
      PickedMeaning(table, dso, range, d);
    }
  }

  // ---------------------------------------------------------------- runs

  datatype Event = Register(d: Destructor) | Finish(dso: nat, range: Option<Range>)

  datatype History = History(table: seq<Destructor>, run: seq<Destructor>)

  function After(events: seq<Event>): History {
    if events == [] then History([], [])
    else
      var h := After(events[..|events| - 1]);
      match events[|events| - 1]
      case Register(d) => h.(table := h.table + [d])
      case Finish(dso, range) =>
        History(Picked(h.table, dso, range, false), h.run + Backwards(Picked(h.table, dso, range, true)))
  }

  function Registered(events: seq<Event>): seq<Destructor> {
    if events == [] then []
    else
      var before := Registered(events[..|events| - 1]);
      match events[|events| - 1]
      case Register(d) => before + [d]
      case Finish(_, _) => before
  }

  lemma {:induction false} BackwardsConserves(s: seq<Destructor>)
    ensures multiset(Backwards(s)) == multiset(s)
  {
    if s != [] {
      var shorter, last := s[..|s| - 1], s[|s| - 1];
      BackwardsConserves(shorter);
      assert Backwards(s) == [last] + Backwards(shorter);
      assert s == shorter + [last];
    }
  }

  /** Over any run every registered handler is either still in the table or has been run, exactly once. */
  lemma {:induction false} EachRunExactlyOnce(events: seq<Event>)
    ensures multiset(Registered(events)) == multiset(After(events).table) + multiset(After(events).run)
  {
    if events != [] {
      var h := After(events[..|events| - 1]);
      EachRunExactlyOnce(events[..|events| - 1]);
      match events[|events| - 1]
      case Register(d) =>
      case Finish(dso, range) =>
        SplitConserves(h.table, dso, range);
        BackwardsConserves(Picked(h.table, dso, range, true));
    }
  }

  /** Finalising everything leaves nothing behind. */
  lemma {:induction false} FinalizeAllEmpties(table: seq<Destructor>, range: Option<Range>)
    ensures Picked(table, 0, range, false) == [] && Picked(table, 0, range, true) == table
  {
    if table != [] {
      FinalizeAllEmpties(table[..|table| - 1], range);
    }
  }
}
