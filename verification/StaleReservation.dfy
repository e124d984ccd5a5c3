/** What goes wrong without the guard: a name check that is separated from its reservation by a wait for
    another open (the file-identity lookup) can be stale, and the second reservation then lets one open's
    rollback unload the library that another open committed. */
module StaleReservation {
  import opened OrderedMap
  import opened OpenFlags
  import opened Registry
  import opened RegistryProofs
  import opened Removal
  import opened OpenProtocol
  import opened OpenRuns

  const FLAGS: Flags := {NoDelete}

  /** Two files called x, of which open 1 wants the one with identity `wanted` and open 2 loads the one with
      identity `other` as `m`, and a second name y of the first file, by which open 3 loads it. */
  datatype Scene = Scene(m: Module, y: string, wanted: FileIdentity, other: FileIdentity)
  {
    function X(): string {
      m.Shortname()
    }

    /** The paths by which opens 1 and 3 reach the first file. */
    function PathOfX(): string {
      "/a/" + X()
    }

    function PathOfY(): string {
      "/c/" + y
    }

    /** No compatibility aliases are involved, and the two files differ. */
    predicate Valid() {
      && X() != y && CompatAliases(X()) == [] && CompatAliases(y) == []
      && m.identity == Some(other) && other != wanted
    }
  }

  // ---------------------------------------------------------------- the registry along the run

  function PendingMap(names: seq<string>): IndexMap<Meta> {
    IndexMap(names, map n | n in names :: Meta(FLAGS, []))
  }

  function OnlyPending(names: seq<string>, identities: map<FileIdentity, string>, adds: nat, subs: nat): State {
    State(PendingMap(names), Empty(), map[], identities, Empty(), adds, subs)
  }

  /** Open 3 has reserved y. */
  function WithY(c: Scene): State {
    OnlyPending([c.y], map[c.wanted := c.y], 1, 0)
  }

  /** Open 2 has reserved x besides. */
  function WithBoth(c: Scene): State {
    OnlyPending([c.y, c.X()], map[c.wanted := c.y, c.other := c.X()], 2, 0)
  }

  /** Open 3 has failed. */
  function WithX(c: Scene): State {
    OnlyPending([c.X()], map[c.other := c.X()], 2, 1)
  }

  /** Open 1 has reserved x a second time. */
  function Twice(c: Scene): State {
    OnlyPending([c.X()], map[c.other := c.X(), c.wanted := c.X()], 3, 1)
  }

  /** Open 2 has committed. */
  function Loaded(c: Scene): State {
    Twice(c).(pending := Empty(),
              committed := IndexMap([c.X()], map[c.X() := Entry(c.m, [], Meta(FLAGS, []))]))
  }

  lemma ReserveOne(r: State, name: string, fullName: string, identity: FileIdentity)
    requires CompatAliases(name) == []
    ensures ReservePending(r, name, fullName, Some(identity), FLAGS) ==
            r.(pending := Insert(r.pending, name, Meta(FLAGS, [])), adds := Bump(r.adds),
               identities := r.identities[identity := name])
  {
    assert NormalizedFlags(fullName, FLAGS) == FLAGS;
  }

  lemma ReservesY(c: Scene)
    requires c.Valid()
    ensures ReservePending(Initial(), c.y, c.PathOfY(), Some(c.wanted), FLAGS) == WithY(c)
  {
    ReserveOne(Initial(), c.y, c.PathOfY(), c.wanted);
    hide ReservePending, CompatAliases, NormalizedFlags;
    assert PendingMap([c.y]) == Insert(Initial().pending, c.y, Meta(FLAGS, []));
  }

  lemma ReservesX(c: Scene)
    requires c.Valid()
    ensures ReservePending(WithY(c), c.X(), c.m.name, Some(c.other), FLAGS) == WithBoth(c)
  {
    ReserveOne(WithY(c), c.X(), c.m.name, c.other);
    hide ReservePending, CompatAliases, NormalizedFlags;
    assert PendingMap([c.y, c.X()]) == Insert(PendingMap([c.y]), c.X(), Meta(FLAGS, []));
  }

  lemma ReservesXAgain(c: Scene)
    requires c.Valid()
    ensures ReservePending(WithX(c), c.X(), c.PathOfX(), Some(c.wanted), FLAGS) == Twice(c)
  {
    ReserveOne(WithX(c), c.X(), c.PathOfX(), c.wanted);
    hide ReservePending, CompatAliases, NormalizedFlags;
    assert PendingMap([c.X()]) == Insert(PendingMap([c.X()]), c.X(), Meta(FLAGS, []));
  }

  lemma WithdrawY(c: Scene)
    requires c.Valid()
    ensures Withdrawn(WithBoth(c), {c.y}) == WithX(c)
  {
    hide CompatAliases, ShortnameFromName;
    var r := WithBoth(c);
    WithoutAbsent([c.X()], {c.y});
    assert [c.y, c.X()][1..] == [c.X()];
    assert RemoveAll(r.pending, {c.y}) == PendingMap([c.X()]) by {
      assert r.pending.entries - {c.y} == PendingMap([c.X()]).entries;
    }
    RemoveAbsent(r.global, {c.y});
    var none: set<string> := {};
    assert {c.y} * r.pending.entries.Keys == {c.y} && {c.y} - {c.y} == none;
    RemoveNone(r.committed);
    assert r.aliases - AliasesOf(r, {c.y}) == map[];
    assert WithoutIdentities(r, {c.y}) == WithX(c).identities;
    assert BumpBy(0, 1) == 1;
  }

  lemma CommitX(c: Scene)
    requires c.Valid()
    ensures Merge(Twice(c), [Linked(c.X(), Some(c.m), [])], FLAGS) == Loaded(c)
  {
    var r, l := Twice(c), Linked(c.X(), Some(c.m), []);
    assert [l][..0] == [];
    assert ShiftRemove(r.pending, c.X()) == Empty() by {
      WithoutEverything([c.X()], {c.X()});
      assert r.pending.entries - {c.X()} == map[];
    }
    assert r.identities[c.other := c.X()] == r.identities;
    assert Merge(r, [l], FLAGS) == MergeOne(r, l, FLAGS);
  }

  lemma RollbackHitsCommitted(c: Scene)
    ensures !IsCommitted(Withdrawn(Loaded(c), {c.X()}), c.X())
  {
  }

  // ---------------------------------------------------------------- the run

  function StaleStep(c: Scene, i: nat): Step
    requires i < 17
  {
    var x := c.X();
    match i
    // Open 3 reserves y and goes on to relocate it.
    case 0 => Open(3, FLAGS)
    case 1 => Check(3, c.y)
    case 2 => Reserve(3, c.y, c.PathOfY(), Some(c.wanted))
    case 3 => Relocate(3)
    // Open 1 finds x free, but its file is being loaded as y: it waits.
    case 4 => Open(1, FLAGS)
    case 5 => Check(1, x)
    case 6 => Wait(1, ByIdentity(c.wanted))
    // Open 2 reserves x for another file and goes on to relocate it.
    case 7 => Open(2, FLAGS)
    case 8 => Check(2, x)
    case 9 => Reserve(2, x, c.m.name, Some(c.other))
    case 10 => Relocate(2)
    // Open 3 fails; open 1 finds its file free again and goes on with its stale name check.
    case 11 => Fail(3)
    case 12 => Wake(1)
    case 13 => Reserve(1, x, c.PathOfX(), Some(c.wanted))
    case 14 => Relocate(1)
    // Open 2 succeeds, open 1 fails.
    case 15 => Commit(2, [Linked(x, Some(c.m), [])], Grant(7, 0, [c.m]))
    case _ => Fail(1)
  }

  function At(added: set<string>, phase: Phase): Context {
    Context(added, FLAGS, None, phase)
  }

  function Now(reg: State, ctxs: map<nat, Context>, holder: Option<nat>): System {
    System(reg, ctxs, holder, map[], map[])
  }

  ghost function StaleState(c: Scene, i: nat): System
    requires i <= 17
  {
    var x, y := c.X(), c.y;
    var three, two := At({y}, Relocating), At({x}, Relocating);
    match i
    case 0 => Start()
    case 1 => Now(Initial(), map[3 := At({}, Searching)], Some(3))
    case 2 => Now(Initial(), map[3 := At({}, Searching).(checked := Some(y))], Some(3))
    case 3 => Now(WithY(c), map[3 := At({y}, Searching)], Some(3))
    case 4 => Now(WithY(c), map[3 := three], None)
    case 5 => Now(WithY(c), map[3 := three, 1 := At({}, Searching)], Some(1))
    case 6 => Now(WithY(c), map[3 := three, 1 := At({}, Searching).(checked := Some(x))], Some(1))
    case 7 => Now(WithY(c), map[3 := three, 1 := At({}, Waiting)], None)
    case 8 => Now(WithY(c), map[3 := three, 1 := At({}, Waiting), 2 := At({}, Searching)], Some(2))
    case 9 => Now(WithY(c), map[3 := three, 1 := At({}, Waiting), 2 := At({}, Searching).(checked := Some(x))], Some(2))
    case 10 => Now(WithBoth(c), map[3 := three, 1 := At({}, Waiting), 2 := At({x}, Searching)], Some(2))
    case 11 => Now(WithBoth(c), map[3 := three, 1 := At({}, Waiting), 2 := two], None)
    case 12 => Now(WithX(c), map[1 := At({}, Waiting), 2 := two], None)
    case 13 => Now(WithX(c), map[1 := At({}, Searching), 2 := two], Some(1))
    case 14 => Now(Twice(c), map[1 := At({x}, Searching), 2 := two], Some(1))
    case 15 => Now(Twice(c), map[1 := At({x}, Relocating), 2 := two], None)
    case 16 => System(Loaded(c), map[1 := At({x}, Relocating)], None, map[7 := Handle(c.m, 0)], map[0 := [c.m]])
    case _ => System(Withdrawn(Loaded(c), {x}), map[], None, map[7 := Handle(c.m, 0)], map[0 := [c.m]])
  }

  function StaleSteps(c: Scene): seq<Step> {
    seq(17, i requires 0 <= i < 17 => StaleStep(c, i))
  }

  ghost function StaleStates(c: Scene): seq<System> {
    seq(18, i requires 0 <= i <= 17 => StaleState(c, i))
  }

  ghost predicate Follows(c: Scene, i: nat)
    requires i < 17
  {
    Enabled(StaleState(c, i), StaleStep(c, i)) && StaleState(c, i + 1) == Next(StaleState(c, i), StaleStep(c, i))
  }

  ghost predicate SameContexts(c: Scene, i: nat)
    requires i < 17 && Enabled(StaleState(c, i), StaleStep(c, i))
  {
    StaleState(c, i + 1).ctxs == Next(StaleState(c, i), StaleStep(c, i)).ctxs
  }

  lemma YIsRegistered(c: Scene)
    ensures AllCanonical(WithBoth(c), {c.y})
  {
    hide Scene.Valid, Scene.X;
  }

  lemma XIsRegistered(c: Scene)
    ensures AllCanonical(Loaded(c), {c.X()})
  {
    hide Scene.Valid, Scene.X;
  }

  // Single steps, spelled out.

  lemma Reserving(s: System, c: nat, name: string, fullName: string, identity: Option<FileIdentity>)
    requires HoldsLock(s, c) && name !in s.ctxs[c].added
    ensures var step := Reserve(c, name, fullName, identity);
            && Enabled(s, step)
            && Next(s, step) == s.(reg := ReservePending(s.reg, name, fullName, identity, s.ctxs[c].flags),
                                   ctxs := s.ctxs[c := s.ctxs[c].(added := s.ctxs[c].added + {name}, checked := None)])
  {
    hide ReservePending;
  }

  lemma Failing(c: Scene, i: nat, o: nat)
    requires i < 17 && StaleStep(c, i) == Fail(o)
    requires CanLock(StaleState(c, i), o) && AllCanonical(StaleState(c, i).reg, StaleState(c, i).ctxs[o].added)
    requires var s := StaleState(c, i);
             StaleState(c, i + 1) ==
             System(Withdrawn(s.reg, s.ctxs[o].added), s.ctxs - {o}, None, s.handles, s.scopes)
    ensures Follows(c, i)
  {
    hide Withdrawn, StaleState, StaleStep, CanLock, AllCanonical;
  }

  lemma Committing(s: System, c: nat, linked: seq<Linked>, grant: Grant)
    requires CanLock(s, c) && LinkerContract(s, c, linked)
    requires GrantValid(s, Merge(s.reg, linked, s.ctxs[c].flags), grant)
    ensures |grant.scope| > 0 && Enabled(s, Commit(c, linked, grant))
    ensures Next(s, Commit(c, linked, grant)) ==
            System(Merge(s.reg, linked, s.ctxs[c].flags), s.ctxs - {c}, None,
                   s.handles[grant.id := Handle(grant.scope[0], grant.slot)], s.scopes[grant.slot := grant.scope])
  {
    hide Merge, LinkerContract;
  }

  lemma Contexts3(c: Scene)
    ensures StaleState(c, 3).ctxs == StaleState(c, 2).ctxs[3 := At({c.y}, Searching)]
  {
    hide WithY, WithBoth, WithX, Twice, Loaded, Withdrawn, Scene.Valid, Scene.X;
  }

  lemma Contexts10(c: Scene)
    ensures StaleState(c, 10).ctxs == StaleState(c, 9).ctxs[2 := At({c.X()}, Searching)]
  {
    hide WithY, WithBoth, WithX, Twice, Loaded, Withdrawn, Scene.Valid, Scene.X;
  }

  lemma Contexts12(c: Scene)
    ensures StaleState(c, 12).ctxs == StaleState(c, 11).ctxs - {3}
  {
    hide WithY, WithBoth, WithX, Twice, Loaded, Withdrawn, Scene.Valid, Scene.X;
  }

  lemma Contexts14(c: Scene)
    ensures StaleState(c, 14).ctxs == StaleState(c, 13).ctxs[1 := At({c.X()}, Searching)]
  {
    hide WithY, WithBoth, WithX, Twice, Loaded, Withdrawn, Scene.Valid, Scene.X;
  }

  lemma Contexts16(c: Scene)
    ensures StaleState(c, 16).ctxs == StaleState(c, 15).ctxs - {2}
  {
    hide WithY, WithBoth, WithX, Twice, Loaded, Withdrawn, Scene.Valid, Scene.X;
  }

  lemma Contexts17(c: Scene)
    ensures StaleState(c, 17).ctxs == StaleState(c, 16).ctxs - {1}
  {
    hide WithY, WithBoth, WithX, Twice, Loaded, Withdrawn, Scene.Valid, Scene.X;
  }

  lemma ThirdOpens(c: Scene)
    requires c.Valid()
    ensures Follows(c, 0) && Follows(c, 1)
  {
    hide CompatAliases, ShortnameFromName;
  }

  lemma ThirdReserves(c: Scene)
    requires c.Valid()
    ensures Follows(c, 2)
  {
    ReservesY(c);
    hide Enabled, Next, ReservePending, WithY, WithBoth, WithX, Twice, Scene.Valid, Scene.X;
    hide CompatAliases, ShortnameFromName, NormalizedFlags, Bump, Promotable;
    Reserving(StaleState(c, 2), 3, c.y, c.PathOfY(), Some(c.wanted));
    Contexts3(c);
    OneName(c.y);
  }

  lemma OneName(name: string)
    ensures var none: set<string> := {}; none + {name} == {name}
  {
  }

  lemma ThirdRelocates(c: Scene)
    ensures Follows(c, 3)
  {
    hide WithY, CompatAliases, ShortnameFromName;
    assert SameContexts(c, 3);
  }

  lemma FirstOpens(c: Scene)
    ensures Follows(c, 4)
  {
    hide WithY, CompatAliases, ShortnameFromName;
    assert SameContexts(c, 4);
  }

  lemma FirstChecks(c: Scene)
    requires c.Valid()
    ensures Follows(c, 5)
  {
    hide CompatAliases, ShortnameFromName;
    assert SameContexts(c, 5);
  }

  /** The file open 1 wants is reserved under its other name. */
  lemma FirstWaits(c: Scene)
    requires c.Valid()
    ensures Follows(c, 6)
  {
    hide CompatAliases, ShortnameFromName;
    assert SameContexts(c, 6);
  }

  lemma SecondOpens(c: Scene)
    ensures Follows(c, 7)
  {
    hide WithY, CompatAliases, ShortnameFromName;
    assert SameContexts(c, 7);
  }

  lemma SecondChecks(c: Scene)
    requires c.Valid()
    ensures Follows(c, 8)
  {
    hide CompatAliases, ShortnameFromName;
    assert SameContexts(c, 8);
  }

  lemma SecondIsFree(c: Scene)
    ensures HoldsLock(StaleState(c, 9), 2) && StaleState(c, 9).ctxs[2] == At({}, Searching).(checked := Some(c.X()))
    ensures StaleStep(c, 9) == Reserve(2, c.X(), c.m.name, Some(c.other))
  {
    hide WithY, WithBoth, Scene.Valid, Scene.X;
  }

  lemma SecondReserves(c: Scene)
    requires c.Valid()
    ensures Follows(c, 9)
  {
    ReservesX(c);
    SecondIsFree(c);
    Contexts10(c);
    OneName(c.X());
    hide Enabled, Next, ReservePending, WithY, WithBoth, WithX, Twice, Scene.Valid, Scene.X, StaleStep, HoldsLock;
    Reserving(StaleState(c, 9), 2, c.X(), c.m.name, Some(c.other));
  }

  lemma SecondRelocates(c: Scene)
    ensures Follows(c, 10)
  {
    hide WithBoth, CompatAliases, ShortnameFromName;
    assert SameContexts(c, 10);
  }

  lemma ThirdMayFail(c: Scene)
    requires c.Valid()
    ensures StaleStep(c, 11) == Fail(3) && CanLock(StaleState(c, 11), 3)
    ensures AllCanonical(StaleState(c, 11).reg, StaleState(c, 11).ctxs[3].added)
  {
    YIsRegistered(c);
    hide WithBoth, Scene.X, Scene.Valid, AllCanonical;
  }

  lemma ThirdOwns(c: Scene)
    ensures 3 in StaleState(c, 11).ctxs && StaleState(c, 11).ctxs[3].added == {c.y}
  {
    hide WithBoth, Scene.X;
  }

  lemma ThirdAround(c: Scene)
    ensures StaleState(c, 11).reg == WithBoth(c) && StaleState(c, 12).reg == WithX(c)
    ensures StaleState(c, 12).holder == None
    ensures StaleState(c, 12).handles == StaleState(c, 11).handles
    ensures StaleState(c, 12).scopes == StaleState(c, 11).scopes
  {
    hide WithBoth, WithX, Scene.X;
  }

  lemma ThirdFailsTo(c: Scene)
    requires c.Valid()
    ensures var s := StaleState(c, 11);
            3 in s.ctxs && StaleState(c, 12) ==
            System(Withdrawn(s.reg, s.ctxs[3].added), s.ctxs - {3}, None, s.handles, s.scopes)
  {
    WithdrawY(c);
    ThirdOwns(c);
    ThirdAround(c);
    Contexts12(c);
    hide StaleState, Withdrawn, WithBoth, WithX, Scene.X, Scene.Valid;
  }

  lemma ThirdFails(c: Scene)
    requires c.Valid()
    ensures Follows(c, 11)
  {
    hide *;
    ThirdMayFail(c);
    ThirdFailsTo(c);
    Failing(c, 11, 3);
  }

  lemma FirstWakes(c: Scene)
    ensures Follows(c, 12)
  {
    hide WithX, CompatAliases, ShortnameFromName;
    assert SameContexts(c, 12);
  }

  lemma StaleReserve(c: Scene)
    requires c.Valid()
    ensures Follows(c, 13)
  {
    ReservesXAgain(c);
    hide Enabled, Next, ReservePending, WithY, WithBoth, WithX, Twice, Scene.Valid, Scene.X;
    hide CompatAliases, ShortnameFromName, NormalizedFlags, Bump, Promotable;
    Reserving(StaleState(c, 13), 1, c.X(), c.PathOfX(), Some(c.wanted));
    Contexts14(c);
    OneName(c.X());
  }

  lemma FirstRelocates(c: Scene)
    ensures Follows(c, 14)
  {
    hide Twice, CompatAliases, ShortnameFromName;
    assert SameContexts(c, 14);
  }

  lemma SecondMayCommit(c: Scene)
    ensures CanLock(StaleState(c, 15), 2) && StaleState(c, 15).ctxs[2].flags == FLAGS
    ensures StaleState(c, 15).reg == Twice(c)
    ensures StaleStep(c, 15) == Commit(2, [Linked(c.X(), Some(c.m), [])], Grant(7, 0, [c.m]))
  {
    hide Twice, Scene.X;
  }

  lemma SecondCommits(c: Scene)
    requires c.Valid()
    ensures Follows(c, 15)
  {
    CommitX(c);
    CommitMeetsContract(c);
    GrantOfCommitted(c);
    SecondMayCommit(c);
    Contexts16(c);
    hide Enabled, Next, Merge, LinkerContract, GrantValid, Twice, Loaded, Scene.Valid, Scene.X, StaleStep, CanLock;
    Committing(StaleState(c, 15), 2, [Linked(c.X(), Some(c.m), [])], Grant(7, 0, [c.m]));
  }

  lemma CommitMeetsContract(c: Scene)
    ensures 2 in StaleState(c, 15).ctxs && LinkerContract(StaleState(c, 15), 2, [Linked(c.X(), Some(c.m), [])])
  {
    hide CompatAliases, ShortnameFromName;
    var l := [Linked(c.X(), Some(c.m), [])];
    assert l[0].key == c.X();
    assert c.X() in LinkedKeys(l);
  }

  lemma GrantOfCommitted(c: Scene)
    ensures GrantValid(StaleState(c, 15), Loaded(c), Grant(7, 0, [c.m]))
  {
    hide CompatAliases, ShortnameFromName;
  }

  lemma FirstMayFail(c: Scene)
    requires c.Valid()
    ensures StaleStep(c, 16) == Fail(1) && CanLock(StaleState(c, 16), 1)
    ensures AllCanonical(StaleState(c, 16).reg, StaleState(c, 16).ctxs[1].added)
  {
    XIsRegistered(c);
    hide Loaded, Scene.X, Scene.Valid, AllCanonical;
  }

  lemma FirstOwns(c: Scene)
    ensures 1 in StaleState(c, 16).ctxs && StaleState(c, 16).ctxs[1].added == {c.X()}
  {
    hide Loaded, Scene.X;
  }

  lemma FirstAround(c: Scene)
    ensures StaleState(c, 16).reg == Loaded(c) && StaleState(c, 17).reg == Withdrawn(Loaded(c), {c.X()})
    ensures StaleState(c, 17).holder == None
    ensures StaleState(c, 17).handles == StaleState(c, 16).handles
    ensures StaleState(c, 17).scopes == StaleState(c, 16).scopes
  {
    hide Loaded, Withdrawn, Scene.X;
  }

  lemma FirstFailsTo(c: Scene)
    requires c.Valid()
    ensures var s := StaleState(c, 16);
            1 in s.ctxs && StaleState(c, 17) ==
            System(Withdrawn(s.reg, s.ctxs[1].added), s.ctxs - {1}, None, s.handles, s.scopes)
  {
    FirstOwns(c);
    FirstAround(c);
    Contexts17(c);
    hide StaleState, Withdrawn, Loaded, Scene.X, Scene.Valid;
  }

  lemma FirstFails(c: Scene)
    requires c.Valid()
    ensures Follows(c, 16)
  {
    hide *;
    FirstMayFail(c);
    FirstFailsTo(c);
    Failing(c, 16, 1);
  }

  lemma AllFollow(c: Scene, i: nat)
    requires c.Valid() && i < 17
    ensures Follows(c, i)
  {
    hide *;
    match i
    case 0 => ThirdOpens(c);
    case 1 => ThirdOpens(c);
    case 2 => ThirdReserves(c);
    case 3 => ThirdRelocates(c);
    case 4 => FirstOpens(c);
    case 5 => FirstChecks(c);
    case 6 => FirstWaits(c);
    case 7 => SecondOpens(c);
    case 8 => SecondChecks(c);
    case 9 => SecondReserves(c);
    case 10 => SecondRelocates(c);
    case 11 => ThirdFails(c);
    case 12 => FirstWakes(c);
    case 13 => StaleReserve(c);
    case 14 => FirstRelocates(c);
    case 15 => SecondCommits(c);
    case _ => FirstFails(c);
  }

  lemma EveryStep(c: Scene)
    requires c.Valid()
    ensures IsRun(StaleStates(c), StaleSteps(c))
  {
    assert StaleState(c, 0) == Start();
    hide StaleState, StaleStep, Enabled, Next;
    forall i | 0 <= i < 17
      ensures StepAt(StaleStates(c), StaleSteps(c), i)
    {
      AllFollow(c, i);
    }
  }

  /** When open 1 wakes up, its file is not being loaded any more, so it goes on to reserve; but x is. */
  lemma WokenToStaleCheck(c: Scene)
    requires c.Valid()
    ensures Find(StaleState(c, 13).reg, ByIdentity(c.wanted)) == None
    ensures Lookup(StaleState(c, 13).reg, c.X()) == Some(Pending(c.X()))
    ensures !Guarded(StaleState(c, 13), StaleStep(c, 13))
  {
    hide CompatAliases, ShortnameFromName;
  }

  lemma LoadedIsPinned(c: Scene)
    ensures Pinned(StaleState(c, 16), c.X(), c.m)
  {
    hide CompatAliases, ShortnameFromName;
  }

  /** A run in which a library that is committed with RTLD_NODELETE and has a live handle is unloaded by the
      rollback of a different open. Every step is one the code takes: the wait is for a library that another
      open has reserved. Its one unguarded step is the reservation after the wait. */
  lemma StaleCheckUnloadsLiveLibrary(c: Scene)
    requires c.Valid()
    ensures IsRun(StaleStates(c), StaleSteps(c))
    ensures forall i :: 0 <= i < 17 ==> (Guarded(StaleStates(c)[i], StaleSteps(c)[i]) <==> i != 13)
    ensures Pinned(StaleStates(c)[16], c.X(), c.m) && StaleStates(c)[17].handles == map[7 := Handle(c.m, 0)]
    ensures !IsCommitted(StaleStates(c)[17].reg, c.X())
  {
    EveryStep(c);
    OthersGuarded(c);
    RollbackHitsCommitted(c);
    LoadedIsPinned(c);
    WokenToStaleCheck(c);
    hide Withdrawn, Loaded, Pinned, IsRun, Guarded, CompatAliases, IsCommitted;
  }

  lemma OthersGuarded(c: Scene)
    requires c.Valid()
    ensures forall i :: 0 <= i < 17 && i != 13 ==> Guarded(StaleState(c, i), StaleStep(c, i))
  {
    hide CompatAliases, ShortnameFromName;
    assert !IsCanonical(StaleState(c, 2).reg, c.y);
    assert !IsCanonical(StaleState(c, 9).reg, c.X());
  }

  /** One such scene: the file /b/x.so, and a file that is reachable as /a/x.so and as /c/y.so. */
  const EXAMPLE := Scene(Module(0, "/b/x.so", [], Some(FileIdentity(1, 2))), "y.so", FileIdentity(1, 1), FileIdentity(1, 2))

  lemma ExampleName()
    ensures ShortnameFromName("/b/x.so") == "x.so"
  {
    hide LastComponent;
    assert "/b" + ['/'] + "x.so" == "/b/x.so";
    LastComponentOf("/b", '/', "x.so");
  }

  lemma ExampleIsValid()
    ensures EXAMPLE.Valid() && EXAMPLE.X() == "x.so"
  {
    hide ShortnameFromName, CompatAliases;
    ExampleName();
    ShortNameHasNoAliases("x.so");
    ShortNameHasNoAliases("y.so");
  }

  lemma ShortNameHasNoAliases(name: string)
    requires |name| < 9
    ensures CompatAliases(name) == []
  {
    assert |LIBC| == 9 && |LOADER| == 20;
  }

  lemma StaleCheckExample()
    ensures EXAMPLE.Valid() && EXAMPLE.X() == "x.so"
    ensures IsRun(StaleStates(EXAMPLE), StaleSteps(EXAMPLE))
    ensures !IsCommitted(StaleStates(EXAMPLE)[17].reg, "x.so")
  {
    ExampleIsValid();
    StaleCheckUnloadsLiveLibrary(EXAMPLE);
    hide *;
  }
}
