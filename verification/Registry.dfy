/** The library registry as a value: what each operation of the manager does to its five maps and two
    counters, and the invariant that every operation keeps. The class in Manager.dfy is proved against
    these functions. */
module Registry {
  import opened OrderedMap
  import opened OpenFlags

  const U64: nat := 0x1_0000_0000_0000_0000

  datatype FileIdentity = FileIdentity(dev: nat, ino: nat)

  /** A loaded library. `id` tells two loads of the same file apart. */
  datatype Module = Module(id: nat, name: string, needed: seq<string>, identity: Option<FileIdentity>)
  {
    function Shortname(): string {
      ShortnameFromName(name)
    }
  }

  datatype Meta = Meta(flags: Flags, libnames: seq<string>)

  /** A node of the committed dependency graph. */
  datatype Entry = Entry(mod: Module, deps: seq<string>, meta: Meta)

  datatype State = State(
    pending: IndexMap<Meta>,
    global: IndexMap<Module>,
    aliases: map<string, string>,
    identities: map<FileIdentity, string>,
    committed: IndexMap<Entry>,
    adds: nat,
    subs: nat)

  datatype Found = Pending(shortname: string) | Relocated(shortname: string, name: string)

  function Initial(): State {
    State(Empty(), Empty(), map[], map[], Empty(), 0, 0)
  }

  // ---------------------------------------------------------------- reading

  predicate IsPending(r: State, key: string) {
    key in r.pending.entries
  }

  predicate IsCommitted(r: State, key: string) {
    key in r.committed.entries
  }

  predicate IsCanonical(r: State, key: string) {
    IsPending(r, key) || IsCommitted(r, key)
  }

  function LookupKey(r: State, key: string): Option<Found> {
    if IsCommitted(r, key) then Some(Relocated(key, r.committed.entries[key].mod.name))
    else if IsPending(r, key) then Some(Pending(key))
    else None
  }

  /** Canonical keys first, aliases second. */
  function Lookup(r: State, name: string): Option<Found> {
    if IsCanonical(r, name) then LookupKey(r, name)
    else if name in r.aliases then LookupKey(r, r.aliases[name])
    else None
  }

  function LookupByIdentity(r: State, identity: FileIdentity): Option<Found> {
    if identity in r.identities then Lookup(r, r.identities[identity]) else None
  }

  function KeyFlags(r: State, key: string): Option<Flags> {
    if IsCommitted(r, key) then Some(r.committed.entries[key].meta.flags)
    else if IsPending(r, key) then Some(r.pending.entries[key].flags)
    else None
  }

  function FlagsOf(r: State, name: string): Option<Flags> {
    if IsCanonical(r, name) then KeyFlags(r, name)
    else if name in r.aliases then KeyFlags(r, r.aliases[name])
    else None
  }

  function Libnames(r: State, key: string): seq<string> {
    if IsPending(r, key) then r.pending.entries[key].libnames
    else if IsCommitted(r, key) then r.committed.entries[key].meta.libnames
    else []
  }

  /** What the names in `needed` resolve to, in order; unknown names are skipped. */
  function Resolved(r: State, needed: seq<string>): seq<string> {
    if needed == [] then []
    else
      var rest := Resolved(r, needed[..|needed| - 1]);
      match Lookup(r, needed[|needed| - 1])
      case Some(found) => rest + [found.shortname]
      case None => rest
  }

  /** The first occurrence of every element. */
  function Deduplicated(s: seq<string>): (d: seq<string>)
    ensures NoDuplicates(d)
    ensures forall x :: x in d <==> x in s
  {
    if s == [] then []
    else
      var d := Deduplicated(s[..|s| - 1]);
      var last := s[|s| - 1];
      assert forall x :: x in s <==> x in s[..|s| - 1] || x == last;
      if last in d then d else d + [last]
  }

  function DirectDeps(r: State, needed: seq<string>): seq<string> {
    Deduplicated(Resolved(r, needed))
  }

  // ---------------------------------------------------------------- updating

  /** Wrapping 64-bit increment. */
  function Bump(counter: nat): nat {
    if counter + 1 == U64 then 0 else counter + 1
  }

  function AddLoaded(r: State, name: string, mod: Module, flags: Flags): State {
    r.(committed := Insert(r.committed, name, Entry(mod, DirectDeps(r, mod.needed), Meta(flags, []))),
       adds := Bump(r.adds))
  }

  /** Release semantics: nothing checks that `name` is free. */
  function AddReservation(r: State, name: string, flags: Flags): State {
    r.(pending := Insert(r.pending, name, Meta(flags, [])), adds := Bump(r.adds))
  }

  function AddAlias(r: State, canonical: string, alias: string): State
    requires IsCanonical(r, canonical)
  {
    if IsCanonical(r, alias) || alias in r.aliases then r
    else
      var r' := r.(aliases := r.aliases[alias := canonical]);
      if IsPending(r, canonical) then
        var lib := r.pending.entries[canonical];
        r'.(pending := Insert(r.pending, canonical, lib.(libnames := lib.libnames + [alias])))
      else
        var e := r.committed.entries[canonical];
        r'.(committed := Insert(r.committed, canonical,
                                e.(meta := e.meta.(libnames := e.meta.libnames + [alias]))))
  }

  function AddAliases(r: State, canonical: string, names: seq<string>): (r': State)
    requires IsCanonical(r, canonical)
    ensures IsCanonical(r', canonical)
  {
    if names == [] then r
    else AddAlias(AddAliases(r, canonical, names[..|names| - 1]), canonical, names[|names| - 1])
  }

  function AddIdentity(r: State, identity: Option<FileIdentity>, name: string): State {
    if identity.Some? then r.(identities := r.identities[identity.value := name]) else r
  }

  function AddGlobal(r: State, name: string, mod: Module): State {
    r.(global := Insert(r.global, name, mod))
  }

  function Remove(r: State, key: string): State
    requires IsCanonical(r, key)
  {
    var names := set a | a in Libnames(r, key);
    var r' := if IsPending(r, key) then r.(pending := ShiftRemove(r.pending, key))
              else r.(committed := ShiftRemove(r.committed, key));
    r'.(subs := Bump(r.subs),
        global := ShiftRemove(r.global, key),
        aliases := r.aliases - names,
        identities := map i | i in r.identities && r.identities[i] != key :: r.identities[i])
  }

  /** Adding promotable flags to a committed library; RTLD_GLOBAL also enters the global scope. */
  function Promote(r: State, key: string, flags: Flags): State
    requires IsCommitted(r, key)
  {
    var e := r.committed.entries[key];
    var promotable := Promotable(flags);
    if promotable <= e.meta.flags then r
    else
      var r' := r.(committed := Insert(r.committed, key, e.(meta := e.meta.(flags := e.meta.flags + promotable))));
      if Global in flags then AddGlobal(r', key, e.mod) else r'
  }

  function ReservePending(r: State, shortname: string, fullName: string, identity: Option<FileIdentity>,
                          flags: Flags): State {
    var r1 := AddReservation(r, shortname, NormalizedFlags(fullName, flags));
    AddAliases(AddIdentity(r1, identity, shortname), shortname, CompatAliases(shortname))
  }

  function RegisterLoaded(r: State, lib: Module, flags: Flags): State {
    var key := lib.Shortname();
    var all := NormalizedFlags(lib.name, flags);
    var r1 := AddIdentity(AddLoaded(r, key, lib, all), lib.identity, key);
    var r2 := AddAliases(r1, key, CompatAliases(key));
    if Global in all || lib.name == "" then AddGlobal(r2, key, lib) else r2
  }

  /** One module of the link context that a finished `Linker::load` hands over. */
  datatype Linked = Linked(key: string, mod: Option<Module>, deps: seq<string>)

  function MergeOne(r: State, l: Linked, flags: Flags): State {
    if IsCommitted(r, l.key) || l.mod.None? then r
    else
      var m := l.mod.value;
      var meta := if IsPending(r, l.key) then r.pending.entries[l.key]
                  else Meta(NormalizedFlags(m.name, flags), []);
      var r1 := r.(pending := ShiftRemove(r.pending, l.key),
                   committed := Insert(r.committed, l.key, Entry(m, l.deps, meta)),
                   adds := if IsPending(r, l.key) then r.adds else Bump(r.adds));
      var r2 := AddAliases(AddIdentity(r1, m.identity, l.key), l.key, CompatAliases(l.key));
      if Global in meta.flags then AddGlobal(r2, l.key, m) else r2
  }

  function Merge(r: State, ls: seq<Linked>, flags: Flags): State {
    if ls == [] then r
    else MergeOne(Merge(r, ls[..|ls| - 1], flags), ls[|ls| - 1], flags)
  }

  /** Recomputes every library's direct dependencies against the registry as it stands. */
  function Rebuild(r: State): State {
    var entries := map k | k in r.committed.entries ::
                   r.committed.entries[k].(deps := DirectDeps(r, r.committed.entries[k].mod.needed));
    r.(committed := IndexMap(r.committed.order, entries))
  }

  // ---------------------------------------------------------------- the invariant

  /** No key is both reserved and committed. */
  ghost predicate Separate(r: State) {
    r.pending.entries.Keys !! r.committed.entries.Keys
  }

  /** An alias maps to c exactly when c is registered and lists it. */
  ghost predicate AliasesExact(r: State) {
    && (forall a :: a in r.aliases ==> a in Libnames(r, r.aliases[a]))
    && (forall c, a :: a in Libnames(r, c) ==> a in r.aliases && r.aliases[a] == c)
  }

  ghost predicate IdentitiesLive(r: State) {
    forall i :: i in r.identities ==> IsCanonical(r, r.identities[i])
  }

  /** The global scope holds exactly the committed libraries flagged RTLD_GLOBAL. */
  ghost predicate GlobalExact(r: State) {
    && (forall k :: k in r.global.entries <==>
                    k in r.committed.entries && Global in r.committed.entries[k].meta.flags)
    && (forall k :: k in r.global.entries ==> r.global.entries[k] == r.committed.entries[k].mod)
  }

  ghost predicate Balanced(adds: nat, subs: nat, registered: nat) {
    adds < U64 && subs < U64 && (adds - subs - registered) % U64 == 0
  }

  /** Additions less removals (64-bit counters) count the registered libraries. */
  ghost predicate CountersBalance(r: State) {
    Balanced(r.adds, r.subs, |r.pending.order| + |r.committed.order|)
  }

  ghost predicate NamesMatch(r: State) {
    forall k :: k in r.committed.entries ==> r.committed.entries[k].mod.Shortname() == k
  }

  /** Each of the three ordered maps lists its keys once. */
  ghost predicate Ordered(r: State) {
    r.pending.Valid() && r.global.Valid() && r.committed.Valid()
  }

  ghost predicate Consistent(r: State) {
    && Ordered(r)
    && Separate(r)
    && AliasesExact(r)
    && IdentitiesLive(r)
    && GlobalExact(r)
    && NamesMatch(r)
  }

  ghost predicate Invariant(r: State) {
    Consistent(r) && CountersBalance(r)
  }
}
