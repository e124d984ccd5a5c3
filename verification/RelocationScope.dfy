/** The symbol scope a group is relocated in: the group and the global scope, each library once. */
module RelocationScope {
  import opened OrderedMap
  import opened OpenFlags
  import opened Registry

  ghost function NamesIn(s: seq<Module>): set<string> {
    set m | m in s :: m.Shortname()
  }

  /** The libraries of `s`, only the first of each shortname. */
  function UniqueByName(s: seq<Module>): (u: seq<Module>) {
    if s == [] then []
    else
      var u := UniqueByName(s[..|s| - 1]);
      var last := s[|s| - 1];
      if exists m :: m in u && m.Shortname() == last.Shortname() then u else u + [last]
  }

  lemma UniqueStep(libs: seq<Module>, i: nat)
    requires i < |libs|
    ensures var u, x := UniqueByName(libs[..i]), libs[i];
            && UniqueByName(libs[..i + 1]) == (if x.Shortname() in NamesIn(u) then u else u + [x])
            && NamesIn(u + [x]) == NamesIn(u) + {x.Shortname()}
  {
    assert libs[..i + 1][..i] == libs[..i];
  }

  /** Group first under RTLD_DEEPBIND, otherwise global first. */
  function Concatenated(r: State, group: seq<Module>, flags: Flags): seq<Module>
    requires r.global.Valid()
  {
    if DeepBind in flags then group + Values(r.global) else Values(r.global) + group
  }

  function Scope(r: State, group: seq<Module>, flags: Flags): seq<Module>
    requires r.global.Valid()
  {
    UniqueByName(Concatenated(r, group, flags))
  }

  /** Symbol lookup takes the first library that defines the symbol. */
  ghost function FirstDefinition(s: seq<Module>, defines: Module -> bool): Option<Module> {
    if s == [] then None
    else if defines(s[0]) then Some(s[0])
    else FirstDefinition(s[1..], defines)
  }

  ghost predicate NamesIdentify(s: seq<Module>) {
    forall i, j :: 0 <= i < |s| && 0 <= j < |s| && s[i].Shortname() == s[j].Shortname() ==> s[i] == s[j]
  }

  lemma {:induction false} FirstDefinitionAppend(s: seq<Module>, x: Module, defines: Module -> bool)
    ensures FirstDefinition(s + [x], defines) ==
            if FirstDefinition(s, defines).Some? then FirstDefinition(s, defines)
            else if defines(x) then Some(x) else None
  {
    if s == [] {
      assert [x][1..] == [];
    } else {
      assert (s + [x])[1..] == s[1..] + [x];
      FirstDefinitionAppend(s[1..], x, defines);
    }
  }

  lemma {:induction false} FirstDefinitionMeaning(s: seq<Module>, defines: Module -> bool)
    ensures FirstDefinition(s, defines).Some? <==> exists m :: m in s && defines(m)
    ensures FirstDefinition(s, defines).Some? ==>
              FirstDefinition(s, defines).value in s && defines(FirstDefinition(s, defines).value)
  {
    if s != [] {
      FirstDefinitionMeaning(s[1..], defines);
    }
  }

  /** In one sequence followed by another, the first has precedence. */
  lemma {:induction false} FirstDefinitionConcat(s: seq<Module>, more: seq<Module>, defines: Module -> bool)
    ensures FirstDefinition(s + more, defines) ==
            if FirstDefinition(s, defines).Some? then FirstDefinition(s, defines) else FirstDefinition(more, defines)
  {
    if s == [] {
      assert s + more == more;
    } else {
      assert (s + more)[1..] == s[1..] + more;
      FirstDefinitionConcat(s[1..], more, defines);
    }
  }

  /** `m` defines the symbol and stands in `s` before every other library that does. */
  ghost predicate DefinesFirst(s: seq<Module>, m: Module, defines: Module -> bool) {
    exists i :: 0 <= i < |s| && s[i] == m && defines(m) && forall j :: 0 <= j < i ==> !defines(s[j])
  }

  lemma {:induction false} FirstDefinitionIsFirst(s: seq<Module>, m: Module, defines: Module -> bool)
    ensures FirstDefinition(s, defines) == Some(m) <==> DefinesFirst(s, m, defines)
  {
    if s != [] && !defines(s[0]) {
      FirstDefinitionIsFirst(s[1..], m, defines);
      if DefinesFirst(s[1..], m, defines) {
        var i :| 0 <= i < |s[1..]| && s[1..][i] == m && defines(m) && forall j :: 0 <= j < i ==> !defines(s[1..][j]);
        assert s[i + 1] == m;
        assert forall j :: 0 < j < i + 1 ==> s[j] == s[1..][j - 1];
      }
      if DefinesFirst(s, m, defines) {
        var i :| 0 <= i < |s| && s[i] == m && defines(m) && forall j :: 0 <= j < i ==> !defines(s[j]);
        assert s[1..][i - 1] == m;
      }
    }
  }

  lemma {:induction false} UniqueByNameMeaning(s: seq<Module>)
    ensures forall m :: m in UniqueByName(s) ==> m in s
    ensures NamesIn(UniqueByName(s)) == NamesIn(s)
    ensures forall i, j :: 0 <= i < j < |UniqueByName(s)| ==>
              UniqueByName(s)[i].Shortname() != UniqueByName(s)[j].Shortname()
  {
    if s != [] {
      var shorter, last := s[..|s| - 1], s[|s| - 1];
      UniqueByNameMeaning(shorter);
      assert forall m :: m in s <==> m in shorter || m == last;
      assert NamesIn(s) == NamesIn(shorter) + {last.Shortname()};
      var u, u' := UniqueByName(shorter), UniqueByName(s);
      if u' == u {
        assert last.Shortname() in NamesIn(u);
      } else {
        assert NamesIn(u') == NamesIn(u) + {last.Shortname()};
      }
    }
  }

  /** The first library of each shortname is the one that is kept. */
  lemma {:induction false} KeepsFirst(s: seq<Module>, i: nat)
    requires i < |s| && forall j :: 0 <= j < i ==> s[j].Shortname() != s[i].Shortname()
    ensures s[i] in UniqueByName(s)
  {
    if i == |s| - 1 {
      UniqueByNameMeaning(s[..i]);
    } else {
      KeepsFirst(s[..|s| - 1], i);
    }
  }

  lemma {:induction false} UniqueKeepsFirstDefinition(s: seq<Module>, defines: Module -> bool)
    requires NamesIdentify(s)
    ensures FirstDefinition(UniqueByName(s), defines) == FirstDefinition(s, defines)
  {
    if s != [] {
      var shorter, last := s[..|s| - 1], s[|s| - 1];
      var u := UniqueByName(shorter);
      UniqueKeepsFirstDefinition(shorter, defines);
      FirstDefinitionAppend(shorter, last, defines);
      assert s == shorter + [last];
      if exists m :: m in u && m.Shortname() == last.Shortname() {
        UniqueByNameMeaning(shorter);
        var m :| m in u && m.Shortname() == last.Shortname();
        assert m in s && last in s;
        FirstDefinitionMeaning(shorter, defines);
      } else {
        FirstDefinitionAppend(u, last, defines);
      }
    }
  }

  lemma FirstOccurrence(s: seq<Module>, name: string, j: nat) returns (i: nat)
    requires j < |s| && s[j].Shortname() == name
    ensures i <= j && s[i].Shortname() == name
    ensures forall k :: 0 <= k < i ==> s[k].Shortname() != name
  {
    hide Module.Shortname;
    i := 0;
    while s[i].Shortname() != name
      invariant i <= j
      invariant forall k :: 0 <= k < i ==> s[k].Shortname() != name
      decreases j - i
    {
      i := i + 1;
    }
  }

  /** Dropping repeated shortnames keeps the meaning of every symbol exactly when a shortname never
      stands for two different libraries. */
  lemma DeduplicationPreservesLookupIff(s: seq<Module>)
    ensures (forall defines: Module -> bool ::
               FirstDefinition(UniqueByName(s), defines) == FirstDefinition(s, defines)) <==> NamesIdentify(s)
  {
    if NamesIdentify(s) {
      forall defines: Module -> bool
        ensures FirstDefinition(UniqueByName(s), defines) == FirstDefinition(s, defines)
      {
        UniqueKeepsFirstDefinition(s, defines);
      }
    } else {
      var i, j :| 0 <= i < |s| && 0 <= j < |s| && s[i].Shortname() == s[j].Shortname() && s[i] != s[j];
      var first := FirstOccurrence(s, s[i].Shortname(), i);
      var hidden := if s[i] == s[first] then s[j] else s[i];
      var onlyHidden := (m: Module) => m == hidden;
      KeepsFirst(s, first);
      UniqueByNameMeaning(s);
      FirstDefinitionMeaning(s, onlyHidden);
      FirstDefinitionMeaning(UniqueByName(s), onlyHidden);
      assert hidden in s && onlyHidden(hidden);
      assert hidden != s[first] && hidden.Shortname() == s[first].Shortname();
      assert hidden !in UniqueByName(s);
    }
  }

  /** Which definition a symbol gets: without RTLD_DEEPBIND that of the first global library that has one,
      and only if there is none that of the first library of the group; with RTLD_DEEPBIND the other way
      round. */
  lemma ScopePrecedence(r: State, group: seq<Module>, flags: Flags, defines: Module -> bool, m: Module)
    requires r.global.Valid() && NamesIdentify(Values(r.global) + group)
    ensures var global, scope := Values(r.global), Scope(r, group, flags);
            && (DefinesFirst(scope, m, defines) <==>
                if DeepBind in flags
                then DefinesFirst(group, m, defines) || (!DefinedIn(group, defines) && DefinesFirst(global, m, defines))
                else DefinesFirst(global, m, defines) || (!DefinedIn(global, defines) && DefinesFirst(group, m, defines)))
  {
    var global := Values(r.global);
    assert NamesIdentify(group + global) by { OrderIdentifies(global, group); }
    UniqueKeepsFirstDefinition(Concatenated(r, group, flags), defines);
    FirstDefinitionConcat(global, group, defines);
    FirstDefinitionConcat(group, global, defines);
    FirstDefinitionIsFirst(Scope(r, group, flags), m, defines);
    FirstDefinitionIsFirst(global, m, defines);
    FirstDefinitionIsFirst(group, m, defines);
    FirstDefinitionMeaning(global, defines);
    FirstDefinitionMeaning(group, defines);
    hide Values, UniqueByName, FirstDefinition, DefinesFirst, NamesIdentify;
  }

  ghost predicate DefinedIn(s: seq<Module>, defines: Module -> bool) {
    exists m :: m in s && defines(m)
  }

  lemma OrderIdentifies(a: seq<Module>, b: seq<Module>)
    requires NamesIdentify(a + b)
    ensures NamesIdentify(b + a)
  {
    hide Module.Shortname;
    forall i, j | 0 <= i < |b + a| && 0 <= j < |b + a| && (b + a)[i].Shortname() == (b + a)[j].Shortname()
      ensures (b + a)[i] == (b + a)[j]
    {
      var i' := if i < |b| then |a| + i else i - |b|;
      var j' := if j < |b| then |a| + j else j - |b|;
      assert (b + a)[i] == (a + b)[i'] && (b + a)[j] == (a + b)[j'];
    }
  }

  /** RTLD_DEEPBIND changes the order of the scope, never the libraries in it. */
  lemma BothOrdersHoldTheSameLibraries(r: State, group: seq<Module>, flags: Flags)
    requires r.global.Valid() && NamesIdentify(Values(r.global) + group)
    ensures forall m :: m in Scope(r, group, flags + {DeepBind}) <==> m in Scope(r, group, flags - {DeepBind})
    ensures forall m :: m in Scope(r, group, flags) <==> m in Values(r.global) || m in group
  {
    var a, b := Values(r.global) + group, group + Values(r.global);
    forall m
      ensures m in a <==> m in b
    {
    }
    HoldsAll(a);
    HoldsAll(b);
  }

  lemma HoldsAll(s: seq<Module>)
    requires forall m, n :: m in s && n in s && m.Shortname() == n.Shortname() ==> m == n
    ensures forall m :: m in UniqueByName(s) <==> m in s
  {
    UniqueByNameMeaning(s);
    forall m | m in s
      ensures m in UniqueByName(s)
    {
      assert m.Shortname() in NamesIn(UniqueByName(s));
    }
  }
}
