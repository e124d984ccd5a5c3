/** The insertion-ordered map that the registry is built on: `insert` of a present key keeps its
    position, and `shift_remove` keeps the order of the other keys. */
module OrderedMap {

  datatype Option<+T> = None | Some(value: T)

  datatype IndexMap<V> = IndexMap(order: seq<string>, entries: map<string, V>)
  {
    ghost predicate Valid() {
      && NoDuplicates(order)
      && (forall k :: k in order <==> k in entries)
    }
  }

  ghost predicate NoDuplicates<T>(s: seq<T>) {
    forall i, j :: 0 <= i < j < |s| ==> s[i] != s[j]
  }

  function Empty<V>(): (m: IndexMap<V>) {
    IndexMap([], map[])
  }

  function Insert<V>(m: IndexMap<V>, key: string, value: V): (r: IndexMap<V>)
    ensures r.entries == m.entries[key := value]
    ensures r.order == if key in m.entries then m.order else m.order + [key]
  {
    IndexMap(if key in m.entries then m.order else m.order + [key], m.entries[key := value])
  }

  /** The elements of `s` that are not in `drop`, in their order in `s`. */
  function Without(s: seq<string>, drop: set<string>): (r: seq<string>)
    ensures forall x :: x in r <==> x in s && x !in drop
  {
    if s == [] then []
    else if s[0] in drop then Without(s[1..], drop)
    else [s[0]] + Without(s[1..], drop)
  }

  lemma {:induction false} WithoutNoDuplicates(s: seq<string>, drop: set<string>)
    requires NoDuplicates(s)
    ensures NoDuplicates(Without(s, drop))
  {
    if s != [] {
      WithoutNoDuplicates(s[1..], drop);
    }
  }

  lemma {:induction false} WithoutTwice(s: seq<string>, a: set<string>, b: set<string>)
    ensures Without(Without(s, a), b) == Without(s, a + b)
  {
    if s != [] {
      WithoutTwice(s[1..], a, b);
    }
  }

  lemma {:induction false} WithoutAbsent(s: seq<string>, drop: set<string>)
    requires forall x :: x in drop ==> x !in s
    ensures Without(s, drop) == s
  {
    if s != [] {
      WithoutAbsent(s[1..], drop);
    }
  }

  function RemoveAll<V>(m: IndexMap<V>, keys: set<string>): (r: IndexMap<V>)
    ensures r.entries == m.entries - keys
    ensures r.order == Without(m.order, keys)
  {
    IndexMap(Without(m.order, keys), m.entries - keys)
  }

  function ShiftRemove<V>(m: IndexMap<V>, key: string): (r: IndexMap<V>)
    ensures r.entries == m.entries - {key}
    ensures r.order == Without(m.order, {key})
  {
    RemoveAll(m, {key})
  }

  lemma InsertValid<V>(m: IndexMap<V>, key: string, value: V)
    requires m.Valid()
    ensures Insert(m, key, value).Valid()
  {
  }

  lemma RemoveAllValid<V>(m: IndexMap<V>, keys: set<string>)
    requires m.Valid()
    ensures RemoveAll(m, keys).Valid()
  {
    WithoutNoDuplicates(m.order, keys);
  }

  function Values<V>(m: IndexMap<V>): (vs: seq<V>)
    requires m.Valid()
    ensures |vs| == |m.order|
    ensures forall i :: 0 <= i < |vs| ==> vs[i] == m.entries[m.order[i]]
  {
    seq(|m.order|, i requires 0 <= i < |m.order| => m.entries[m.order[i]])
  }

  lemma RemoveAbsent<V>(m: IndexMap<V>, keys: set<string>)
    requires m.Valid() && keys !! m.entries.Keys
    ensures RemoveAll(m, keys) == m
  {
    WithoutAbsent(m.order, keys);
    assert m.entries - keys == m.entries;
  }

  lemma RemoveNone<V>(m: IndexMap<V>)
    ensures RemoveAll(m, {}) == m
  {
    WithoutAbsent(m.order, {});
    assert m.entries - {} == m.entries;
  }

  lemma RemoveTwice<V>(m: IndexMap<V>, a: set<string>, b: set<string>)
    ensures RemoveAll(RemoveAll(m, a), b) == RemoveAll(m, a + b)
  {
    WithoutTwice(m.order, a, b);
    assert m.entries - a - b == m.entries - (a + b);
  }

  lemma {:induction false} WithoutLength(s: seq<string>, drop: set<string>)
    requires NoDuplicates(s) && forall x :: x in drop ==> x in s
    ensures |Without(s, drop)| == |s| - |drop|
  {
    if s == [] {
      assert drop == {};
    } else {
      var rest := drop - {s[0]};
      assert forall x :: x in rest ==> x in s[1..];
      WithoutLength(s[1..], rest);
      if s[0] in drop {
        assert s[0] !in s[1..];
        SameWithout(s[1..], drop, rest);
        assert |drop| == |rest| + 1;
      } else {
        assert rest == drop;
      }
    }
  }

  lemma {:induction false} SameWithout(s: seq<string>, a: set<string>, b: set<string>)
    requires forall x :: x in s ==> (x in a <==> x in b)
    ensures Without(s, a) == Without(s, b)
  {
    if s != [] {
      SameWithout(s[1..], a, b);
    }
  }

  lemma ShiftRemoveLength<V>(m: IndexMap<V>, key: string)
    requires m.Valid()
    ensures |ShiftRemove(m, key).order| == if key in m.entries then |m.order| - 1 else |m.order|
  {
    if key in m.entries {
      WithoutLength(m.order, {key});
    } else {
      WithoutAbsent(m.order, {key});
    }
  }

  lemma {:induction false} WithoutEverything(s: seq<string>, drop: set<string>)
    requires forall x :: x in s ==> x in drop
    ensures Without(s, drop) == []
  {
    if s != [] {
      WithoutEverything(s[1..], drop);
    }
  }

  /** The order lists every key once, so its length is the number of keys. */
  lemma OrderCountsKeys<V>(m: IndexMap<V>)
    requires m.Valid()
    ensures |m.order| == |m.entries|
  {
    WithoutLength(m.order, m.entries.Keys);
    WithoutEverything(m.order, m.entries.Keys);
  }
}
