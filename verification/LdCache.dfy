/** Lookup in the ld.so cache (src/utils/ld_cache.rs): reading entries out of the file's bytes, and a binary
    search that detects the sort direction. Constants are those of x86_64. */
module LdCache {
  import opened OrderedMap

  type Byte = x: nat | x < 256

  type Text = seq<Byte>

  const SLASH: Byte := 47

  const FLAG_LIBC6: nat := 3

  datatype Cache = Cache(data: seq<Byte>, headerOffset: nat, nlibs: nat, entrySize: nat, stringTableOffset: nat)

  /** What the slices in the code need: both tables start inside the file. */
  predicate InFile(c: Cache) {
    c.headerOffset <= |c.data| && c.stringTableOffset <= |c.data|
  }

  // ---------------------------------------------------------------- reading entries

  function U32(data: seq<Byte>, at: nat): nat
    requires at + 4 <= |data|
  {
    var b0: nat, b1: nat, b2: nat, b3: nat := data[at], data[at + 1], data[at + 2], data[at + 3];
    b0 + 0x100 * b1 + 0x1_0000 * b2 + 0x100_0000 * b3
  }

  predicate Continuation(b: Byte) {
    0x80 <= b < 0xC0
  }

  /** Well-formed UTF-8: no overlong forms, no surrogates, nothing above U+10FFFF. */
  predicate IsUtf8(s: Text) {
    if s == [] then true
    else if s[0] < 0x80 then IsUtf8(s[1..])
    else if 0xC2 <= s[0] < 0xE0 then |s| >= 2 && Continuation(s[1]) && IsUtf8(s[2..])
    else if 0xE0 <= s[0] < 0xF0 then
      |s| >= 3 && Continuation(s[1]) && Continuation(s[2])
      && (s[0] == 0xE0 ==> s[1] >= 0xA0) && (s[0] == 0xED ==> s[1] < 0xA0) && IsUtf8(s[3..])
    else if 0xF0 <= s[0] < 0xF5 then
      |s| >= 4 && Continuation(s[1]) && Continuation(s[2]) && Continuation(s[3])
      && (s[0] == 0xF0 ==> s[1] >= 0x90) && (s[0] == 0xF4 ==> s[1] < 0x90) && IsUtf8(s[4..])
    else false
  }

  /** The bytes up to the first zero. */
  function UpToNul(s: Text): Text {
    if s == [] || s[0] == 0 then [] else [s[0]] + UpToNul(s[1..])
  }

  function ExtractStr(table: seq<Byte>, offset: nat): Option<Text> {
    if offset >= |table| then None
    else
      var s := UpToNul(table[offset..]);
      if IsUtf8(s) then Some(s) else None
  }

  /** `s` is the text that stands at `offset`: it runs to the first zero byte, or to the end of the table, and
      is well-formed. */
  ghost predicate StandsAt(table: seq<Byte>, offset: nat, s: Text) {
    && offset < |table| && offset + |s| <= |table|
    && s == table[offset..offset + |s|]
    && 0 !in s
    && (offset + |s| < |table| ==> table[offset + |s|] == 0)
    && IsUtf8(s)
  }

  lemma {:induction false} UpToNulMeaning(s: Text)
    ensures |UpToNul(s)| <= |s| && UpToNul(s) == s[..|UpToNul(s)|]
    ensures 0 !in UpToNul(s)
    ensures |UpToNul(s)| < |s| ==> s[|UpToNul(s)|] == 0
  {
    if s != [] && s[0] != 0 {
      UpToNulMeaning(s[1..]);
    }
  }

  /** Reading a string finds exactly the text that stands there. */
  lemma ExtractStrMeaning(table: seq<Byte>, offset: nat, s: Text)
    ensures ExtractStr(table, offset) == Some(s) <==> StandsAt(table, offset, s)
  {
    if offset < |table| {
      var rest := table[offset..];
      var found := UpToNul(rest);
      UpToNulMeaning(rest);
      hide UpToNul, IsUtf8;
      assert found == table[offset..offset + |found|];
      if StandsAt(table, offset, s) {
        assert s == rest[..|s|];
        SameEnd(rest, s, found);
      }
    }
  }

  /** Two prefixes without a zero that both end at one or at the end of the text are the same. */
  lemma SameEnd(rest: Text, a: Text, b: Text)
    requires |a| <= |rest| && a == rest[..|a|] && 0 !in a && (|a| < |rest| ==> rest[|a|] == 0)
    requires |b| <= |rest| && b == rest[..|b|] && 0 !in b && (|b| < |rest| ==> rest[|b|] == 0)
    ensures a == b
  {
    assert forall k :: 0 <= k < |a| ==> rest[k] == a[k] != 0;
    assert forall k :: 0 <= k < |b| ==> rest[k] == b[k] != 0;
  }

  function EntryOffset(c: Cache, idx: nat): nat {
    c.headerOffset + 48 + idx * c.entrySize
  }

  /** The name of an entry: its index is taken relative to the header if a plain name stands there, else
      relative to the string table. */
  function GetName(c: Cache, idx: nat): Option<Text>
    requires InFile(c)
  {
    if EntryOffset(c, idx) + 8 > |c.data| then None
    else
      var key := U32(c.data, EntryOffset(c, idx) + 4);
      var s := ExtractStr(c.data[c.headerOffset..], key);
      if s.Some? && s.value != [] && s.value[0] != SLASH then s
      else ExtractStr(c.data[c.stringTableOffset..], key)
  }

  function GetPath(c: Cache, idx: nat): Option<Text>
    requires InFile(c)
  {
    if EntryOffset(c, idx) + 12 > |c.data| then None
    else
      var val := U32(c.data, EntryOffset(c, idx) + 8);
      var s := ExtractStr(c.data[c.headerOffset..], val);
      if s.Some? && s.value != [] && s.value[0] == SLASH then s
      else ExtractStr(c.data[c.stringTableOffset..], val)
  }

  /** Low byte: the library type; bits 8 and 9: the architecture mask 0x0300. */
  predicate CheckFlags(c: Cache, idx: nat) {
    && EntryOffset(c, idx) + 4 <= |c.data|
    && var flags := U32(c.data, EntryOffset(c, idx));
       flags % 0x100 == FLAG_LIBC6 && flags / 0x100 % 4 != 0
  }

  /** The name of an entry is the text at its second word, in the header's part of the file if something
      that is not a path stands there and in the string table otherwise. */
  lemma GetNameMeaning(c: Cache, idx: nat, name: Text)
    requires InFile(c)
    ensures var at := EntryOffset(c, idx);
            GetName(c, idx) == Some(name) <==>
              && at + 8 <= |c.data|
              && var key := U32(c.data, at + 4);
                 var header, strings := c.data[c.headerOffset..], c.data[c.stringTableOffset..];
                 if PlainNameStands(header, key) then StandsAt(header, key, name) else StandsAt(strings, key, name)
  {
    hide EntryOffset, U32, ExtractStr, StandsAt;
    if EntryOffset(c, idx) + 8 <= |c.data| {
      var key := U32(c.data, EntryOffset(c, idx) + 4);
      var header, strings := c.data[c.headerOffset..], c.data[c.stringTableOffset..];
      ExtractStrMeaning(header, key, name);
      ExtractStrMeaning(strings, key, name);
      var s := ExtractStr(header, key);
      if s.Some? {
        ExtractStrMeaning(header, key, s.value);
      }
      if PlainNameStands(header, key) {
        var n :| StandsAt(header, key, n) && n != [] && n[0] != SLASH;
        ExtractStrMeaning(header, key, n);
      }
    }
  }

  ghost predicate PlainNameStands(table: seq<Byte>, offset: nat) {
    exists s :: StandsAt(table, offset, s) && s != [] && s[0] != SLASH
  }

  ghost predicate PathStands(table: seq<Byte>, offset: nat) {
    exists s :: StandsAt(table, offset, s) && s != [] && s[0] == SLASH
  }

  /** The path of an entry is the text at its third word, in the header's part of the file if a path stands
      there and in the string table otherwise. */
  lemma GetPathMeaning(c: Cache, idx: nat, path: Text)
    requires InFile(c)
    ensures var at := EntryOffset(c, idx);
            GetPath(c, idx) == Some(path) <==>
              && at + 12 <= |c.data|
              && var val := U32(c.data, at + 8);
                 var header, strings := c.data[c.headerOffset..], c.data[c.stringTableOffset..];
                 if PathStands(header, val) then StandsAt(header, val, path) else StandsAt(strings, val, path)
  {
    hide EntryOffset, U32, ExtractStr, StandsAt;
    if EntryOffset(c, idx) + 12 <= |c.data| {
      var val := U32(c.data, EntryOffset(c, idx) + 8);
      var header, strings := c.data[c.headerOffset..], c.data[c.stringTableOffset..];
      ExtractStrMeaning(header, val, path);
      ExtractStrMeaning(strings, val, path);
      var s := ExtractStr(header, val);
      if s.Some? {
        ExtractStrMeaning(header, val, s.value);
      }
      if PathStands(header, val) {
        var n :| StandsAt(header, val, n) && n != [] && n[0] == SLASH;
        ExtractStrMeaning(header, val, n);
      }
    }
  }

  /** In bytes: the first of the little-endian flag word, which the type mask 0xFF selects, is 3, and the
      second, of which the architecture mask 0x0300 selects the two lowest bits, has one of them set. */
  lemma CheckFlagsMeaning(c: Cache, idx: nat)
    ensures var at := EntryOffset(c, idx);
            CheckFlags(c, idx) <==>
              && at + 4 <= |c.data|
              && c.data[at] == 3
              && (c.data[at + 1] % 2 == 1 || c.data[at + 1] / 2 % 2 == 1)
  {
    var at := EntryOffset(c, idx);
    hide EntryOffset, U32;
    if at + 4 <= |c.data| {
      LittleEndianWord(c.data, at);
      LowBits(c.data[at + 1]);
    }
  }

  lemma LowBits(b: nat)
    ensures b % 4 != 0 <==> b % 2 == 1 || b / 2 % 2 == 1
  {
  }

  lemma LittleEndianWord(data: seq<Byte>, at: nat)
    requires at + 4 <= |data|
    ensures U32(data, at) % 0x100 == data[at] && U32(data, at) / 0x100 % 4 == data[at + 1] % 4
  {
    LittleEndian(data[at], data[at + 1], data[at + 2], data[at + 3]);
  }

  lemma LittleEndian(b0: nat, b1: nat, b2: nat, b3: nat)
    requires b0 < 256
    ensures var word := b0 + 0x100 * b1 + 0x1_0000 * b2 + 0x100_0000 * b3;
            word % 0x100 == b0 && word / 0x100 % 4 == b1 % 4
  {
    var word := b0 + 0x100 * b1 + 0x1_0000 * b2 + 0x100_0000 * b3;
    var upper := b1 + 0x100 * b2 + 0x1_0000 * b3;
    assert word == 0x100 * upper + b0;
    assert upper == 4 * (b1 / 4 + 64 * b2 + 0x4000 * b3) + b1 % 4;
  }

  // ---------------------------------------------------------------- byte order

  predicate Less(a: Text, b: Text) {
    b != [] && (a == [] || a[0] < b[0] || (a[0] == b[0] && Less(a[1..], b[1..])))
  }

  lemma {:induction false} LessTotal(a: Text, b: Text)
    ensures Less(a, b) || a == b || Less(b, a)
    ensures !(Less(a, b) && Less(b, a)) && !Less(a, a)
    decreases |a| + |b|
  {
    if a != [] && b != [] && a[0] == b[0] {
      LessTotal(a[1..], b[1..]);
      assert a == [a[0]] + a[1..] && b == [b[0]] + b[1..];
    }
    if a != [] {
      LessIrreflexive(a);
    }
  }

  lemma {:induction false} LessIrreflexive(a: Text)
    ensures !Less(a, a)
  {
    if a != [] {
      LessIrreflexive(a[1..]);
    }
  }

  lemma {:induction false} LessTransitive(a: Text, b: Text, c: Text)
    requires Less(a, b) && Less(b, c)
    ensures Less(a, c)
  {
    if a != [] && b != [] && c != [] && a[0] == b[0] == c[0] {
      LessTransitive(a[1..], b[1..], c[1..]);
    }
  }

  /** Every name is readable, and the names run upwards (or downwards), repetitions allowed. */
  ghost predicate SortedBy(c: Cache, descending: bool)
    requires InFile(c)
  {
    && (forall i :: 0 <= i < c.nlibs ==> GetName(c, i).Some?)
    && (forall i, j :: 0 <= i < j < c.nlibs ==>
          if descending then !Less(GetName(c, i).value, GetName(c, j).value)
          else !Less(GetName(c, j).value, GetName(c, i).value))
  }

  ghost predicate Sorted(c: Cache)
    requires InFile(c)
  {
    SortedBy(c, false) || SortedBy(c, true)
  }

  // ---------------------------------------------------------------- the specification

  predicate Usable(c: Cache, lib: Text, i: nat)
    requires InFile(c)
  {
    GetName(c, i) == Some(lib) && CheckFlags(c, i) && GetPath(c, i).Some?
  }

  /** A linear scan: the path of the first entry from i on with this name, usable flags and a path. */
  function Scan(c: Cache, lib: Text, i: nat): Option<Text>
    requires InFile(c) && i <= c.nlibs
    decreases c.nlibs - i
  {
    if i == c.nlibs then None
    else if Usable(c, lib, i) then GetPath(c, i)
    else Scan(c, lib, i + 1)
  }

  /** What the scan finds: nothing exactly when no entry is usable, and otherwise the first usable one. */
  lemma {:induction false} ScanMeaning(c: Cache, lib: Text, i: nat) returns (at: nat)
    requires InFile(c) && i <= c.nlibs
    ensures i <= at <= c.nlibs && forall k :: i <= k < at ==> !Usable(c, lib, k)
    ensures Scan(c, lib, i) == if at == c.nlibs then None else GetPath(c, at)
    ensures at < c.nlibs ==> Usable(c, lib, at)
    decreases c.nlibs - i
  {
    hide GetName, GetPath, CheckFlags;
    at := i;
    if i < c.nlibs && !Usable(c, lib, i) {
      at := ScanMeaning(c, lib, i + 1);
    }
  }

  lemma {:induction false} ScanSkips(c: Cache, lib: Text, i: nat, j: nat)
    requires InFile(c) && i <= j <= c.nlibs
    requires forall k :: i <= k < j ==> !Usable(c, lib, k)
    ensures Scan(c, lib, i) == Scan(c, lib, j)
    decreases j - i
  {
    hide GetName, GetPath, CheckFlags, Usable;
    if i < j {
      ScanSkips(c, lib, i + 1, j);
    }
  }

  // ---------------------------------------------------------------- the search

  method Lookup(c: Cache, lib: Text) returns (path: Option<Text>)
    requires InFile(c)
    ensures path.Some? ==> exists i :: 0 <= i < c.nlibs && Usable(c, lib, i) && GetPath(c, i) == path
    ensures Sorted(c) ==> path == Scan(c, lib, 0)
  {
    if c.nlibs == 0 {
      return None;
    }
    var first := GetName(c, 0);
    if first.None? { return None; }
    var last := GetName(c, c.nlibs - 1);
    if last.None? { return None; }
    var descending := Less(last.value, first.value);
    ghost var sorted := Sorted(c);
    if sorted {
      DirectionDetected(c);
    }
    var left, right := 0, c.nlibs;
    while left < right
      invariant 0 <= left <= right <= c.nlibs
      invariant sorted ==> forall i :: 0 <= i < c.nlibs && !(left <= i < right) ==> GetName(c, i) != Some(lib)
    {
      var mid := left + (right - left) / 2;
      var name := GetName(c, mid);
      if name.None? {
        return None;
      }
      if name.value == lib {
        ghost var start, stop;
        path, start, stop := ScanRun(c, lib, mid);
        if sorted {
          NothingOutsideRun(c, lib, descending, start, mid, stop);
          ScanSkips(c, lib, 0, start);
          ScanSkips(c, lib, start, stop);
          if path == None {
            ScanSkips(c, lib, stop, c.nlibs);
          }
        }
        return;
      }
      if sorted {
        HalfIsFree(c, lib, descending, mid);
      }
      if (if descending then Less(name.value, lib) else Less(lib, name.value)) {
        right := mid;
      } else {
        left := mid + 1;
      }
    }
    if sorted {
      ScanSkips(c, lib, 0, c.nlibs);
    }
    return None;
  }

  /** The comparison of the first and last name is right for a table sorted either way. */
  lemma DirectionDetected(c: Cache)
    requires InFile(c) && Sorted(c) && c.nlibs > 0
    ensures SortedBy(c, Less(GetName(c, c.nlibs - 1).value, GetName(c, 0).value))
  {
    var first, last := GetName(c, 0).value, GetName(c, c.nlibs - 1).value;
    LessTotal(first, last);
    if Less(last, first) != SortedBy(c, true) || !SortedBy(c, true) {
      if SortedBy(c, true) {
        // The first name equals the last, so all names are equal and the order is also upwards.
        forall i, j | 0 <= i < j < c.nlibs
          ensures !Less(GetName(c, j).value, GetName(c, i).value)
        {
          AllEqual(c, i);
          AllEqual(c, j);
          LessIrreflexive(first);
        }
      }
    }
  }

  lemma AllEqual(c: Cache, i: nat)
    requires InFile(c) && SortedBy(c, true) && i < c.nlibs
    requires !Less(GetName(c, c.nlibs - 1).value, GetName(c, 0).value)
    ensures GetName(c, i) == GetName(c, 0)
  {
    var first, name, last := GetName(c, 0).value, GetName(c, i).value, GetName(c, c.nlibs - 1).value;
    LessTotal(first, name);
    LessTotal(name, last);
    LessTotal(first, last);
    if Less(name, first) && Less(last, name) {
      LessTransitive(last, name, first);
    }
  }

  /** A name that is not the one at `mid` cannot be on the side the search leaves. */
  lemma HalfIsFree(c: Cache, lib: Text, descending: bool, mid: nat)
    requires InFile(c) && SortedBy(c, descending) && mid < c.nlibs && GetName(c, mid).value != lib
    ensures var before := if descending then Less(GetName(c, mid).value, lib) else Less(lib, GetName(c, mid).value);
            forall i :: 0 <= i < c.nlibs && (if before then mid <= i else i <= mid) ==> GetName(c, i) != Some(lib)
  {
    var name := GetName(c, mid).value;
    LessTotal(lib, name);
  }

  /** In a sorted table all entries of one name are neighbours. */
  lemma NothingOutsideRun(c: Cache, lib: Text, descending: bool, start: nat, mid: nat, stop: nat)
    requires InFile(c) && SortedBy(c, descending) && mid < c.nlibs && GetName(c, mid) == Some(lib)
    requires start <= mid && stop <= c.nlibs && StartsRun(c, lib, start)
    ensures forall k :: 0 <= k < start ==> !Usable(c, lib, k)
    ensures mid <= stop && EndsRun(c, lib, stop) ==> forall k :: stop <= k < c.nlibs ==> !Usable(c, lib, k)
  {
    hide GetName, GetPath, CheckFlags, SortedBy;
    forall k | 0 <= k < start
      ensures GetName(c, k) != Some(lib)
    {
      if GetName(c, k) == Some(lib) {
        Between(c, lib, descending, k, start - 1, mid);
      }
    }
    if mid <= stop && EndsRun(c, lib, stop) {
      forall k | stop <= k < c.nlibs
        ensures GetName(c, k) != Some(lib)
      {
        if GetName(c, k) == Some(lib) {
          Between(c, lib, descending, mid, stop, k);
        }
      }
    }
  }

  ghost predicate StartsRun(c: Cache, lib: Text, start: nat)
    requires InFile(c)
  {
    start > 0 ==> GetName(c, start - 1) != Some(lib)
  }

  ghost predicate EndsRun(c: Cache, lib: Text, stop: nat)
    requires InFile(c)
  {
    stop < c.nlibs ==> GetName(c, stop) != Some(lib)
  }

  lemma Between(c: Cache, lib: Text, descending: bool, i: nat, k: nat, j: nat)
    requires InFile(c) && SortedBy(c, descending) && i <= k <= j < c.nlibs
    requires GetName(c, i) == Some(lib) == GetName(c, j)
    ensures GetName(c, k) == Some(lib)
  {
    LessTotal(lib, GetName(c, k).value);
  }

  /** From a hit: back to the first entry of the run, then forward to the first usable one or past the
      run; `stop` is where that is. */
  method ScanRun(c: Cache, lib: Text, mid: nat) returns (path: Option<Text>, ghost start: nat, ghost stop: nat)
    requires InFile(c) && mid < c.nlibs && GetName(c, mid) == Some(lib)
    ensures start <= mid && start <= stop <= c.nlibs && StartsRun(c, lib, start)
    ensures forall k :: start <= k < stop ==> !Usable(c, lib, k)
    ensures path.Some? ==> stop < c.nlibs && Usable(c, lib, stop) && path == GetPath(c, stop)
    ensures path == None ==> mid <= stop && EndsRun(c, lib, stop)
    ensures path.Some? ==> exists i :: 0 <= i < c.nlibs && Usable(c, lib, i) && GetPath(c, i) == path
  {
    hide GetName, GetPath, CheckFlags;
    var first := mid;
    while first > 0 && GetName(c, first - 1) == Some(lib)
      invariant 0 <= first <= mid
      invariant forall k :: first <= k <= mid ==> GetName(c, k) == Some(lib)
    {
      first := first - 1;
    }
    start, stop := first, first;
    var i := first;
    while i < c.nlibs && GetName(c, i) == Some(lib)
      invariant start <= i <= c.nlibs && stop == i
      invariant forall k :: start <= k < i ==> !Usable(c, lib, k)
    {
      if CheckFlags(c, i) {
        path := GetPath(c, i);
        if path.Some? {
          return;
        }
      }
      i, stop := i + 1, stop + 1;
    }
    path := None;
  }
}
