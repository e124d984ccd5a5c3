/** Self-relocation of the loader (rtld/impl/src/bootstrap.rs): RELA entries and the compact RELR table.
    Memory is an array of 64-bit words; word i lies at address `base + 8 * i`. The tables are given as read
    before the first write: tables that overlap the words they relocate are not covered. */
module Relocations {
  import opened Arithmetic

  const HALF: int := 0x8000_0000_0000_0000

  type Word = x: nat | x < W

  function Add(a: Word, b: Word): Word {
    (a + b) % W
  }

  ghost predicate InMemory(base: nat, words: nat, a: nat) {
    base <= a < base + 8 * words && (a - base) % 8 == 0
  }

  ghost predicate AllInMemory(base: nat, words: nat, addresses: seq<nat>) {
    forall a :: a in addresses ==> InMemory(base, words, a)
  }

  function Index(base: nat, a: nat): int {
    (a - base) / 8
  }

  // ---------------------------------------------------------------- RELR: what a table means

  /** The addresses a bitmap denotes: bit i stands for the i-th word after `position`. */
  function BitmapAddresses(bitmap: nat, position: nat): seq<nat> {
    if bitmap == 0 then []
    else (if bitmap % 2 == 1 then [position] else []) + BitmapAddresses(bitmap / 2, position + 8)
  }

  function EntryAddresses(value: Word, position: nat, bias: Word): seq<nat> {
    if value % 2 == 0 then [Add(bias, value)] else BitmapAddresses(value / 2, position)
  }

  /** Where the word after an entry's range lies. */
  function NextPosition(value: Word, position: nat, bias: Word): nat {
    if value % 2 == 0 then Add(bias, value) + 8 else position + 8 * 63
  }

  function Position(table: seq<Word>, bias: Word): nat {
    if table == [] then 0
    else NextPosition(table[|table| - 1], Position(table[..|table| - 1], bias), bias)
  }

  /** All addresses the table denotes, in the order they are relocated. */
  function Decoded(table: seq<Word>, bias: Word): seq<nat> {
    if table == [] then []
    else
      var shorter := table[..|table| - 1];
      Decoded(shorter, bias) + EntryAddresses(table[|table| - 1], Position(shorter, bias), bias)
  }

  function Count(s: seq<nat>, a: nat): nat {
    if s == [] then 0 else Count(s[..|s| - 1], a) + if s[|s| - 1] == a then 1 else 0
  }

  predicate Bit(value: nat, i: nat) {
    value / Pow2(i) % 2 == 1
  }

  /** The standard's reading of one table entry: an even entry is an address; in the n-th odd entry after
      it, bit i (1 to 63) is the word 63 * n + i - 1 places after that address's successor. */
  ghost predicate Denotes(table: seq<Word>, bias: Word, anchor: nat, j: nat, a: nat)
    requires anchor <= j < |table|
  {
    && table[anchor] % 2 == 0
    && (forall k :: anchor < k <= j ==> table[k] % 2 == 1)
    && if j == anchor then a == Add(bias, table[anchor])
       else exists i | 1 <= i < 64 :: Bit(table[j], i) && a == Add(bias, table[anchor]) + 8 + 8 * (63 * (j - anchor - 1) + i - 1)
  }

  // ---------------------------------------------------------------- relocating

  /** Adds the load bias to the word at every listed address, once per occurrence. */
  function Relocated(words: seq<Word>, base: nat, addresses: seq<nat>, bias: Word): (r: seq<Word>)
    requires AllInMemory(base, |words|, addresses)
    ensures |r| == |words|
  {
    if addresses == [] then words
    else
      var r := Relocated(words, base, addresses[..|addresses| - 1], bias);
      var i := Index(base, addresses[|addresses| - 1]);
      assert InMemory(base, |words|, addresses[|addresses| - 1]);
      r[i := Add(bias, r[i])]
  }

  lemma AddMore(old': nat, bias: nat, n: nat)
    ensures (bias + (old' + bias * n) % W) % W == (old' + bias * (n + 1)) % W
  {
    var x := old' + bias * n;
    assert bias * (n + 1) == bias * n + bias;
    assert (bias + x % W) % W == (bias + x) % W;
  }

  /** Every word ends as its old value plus the bias times the number of its occurrences, modulo 2^64. */
  lemma IndexIs(base: nat, words: nat, a: nat, i: nat)
    requires InMemory(base, words, a)
    ensures 0 <= Index(base, a) < words && (Index(base, a) == i <==> a == base + 8 * i)
  {
  }

  /** The last address adds the bias to its own word only. */
  lemma RelocatedNext(words: seq<Word>, base: nat, addresses: seq<nat>, bias: Word, i: nat)
    requires AllInMemory(base, |words|, addresses) && addresses != [] && i < |words|
    ensures AllInMemory(base, |words|, addresses[..|addresses| - 1])
    ensures var before := Relocated(words, base, addresses[..|addresses| - 1], bias)[i];
            Relocated(words, base, addresses, bias)[i] ==
            if addresses[|addresses| - 1] == base + 8 * i then Add(bias, before) else before
  {
    hide InMemory, Index, Add;
    IndexIs(base, |words|, addresses[|addresses| - 1], i);
  }

  lemma {:induction false} RelocatedWord(words: seq<Word>, base: nat, addresses: seq<nat>, bias: Word, i: nat)
    requires AllInMemory(base, |words|, addresses)
    requires i < |words|
    ensures Relocated(words, base, addresses, bias)[i] == (words[i] + bias * Count(addresses, base + 8 * i)) % W
  {
    if addresses != [] {
      var shorter := addresses[..|addresses| - 1];
      RelocatedNext(words, base, addresses, bias, i);
      hide Relocated, AllInMemory;
      RelocatedWord(words, base, shorter, bias, i);
      AddMore(words[i], bias, Count(shorter, base + 8 * i));
    }
  }

  // ---------------------------------------------------------------- the loops

  datatype RelrInfo = RelrInfo(relr: Word, relrsz: Word, relrent: Word)

  predicate WellSized(info: RelrInfo) {
    info.relr != 0 && info.relrent >= 8 && info.relrsz % info.relrent == 0
  }

  /** A bitmap needs an address before it; without one the table is refused at its first entry. */
  predicate StartsWithAddress(table: seq<Word>) {
    table != [] ==> table[0] % 2 == 0
  }

  ghost predicate Fits(table: seq<Word>, bias: Word, base: nat, words: nat) {
    StartsWithAddress(table) ==> AllInMemory(base, words, Decoded(table, bias))
  }

  /** Adds the load bias to one word; `done` are the addresses relocated since the words were `start`. */
  method RelocateWord(a: nat, mem: array<Word>, base: nat, bias: Word, ghost start: seq<Word>, ghost done: seq<nat>)
    requires |start| == mem.Length && AllInMemory(base, mem.Length, done) && InMemory(base, mem.Length, a)
    requires mem[..] == Relocated(start, base, done, bias)
    modifies mem
    ensures AllInMemory(base, mem.Length, done + [a])
    ensures mem[..] == Relocated(start, base, done + [a], bias)
  {
    assert (done + [a])[..|done|] == done;
    mem[Index(base, a)] := Add(bias, mem[Index(base, a)]);
  }

  /** One pass over a bitmap, relocating the word of every set bit. */
  method ApplyBitmap(value: Word, position: nat, mem: array<Word>, base: nat, bias: Word,
                     ghost start: seq<Word>, ghost done: seq<nat>)
    requires |start| == mem.Length && AllInMemory(base, mem.Length, done)
    requires AllInMemory(base, mem.Length, BitmapAddresses(value / 2, position))
    requires mem[..] == Relocated(start, base, done, bias)
    modifies mem
    ensures AllInMemory(base, mem.Length, done + BitmapAddresses(value / 2, position))
    ensures mem[..] == Relocated(start, base, done + BitmapAddresses(value / 2, position), bias)
  {
    hide InMemory, Relocated;
    var bitmap: nat, dst: nat := value / 2, position;
    ghost var all := BitmapAddresses(bitmap, dst);
    ghost var mine: seq<nat> := [];
    assert done + mine == done;
    while bitmap != 0
      invariant mine + BitmapAddresses(bitmap, dst) == all
      invariant AllInMemory(base, mem.Length, done + mine)
      invariant mem[..] == Relocated(start, base, done + mine, bias)
      decreases bitmap
    {
      if bitmap % 2 == 1 {
        assert InMemory(base, mem.Length, dst) by { assert all[|mine|] == dst; }
        RelocateWord(dst, mem, base, bias, start, done + mine);
        assert done + mine + [dst] == done + (mine + [dst]);
        mine := mine + [dst];
      }
      bitmap, dst := bitmap / 2, dst + 8;
    }
    assert mine == all;
  }

  method ApplyRelr(info: RelrInfo, table: seq<Word>, mem: array<Word>, base: nat, bias: Word) returns (ok: bool)
    requires WellSized(info) ==> |table| == info.relrsz / info.relrent
    requires Fits(table, bias, base, mem.Length)
    modifies mem
    ensures ok <==> info.relrsz == 0 || (WellSized(info) && StartsWithAddress(table))
    ensures mem[..] == if ok && info.relrsz != 0 then Relocated(old(mem[..]), base, Decoded(table, bias), bias)
                       else old(mem[..])
  {
    if info.relrsz == 0 {
      return true;
    }
    if info.relr == 0 || info.relrent < 8 {
      return false;
    }
    if info.relrsz % info.relrent != 0 {
      return false;
    }
    ok := ApplyTable(table, mem, base, bias);
  }

  /** One entry: an address of its own, or the bitmap of the words behind the last one. */
  method ApplyEntry(value: Word, position: nat, mem: array<Word>, base: nat, bias: Word,
                    ghost start: seq<Word>, ghost done: seq<nat>) returns (next: nat)
    requires |start| == mem.Length && AllInMemory(base, mem.Length, done)
    requires AllInMemory(base, mem.Length, EntryAddresses(value, position, bias))
    requires mem[..] == Relocated(start, base, done, bias)
    modifies mem
    ensures next == NextPosition(value, position, bias)
    ensures AllInMemory(base, mem.Length, done + EntryAddresses(value, position, bias))
    ensures mem[..] == Relocated(start, base, done + EntryAddresses(value, position, bias), bias)
  {
    hide InMemory, Relocated, BitmapAddresses;
    if value % 2 == 0 {
      next := Add(bias, value);
      assert next in EntryAddresses(value, position, bias);
      RelocateWord(next, mem, base, bias, start, done);
      next := next + 8;
    } else {
      ApplyBitmap(value, position, mem, base, bias, start, done);
      next := position + 8 * 63;
    }
  }

  lemma EntryInMemory(table: seq<Word>, bias: Word, base: nat, words: nat, index: nat)
    requires Fits(table, bias, base, words) && StartsWithAddress(table) && index < |table|
    ensures AllInMemory(base, words, EntryAddresses(table[index], Position(table[..index], bias), bias))
  {
    DecodedPrefix(table, bias, index);
    hide InMemory, Decoded, Position, EntryAddresses;
  }

  lemma OddNeedsPosition(table: seq<Word>, bias: Word, index: nat)
    requires index < |table|
    ensures index > 0 && StartsWithAddress(table) ==> Position(table[..index], bias) > 0
    ensures index == 0 ==> Position(table[..index], bias) == 0
  {
    hide Add;
  }

  /** The entries in order; an odd entry without an address before it stops the pass. */
  method ApplyTable(table: seq<Word>, mem: array<Word>, base: nat, bias: Word) returns (ok: bool)
    requires Fits(table, bias, base, mem.Length)
    modifies mem
    ensures ok <==> StartsWithAddress(table)
    ensures mem[..] == if ok then Relocated(old(mem[..]), base, Decoded(table, bias), bias) else old(mem[..])
  {
    var relocAddr: nat := 0;
    var index := 0;
    assert Decoded(table[..0], bias) == [] && Position(table[..0], bias) == 0;
    assert Relocated(mem[..], base, [], bias) == mem[..];
    hide Decoded, Position, Relocated, AllInMemory, Fits;
    while index < |table|
      invariant index <= |table|
      invariant index > 0 ==> StartsWithAddress(table)
      invariant relocAddr == Position(table[..index], bias)
      invariant AllInMemory(base, mem.Length, Decoded(table[..index], bias))
      invariant mem[..] == Relocated(old(mem[..]), base, Decoded(table[..index], bias), bias)
    {
      DecodedNext(table, bias, index);
      OddNeedsPosition(table, bias, index);
      var value := table[index];
      if value % 2 == 1 && relocAddr == 0 {
        return false;
      }
      EntryInMemory(table, bias, base, mem.Length, index);
      relocAddr := ApplyEntry(value, relocAddr, mem, base, bias, old(mem[..]), Decoded(table[..index], bias));
      index := index + 1;
    }
    assert table[..|table|] == table;
    return true;
  }

  lemma DecodedNext(table: seq<Word>, bias: Word, index: nat)
    requires index < |table|
    ensures var position := Position(table[..index], bias);
            && Decoded(table[..index + 1], bias) ==
               Decoded(table[..index], bias) + EntryAddresses(table[index], position, bias)
            && Position(table[..index + 1], bias) == NextPosition(table[index], position, bias)
    ensures forall a :: a in EntryAddresses(table[index], Position(table[..index], bias), bias) ==> a in Decoded(table, bias)
  {
    assert table[..index + 1][..index] == table[..index];
    DecodedPrefix(table, bias, index);
  }

  lemma DecodedPrefix(table: seq<Word>, bias: Word, index: nat)
    requires index < |table|
    ensures forall a :: a in EntryAddresses(table[index], Position(table[..index], bias), bias) ==> a in Decoded(table, bias)
    decreases |table|
  {
    var shorter := table[..|table| - 1];
    if index < |table| - 1 {
      DecodedPrefix(shorter, bias, index);
      assert shorter[..index] == table[..index];
    } else {
      assert table[..index] == shorter;
    }
  }

  /** The result of a successful pass, word by word. */
  lemma RelrMeaning(words: seq<Word>, table: seq<Word>, base: nat, bias: Word, i: nat)
    requires StartsWithAddress(table) && Fits(table, bias, base, |words|) && i < |words|
    ensures Relocated(words, base, Decoded(table, bias), bias)[i] ==
            (words[i] + bias * Count(Decoded(table, bias), base + 8 * i)) % W
  {
    RelocatedWord(words, base, Decoded(table, bias), bias, i);
  }

  // ---------------------------------------------------------------- decoding is the standard's reading

  lemma ShiftedBit(value: nat, i: nat)
    ensures Bit(value / 2, i) <==> Bit(value, i + 1)
  {
    HalveThenDivide(value, Pow2(i));
  }

  lemma {:induction false} BitmapMeaning(bitmap: nat, position: nat, a: nat)
    ensures a in BitmapAddresses(bitmap, position) <==> exists i: nat :: Bit(bitmap, i) && a == position + 8 * i
    decreases bitmap
  {
    var rest := BitmapAddresses(bitmap / 2, position + 8);
    if bitmap == 0 {
      forall i: nat
        ensures !Bit(0, i)
      {
        DivideExactly(Pow2(i), 0, 0);
      }
    } else {
      BitmapMeaning(bitmap / 2, position + 8, a);
      if a in rest {
        var i: nat :| Bit(bitmap / 2, i) && a == position + 8 + 8 * i;
        ShiftedBit(bitmap, i);
        assert Bit(bitmap, i + 1) && a == position + 8 * (i + 1);
      }
      if bitmap % 2 == 1 {
        assert Bit(bitmap, 0);
        assert a == position ==> Bit(bitmap, 0) && a == position + 8 * 0;
      }
      if exists i: nat :: Bit(bitmap, i) && a == position + 8 * i {
        var i: nat :| Bit(bitmap, i) && a == position + 8 * i;
        if i > 0 {
          ShiftedBit(bitmap, i - 1);
          assert Bit(bitmap / 2, i - 1) && a == position + 8 + 8 * (i - 1);
        } else {
          assert Pow2(0) == 1;
        }
      }
    }
  }

  lemma HighBitsClear(value: Word, i: nat)
    requires i >= 64
    ensures !Bit(value, i)
  {
    Pow2Mono(64, i);
    assert Pow2(64) == W by { Pow2Of64(); }
    DivideExactly(Pow2(i), 0, value);
  }

  /** An odd entry's addresses are those of its bits 1 to 63. */
  lemma OddEntryMeaning(value: Word, position: nat, a: nat)
    ensures a in BitmapAddresses(value / 2, position) <==>
            exists i | 1 <= i < 64 :: Bit(value, i) && a == position + 8 * (i - 1)
  {
    BitmapMeaning(value / 2, position, a);
    if a in BitmapAddresses(value / 2, position) {
      var i: nat :| Bit(value / 2, i) && a == position + 8 * i;
      ShiftedBit(value, i);
      if i + 1 >= 64 {
        HighBitsClear(value, i + 1);
      }
      assert Bit(value, i + 1) && a == position + 8 * (i + 1 - 1);
    }
    if exists i | 1 <= i < 64 :: Bit(value, i) && a == position + 8 * (i - 1) {
      var i :| 1 <= i < 64 && Bit(value, i) && a == position + 8 * (i - 1);
      ShiftedBit(value, i - 1);
      assert Bit(value / 2, i - 1) && a == position + 8 * (i - 1);
    }
  }

  /** The nearest address entry at or before entry j. */
  function Anchor(table: seq<Word>, j: nat): (anchor: nat)
    requires j < |table| && StartsWithAddress(table)
    ensures anchor <= j && table[anchor] % 2 == 0
    ensures forall k :: anchor < k <= j ==> table[k] % 2 == 1
  {
    if table[j] % 2 == 0 then j else Anchor(table, j - 1)
  }

  lemma {:induction false} PositionFromAnchor(table: seq<Word>, bias: Word, j: nat)
    requires j < |table| && StartsWithAddress(table)
    ensures Position(table[..j + 1], bias) == Add(bias, table[Anchor(table, j)]) + 8 + 8 * 63 * (j - Anchor(table, j))
  {
    hide Add;
    assert table[..j + 1][..j] == table[..j];
    if table[j] % 2 == 1 {
      PositionFromAnchor(table, bias, j - 1);
    }
  }

  lemma EntryMeaning(table: seq<Word>, bias: Word, j: nat, a: nat)
    requires j < |table| && StartsWithAddress(table)
    ensures a in EntryAddresses(table[j], Position(table[..j], bias), bias) <==>
            Denotes(table, bias, Anchor(table, j), j, a)
  {
    hide Bit, Position, BitmapAddresses, Add, Anchor;
    var anchor := Anchor(table, j);
    if table[j] % 2 == 1 {
      var position := Position(table[..j], bias);
      AnchorOfOdd(table, bias, j);
      OddEntryMeaning(table[j], position, a);
    }
  }

  lemma AnchorOfOdd(table: seq<Word>, bias: Word, j: nat)
    requires j < |table| && StartsWithAddress(table) && table[j] % 2 == 1
    ensures Anchor(table, j) < j
    ensures Position(table[..j], bias) == Add(bias, table[Anchor(table, j)]) + 8 + 8 * (63 * (j - Anchor(table, j) - 1))
  {
    hide Position, Add;
    PositionFromAnchor(table, bias, j - 1);
  }

  ghost predicate NamedBy(table: seq<Word>, bias: Word, j: nat, a: nat)
    requires j < |table|
  {
    a in EntryAddresses(table[j], Position(table[..j], bias), bias)
  }

  lemma NamedByPrefix(table: seq<Word>, bias: Word, n: nat, j: nat, a: nat)
    requires j < n <= |table|
    ensures NamedBy(table[..n], bias, j, a) == NamedBy(table, bias, j, a)
  {
    hide EntryAddresses, Position;
    assert table[..n][..j] == table[..j];
  }

  lemma {:induction false} DecodedByEntry(table: seq<Word>, bias: Word, a: nat)
    ensures a in Decoded(table, bias) <==> exists j | 0 <= j < |table| :: NamedBy(table, bias, j, a)
  {
    hide EntryAddresses, Position;
    if table != [] {
      var n := |table| - 1;
      DecodedByEntry(table[..n], bias, a);
      assert a in Decoded(table, bias) <==> a in Decoded(table[..n], bias) || NamedBy(table, bias, n, a);
      hide NamedBy, Decoded;
      forall j | 0 <= j < n
        ensures NamedBy(table[..n], bias, j, a) == NamedBy(table, bias, j, a)
      {
        NamedByPrefix(table, bias, n, j, a);
      }
    }
  }

  /** An address is relocated exactly when the System V gABI reading of some entry names it. */
  lemma DecodedMeaning(table: seq<Word>, bias: Word, a: nat)
    requires StartsWithAddress(table)
    ensures a in Decoded(table, bias) <==>
            exists anchor, j | 0 <= anchor <= j < |table| :: Denotes(table, bias, anchor, j, a)
  {
    DecodedByEntry(table, bias, a);
    if a in Decoded(table, bias) {
      var j :| 0 <= j < |table| && NamedBy(table, bias, j, a);
      EntryMeaning(table, bias, j, a);
      assert Denotes(table, bias, Anchor(table, j), j, a);
    }
    if exists anchor, j | 0 <= anchor <= j < |table| :: Denotes(table, bias, anchor, j, a) {
      var anchor, j :| 0 <= anchor <= j < |table| && Denotes(table, bias, anchor, j, a);
      assert Anchor(table, j) == anchor;
      EntryMeaning(table, bias, j, a);
      assert NamedBy(table, bias, j, a);
    }
  }

  // ---------------------------------------------------------------- ascending tables

  ghost predicate Increasing(s: seq<nat>) {
    forall i, j :: 0 <= i < j < |s| ==> s[i] < s[j]
  }

  ghost predicate Within(s: seq<nat>, from: nat, to: nat) {
    forall a :: a in s ==> from <= a < to
  }

  lemma IncreasingConcat(a: seq<nat>, b: seq<nat>, from: nat, middle: nat, to: nat)
    requires Increasing(a) && Increasing(b) && Within(a, from, middle) && Within(b, middle, to)
    requires from <= middle <= to
    ensures Increasing(a + b) && Within(a + b, from, to)
  {
    assert forall i :: 0 <= i < |a| ==> a[i] in a;
    assert forall i :: 0 <= i < |b| ==> b[i] in b;
  }

  lemma {:induction false} BitmapIncreases(bitmap: nat, position: nat, bits: nat)
    requires bitmap < Pow2(bits)
    ensures Increasing(BitmapAddresses(bitmap, position))
    ensures Within(BitmapAddresses(bitmap, position), position, position + 8 * bits)
    decreases bitmap
  {
    if bitmap != 0 {
      BitmapIncreases(bitmap / 2, position + 8, bits - 1);
      IncreasingConcat(if bitmap % 2 == 1 then [position] else [], BitmapAddresses(bitmap / 2, position + 8),
                       position, position + 8, position + 8 * bits);
    }
  }

  lemma EntryIncreases(value: Word, position: nat, bias: Word)
    ensures var part := EntryAddresses(value, position, bias);
            && Increasing(part)
            && Within(part, if value % 2 == 0 then Add(bias, value) else position, NextPosition(value, position, bias))
  {
    if value % 2 == 1 {
      Pow2Of64();
      assert Pow2(64) == 2 * Pow2(63);
      BitmapIncreases(value / 2, position, 63);
    }
  }

  /** Every address entry lies at or after the end of the range before it. */
  ghost predicate Ascending(table: seq<Word>, bias: Word) {
    forall j :: 0 <= j < |table| && table[j] % 2 == 0 ==> Add(bias, table[j]) >= Position(table[..j], bias)
  }

  lemma {:induction false} AscendingDecodes(table: seq<Word>, bias: Word)
    requires Ascending(table, bias)
    ensures Increasing(Decoded(table, bias))
    ensures Within(Decoded(table, bias), 0, Position(table, bias))
  {
    if table != [] {
      var shorter, last := table[..|table| - 1], table[|table| - 1];
      forall j | 0 <= j < |shorter| && shorter[j] % 2 == 0
        ensures Add(bias, shorter[j]) >= Position(shorter[..j], bias)
      {
        assert shorter[..j] == table[..j] && table[j] == shorter[j];
      }
      AscendingDecodes(shorter, bias);
      EntryIncreases(last, Position(shorter, bias), bias);
      assert last % 2 == 0 ==> Add(bias, last) >= Position(shorter, bias);
      IncreasingConcat(Decoded(shorter, bias), EntryAddresses(last, Position(shorter, bias), bias),
                       0, Position(shorter, bias), Position(table, bias));
    }
  }

  lemma {:induction false} IncreasingCountsOnce(s: seq<nat>, a: nat)
    requires Increasing(s)
    ensures Count(s, a) == if a in s then 1 else 0
  {
    if s != [] {
      IncreasingCountsOnce(s[..|s| - 1], a);
    }
  }

  /** An ascending table touches each address at most once, so each word gets the bias once or not at all. */
  lemma AscendingTouchesOnce(words: seq<Word>, table: seq<Word>, base: nat, bias: Word, i: nat)
    requires StartsWithAddress(table) && Ascending(table, bias)
    requires Fits(table, bias, base, |words|) && i < |words|
    ensures Relocated(words, base, Decoded(table, bias), bias)[i] ==
            if base + 8 * i in Decoded(table, bias) then Add(words[i], bias) else words[i]
  {
    hide Relocated, Decoded, Ascending, Increasing, InMemory;
    AscendingDecodes(table, bias);
    IncreasingCountsOnce(Decoded(table, bias), base + 8 * i);
    RelrMeaning(words, table, base, bias, i);
    BiasAtMostOnce(words[i], bias, Count(Decoded(table, bias), base + 8 * i));
  }

  lemma BiasAtMostOnce(word: Word, bias: Word, n: nat)
    requires n <= 1
    ensures (word + bias * n) % W == if n == 1 then Add(word, bias) else word
  {
    if n == 0 {
      assert bias * n == 0;
    } else {
      assert bias * n == bias;
    }
  }

  // ---------------------------------------------------------------- RELA

  type Addend = x: int | -HALF <= x < HALF

  datatype RelaKind = Ignore | Relative | Unsupported

  datatype Rela = Rela(kind: RelaKind, offset: Word, addend: Addend)

  datatype RelaTable = RelaTable(offset: Word, size: Word, entrySize: Word)

  const RELA_SIZE: nat := 24

  /** 64-bit negation of a signed word, read as unsigned: the least number is its own negation. */
  function WrappingNeg(a: Addend): Word {
    if a == -HALF then HALF else if a > 0 then W - a else -a
  }

  function AddSigned(base: Word, addend: Addend): Word {
    if addend >= 0 then (base + addend) % W else (base - WrappingNeg(addend)) % W
  }

  /** The branch on the sign computes the plain sum modulo 2^64, the least addend included. */
  lemma AddSignedIsModular(base: Word, addend: Addend)
    ensures AddSigned(base, addend) == (base + addend) % W
  {
  }

  /** The entries before the first unsupported one. */
  function Usable(entries: seq<Rela>): seq<Rela> {
    if entries == [] || entries[0].kind == Unsupported then [] else [entries[0]] + Usable(entries[1..])
  }

  ghost predicate RelaFits(entries: seq<Rela>, bias: Word, base: nat, words: nat) {
    forall e :: e in Usable(entries) && e.kind == Relative ==> InMemory(base, words, Add(bias, e.offset))
  }

  /** What the last RELATIVE entry for the word at `a` stores there, if there is one. */
  function LastStored(entries: seq<Rela>, bias: Word, a: nat): (r: int)
    ensures -1 <= r < W
  {
    if entries == [] then -1
    else
      var e := entries[|entries| - 1];
      if e.kind == Relative && Add(bias, e.offset) == a then (bias + e.addend) % W
      else LastStored(entries[..|entries| - 1], bias, a)
  }

  /** Negative exactly if no RELATIVE entry is for the word, and otherwise the load bias plus the addend of the
      last one that is. */
  lemma {:induction false} LastStoredMeaning(entries: seq<Rela>, bias: Word, a: nat) returns (last: nat)
    ensures forall i :: 0 <= i < |entries| && (last == |entries| || last < i) ==>
              !(entries[i].kind == Relative && (bias + entries[i].offset) % W == a)
    ensures last <= |entries| && (LastStored(entries, bias, a) == -1 <==> last == |entries|)
    ensures last < |entries| ==>
              && entries[last].kind == Relative && (bias + entries[last].offset) % W == a
              && LastStored(entries, bias, a) == (bias + entries[last].addend) % W
  {
    last := |entries|;
    if entries != [] {
      var n := |entries| - 1;
      if entries[n].kind == Relative && Add(bias, entries[n].offset) == a {
        last := n;
      } else {
        var earlier := LastStoredMeaning(entries[..n], bias, a);
        last := if earlier < n then earlier else |entries|;
      }
    }
  }

  lemma {:induction false} UsableMeaning(entries: seq<Rela>)
    ensures Usable(entries) <= entries
    ensures forall e :: e in Usable(entries) ==> e.kind != Unsupported
    ensures |Usable(entries)| < |entries| ==> entries[|Usable(entries)|].kind == Unsupported
  {
    if entries != [] && entries[0].kind != Unsupported {
      UsableMeaning(entries[1..]);
    }
  }

  method ApplyRela(table: RelaTable, entries: seq<Rela>, mem: array<Word>, base: nat, bias: Word) returns (ok: bool)
    requires table.size != 0 && table.offset != 0 && table.entrySize == RELA_SIZE && table.size % RELA_SIZE == 0 ==>
               |entries| == table.size / RELA_SIZE && RelaFits(entries, bias, base, mem.Length)
    modifies mem
    ensures ok <==> table.size == 0 ||
                    (table.offset != 0 && table.entrySize == RELA_SIZE && table.size % RELA_SIZE == 0 &&
                     forall e :: e in entries ==> e.kind != Unsupported)
    ensures var applies := table.size != 0 && table.offset != 0 && table.entrySize == RELA_SIZE && table.size % RELA_SIZE == 0;
            forall i :: 0 <= i < mem.Length ==>
              var stored := LastStored(Usable(entries), bias, base + 8 * i);
              mem[i] == if applies && stored >= 0 then stored else old(mem[i])
  {
    if table.size == 0 {
      return true;
    }
    if table.offset == 0 || table.entrySize != RELA_SIZE {
      return false;
    }
    if table.size % table.entrySize != 0 {
      return false;
    }
    ok := ApplyRelaEntries(entries, mem, base, bias);
  }

  method ApplyRelaEntries(entries: seq<Rela>, mem: array<Word>, base: nat, bias: Word) returns (ok: bool)
    requires RelaFits(entries, bias, base, mem.Length)
    modifies mem
    ensures ok <==> forall e :: e in entries ==> e.kind != Unsupported
    ensures forall i :: 0 <= i < mem.Length ==>
              var stored := LastStored(Usable(entries), bias, base + 8 * i);
              mem[i] == if stored >= 0 then stored else old(mem[i])
  {
    ghost var usable := Usable(entries);
    UsableMeaning(entries);
    var index := 0;
    while index < |entries|
      invariant index <= |usable| && usable[..index] == entries[..index]
      invariant forall i :: 0 <= i < mem.Length ==>
                  var stored := LastStored(usable[..index], bias, base + 8 * i);
                  mem[i] == if stored >= 0 then stored else old(mem[i])
    {
      var e := entries[index];
      if e.kind == Unsupported {
        assert index == |usable| && usable[..index] == usable;
        return false;
      }
      assert index < |usable| && usable[..index + 1][..index] == usable[..index];
      if e.kind == Relative {
        var dst := Add(bias, e.offset);
        assert InMemory(base, mem.Length, dst) by { assert e in usable; }
        AddSignedIsModular(bias, e.addend);
        mem[Index(base, dst)] := AddSigned(bias, e.addend);
      }
      index := index + 1;
    }
    assert usable[..index] == usable && usable == entries;
    return true;
  }
}
