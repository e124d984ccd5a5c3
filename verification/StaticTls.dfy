/** Static thread-local storage (src/rtld.rs, module tls): blocks are placed downward from the thread
    pointer, in the main arena and in every thread's storage. Memory is byte arrays; the thread pointer of
    the arena is its end. */
module StaticTls {
  import opened Arithmetic
  import opened OrderedMap

  const ARENA: nat := 1024 * 1024
  const ARENA_ALIGN: nat := 4096
  const WORD_ALIGN: nat := 8

  type Byte = x: nat | x < 256

  /** A module's TLS segment: its initial image, its size in memory, its alignment. */
  datatype TlsInfo = TlsInfo(image: seq<Byte>, memsz: nat, align: nat)

  /** `offset` is how far below the thread pointer the block starts. */
  datatype TlsModule = TlsModule(info: TlsInfo, offset: nat)

  // ---------------------------------------------------------------- alignment arithmetic

  /** Doubles `p` until it reaches `n`; fails when 64 bits do not hold the result. */
  function DoubledTo(p: nat, n: nat): (r: Option<nat>)
    requires p > 0
    decreases n - p
  {
    if p >= n then Some(p)
    else if 2 * p >= W then None
    else DoubledTo(2 * p, n)
  }

  /** The smallest power of two that is at least `n`. */
  function CheckedNextPowerOfTwo(n: nat): Option<nat> {
    DoubledTo(1, n)
  }

  lemma {:induction false} DoubledToMeaning(p: nat, k: nat, n: nat)
    requires p == Pow2(k) && (p == 1 || p < 2 * n)
    ensures var r := DoubledTo(p, n);
            r.Some? ==> IsPow2(r.value) && n <= r.value && (r.value == 1 || r.value < 2 * n)
    decreases n - p
  {
    if p < n && 2 * p < W {
      assert Pow2(k + 1) == 2 * p;
      DoubledToMeaning(2 * p, k + 1, n);
    } else {
      assert Pow2(k) == p;
    }
  }

  /** It overflows exactly when the number is above the largest power of two of 64 bits. */
  lemma {:induction false} DoubledToFails(p: nat, k: nat, n: nat)
    requires p == Pow2(k) && k <= 63
    ensures DoubledTo(p, n).None? <==> n > Pow2(63)
    decreases n - p
  {
    Pow2Mono(k, 63);
    if p < n {
      if k == 63 {
        assert Pow2(64) == 2 * Pow2(63);
        Pow2Of64();
      } else {
        Pow2Mono(k + 1, 63);
        assert Pow2(64) == 2 * Pow2(63);
        Pow2Of64();
        DoubledToFails(2 * p, k + 1, n);
      }
    }
  }

  /** Rounding with a mask, for an alignment that is a power of two; fails on 64-bit overflow. */
  function AlignUp(value: nat, align: nat): Option<nat>
    requires align > 0
  {
    var sum := value + (align - 1);
    if sum >= W then None else Some(sum - sum % align)
  }

  /** The least multiple of the alignment at or above the value. */
  lemma AlignUpMeaning(value: nat, align: nat)
    requires align > 0
    ensures AlignUp(value, align).Some? ==>
              var r := AlignUp(value, align).value;
              r % align == 0 && value <= r < value + align
  {
    var sum := value + (align - 1);
    RoundDown(sum, align);
  }

  predicate MultipleOf(r: nat, align: nat)
    requires align > 0
  {
    r % align == 0
  }

  /** Rounding up fails exactly when no multiple of the alignment at or above the value fits 64 bits. */
  lemma AlignUpFails(value: nat, align: nat)
    requires IsPow2(align) && align >= 1 && align <= Pow2(63)
    ensures AlignUp(value, align).None? <==> forall r :: value <= r < W ==> !MultipleOf(r, align)
  {
    Pow2Of64();
    Pow2Mono(63, 64);
    assert IsPow2(W);
    SmallerDivides(align, W);
    if AlignUp(value, align).Some? {
      AlignUpMeaning(value, align);
      assert MultipleOf(AlignUp(value, align).value, align);
    } else {
      forall r | value <= r < W
        ensures !MultipleOf(r, align)
      {
        if MultipleOf(r, align) {
          GapOfMultiples(r, W, align);
        }
      }
    }
  }

  lemma GapOfMultiples(a: nat, b: nat, d: nat)
    requires d > 0 && a % d == 0 && b % d == 0 && a < b
    ensures a + d <= b
  {
    var p, q := a / d, b / d;
    assert a == d * p && b == d * q;
    assert q <= p ==> d * q <= d * p;
    assert p + 1 <= q ==> d * (p + 1) <= d * q;
  }

  // ---------------------------------------------------------------- blocks

  ghost predicate Sound(info: TlsInfo) {
    |info.image| <= info.memsz
  }

  /** What a block holds after initialisation. */
  ghost function Contents(info: TlsInfo): seq<Byte>
    requires Sound(info)
  {
    info.image + Zeros(info.memsz - |info.image|)
  }

  /** The block of `m` in storage whose thread pointer is at index `tp`. */
  ghost predicate Holds(mem: seq<Byte>, tp: nat, m: TlsModule)
    requires Sound(m.info)
  {
    && m.info.memsz <= m.offset <= tp <= |mem|
    && mem[tp - m.offset..tp - m.offset + m.info.memsz] == Contents(m.info)
  }

  /** Later modules lie below earlier ones. */
  ghost predicate Stacked(modules: seq<TlsModule>) {
    && (forall m :: m in modules ==> Sound(m.info) && m.info.memsz <= m.offset)
    && (forall i, j :: 0 <= i < j < |modules| ==> modules[j].offset - modules[j].info.memsz >= modules[i].offset)
  }

  method CopyImage(mem: array<Byte>, dst: nat, image: seq<Byte>)
    requires dst + |image| <= mem.Length
    modifies mem
    ensures mem[..] == old(mem[..dst]) + image + old(mem[dst + |image|..])
  {
    ghost var before := mem[..];
    for i := 0 to |image|
      invariant mem[..] == before[..dst] + image[..i] + before[dst + i..]
    {
      mem[dst + i] := image[i];
    }
    assert image[..|image|] == image;
  }

  function Zeros(n: nat): seq<Byte> {
    seq(n, _ => 0)
  }

  method WriteZeros(mem: array<Byte>, dst: nat, count: nat)
    requires dst + count <= mem.Length
    modifies mem
    ensures mem[..] == old(mem[..dst]) + Zeros(count) + old(mem[dst + count..])
  {
    ghost var before := mem[..];
    for i := 0 to count
      invariant mem[..] == before[..dst] + Zeros(i) + before[dst + i..]
    {
      mem[dst + i] := 0;
    }
  }

  /** Writes one block: the image, then zeros. Everything outside the block stays. */
  method InitModule(mem: array<Byte>, tp: nat, m: TlsModule)
    requires Sound(m.info) && m.info.memsz <= m.offset <= tp <= mem.Length
    modifies mem
    ensures mem[..] == old(mem[..tp - m.offset]) + Contents(m.info) + old(mem[tp - m.offset + m.info.memsz..])
  {
    var dst := tp - m.offset;
    CopyImage(mem, dst, m.info.image);
    WriteZeros(mem, dst + |m.info.image|, m.info.memsz - |m.info.image|);
  }

  ghost predicate InBlock(i: int, tp: nat, m: TlsModule) {
    tp - m.offset <= i < tp - m.offset + m.info.memsz
  }

  /** A block that lies elsewhere survives a write. */
  lemma HoldsElsewhere(mem: seq<Byte>, mem': seq<Byte>, tp: nat, m: TlsModule)
    requires Sound(m.info) && Holds(mem, tp, m) && |mem'| == |mem|
    requires forall i :: 0 <= i < |mem| && InBlock(i, tp, m) ==> mem'[i] == mem[i]
    ensures Holds(mem', tp, m)
  {
    assert mem'[tp - m.offset..tp - m.offset + m.info.memsz] == mem[tp - m.offset..tp - m.offset + m.info.memsz];
  }

  lemma AboveAllBlocks(modules: seq<TlsModule>, tp: nat)
    requires Stacked(modules)
    ensures forall i, m :: i >= tp && m in modules ==> !InBlock(i, tp, m)
  {
  }

  /** Writing one block leaves the blocks of earlier modules alone and fills its own. */
  lemma FilledSoFar(modules: seq<TlsModule>, n: nat, tp: nat, before: seq<Byte>, after: seq<Byte>)
    requires Stacked(modules) && n < |modules| && |before| == |after|
    requires forall k :: 0 <= k < n ==> Holds(before, tp, modules[k])
    requires Holds(after, tp, modules[n])
    requires forall i :: 0 <= i < |before| && !InBlock(i, tp, modules[n]) ==> after[i] == before[i]
    ensures forall k :: 0 <= k <= n ==> Holds(after, tp, modules[k])
  {
    forall k | 0 <= k < n
      ensures Holds(after, tp, modules[k])
    {
      assert modules[k] in modules && modules[n] in modules;
      HoldsElsewhere(before, after, tp, modules[k]);
    }
  }

  lemma OneBlock(m: TlsModule, tp: nat, before: seq<Byte>, after: seq<Byte>)
    requires Sound(m.info) && m.info.memsz <= m.offset <= tp <= |before|
    requires after == before[..tp - m.offset] + Contents(m.info) + before[tp - m.offset + m.info.memsz..]
    ensures |after| == |before| && Holds(after, tp, m)
    ensures forall i :: 0 <= i < |before| && !InBlock(i, tp, m) ==> after[i] == before[i]
  {
    assert |Contents(m.info)| == m.info.memsz;
    hide Contents;
    assert after[tp - m.offset..tp - m.offset + m.info.memsz] == Contents(m.info);
  }

  ghost predicate OutsideAll(i: nat, tp: nat, modules: seq<TlsModule>) {
    forall m :: m in modules ==> !InBlock(i, tp, m)
  }

  /** Writes the blocks of all modules, in order; they do not overlap, so each keeps what it got. */
  method InitAll(mem: array<Byte>, tp: nat, modules: seq<TlsModule>)
    requires Stacked(modules) && tp <= mem.Length
    requires forall m :: m in modules ==> m.offset <= tp
    modifies mem
    ensures forall m :: m in modules ==> Holds(mem[..], tp, m)
    ensures forall i :: 0 <= i < mem.Length && OutsideAll(i, tp, modules) ==> mem[i] == old(mem[i])
  {
    for n := 0 to |modules|
      invariant forall k :: 0 <= k < n ==> Holds(mem[..], tp, modules[k])
      invariant forall i :: 0 <= i < mem.Length && OutsideAll(i, tp, modules) ==> mem[i] == old(mem[i])
    {
      ghost var before := mem[..];
      var m := modules[n];
      assert m in modules;
      assert forall i: nat :: OutsideAll(i, tp, modules) ==> !InBlock(i, tp, m);
      hide OutsideAll, InBlock, Contents, Holds;
      InitModule(mem, tp, m);
      OneBlock(m, tp, before, mem[..]);
      FilledSoFar(modules, n, tp, before, mem[..]);
      assert forall i :: 0 <= i < mem.Length && !InBlock(i, tp, m) ==> mem[..][i] == before[i];
    }
  }

  // ---------------------------------------------------------------- placement

  function Max(a: nat, b: nat): nat {
    if a >= b then a else b
  }

  function EffectiveAlign(info: TlsInfo): Option<nat> {
    CheckedNextPowerOfTwo(Max(info.align, 1))
  }

  /** Where the next block goes when `used` bytes are taken: the recurrence of variant II. */
  function NextOffset(used: nat, info: TlsInfo): Option<nat> {
    var align := EffectiveAlign(info);
    if align.None? || align.value == 0 || used + info.memsz >= W then None
    else AlignUp(used + info.memsz, align.value)
  }

  function Used(placed: seq<TlsModule>): nat {
    if placed == [] then 0 else placed[|placed| - 1].offset
  }

  /** tlsoffset(i) = round(tlsoffset(i - 1) + tlssize(i), align(i)), starting from zero. */
  ghost predicate Recurrence(placed: seq<TlsModule>) {
    forall i :: 0 <= i < |placed| ==> PlacedAfter(placed, i)
  }

  ghost predicate PlacedAfter(placed: seq<TlsModule>, i: nat)
    requires i < |placed|
  {
    NextOffset(Used(placed[..i]), placed[i].info) == Some(placed[i].offset)
  }

  lemma EffectiveAlignMeaning(info: TlsInfo)
    ensures var align := EffectiveAlign(info);
            align.Some? ==> IsPow2(align.value) && align.value >= 1 && info.align <= align.value
  {
    assert Pow2(0) == 1;
    DoubledToMeaning(1, 0, Max(info.align, 1));
  }

  lemma NextOffsetMeaning(used: nat, info: TlsInfo)
    ensures var next := NextOffset(used, info);
            next.Some? ==>
              var align := EffectiveAlign(info).value;
              && IsPow2(align) && align >= 1 && next.value % align == 0
              && used + info.memsz <= next.value < used + info.memsz + align
  {
    EffectiveAlignMeaning(info);
    if NextOffset(used, info).Some? {
      AlignUpMeaning(used + info.memsz, EffectiveAlign(info).value);
    }
  }

  /** A module is refused exactly when its alignment has no power of two in 64 bits, or no offset of that
      alignment beyond the bytes taken fits 64 bits. */
  lemma NextOffsetFails(used: nat, info: TlsInfo)
    ensures EffectiveAlign(info).None? <==> info.align > Pow2(63)
    ensures EffectiveAlign(info).Some? ==> EffectiveAlign(info).value > 0
    ensures NextOffset(used, info).None? <==>
              info.align > Pow2(63) ||
              forall r :: used + info.memsz <= r < W ==> !MultipleOf(r, EffectiveAlign(info).value)
  {
    assert Pow2(0) == 1;
    DoubledToFails(1, 0, Max(info.align, 1));
    EffectiveAlignMeaning(info);
    if EffectiveAlign(info).Some? {
      DoubledToAtMost(1, 0, 63, Max(info.align, 1));
      AlignUpFails(used + info.memsz, EffectiveAlign(info).value);
    }
  }

  /** Blocks placed by the recurrence never overlap: each lies below all earlier ones. */
  lemma {:induction false} RecurrenceStacks(placed: seq<TlsModule>)
    requires Recurrence(placed) && forall m :: m in placed ==> Sound(m.info)
    ensures Stacked(placed)
    ensures forall m :: m in placed ==> m.offset <= Used(placed)
  {
    if placed != [] {
      var shorter, n := placed[..|placed| - 1], |placed| - 1;
      forall i | 0 <= i < n
        ensures PlacedAfter(shorter, i)
      {
        assert shorter[..i] == placed[..i] && PlacedAfter(placed, i);
      }
      RecurrenceStacks(shorter);
      assert PlacedAfter(placed, n);
      NextOffsetMeaning(Used(shorter), placed[n].info);
      assert forall m :: m in placed <==> m in shorter || m == placed[n];
      forall i, j | 0 <= i < j < |placed|
        ensures placed[j].offset - placed[j].info.memsz >= placed[i].offset
      {
        assert placed[i] == shorter[i] && shorter[i] in shorter;
      }
    }
  }

  /** The block's address has its alignment exactly when the arena's base has it; the base is only known to
      be page-aligned. */
  lemma ArenaBlockAlignedIff(base: nat, used: nat, info: TlsInfo)
    requires NextOffset(used, info).Some? && NextOffset(used, info).value <= ARENA
    requires EffectiveAlign(info).value <= ARENA
    ensures var align := EffectiveAlign(info).value;
            align > 0 && ((base + ARENA - NextOffset(used, info).value) % align == 0 <==> base % align == 0)
  {
    var align := EffectiveAlign(info).value;
    var offset := NextOffset(used, info).value;
    NextOffsetMeaning(used, info);
    ArenaIsPow2();
    SmallerDivides(align, ARENA);
    DifferenceOfMultiples(ARENA, offset, align);
    ShiftByMultiple(base, ARENA - offset, align);
  }

  lemma ArenaIsPow2()
    ensures IsPow2(ARENA) && IsPow2(ARENA_ALIGN)
  {
    assert Pow2(4) == 16;
    Pow2Sum(4, 4);
    Pow2Sum(8, 4);
    Pow2Sum(12, 8);
    assert Pow2(20) == ARENA && Pow2(12) == ARENA_ALIGN;
  }

  /** Alignments up to a page are always met in the arena. */
  lemma PageAlignmentsAreMet(base: nat, used: nat, info: TlsInfo)
    requires NextOffset(used, info).Some? && NextOffset(used, info).value <= ARENA
    requires base % ARENA_ALIGN == 0 && info.align <= ARENA_ALIGN
    ensures var align := EffectiveAlign(info).value;
            align > 0 && (base + ARENA - NextOffset(used, info).value) % align == 0
  {
    var align := EffectiveAlign(info).value;
    NextOffsetMeaning(used, info);
    ArenaIsPow2();
    PageBound(info);
    SmallerDivides(align, ARENA_ALIGN);
    MultipleOfMultiple(base, ARENA_ALIGN, align);
    ArenaBlockAlignedIff(base, used, info);
  }

  lemma PageBound(info: TlsInfo)
    requires info.align <= ARENA_ALIGN && EffectiveAlign(info).Some?
    ensures EffectiveAlign(info).value <= ARENA_ALIGN
  {
    ArenaIsPow2();
    var k: nat :| Pow2(k) == ARENA_ALIGN;
    DoubledToAtMost(1, 0, k, Max(info.align, 1));
  }

  lemma {:induction false} DoubledToAtMost(p: nat, i: nat, k: nat, n: nat)
    requires p == Pow2(i) && i <= k && n <= Pow2(k)
    ensures DoubledTo(p, n).Some? ==> DoubledTo(p, n).value <= Pow2(k)
    decreases k - i
  {
    if p >= n {
      Pow2Mono(i, k);
    } else if 2 * p < W && i < k {
      DoubledToAtMost(2 * p, i + 1, k, n);
    }
  }

  lemma DifferenceOfMultiples(a: nat, b: nat, d: nat)
    requires d > 0 && a % d == 0 && b % d == 0 && b <= a
    ensures (a - b) % d == 0
  {
    var p, q := a / d, b / d;
    assert a == d * p && b == d * q;
    assert d * (q - p) == d * q - d * p;
    if p < q {
      AtLeastOnce(d, q - p);
    }
    assert a - b == d * (p - q);
    Multiple(d, p - q);
  }

  lemma MultipleOfMultiple(a: nat, b: nat, d: nat)
    requires d > 0 && b > 0 && a % b == 0 && b % d == 0
    ensures a % d == 0
  {
    var p, q := a / b, b / d;
    assert a == b * p && b == d * q;
    assert a == d * (q * p);
    Multiple(d, q * p);
  }

  lemma ShiftByMultiple(x: nat, m: nat, d: nat)
    requires d > 0 && m % d == 0
    ensures (x + m) % d == 0 <==> x % d == 0
  {
    if x % d == 0 {
      var p, q := x / d, m / d;
      assert x + m == d * (p + q);
      Multiple(d, p + q);
    }
    if (x + m) % d == 0 {
      DifferenceOfMultiples(x + m, m, d);
    }
  }

  /** The blocks hold the same bytes in both memories. */
  ghost predicate Untouched(blocks: seq<TlsModule>, tp: nat, before: seq<Byte>, after: seq<Byte>) {
    forall m :: m in blocks ==>
                  && m.info.memsz <= m.offset <= tp <= |before| == |after|
                  && after[tp - m.offset..tp - m.offset + m.info.memsz] == before[tp - m.offset..tp - m.offset + m.info.memsz]
  }

  /** A write below all placed blocks touches none of them, whatever they hold by now. */
  lemma TouchesNoEarlier(placed: seq<TlsModule>, before: seq<Byte>, after: seq<Byte>, m: TlsModule)
    requires Recurrence(placed) && (forall p :: p in placed ==> Sound(p.info)) && Sound(m.info)
    requires |before| == |after| == ARENA && Used(placed) + m.info.memsz <= m.offset && Used(placed) <= ARENA
    requires forall i :: 0 <= i < ARENA && !InBlock(i, ARENA, m) ==> after[i] == before[i]
    ensures Untouched(placed, ARENA, before, after)
  {
    RecurrenceStacks(placed);
    forall p | p in placed
      ensures p.info.memsz <= p.offset <= ARENA
      ensures after[ARENA - p.offset..ARENA - p.offset + p.info.memsz] == before[ARENA - p.offset..ARENA - p.offset + p.info.memsz]
    {
      var from := ARENA - p.offset;
      assert forall i :: from <= i < from + p.info.memsz ==> !InBlock(i, ARENA, m);
    }
  }

  lemma UntouchedHolds(blocks: seq<TlsModule>, tp: nat, before: seq<Byte>, after: seq<Byte>)
    requires Untouched(blocks, tp, before, after) && forall m :: m in blocks ==> Sound(m.info)
    ensures forall m :: m in blocks && Holds(before, tp, m) ==> Holds(after, tp, m)
  {
    hide Contents;
  }

  // ---------------------------------------------------------------- the main arena

  ghost predicate Aligned(placed: seq<TlsModule>, maxAlign: nat) {
    && IsPow2(maxAlign) && maxAlign >= 1
    && (forall m :: m in placed ==>
          Sound(m.info) && EffectiveAlign(m.info).Some? && EffectiveAlign(m.info).value <= maxAlign)
  }

  /** `modules` are some of the placed ones, in order; `rank` says which. */
  ghost predicate Ranked(rank: seq<nat>, modules: seq<TlsModule>, placed: seq<TlsModule>) {
    && |rank| == |modules|
    && (forall i :: 0 <= i < |rank| ==> rank[i] < |placed| && modules[i] == placed[rank[i]])
    && (forall i, j :: 0 <= i < j < |rank| ==> rank[i] < rank[j])
  }

  lemma AppendAligned(placed: seq<TlsModule>, maxAlign: nat, m: TlsModule)
    requires Aligned(placed, maxAlign) && Sound(m.info) && EffectiveAlign(m.info).Some?
    ensures Aligned(placed + [m], Max(maxAlign, EffectiveAlign(m.info).value))
  {
    EffectiveAlignMeaning(m.info);
    hide EffectiveAlign, IsPow2;
  }

  lemma AppendRanked(rank: seq<nat>, modules: seq<TlsModule>, placed: seq<TlsModule>, m: TlsModule)
    requires Ranked(rank, modules, placed)
    ensures Ranked(rank, modules, placed + [m]) && Ranked(rank + [|placed|], modules + [m], placed + [m])
  {
  }

  ghost predicate AllHold(mem: seq<Byte>, placed: seq<TlsModule>) {
    forall m :: m in placed ==> Sound(m.info) && Holds(mem, ARENA, m)
  }

  lemma AllHoldAfter(before: seq<Byte>, after: seq<Byte>, placed: seq<TlsModule>, m: TlsModule)
    requires Untouched(placed, ARENA, before, after) && Sound(m.info) && Holds(after, ARENA, m)
    ensures AllHold(before, placed) ==> AllHold(after, placed) && AllHold(after, placed + [m])
  {
    hide Contents;
    if AllHold(before, placed) {
      UntouchedHolds(placed, ARENA, before, after);
    }
    hide Holds, Untouched;
  }

  /** `placed` are all blocks ever placed; `modules` those whose module the resolver accepted. */
  class StaticTlsArea {
    const arena: array<Byte>
    var used: nat
    var maxAlign: nat
    var modules: seq<TlsModule>
    ghost var placed: seq<TlsModule>
    ghost var rank: seq<nat>

    ghost predicate Valid()
      reads this
    {
      && arena.Length == ARENA
      && Recurrence(placed) && used == Used(placed) <= ARENA
      && Aligned(placed, maxAlign)
      && Ranked(rank, modules, placed)
    }

    /** Every block still holds what its registration wrote. */
    ghost predicate Intact()
      requires Valid()
      reads this, arena
    {
      AllHold(arena[..], placed)
    }

    constructor ()
      ensures Valid() && fresh(arena) && placed == [] && modules == [] && used == 0 && Intact()
    {
      arena := new Byte[ARENA](_ => 0);
      used, maxAlign, modules, placed, rank := 0, 1, [], [], [];
      new;
      assert Pow2(0) == 1;
    }

    /** `accepted` is the resolver's answer; a refusal comes after the block has been placed. The program may
        have written its thread-locals in the earlier blocks by now: they stay as they are. */
    method RegisterStaticModule(info: TlsInfo, accepted: bool) returns (offset: Option<nat>)
      requires Valid() && Sound(info)
      modifies this, arena
      ensures Valid() && (old(Intact()) ==> Intact())
      ensures Untouched(old(placed), ARENA, old(arena[..]), arena[..])
      ensures var next := NextOffset(old(used), info);
              if next.None? || next.value > ARENA then
                offset == None && placed == old(placed) && modules == old(modules) && maxAlign == old(maxAlign) &&
                arena[..] == old(arena[..])
              else
                var m := TlsModule(info, next.value);
                && placed == old(placed) + [m]
                && modules == old(modules) + (if accepted then [m] else [])
                && maxAlign == Max(old(maxAlign), EffectiveAlign(info).value)
                && offset == (if accepted then Some(next.value) else None)
                && Holds(arena[..], ARENA, m)
                && (forall i :: 0 <= i < ARENA && !InBlock(i, ARENA, m) ==> arena[i] == old(arena[i]))
    {
      var align := CheckedNextPowerOfTwo(Max(info.align, 1));
      EffectiveAlignMeaning(info);
      RecurrenceStacks(placed);
      hide Recurrence, DoubledTo, IsPow2;
      if align.None? {
        return None;
      }
      if used + info.memsz >= W {
        return None;
      }
      var next := AlignUp(used + info.memsz, align.value);
      if next.None? {
        return None;
      }
      if next.value > ARENA {
        return None;
      }
      PlaceBlock(TlsModule(info, next.value), align.value, accepted);
      return if accepted then Some(next.value) else None;
    }

    /** The block is written and counted even if the resolver then refuses the module. */
    method PlaceBlock(m: TlsModule, align: nat, accepted: bool)
      requires Valid() && Sound(m.info)
      requires NextOffset(used, m.info) == Some(m.offset) && m.offset <= ARENA
      requires EffectiveAlign(m.info) == Some(align)
      modifies this, arena
      ensures Valid() && (old(Intact()) ==> Intact()) && Holds(arena[..], ARENA, m)
      ensures Untouched(old(placed), ARENA, old(arena[..]), arena[..])
      ensures placed == old(placed) + [m] && modules == old(modules) + (if accepted then [m] else [])
      ensures maxAlign == Max(old(maxAlign), align)
      ensures forall i :: 0 <= i < ARENA && !InBlock(i, ARENA, m) ==> arena[i] == old(arena[i])
    {
      NextOffsetMeaning(used, m.info);
      AppendPlaced(m);
      AppendAligned(placed, maxAlign, m);
      AppendRanked(rank, modules, placed, m);
      ghost var before := arena[..];
      hide NextOffset, EffectiveAlign, Recurrence, IsPow2, Holds, Untouched, InBlock, Aligned, Ranked, Max, AllHold, Sound;
      WriteBlock(m);
      AllHoldAfter(before, arena[..], placed, m);
      used := m.offset;
      maxAlign := Max(maxAlign, align);
      placed := placed + [m];
      if accepted {
        rank := rank + [|placed| - 1];
        modules := modules + [m];
      }
    }

    method WriteBlock(m: TlsModule)
      requires Valid() && Sound(m.info)
      requires used + m.info.memsz <= m.offset <= ARENA
      modifies arena
      ensures Valid() && (old(Intact()) ==> Intact()) && Holds(arena[..], ARENA, m)
      ensures Untouched(placed, ARENA, old(arena[..]), arena[..])
      ensures forall i :: 0 <= i < ARENA && !InBlock(i, ARENA, m) ==> arena[i] == old(arena[i])
    {
      ghost var before := arena[..];
      InitModule(arena, ARENA, m);
      OneBlock(m, ARENA, before, arena[..]);
      hide Holds, InBlock, Contents, Untouched, Recurrence, AllHold;
      assert forall i :: 0 <= i < ARENA && !InBlock(i, ARENA, m) ==> arena[..][i] == before[i];
      TouchesNoEarlier(placed, before, arena[..], m);
      AllHoldAfter(before, arena[..], placed, m);
    }

    lemma AppendPlaced(m: TlsModule)
      requires Valid() && NextOffset(used, m.info) == Some(m.offset)
      ensures Recurrence(placed + [m])
    {
      var longer := placed + [m];
      forall i | 0 <= i < |longer|
        ensures PlacedAfter(longer, i)
      {
        if i < |placed| {
          assert longer[..i] == placed[..i] && PlacedAfter(placed, i);
        } else {
          assert longer[..i] == placed;
        }
      }
    }

    /** The accepted modules are stacked like all placed blocks. */
    lemma ModulesStacked()
      requires Valid()
      ensures Stacked(modules)
      ensures forall m :: m in modules ==> m in placed && m.offset <= used
    {
      RecurrenceStacks(placed);
      forall m | m in modules
        ensures m in placed
      {
        var i :| 0 <= i < |modules| && modules[i] == m;
        assert m == placed[rank[i]];
      }
      forall i, j | 0 <= i < j < |modules|
        ensures modules[j].offset - modules[j].info.memsz >= modules[i].offset
      {
        assert rank[i] < rank[j];
      }
    }

    /** Start-up code may have run in between: refreshing restores every accepted module's block. */
    method RefreshStaticTls()
      requires Valid()
      modifies arena
      ensures Valid()
      ensures forall m :: m in modules ==> Holds(arena[..], ARENA, m)
    {
      ModulesStacked();
      InitAll(arena, ARENA, modules);
    }

    /** Thread storage with the blocks of all accepted modules below its thread pointer `tp`. The storage
        must have been sized after the last registration. */
    method InitThread(storage: array<Byte>, tp: nat)
      requires Valid() && storage != arena && used <= tp <= storage.Length
      modifies storage
      ensures forall m :: m in modules ==> Holds(storage[..], tp, m)
      ensures storage[tp..] == old(storage[tp..])
    {
      ModulesStacked();
      InitAll(storage, tp, modules);
      AboveAllBlocks(modules, tp);
    }
  }

  // ---------------------------------------------------------------- thread storage

  const ISIZE_MAX: nat := 0x7FFF_FFFF_FFFF_FFFF

  /** Size and alignment of a thread's storage and where its thread pointer lies in it. */
  datatype Layout = Layout(size: nat, align: nat, tp: nat)

  function StorageLayout(used: nat, maxAlign: nat, tcbSize: nat, tcbAlign: nat): Option<Layout> {
    var align := CheckedNextPowerOfTwo(Max(Max(maxAlign, tcbAlign), WORD_ALIGN));
    if align.None? || align.value == 0 then None
    else
      var static' := AlignUp(used, align.value);
      if static'.None? || static'.value + tcbSize >= W then None
      else
        var size := Max(static'.value + tcbSize, 1);
        if size + (align.value - 1) > ISIZE_MAX then None
        else Some(Layout(size, align.value, static'.value))
  }

  /** What thread storage needs: an alignment for every module, the thread control block and a word; that
      alignment at the thread pointer, with all blocks below it; and a size the allocator takes. */
  ghost predicate Meets(used: nat, maxAlign: nat, tcbSize: nat, tcbAlign: nat, align: nat, tp: nat) {
    && IsPow2(align) && align >= maxAlign && align >= tcbAlign && align >= WORD_ALIGN
    && tp >= used && align > 0 && tp % align == 0
    && Max(tp + tcbSize, 1) + (align - 1) <= ISIZE_MAX
  }

  /** There is a layout exactly when some alignment and thread pointer meet the needs, and then it is the one
      with the least of both. */
  lemma StorageLayoutIsLeast(used: nat, maxAlign: nat, tcbSize: nat, tcbAlign: nat, align: nat, tp: nat)
    ensures var layout := StorageLayout(used, maxAlign, tcbSize, tcbAlign);
            && (layout.Some? ==>
                  && Meets(used, maxAlign, tcbSize, tcbAlign, layout.value.align, layout.value.tp)
                  && layout.value.size == Max(layout.value.tp + tcbSize, 1))
            && (Meets(used, maxAlign, tcbSize, tcbAlign, align, tp) ==>
                  layout.Some? && layout.value.align <= align && layout.value.tp <= tp)
  {
    var need := Max(Max(maxAlign, tcbAlign), WORD_ALIGN);
    assert Pow2(0) == 1;
    DoubledToMeaning(1, 0, need);
    var least := CheckedNextPowerOfTwo(need);
    if least.Some? && least.value > 0 {
      AlignUpMeaning(used, least.value);
    }
    if Meets(used, maxAlign, tcbSize, tcbAlign, align, tp) {
      LeastPowerOfTwo(need, align);
      LeastMultiple(used, least.value, align, tp);
    }
  }

  /** The thread control block, which starts at the thread pointer, is aligned. */
  lemma ControlBlockAligned(used: nat, maxAlign: nat, tcbSize: nat, tcbAlign: nat, base: nat)
    requires IsPow2(tcbAlign) && tcbAlign > 0 && StorageLayout(used, maxAlign, tcbSize, tcbAlign).Some?
    requires base % StorageLayout(used, maxAlign, tcbSize, tcbAlign).value.align == 0
    ensures (base + StorageLayout(used, maxAlign, tcbSize, tcbAlign).value.tp) % tcbAlign == 0
  {
    var layout := StorageLayout(used, maxAlign, tcbSize, tcbAlign).value;
    StorageLayoutIsLeast(used, maxAlign, tcbSize, tcbAlign, 0, 0);
    hide StorageLayout;
    SmallerDivides(tcbAlign, layout.align);
    MultipleOfMultiple(base, layout.align, tcbAlign);
    MultipleOfMultiple(layout.tp, layout.align, tcbAlign);
    ShiftByMultiple(base, layout.tp, tcbAlign);
  }

  lemma LeastPowerOfTwo(n: nat, align: nat)
    requires IsPow2(align) && n <= align <= ISIZE_MAX
    ensures var least := CheckedNextPowerOfTwo(n);
            least.Some? && IsPow2(least.value) && 1 <= least.value <= align
  {
    assert Pow2(0) == 1;
    Pow2Of64();
    assert Pow2(64) == 2 * Pow2(63);
    DoubledToFails(1, 0, n);
    DoubledToMeaning(1, 0, n);
    var least := CheckedNextPowerOfTwo(n).value;
    if align < least {
      NextPowerDoubles(align, least);
    }
  }

  lemma NextPowerDoubles(a: nat, b: nat)
    requires IsPow2(a) && IsPow2(b) && a < b
    ensures 2 * a <= b
  {
    var i: nat :| Pow2(i) == a;
    var j: nat :| Pow2(j) == b;
    if j <= i {
      Pow2Mono(j, i);
    }
    Pow2Mono(i + 1, j);
  }

  lemma LeastMultiple(used: nat, least: nat, align: nat, tp: nat)
    requires IsPow2(least) && IsPow2(align) && 1 <= least <= align <= ISIZE_MAX
    requires used <= tp <= ISIZE_MAX && tp % align == 0
    ensures AlignUp(used, least).Some? && AlignUp(used, least).value <= tp
  {
    AlignUpMeaning(used, least);
    SmallerDivides(least, align);
    MultipleOfMultiple(tp, align, least);
    var up := AlignUp(used, least).value;
    if tp < up {
      GapOfMultiples(tp, up, least);
    }
  }

  /** Storage laid out after the last registration has room below the thread pointer for every module, room
      above it for the thread control block, and every block at an address of its alignment. */
  lemma StorageFits(area: StaticTlsArea, tcbSize: nat, tcbAlign: nat, base: nat, m: TlsModule)
    requires area.Valid() && StorageLayout(area.used, area.maxAlign, tcbSize, tcbAlign).Some?
    requires base % StorageLayout(area.used, area.maxAlign, tcbSize, tcbAlign).value.align == 0
    requires m in area.placed
    ensures var layout := StorageLayout(area.used, area.maxAlign, tcbSize, tcbAlign).value;
            && area.used <= layout.tp && layout.tp + tcbSize <= layout.size
            && m.offset <= layout.tp
            && EffectiveAlign(m.info).value > 0
            && (base + layout.tp - m.offset) % EffectiveAlign(m.info).value == 0
  {
    var layout := StorageLayout(area.used, area.maxAlign, tcbSize, tcbAlign).value;
    var align := EffectiveAlign(m.info).value;
    AlignUpMeaning(area.used, layout.align);
    assert Pow2(0) == 1;
    DoubledToMeaning(1, 0, Max(Max(area.maxAlign, tcbAlign), WORD_ALIGN));
    RecurrenceStacks(area.placed);
    PlacedAligned(area.placed, m);
    SmallerDivides(align, layout.align);
    MultipleOfMultiple(base, layout.align, align);
    MultipleOfMultiple(layout.tp, layout.align, align);
    DifferenceOfMultiples(layout.tp, m.offset, align);
    ShiftByMultiple(base, layout.tp - m.offset, align);
  }

  lemma PlacedAligned(placed: seq<TlsModule>, m: TlsModule)
    requires Recurrence(placed) && m in placed && EffectiveAlign(m.info).Some?
    ensures var align := EffectiveAlign(m.info).value;
            IsPow2(align) && align >= 1 && m.offset % align == 0
  {
    var i :| 0 <= i < |placed| && placed[i] == m;
    assert PlacedAfter(placed, i);
    NextOffsetMeaning(Used(placed[..i]), m.info);
  }

  datatype Allocation = Allocation(tp: nat, base: nat, layout: Layout)

  /** The thread storages handed out and not yet given back. */
  class TlsAllocations {
    var allocations: seq<Allocation>

    constructor ()
      ensures allocations == []
    {
      allocations := [];
    }

    /** `base` is the allocator's answer. */
    method AllocateStorage(area: StaticTlsArea, tcbSize: nat, tcbAlign: nat, base: nat) returns (tp: Option<nat>)
      modifies this
      ensures var layout := StorageLayout(area.used, area.maxAlign, tcbSize, tcbAlign);
              if layout.None? then tp == None && allocations == old(allocations)
              else && tp == Some(base + layout.value.tp)
                   && allocations == old(allocations) + [Allocation(base + layout.value.tp, base, layout.value)]
    {
      var align := CheckedNextPowerOfTwo(Max(Max(area.maxAlign, tcbAlign), WORD_ALIGN));
      if align.None? || align.value == 0 {
        return None;
      }
      var staticSize := AlignUp(area.used, align.value);
      if staticSize.None? || staticSize.value + tcbSize >= W {
        return None;
      }
      var size := Max(staticSize.value + tcbSize, 1);
      if size + (align.value - 1) > ISIZE_MAX {
        return None;
      }
      var at := base + staticSize.value;
      allocations := allocations + [Allocation(at, base, Layout(size, align.value, staticSize.value))];
      return Some(at);
    }

    /** Gives back the first storage with this thread pointer; the last one takes its place in the list. */
    method Deallocate(storage: nat, deallocTcb: bool) returns (freed: Option<Allocation>)
      modifies this
      ensures freed.Some? <==> deallocTcb && storage != 0 && exists a :: a in old(allocations) && a.tp == storage
      ensures freed.Some? ==> freed.value.tp == storage
      ensures multiset(old(allocations)) == multiset(allocations) + (if freed.Some? then multiset{freed.value} else multiset{})
    {
      if !deallocTcb || storage == 0 {
        return None;
      }
      var index := 0;
      while index < |allocations| && allocations[index].tp != storage
        invariant index <= |allocations|
        invariant forall i :: 0 <= i < index ==> allocations[i].tp != storage
      {
        index := index + 1;
      }
      if index == |allocations| {
        return None;
      }
      var last := |allocations| - 1;
      freed := Some(allocations[index]);
      SwapRemoveKeeps(allocations, index);
      allocations := allocations[index := allocations[last]][..last];
    }
  }

  lemma SwapRemoveKeeps(s: seq<Allocation>, index: nat)
    requires index < |s|
    ensures multiset(s) == multiset(s[index := s[|s| - 1]][..|s| - 1]) + multiset{s[index]}
  {
    var last := |s| - 1;
    assert s == s[..last] + [s[last]];
    if index < last {
      assert s[index := s[last]][..last] == s[..last][index := s[last]];
      assert s[..last] == s[..index] + [s[index]] + s[index + 1..last];
      assert s[..last][index := s[last]] == s[..index] + [s[last]] + s[index + 1..last];
    } else {
      assert s[index := s[last]][..last] == s[..last];
    }
  }
}
