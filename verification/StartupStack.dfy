/** The initial process stack (rtld/impl/src/bootstrap.rs, src/rtld.rs): argument count, arguments,
    environment and auxiliary vector, rewritten in place for the program that a directly invoked loader is
    to run. Addresses are word indices into the stack array. */
module StartupStack {
  import opened Arithmetic

  type Word = x: nat | x < W

  datatype Aux = Aux(kind: Word, value: Word)

  /** What a stack image says; `last` is the word after AT_NULL. */
  datatype Layout = Layout(argv: seq<Word>, envp: seq<Word>, aux: seq<Aux>, last: Word)

  const AT_NULL: Word := 0
  const AT_PHDR: Word := 3
  const AT_PHENT: Word := 4
  const AT_PHNUM: Word := 5
  const AT_PAGESZ: Word := 6
  const AT_BASE: Word := 7
  const AT_ENTRY: Word := 9
  const AT_PLATFORM: Word := 15
  const AT_HWCAP: Word := 16
  const AT_CLKTCK: Word := 17
  const AT_FPUCW: Word := 18
  const AT_SECURE: Word := 23
  const AT_HWCAP2: Word := 26
  const AT_HWCAP3: Word := 29
  const AT_HWCAP4: Word := 30
  const AT_EXECFN: Word := 31
  const AT_SYSINFO_EHDR: Word := 33
  const AT_MINSIGSTKSZ: Word := 51

  ghost predicate WellFormed(l: Layout) {
    && |l.argv| < W
    && (forall e :: e in l.envp ==> e != 0)
    && (forall a :: a in l.aux ==> a.kind != AT_NULL)
  }

  function AuxWords(aux: seq<Aux>): (r: seq<Word>)
    ensures |r| == 2 * |aux|
    ensures forall i :: 0 <= i < |aux| ==> r[2 * i] == aux[i].kind && r[2 * i + 1] == aux[i].value
  {
    if aux == [] then []
    else AuxWords(aux[..|aux| - 1]) + [aux[|aux| - 1].kind, aux[|aux| - 1].value]
  }

  /** Everything after the arguments. */
  function Tail(l: Layout): seq<Word> {
    [0] + l.envp + [0] + AuxWords(l.aux) + [AT_NULL, l.last]
  }

  function Image(l: Layout): seq<Word>
    requires |l.argv| < W
  {
    [|l.argv| as Word] + l.argv + Tail(l)
  }

  function EnvAt(l: Layout): nat {
    |l.argv| + 2
  }

  function AuxAt(l: Layout): nat {
    EnvAt(l) + |l.envp| + 1
  }

  /** The stack holds the layout, possibly followed by other data. */
  ghost predicate Shows(words: seq<Word>, l: Layout) {
    WellFormed(l) && Image(l) <= words
  }

  function KindAt(words: seq<Word>, at: nat, n: nat): Word
    requires at + 2 * n < |words|
  {
    words[at + 2 * n]
  }

  function ValueAt(words: seq<Word>, at: nat, n: nat): Word
    requires at + 2 * n + 1 < |words|
  {
    words[at + 2 * n + 1]
  }

  // ---------------------------------------------------------------- sequences put together

  lemma TwoParts<T>(a: seq<T>, b: seq<T>)
    ensures forall i :: 0 <= i < |a| ==> (a + b)[i] == a[i]
    ensures forall i :: |a| <= i < |a| + |b| ==> (a + b)[i] == b[i - |a|]
    ensures a <= a + b
  {
  }

  /** Head, first list, separator, second list, separator, third list, end. */
  lemma ImageParts<T>(head: T, first: seq<T>, zero: T, second: seq<T>, third: seq<T>, end: seq<T>)
    ensures var image := [head] + first + ([zero] + second + [zero] + third + end);
            var at := |first| + |second| + 3;
            && |image| == at + |third| + |end|
            && image[0] == head
            && (forall i :: 1 <= i <= |first| ==> image[i] == first[i - 1])
            && (forall i :: |first| + 2 <= i < at - 1 ==> image[i] == second[i - |first| - 2])
            && image[at - 1] == zero
            && (forall i :: at <= i < at + |third| ==> image[i] == third[i - at])
            && (forall i :: at + |third| <= i < |image| ==> image[i] == end[i - at - |third|])
  {
    var tail := [zero] + second + [zero] + third + end;
    TwoParts([head] + first, tail);
    TwoParts([head], first);
    TwoParts([zero] + second + [zero] + third, end);
    TwoParts([zero] + second + [zero], third);
    TwoParts([zero] + second, [zero]);
    TwoParts([zero], second);
  }

  lemma ImageWords(l: Layout)
    requires |l.argv| < W
    ensures |Image(l)| == AuxAt(l) + 2 * |l.aux| + 2 && Image(l)[0] == |l.argv|
    ensures forall i :: 1 <= i <= |l.argv| ==> Image(l)[i] == l.argv[i - 1]
    ensures forall i :: EnvAt(l) <= i < AuxAt(l) - 1 ==> Image(l)[i] == l.envp[i - EnvAt(l)]
    ensures Image(l)[AuxAt(l) - 1] == 0
    ensures forall i :: AuxAt(l) <= i < AuxAt(l) + 2 * |l.aux| ==> Image(l)[i] == AuxWords(l.aux)[i - AuxAt(l)]
    ensures Image(l)[AuxAt(l) + 2 * |l.aux|] == AT_NULL && Image(l)[AuxAt(l) + 2 * |l.aux| + 1] == l.last
  {
    ImageParts(|l.argv| as Word, l.argv, 0, l.envp, AuxWords(l.aux), [AT_NULL, l.last]);
    hide AuxWords;
  }

  lemma AuxWordsAt(aux: seq<Aux>, n: nat)
    requires n < |aux|
    ensures AuxWords(aux)[2 * n] == aux[n].kind && AuxWords(aux)[2 * n + 1] == aux[n].value
  {
    hide AuxWords;
  }

  /** The entries of `aux` start at `auxv`, with AT_NULL behind them. */
  ghost predicate HoldsAux(words: seq<Word>, auxv: nat, aux: seq<Aux>) {
    && auxv + 2 * |aux| < |words| && words[auxv + 2 * |aux|] == AT_NULL
    && forall n :: 0 <= n < |aux| ==> KindAt(words, auxv, n) == aux[n].kind != AT_NULL && ValueAt(words, auxv, n) == aux[n].value
  }

  /** The words of a stack that shows `l`, part by part. */
  lemma ShownWords(words: seq<Word>, l: Layout)
    requires Shows(words, l)
    ensures |words| >= AuxAt(l) + 2 * |l.aux| + 2 == |Image(l)|
    ensures words[0] == |l.argv| && words[1..|l.argv| + 1] == l.argv
    ensures words[EnvAt(l)..AuxAt(l) - 1] == l.envp && words[AuxAt(l) - 1] == 0
    ensures forall i :: EnvAt(l) <= i < AuxAt(l) - 1 ==> words[i] != 0
    ensures HoldsAux(words, AuxAt(l), l.aux)
    ensures words[AuxAt(l) + 2 * |l.aux| + 1] == l.last
  {
    var image := Image(l);
    ImageWords(l);
    hide Image, AuxWords;
    assert forall i :: 0 <= i < |image| ==> words[i] == image[i];
    forall i | EnvAt(l) <= i < AuxAt(l) - 1
      ensures words[i] != 0
    {
      assert words[i] == image[i] == l.envp[i - EnvAt(l)];
      assert l.envp[i - EnvAt(l)] in l.envp;
    }
    forall n | 0 <= n < |l.aux|
      ensures KindAt(words, AuxAt(l), n) == l.aux[n].kind != AT_NULL
      ensures ValueAt(words, AuxAt(l), n) == l.aux[n].value
    {
      assert l.aux[n] in l.aux;
      AuxWordsAt(l.aux, n);
      assert words[AuxAt(l) + 2 * n] == image[AuxAt(l) + 2 * n];
      assert words[AuxAt(l) + 2 * n + 1] == image[AuxAt(l) + 2 * n + 1];
    }
  }

  lemma SameArguments(words: seq<Word>, a: Layout, b: Layout)
    requires Shows(words, a) && Shows(words, b)
    ensures a.argv == b.argv && EnvAt(a) == EnvAt(b)
  {
    ShownWords(words, a);
    ShownWords(words, b);
    hide Shows, Image, AuxWords, HoldsAux;
  }

  lemma SameEnvironment(words: seq<Word>, a: Layout, b: Layout)
    requires Shows(words, a) && Shows(words, b)
    ensures a.envp == b.envp
  {
    SameArguments(words, a, b);
    ShownWords(words, a);
    ShownWords(words, b);
    EnvEnds(words, EnvAt(a), AuxAt(a) - 1, AuxAt(b) - 1);
    hide Shows, Image, AuxWords, HoldsAux;
  }

  /** A stack says one thing: re-parsing it gives back the layout it was built from. */
  lemma ShowsOne(words: seq<Word>, a: Layout, b: Layout)
    requires Shows(words, a) && Shows(words, b)
    ensures a == b
  {
    SameArguments(words, a, b);
    SameEnvironment(words, a, b);
    assert AuxAt(a) == AuxAt(b);
    ShownWords(words, a);
    ShownWords(words, b);
    AuxOnce(words, AuxAt(a), a.aux, b.aux);
    hide Shows, Image, AuxWords, HoldsAux;
  }

  lemma EnvEnds(words: seq<Word>, from: nat, e: nat, f: nat)
    requires from <= e < |words| && from <= f < |words| && words[e] == 0 == words[f]
    requires forall i :: from <= i < e ==> words[i] != 0
    requires forall i :: from <= i < f ==> words[i] != 0
    ensures e == f
  {
  }

  lemma AuxOnce(words: seq<Word>, auxv: nat, a: seq<Aux>, b: seq<Aux>)
    requires HoldsAux(words, auxv, a) && HoldsAux(words, auxv, b)
    ensures a == b
  {
    assert forall n :: 0 <= n < |a| ==> KindAt(words, auxv, n) != AT_NULL;
    assert forall n :: 0 <= n < |b| ==> KindAt(words, auxv, n) != AT_NULL;
    assert KindAt(words, auxv, |a|) == AT_NULL == KindAt(words, auxv, |b|);
    forall n | 0 <= n < |a|
      ensures a[n] == b[n]
    {
      assert KindAt(words, auxv, n) == a[n].kind && ValueAt(words, auxv, n) == a[n].value;
    }
  }

  // ---------------------------------------------------------------- the rewrite

  /** What the program is to see: the arguments from number k on, its own name replaced if `argv0` is given. */
  function ForProgram(l: Layout, k: nat, argv0: Word): Layout
    requires k < |l.argv|
  {
    l.(argv := if argv0 != 0 then l.argv[k..][0 := argv0] else l.argv[k..])
  }

  /** Indices of the four parts of the new stack, and the program path. */
  datatype Rewritten = Rewritten(argc: nat, argv: nat, envp: nat, auxv: nat, execPath: Word)

  /** Scans for the word after the next zero. */
  method AfterNull(stack: array<Word>, from: nat, ghost end: nat) returns (next: nat)
    requires from <= end < stack.Length && stack[end] == 0
    requires forall i :: from <= i < end ==> stack[i] != 0
    ensures next == end + 1
  {
    next := from;
    while stack[next] != 0
      invariant from <= next <= end
      decreases end - next
    {
      next := next + 1;
    }
    next := next + 1;
  }

  /** The first `index` words are copied down from `src` to `dst`; nothing else has changed. */
  ghost function CopiedDown<T>(before: seq<T>, dst: nat, src: nat, index: nat): seq<T>
    requires dst <= src && src + index <= |before|
  {
    before[..dst] + before[src..src + index] + before[dst + index..]
  }

  lemma CopyStep<T>(before: seq<T>, dst: nat, src: nat, index: nat)
    requires dst <= src && src + index < |before|
    ensures var words := CopiedDown(before, dst, src, index);
            && |words| == |before| && words[src + index] == before[src + index]
            && words[dst + index := before[src + index]] == CopiedDown(before, dst, src, index + 1)
  {
  }

  lemma NothingCopied<T>(before: seq<T>, dst: nat, src: nat)
    requires dst <= src <= |before|
    ensures CopiedDown(before, dst, src, 0) == before
  {
  }

  /** The copy runs upwards, so it is right although source and destination overlap. */
  method MoveDown(stack: array<Word>, dst: nat, src: nat, count: nat)
    requires dst <= src && src + count <= stack.Length
    modifies stack
    ensures stack[..] == CopiedDown(old(stack[..]), dst, src, count)
  {
    ghost var before := stack[..];
    NothingCopied(before, dst, src);
    hide CopiedDown;
    var index := 0;
    while index < count
      invariant index <= count && stack[..] == CopiedDown(before, dst, src, index)
    {
      CopyStep(before, dst, src, index);
      assert stack[src + index] == stack[..][src + index];
      stack[dst + index] := stack[src + index];
      index := index + 1;
    }
  }

  lemma DropFront<T>(head: T, argv: seq<T>, tail: seq<T>, k: nat)
    requires k < |argv|
    ensures ([head] + argv + tail)[1 + k..] == argv[k..] + tail
  {
    assert ([head] + argv + tail)[1..] == argv + tail;
    assert (argv + tail)[k..] == argv[k..] + tail;
  }

  lemma ReplaceFirst<T>(argv: seq<T>, tail: seq<T>, v: T)
    requires |argv| > 0
    ensures (argv + tail)[0 := v] == argv[0 := v] + tail
  {
  }

  /** The image of the program's view, in terms of the old image's parts. */
  lemma ProgramImage(l: Layout, k: nat, argv0: Word)
    requires WellFormed(l) && k < |l.argv|
    ensures var goal := ForProgram(l, k, argv0);
            var kept := l.argv[k..];
            && WellFormed(goal) && |goal.argv| == |l.argv| - k
            && goal.argv == (if argv0 != 0 then kept[0 := argv0] else kept)
            && Tail(goal) == Tail(l)
            && Image(goal) == [|l.argv| - k] + goal.argv + Tail(l)
  {
    hide AuxWords;
  }

  /** The first word replaced, if there is a replacement. */
  function NamedFirst(words: seq<Word>, argv0: Word): seq<Word>
    requires words != []
  {
    if argv0 != 0 then words[0 := argv0] else words
  }

  lemma NamedMoved(l: Layout, k: nat, argv0: Word)
    requires WellFormed(l) && k < |l.argv|
    ensures var moved := Image(l)[1 + k..];
            && moved != [] && moved[0] == l.argv[k]
            && NamedFirst(moved, argv0) == ForProgram(l, k, argv0).argv + Tail(l)
  {
    DropFront(|l.argv| as Word, l.argv, Tail(l), k);
    ReplaceFirst(l.argv[k..], Tail(l), argv0);
    hide AuxWords, Tail, WellFormed;
  }

  lemma Regroup<T>(a: seq<T>, b: seq<T>, c: seq<T>, rest: seq<T>)
    ensures a + b + c <= a + (b + c) + rest
  {
    assert a + b + c == a + (b + c);
  }

  /** The tail of an image moved down behind the new count is the image the program is to see. */
  lemma MovedImage(l: Layout, k: nat, argv0: Word, rest: seq<Word>)
    requires WellFormed(l) && k < |l.argv|
    ensures Image(l)[1 + k..] != [] && Image(l)[1 + k] == l.argv[k]
    ensures Shows([|l.argv| - k] + NamedFirst(Image(l)[1 + k..], argv0) + rest, ForProgram(l, k, argv0))
  {
    NamedMoved(l, k, argv0);
    ProgramImage(l, k, argv0);
    var count: Word := |l.argv| - k;
    Regroup([count], ForProgram(l, k, argv0).argv, Tail(l), rest);
    hide AuxWords, Tail, WellFormed, ForProgram, NamedFirst, Image;
  }

  method RewriteInitialStack(stack: array<Word>, argc: nat, argvIndex: nat, argv0: Word, ghost l: Layout)
    returns (r: Rewritten)
    requires Shows(stack[..], l) && argc == |l.argv| && argvIndex < argc
    modifies stack
    ensures Shows(stack[..], ForProgram(l, argvIndex, argv0))
    ensures r.argc == argc - argvIndex && r.argv == 1
    ensures r.envp == EnvAt(ForProgram(l, argvIndex, argv0)) && r.auxv == AuxAt(ForProgram(l, argvIndex, argv0))
    ensures r.execPath == l.argv[argvIndex]
  {
    hide Image, ForProgram, Shows, WellFormed, AuxWords, AuxAt, EnvAt;
    assert argc < W && argc + 2 == EnvAt(l) by { CountFits(stack[..], l); }
    var newArgc := argc - argvIndex;
    var end := OldEnd(stack, argc, l);
    var execPath := ShowProgram(stack, argvIndex, end, newArgc, argv0, l);
    var auxv := FirstAux(stack, newArgc + 2, ForProgram(l, argvIndex, argv0));
    r := Rewritten(newArgc, 1, newArgc + 2, auxv, execPath);
  }

  lemma CountFits(words: seq<Word>, l: Layout)
    requires Shows(words, l)
    ensures |l.argv| < W && EnvAt(l) == |l.argv| + 2
  {
    hide Image;
  }

  /** The writes, with what they achieve. */
  method ShowProgram(stack: array<Word>, k: nat, end: nat, newArgc: nat, argv0: Word, ghost l: Layout)
    returns (execPath: Word)
    requires Shows(stack[..], l) && k < |l.argv| && newArgc == |l.argv| - k && end == AuxAt(l) + 2 * |l.aux| + 2
    modifies stack
    ensures Shows(stack[..], ForProgram(l, k, argv0)) && EnvAt(ForProgram(l, k, argv0)) == newArgc + 2
    ensures execPath == l.argv[k]
  {
    ghost var before := stack[..];
    RewrittenImage(before, l, k, argv0);
    hide Image, ForProgram, Shows, WellFormed, ProgramWords, AuxWords, AuxAt, EnvAt, NamedFirst, Tail, CopiedDown;
    execPath := MoveProgram(stack, k, end, newArgc, argv0);
  }

  method OldEnd(stack: array<Word>, argc: nat, ghost l: Layout) returns (end: nat)
    requires Shows(stack[..], l) && argc + 2 == EnvAt(l)
    ensures end == AuxAt(l) + 2 * |l.aux| + 2
  {
    var auxv := FirstAux(stack, argc + 2, l);
    end := AuxEnd(stack, auxv, l);
  }

  lemma ImageEnd(words: seq<Word>, l: Layout, k: nat)
    requires Shows(words, l) && k < |l.argv|
    ensures AuxAt(l) + 2 * |l.aux| + 2 <= |words|
    ensures words[1 + k..AuxAt(l) + 2 * |l.aux| + 2] == Image(l)[1 + k..]
  {
    assert |Image(l)| == AuxAt(l) + 2 * |l.aux| + 2;
    assert words[..|Image(l)|] == Image(l);
    assert words[1 + k..|Image(l)|] == words[..|Image(l)|][1 + k..];
  }

  /** The words after the rewrite. */
  function ProgramWords(words: seq<Word>, k: nat, end: nat, newArgc: Word, argv0: Word): seq<Word>
    requires 1 + k < end <= |words|
  {
    [newArgc] + NamedFirst(words[1 + k..end], argv0) + words[end - k..]
  }

  lemma RewrittenImage(words: seq<Word>, l: Layout, k: nat, argv0: Word)
    requires Shows(words, l) && k < |l.argv|
    ensures var end := AuxAt(l) + 2 * |l.aux| + 2;
            && 1 + k < end <= |words| && words[1 + k] == l.argv[k]
            && Shows(ProgramWords(words, k, end, |l.argv| - k, argv0), ForProgram(l, k, argv0))
    ensures EnvAt(ForProgram(l, k, argv0)) == |l.argv| - k + 2
  {
    ImageEnd(words, l, k);
    var end := AuxAt(l) + 2 * |l.aux| + 2;
    MovedImage(l, k, argv0, words[end - k..]);
    hide Shows, Image, ForProgram;
    assert words[1 + k..end][0] == words[1 + k];
  }

  /** The words after the copy and the one or two writes. */
  lemma MovedWords(before: seq<Word>, k: nat, end: nat, newArgc: Word, argv0: Word)
    requires 1 + k < end <= |before|
    ensures var copied := CopiedDown(before, 1, 1 + k, end - (1 + k));
            && |copied| == |before| && copied[1] == before[1 + k]
            && ProgramWords(before, k, end, newArgc, argv0) ==
               if argv0 != 0 then copied[0 := newArgc][1 := argv0] else copied[0 := newArgc]
  {
    var moved := before[1 + k..end];
    assert CopiedDown(before, 1, 1 + k, end - (1 + k)) == before[..1] + moved + before[end - k..];
  }

  /** The writes of the rewrite: everything from the program path to `end` moves down behind the count. */
  method MoveProgram(stack: array<Word>, k: nat, end: nat, newArgc: Word, argv0: Word) returns (execPath: Word)
    requires 1 + k < end <= stack.Length
    modifies stack
    ensures execPath == old(stack[..])[1 + k]
    ensures stack[..] == ProgramWords(old(stack[..]), k, end, newArgc, argv0)
  {
    ghost var before := stack[..];
    MovedWords(before, k, end, newArgc, argv0);
    hide CopiedDown, ProgramWords;
    MoveDown(stack, 1, 1 + k, end - (1 + k));
    ghost var copied := stack[..];
    stack[0] := newArgc;
    execPath := stack[1];
    assert execPath == copied[1];
    if argv0 != 0 {
      stack[1] := argv0;
    }
  }

  /** The auxiliary vector starts after the environment's terminator. */
  method FirstAux(stack: array<Word>, envp: nat, ghost l: Layout) returns (auxv: nat)
    requires Shows(stack[..], l) && envp == EnvAt(l)
    ensures auxv == AuxAt(l)
  {
    ShownWords(stack[..], l);
    assert forall i :: envp <= i < AuxAt(l) - 1 ==> stack[i] == stack[..][i];
    auxv := AfterNull(stack, envp, AuxAt(l) - 1);
  }

  /** Pairs are skipped up to and including AT_NULL. */
  method AuxEnd(stack: array<Word>, auxv: nat, ghost l: Layout) returns (end: nat)
    requires Shows(stack[..], l) && auxv == AuxAt(l)
    ensures end == AuxAt(l) + 2 * |l.aux| + 2
  {
    ShownWords(stack[..], l);
    end := auxv;
    ghost var seen := 0;
    while stack[end] != AT_NULL
      invariant 0 <= seen <= |l.aux| && end == auxv + 2 * seen
      decreases |l.aux| - seen
    {
      assert KindAt(stack[..], auxv, seen) == stack[end];
      end, seen := end + 2, seen + 1;
    }
    assert KindAt(stack[..], auxv, seen) == stack[end];
    end := end + 2;
  }

  // ---------------------------------------------------------------- the auxiliary vector

  datatype AuxState = AuxState(
    phdr: Word, phent: Word, phnum: Word, base: Word, entry: Word, secure: Word, pagesize: Word, platform: Word,
    hwcap: Word, hwcap2: Word, hwcap3: Word, hwcap4: Word, clktck: Word, fpucw: Word, minsigstacksize: Word,
    sysinfoEhdr: Word)

  /** The last value of a kind, or zero. */
  function Last(aux: seq<Aux>, kind: Word): Word {
    if aux == [] then 0
    else if aux[|aux| - 1].kind == kind then aux[|aux| - 1].value
    else Last(aux[..|aux| - 1], kind)
  }

  /** `value` is what the last entry of this kind says, zero if there is none. */
  ghost predicate SaysLast(aux: seq<Aux>, kind: Word, value: Word) {
    || (value == 0 && forall i :: 0 <= i < |aux| ==> aux[i].kind != kind)
    || exists i :: 0 <= i < |aux| && aux[i] == Aux(kind, value) && forall j :: i < j < |aux| ==> aux[j].kind != kind
  }

  lemma {:induction false} LastMeaning(aux: seq<Aux>, kind: Word)
    ensures SaysLast(aux, kind, Last(aux, kind))
  {
    if aux != [] && aux[|aux| - 1].kind != kind {
      var shorter := aux[..|aux| - 1];
      LastMeaning(shorter, kind);
      assert forall i :: 0 <= i < |shorter| ==> shorter[i] == aux[i];
    }
  }

  function Parsed(aux: seq<Aux>): AuxState {
    AuxState(Last(aux, AT_PHDR), Last(aux, AT_PHENT), Last(aux, AT_PHNUM), Last(aux, AT_BASE),
             Last(aux, AT_ENTRY), Last(aux, AT_SECURE), Last(aux, AT_PAGESZ), Last(aux, AT_PLATFORM),
             Last(aux, AT_HWCAP), Last(aux, AT_HWCAP2), Last(aux, AT_HWCAP3), Last(aux, AT_HWCAP4),
             Last(aux, AT_CLKTCK), Last(aux, AT_FPUCW), Last(aux, AT_MINSIGSTKSZ), Last(aux, AT_SYSINFO_EHDR))
  }

  function Stored(s: AuxState, kind: Word, value: Word): AuxState {
    if kind == AT_PHDR then s.(phdr := value)
    else if kind == AT_PHENT then s.(phent := value)
    else if kind == AT_PHNUM then s.(phnum := value)
    else if kind == AT_BASE then s.(base := value)
    else if kind == AT_ENTRY then s.(entry := value)
    else if kind == AT_SECURE then s.(secure := value)
    else if kind == AT_PAGESZ then s.(pagesize := value)
    else if kind == AT_PLATFORM then s.(platform := value)
    else if kind == AT_HWCAP then s.(hwcap := value)
    else if kind == AT_HWCAP2 then s.(hwcap2 := value)
    else if kind == AT_HWCAP3 then s.(hwcap3 := value)
    else if kind == AT_HWCAP4 then s.(hwcap4 := value)
    else if kind == AT_CLKTCK then s.(clktck := value)
    else if kind == AT_FPUCW then s.(fpucw := value)
    else if kind == AT_MINSIGSTKSZ then s.(minsigstacksize := value)
    else if kind == AT_SYSINFO_EHDR then s.(sysinfoEhdr := value)
    else s
  }

  /** Field by field, with the entry kinds of the System V ABI and of Linux. */
  lemma ParsedMeaning(aux: seq<Aux>)
    ensures var s := Parsed(aux);
            && SaysLast(aux, 3, s.phdr) && SaysLast(aux, 4, s.phent) && SaysLast(aux, 5, s.phnum)
            && SaysLast(aux, 6, s.pagesize) && SaysLast(aux, 7, s.base) && SaysLast(aux, 9, s.entry)
            && SaysLast(aux, 15, s.platform) && SaysLast(aux, 16, s.hwcap) && SaysLast(aux, 17, s.clktck)
            && SaysLast(aux, 18, s.fpucw) && SaysLast(aux, 23, s.secure) && SaysLast(aux, 26, s.hwcap2)
            && SaysLast(aux, 29, s.hwcap3) && SaysLast(aux, 30, s.hwcap4) && SaysLast(aux, 33, s.sysinfoEhdr)
            && SaysLast(aux, 51, s.minsigstacksize)
  {
    hide SaysLast, Last;
    forall kind
      ensures SaysLast(aux, kind, Last(aux, kind))
    {
      LastMeaning(aux, kind);
    }
  }

  /** Every field holds the last value of its kind. */
  method ParseAuxv(stack: array<Word>, auxv: nat, ghost l: Layout) returns (s: AuxState)
    requires Shows(stack[..], l) && auxv == AuxAt(l)
    ensures s == Parsed(l.aux)
  {
    ShownWords(stack[..], l);
    s := AuxState(0, 0, 0, 0, 0, 0, 0, 0, 0, 0, 0, 0, 0, 0, 0, 0);
    var p := auxv;
    ghost var seen := 0;
    while true
      invariant 0 <= seen <= |l.aux| && p == auxv + 2 * seen
      invariant s == Parsed(l.aux[..seen])
      decreases |l.aux| - seen
    {
      var kind, value := stack[p], stack[p + 1];
      p := p + 2;
      assert KindAt(stack[..], auxv, seen) == kind && ValueAt(stack[..], auxv, seen) == value;
      if kind == AT_NULL {
        assert l.aux[..seen] == l.aux;
        return;
      }
      assert l.aux[..seen + 1][..seen] == l.aux[..seen];
      s := Stored(s, kind, value);
      seen := seen + 1;
    }
  }

  /** The values a directly executed program's vector gets. */
  datatype ExecInfo = ExecInfo(phdr: Word, phent: Word, phnum: Word, base: Word, entry: Word, execfn: Word)

  function PatchedValue(a: Aux, info: ExecInfo): Word {
    if a.kind == AT_PHDR then info.phdr
    else if a.kind == AT_PHENT then info.phent
    else if a.kind == AT_PHNUM then info.phnum
    else if a.kind == AT_BASE then info.base
    else if a.kind == AT_ENTRY then info.entry
    else if a.kind == AT_EXECFN then info.execfn
    else a.value
  }

  function Patched(aux: seq<Aux>, info: ExecInfo): (r: seq<Aux>)
    ensures |r| == |aux|
  {
    seq(|aux|, i requires 0 <= i < |aux| => Aux(aux[i].kind, PatchedValue(aux[i], info)))
  }

  /** Entry by entry, with the kinds of the System V ABI: those that describe the program get the given
      values, and all others keep theirs. */
  lemma PatchedMeaning(aux: seq<Aux>, info: ExecInfo, i: nat)
    requires i < |aux|
    ensures var a, a' := aux[i], Patched(aux, info)[i];
            && a'.kind == a.kind
            && (a.kind == 3 ==> a'.value == info.phdr) && (a.kind == 4 ==> a'.value == info.phent)
            && (a.kind == 5 ==> a'.value == info.phnum) && (a.kind == 7 ==> a'.value == info.base)
            && (a.kind == 9 ==> a'.value == info.entry) && (a.kind == 31 ==> a'.value == info.execfn)
            && (a.kind !in {3, 4, 5, 7, 9, 31} ==> a'.value == a.value)
  {
  }

  ghost predicate Occurs(aux: seq<Aux>, kind: Word) {
    exists a :: a in aux && a.kind == kind
  }

  /** The entry `a` of the given kind, whose value is at index `value`. */
  method PatchEntry(stack: array<Word>, value: nat, kind: Word, info: ExecInfo, ghost a: Aux)
    requires value < stack.Length && a == Aux(kind, stack[value])
    modifies stack
    ensures stack[..] == old(stack[..])[value := PatchedValue(a, info)]
  {
    if kind == AT_PHDR { stack[value] := info.phdr; }
    else if kind == AT_PHENT { stack[value] := info.phent; }
    else if kind == AT_PHNUM { stack[value] := info.phnum; }
    else if kind == AT_BASE { stack[value] := info.base; }
    else if kind == AT_ENTRY { stack[value] := info.entry; }
    else if kind == AT_EXECFN { stack[value] := info.execfn; }
  }

  function Front(l: Layout): seq<Word>
    requires |l.argv| < W
  {
    [|l.argv| as Word] + l.argv + [0] + l.envp + [0]
  }

  lemma SplitAtAux(words: seq<Word>, l: Layout)
    requires Shows(words, l)
    ensures |Front(l)| == AuxAt(l) && AuxAt(l) + 2 * |l.aux| <= |words|
    ensures words == Front(l) + AuxWords(l.aux) + words[AuxAt(l) + 2 * |l.aux|..]
    ensures [AT_NULL, l.last] <= words[AuxAt(l) + 2 * |l.aux|..]
  {
    var rest := words[|Image(l)|..];
    assert words == Image(l) + rest;
    assert Image(l) == Front(l) + AuxWords(l.aux) + [AT_NULL, l.last];
    assert words == Front(l) + AuxWords(l.aux) + ([AT_NULL, l.last] + rest);
  }

  lemma JoinAtAux(l: Layout, aux: seq<Aux>, rest: seq<Word>)
    requires WellFormed(l) && [AT_NULL, l.last] <= rest && forall a :: a in aux ==> a.kind != AT_NULL
    ensures Shows(Front(l) + AuxWords(aux) + rest, l.(aux := aux))
  {
    assert Image(l.(aux := aux)) == Front(l) + AuxWords(aux) + [AT_NULL, l.last];
    assert rest == [AT_NULL, l.last] + rest[2..];
    assert Front(l) + AuxWords(aux) + rest == Image(l.(aux := aux)) + rest[2..];
  }

  /** In place: the kinds, the terminator and everything around the vector stay. */
  method PatchExecAuxv(stack: array<Word>, auxv: nat, info: ExecInfo, ghost l: Layout)
    requires Shows(stack[..], l) && auxv == AuxAt(l)
    modifies stack
    ensures Shows(stack[..], l.(aux := Patched(l.aux, info)))
    ensures stack[..auxv] == old(stack[..auxv])
    ensures stack[auxv + 2 * |l.aux|..] == old(stack[auxv + 2 * |l.aux|..])
  {
    ghost var before := stack[..];
    ShownWords(before, l);
    hide *;
    PatchLoop(stack, auxv, info, l.aux);
    PatchedShows(before, stack[..], l, info);
  }

  /** The words while the vector is patched: the first `seen` entries are done. */
  ghost function Halfway(before: seq<Word>, auxv: nat, patched: seq<Aux>, seen: nat): seq<Word>
    requires seen <= |patched| && auxv + 2 * |patched| <= |before|
  {
    before[..auxv] + AuxWords(patched[..seen]) + before[auxv + 2 * seen..]
  }

  /** One entry more. */
  lemma PatchStep(before: seq<Word>, auxv: nat, aux: seq<Aux>, info: ExecInfo, seen: nat)
    requires HoldsAux(before, auxv, aux) && seen < |aux|
    ensures var words, p := Halfway(before, auxv, Patched(aux, info), seen), auxv + 2 * seen;
            && |words| == |before|
            && words[p] == aux[seen].kind && words[p + 1] == aux[seen].value
            && words[p + 1 := PatchedValue(aux[seen], info)] == Halfway(before, auxv, Patched(aux, info), seen + 1)
  {
    var patched, p := Patched(aux, info), auxv + 2 * seen;
    assert patched[..seen + 1][..seen] == patched[..seen];
    assert AuxWords(patched[..seen + 1]) ==
           AuxWords(patched[..seen]) + [aux[seen].kind, PatchedValue(aux[seen], info)];
    hide AuxWords, Patched, PatchedValue;
    assert KindAt(before, auxv, seen) == before[p] && ValueAt(before, auxv, seen) == before[p + 1];
    assert before[p..] == [before[p], before[p + 1]] + before[p + 2..];
  }

  lemma PatchStarts(before: seq<Word>, auxv: nat, patched: seq<Aux>)
    requires auxv + 2 * |patched| < |before|
    ensures Halfway(before, auxv, patched, 0) == before
    ensures var words, p := Halfway(before, auxv, patched, |patched|), auxv + 2 * |patched|;
            |words| == |before| && words[p] == before[p]
  {
    assert patched[..|patched|] == patched && AuxWords(patched[..0]) == [];
    assert before[..auxv] + before[auxv..] == before;
  }

  lemma PatchEnds(before: seq<Word>, auxv: nat, patched: seq<Aux>)
    requires auxv + 2 * |patched| < |before|
    ensures Halfway(before, auxv, patched, |patched|) ==
            before[..auxv] + AuxWords(patched) + before[auxv + 2 * |patched|..]
  {
    assert patched[..|patched|] == patched;
  }

  /** The stack while the vector at `auxv` of `before` is patched: the first `seen` entries are done. */
  ghost predicate HalfDone(words: seq<Word>, before: seq<Word>, auxv: nat, aux: seq<Aux>, info: ExecInfo, seen: nat) {
    && HoldsAux(before, auxv, aux) && seen <= |aux|
    && words == Halfway(before, auxv, Patched(aux, info), seen)
  }

  /** The vector ends where the original one ends. */
  lemma KindHere(words: seq<Word>, before: seq<Word>, auxv: nat, aux: seq<Aux>, info: ExecInfo, seen: nat)
    requires HalfDone(words, before, auxv, aux, info, seen)
    ensures seen <= |aux| && auxv + 2 * seen + 1 < |words| + if seen == |aux| then 1 else 0
    ensures words[auxv + 2 * seen] == AT_NULL <==> seen == |aux|
  {
    assert forall n :: 0 <= n < |aux| ==> KindAt(before, auxv, n) == aux[n].kind;
    if seen < |aux| {
      PatchStep(before, auxv, aux, info, seen);
    } else {
      PatchStarts(before, auxv, Patched(aux, info));
    }
    hide Halfway, Patched;
  }

  method PatchOne(stack: array<Word>, p: nat, info: ExecInfo,
                  ghost before: seq<Word>, ghost auxv: nat, ghost aux: seq<Aux>, ghost seen: nat)
    requires HalfDone(stack[..], before, auxv, aux, info, seen) && seen < |aux| && p == auxv + 2 * seen
    modifies stack
    ensures HalfDone(stack[..], before, auxv, aux, info, seen + 1)
  {
    PatchStep(before, auxv, aux, info, seen);
    hide Halfway, HoldsAux, Patched, PatchedValue, AuxWords;
    ghost var words := stack[..];
    assert stack[p] == words[p] && stack[p + 1] == words[p + 1];
    PatchEntry(stack, p + 1, stack[p], info, aux[seen]);
  }

  method PatchLoop(stack: array<Word>, auxv: nat, info: ExecInfo, ghost aux: seq<Aux>)
    requires HoldsAux(stack[..], auxv, aux)
    modifies stack
    ensures HalfDone(stack[..], old(stack[..]), auxv, aux, info, |aux|)
  {
    ghost var before := stack[..];
    var p := auxv;
    ghost var seen := 0;
    PatchStarts(before, auxv, Patched(aux, info));
    hide HoldsAux, Halfway, Patched;
    assert HalfDone(stack[..], before, auxv, aux, info, 0);
    hide HalfDone;
    while true
      invariant p == auxv + 2 * seen && HalfDone(stack[..], before, auxv, aux, info, seen)
      decreases |aux| - seen
    {
      KindHere(stack[..], before, auxv, aux, info, seen);
      if stack[p] == AT_NULL {
        break;
      }
      PatchOne(stack, p, info, before, auxv, aux, seen);
      p, seen := p + 2, seen + 1;
    }
  }

  lemma PatchedKinds(aux: seq<Aux>, info: ExecInfo)
    requires forall a :: a in aux ==> a.kind != AT_NULL
    ensures forall a :: a in Patched(aux, info) ==> a.kind != AT_NULL
  {
  }

  /** The finished words show the patched layout, and differ from before only within the vector. */
  lemma PatchedShows(before: seq<Word>, after: seq<Word>, l: Layout, info: ExecInfo)
    requires Shows(before, l) && HalfDone(after, before, AuxAt(l), l.aux, info, |l.aux|)
    ensures Shows(after, l.(aux := Patched(l.aux, info)))
    ensures |after| == |before| >= AuxAt(l) + 2 * |l.aux|
    ensures after[..AuxAt(l)] == before[..AuxAt(l)]
    ensures after[AuxAt(l) + 2 * |l.aux|..] == before[AuxAt(l) + 2 * |l.aux|..]
  {
    var patched, at := Patched(l.aux, info), AuxAt(l);
    var rest := before[at + 2 * |l.aux|..];
    SplitAtAux(before, l);
    PatchedKinds(l.aux, info);
    JoinAtAux(l, patched, rest);
    PatchEnds(before, at, patched);
    hide Shows, Image, WellFormed, Front, Patched, HoldsAux, Halfway, AuxWords;
    assert before[..at] == Front(l);
    assert after == Front(l) + AuxWords(patched) + rest;
  }

  lemma {:induction false} LastPatched(aux: seq<Aux>, info: ExecInfo, kind: Word)
    ensures Last(Patched(aux, info), kind) ==
            if Occurs(aux, kind) then PatchedValue(Aux(kind, Last(aux, kind)), info) else 0
    ensures !Occurs(aux, kind) ==> Last(aux, kind) == 0
  {
    if aux != [] {
      var shorter, last := aux[..|aux| - 1], aux[|aux| - 1];
      LastPatched(shorter, info, kind);
      assert Patched(aux, info)[..|aux| - 1] == Patched(shorter, info);
      assert forall a :: a in aux <==> a in shorter || a == last;
    }
  }

  /** Parsing the patched vector gives the old result with the program's own phdr, phent, phnum, base and
      entry wherever the vector has that kind, in any order and with any repetitions. */
  lemma ParseAfterPatch(aux: seq<Aux>, info: ExecInfo)
    ensures Parsed(Patched(aux, info)) ==
            Parsed(aux).(phdr := if Occurs(aux, AT_PHDR) then info.phdr else 0,
                         phent := if Occurs(aux, AT_PHENT) then info.phent else 0,
                         phnum := if Occurs(aux, AT_PHNUM) then info.phnum else 0,
                         base := if Occurs(aux, AT_BASE) then info.base else 0,
                         entry := if Occurs(aux, AT_ENTRY) then info.entry else 0)
  {
    forall kind: Word
      ensures Last(Patched(aux, info), kind) ==
              if Occurs(aux, kind) then PatchedValue(Aux(kind, Last(aux, kind)), info) else 0
      ensures !Occurs(aux, kind) ==> Last(aux, kind) == 0
    {
      LastPatched(aux, info, kind);
    }
  }
}
