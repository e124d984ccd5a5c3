/** Direct invocation of the loader (rtld/impl/src/bootstrap.rs): the auxiliary vector is parsed, the option
    loop chooses the program, and the stack is rewritten for it. */
module DirectRun {
  import opened OrderedMap
  import opened StartupStack
  import C = CommandLine

  /** The layout the program is to see when the options end in `Program(k, argv0)`. */
  function ProgramLayout(l: Layout, k: nat, argv0: Option<nat>): Layout
    requires k < |l.argv| && (argv0.Some? ==> argv0.value < |l.argv|)
  {
    l.(argv := (if argv0.Some? then [l.argv[argv0.value]] else [l.argv[k]]) + l.argv[k + 1..])
  }

  /** The index the option loop returns lies inside the arguments, after the loader's own name, and
      `--argv0` stands before it with its value. */
  lemma ProgramIndices(args: seq<string>, k: nat, argv0: Option<nat>)
    requires C.EndsIn(args, C.Program(k, argv0))
    ensures 0 < k < |args|
    ensures argv0.Some? ==> 1 < argv0.value < k && args[argv0.value - 1] == "--argv0"
  {
    ReachedIndices(args, k, argv0);
  }

  lemma {:induction false} ReachedIndices(args: seq<string>, i: nat, argv0: Option<nat>)
    requires i <= |args| && C.Reaches(args, i, argv0)
    ensures i >= 1
    ensures argv0.Some? ==> 1 < argv0.value < i && args[argv0.value - 1] == "--argv0"
    decreases i
  {
    C.ReachesFromOne(args, i, argv0);
    if i > 1 {
      var p, earlier := C.Previous(args, i, argv0);
      ReachedIndices(args, p, earlier);
      OnlyArgv0(args[p]);
    }
  }

  lemma OnlyArgv0(arg: string)
    ensures C.KindOf(arg) == C.Argv0 ==> arg == "--argv0"
  {
  }

  /** `args` are the strings at the argument pointers, which are not null. The vector is parsed before the
      rewrite; at its new place it still says the same. */
  method StartProgram(stack: array<Word>, args: seq<string>, ghost l: Layout)
    returns (o: C.Outcome, aux: AuxState, r: Option<Rewritten>)
    requires Shows(stack[..], l) && |args| == |l.argv| && 0 !in l.argv
    modifies stack
    ensures C.EndsIn(args, o) && aux == Parsed(l.aux)
    ensures o.Program? <==> r.Some?
    ensures !o.Program? ==> stack[..] == old(stack[..])
    ensures o.Program? ==>
              && 0 < o.argvIndex < |l.argv| && (o.argv0.Some? ==> o.argv0.value < |l.argv|)
              && var goal := ProgramLayout(l, o.argvIndex, o.argv0);
                 && Shows(stack[..], goal) && Parsed(goal.aux) == aux
                 && r.value.argc == |goal.argv| && r.value.auxv == AuxAt(goal)
                 && r.value.execPath == l.argv[o.argvIndex]
  {
    r := None;
    var auxv := FirstAux(stack, |args| + 2, l);
    aux := ParseAuxv(stack, auxv, l);
    o := C.HandleDirectInvocation(args);
    if o.Program? {
      ProgramIndices(args, o.argvIndex, o.argv0);
      ShownWords(stack[..], l);
      var argv0: Word := if o.argv0.Some? then stack[1 + o.argv0.value] else 0;
      assert stack[1 + o.argvIndex] == stack[..][1..|l.argv| + 1][o.argvIndex];
      assert o.argv0.Some? ==> stack[1 + o.argv0.value] == stack[..][1..|l.argv| + 1][o.argv0.value];
      assert argv0 == if o.argv0.Some? then l.argv[o.argv0.value] else 0;
      SameProgram(l, o.argvIndex, o.argv0, argv0);
      hide Shows, Parsed, C.EndsIn;
      var rewritten := RewriteInitialStack(stack, |args|, o.argvIndex, argv0, l);
      r := Some(rewritten);
    }
  }

  lemma SameProgram(l: Layout, k: nat, argv0: Option<nat>, word: Word)
    requires k < |l.argv| && 0 !in l.argv && (argv0.Some? ==> argv0.value < |l.argv|)
    requires word == if argv0.Some? then l.argv[argv0.value] else 0
    ensures ForProgram(l, k, word) == ProgramLayout(l, k, argv0)
    ensures ForProgram(l, k, word).aux == l.aux
    ensures |ForProgram(l, k, word).argv| == |l.argv| - k
  {
    assert argv0.Some? ==> word in l.argv;
    assert l.argv[k..] == [l.argv[k]] + l.argv[k + 1..];
  }
}
