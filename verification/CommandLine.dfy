/** The option loop of a directly invoked loader (rtld/impl/src/cli.rs): which argument is the program. */
module CommandLine {
  import opened OrderedMap

  /** How the loop ends; numbers are positions in the argument list. */
  datatype Outcome =
    | Help | Version | Diagnostics | Tunables
    | Verify(target: nat) | ListNeeded(target: nat)
    | MissingValue(option: nat)
    | Unrecognized(option: nat)
    | Program(argvIndex: nat, argv0: Option<nat>)

  predicate ConsumesValue(arg: string) {
    || arg == "--library-path"
    || arg == "--preload"
    || arg == "--audit"
    || arg == "--glibc-hwcaps-prepend"
    || arg == "--glibc-hwcaps-mask"
    || arg == "--inhibit-rpath"
  }

  predicate StartsWithDash(arg: string) {
    arg != "" && arg[0] == '-'
  }

  /** What an argument is to the loop. */
  datatype Kind = Stop | Argv0 | TakesValue | Alone | UsesValueAndStops

  function KindOf(arg: string): (k: Kind)
    ensures arg == "--argv0" ==> k == Argv0
    ensures !StartsWithDash(arg) ==> k == Stop
  {
    if arg == "--help" || arg == "--version" || arg == "--list-diagnostics" || arg == "--list-tunables" then Stop
    else if arg == "--verify" || arg == "--list" then UsesValueAndStops
    else if arg == "--argv0" then Argv0
    else if ConsumesValue(arg) then TakesValue
    else if arg == "--inhibit-cache" then Alone
    else Stop
  }

  /** The loop can arrive at position i, having last seen `--argv0` with its value at `argv0`: everything
      from 1 to i is options it accepts, each with its value. */
  ghost predicate Reaches(args: seq<string>, i: nat, argv0: Option<nat>)
    requires i <= |args|
    decreases i, 0
  {
    || (i == 1 && argv0 == None)
    || (i > 1 && KindOf(args[i - 1]) == Alone && Reaches(args, i - 1, argv0))
    || (i > 2 && KindOf(args[i - 2]) == TakesValue && Reaches(args, i - 2, argv0))
    || (i > 2 && KindOf(args[i - 2]) == Argv0 && argv0 == Some(i - 1) && ReachesSome(args, i - 2))
  }

  ghost predicate ReachesSome(args: seq<string>, i: nat)
    requires i <= |args|
    decreases i, 1
  {
    exists argv0 :: Reaches(args, i, argv0)
  }

  /** The loop may end in `o`. */
  ghost predicate EndsIn(args: seq<string>, o: Outcome) {
    match o
    case Program(k, argv0) => k < |args| && Reaches(args, k, argv0) && !StartsWithDash(args[k])
    case MissingValue(i) =>
      i == |args| - 1 && ReachesSome(args, i) && KindOf(args[i]) in {Argv0, TakesValue, UsesValueAndStops}
    case Unrecognized(i) =>
      i < |args| && ReachesSome(args, i) && KindOf(args[i]) == Stop && StartsWithDash(args[i]) &&
      args[i] !in {"--help", "--version", "--list-diagnostics", "--list-tunables"}
    case Verify(t) => 0 < t < |args| && ReachesSome(args, t - 1) && args[t - 1] == "--verify"
    case ListNeeded(t) => 0 < t < |args| && ReachesSome(args, t - 1) && args[t - 1] == "--list"
    case Help => |args| <= 1 || ReachesSome(args, |args|) || StopsAt(args, "--help")
    case Version => StopsAt(args, "--version")
    case Diagnostics => StopsAt(args, "--list-diagnostics")
    case Tunables => StopsAt(args, "--list-tunables")
  }

  ghost predicate StopsAt(args: seq<string>, option: string) {
    exists i | 0 <= i < |args| :: ReachesSome(args, i) && args[i] == option
  }

  /** One accepted option further. */
  lemma ReachesNext(args: seq<string>, i: nat, argv0: Option<nat>)
    requires 0 < i < |args| && Reaches(args, i, argv0)
    ensures KindOf(args[i]) == Alone ==> Reaches(args, i + 1, argv0)
    ensures KindOf(args[i]) == TakesValue && i + 2 <= |args| ==> Reaches(args, i + 2, argv0)
    ensures KindOf(args[i]) == Argv0 && i + 2 <= |args| ==> Reaches(args, i + 2, Some(i + 1))
  {
    hide KindOf;
    assert ReachesSome(args, i);
  }

  lemma ReachesStart(args: seq<string>)
    requires |args| >= 1
    ensures Reaches(args, 1, None)
  {
  }

  /** How the loop may end at position i. */
  lemma EndsHere(args: seq<string>, i: nat, argv0: Option<nat>)
    requires i < |args| && Reaches(args, i, argv0)
    ensures args[i] == "--help" ==> EndsIn(args, Help)
    ensures args[i] == "--version" ==> EndsIn(args, Version)
    ensures args[i] == "--list-diagnostics" ==> EndsIn(args, Diagnostics)
    ensures args[i] == "--list-tunables" ==> EndsIn(args, Tunables)
    ensures args[i] == "--verify" && i + 1 < |args| ==> EndsIn(args, Verify(i + 1))
    ensures args[i] == "--list" && i + 1 < |args| ==> EndsIn(args, ListNeeded(i + 1))
    ensures KindOf(args[i]) in {Argv0, TakesValue, UsesValueAndStops} && i + 1 >= |args| ==> EndsIn(args, MissingValue(i))
    ensures !StartsWithDash(args[i]) ==> EndsIn(args, Program(i, argv0))
  {
    assert ReachesSome(args, i);
    hide Reaches, ReachesSome, KindOf;
  }

  lemma HelpForNothing(args: seq<string>)
    requires |args| <= 1
    ensures EndsIn(args, Help)
  {
  }

  lemma HelpAtEnd(args: seq<string>, argv0: Option<nat>)
    requires Reaches(args, |args|, argv0)
    ensures EndsIn(args, Help)
  {
    assert ReachesSome(args, |args|);
    hide Reaches, ReachesSome;
  }

  /** An argument the loop knows as no option. */
  lemma EndsUnrecognized(args: seq<string>, i: nat, argv0: Option<nat>)
    requires i < |args| && Reaches(args, i, argv0) && KindOf(args[i]) == Stop && StartsWithDash(args[i])
    requires args[i] !in {"--help", "--version", "--list-diagnostics", "--list-tunables"}
    ensures EndsIn(args, Unrecognized(i))
  {
    assert ReachesSome(args, i);
    hide Reaches, ReachesSome, KindOf;
  }

  method HandleDirectInvocation(args: seq<string>) returns (o: Outcome)
    ensures EndsIn(args, o)
  {
    hide EndsIn, Reaches, ReachesSome, ConsumesValue, StartsWithDash;
    if |args| <= 1 {
      assert EndsIn(args, Help) by { HelpForNothing(args); }
      return Help;
    }
    var index := 1;
    var argv0: Option<nat> := None;
    assert Reaches(args, 1, None) by { ReachesStart(args); }
    while index < |args|
      invariant 1 <= index <= |args|
      invariant Reaches(args, index, argv0)
    {
      var arg := args[index];
      ReachesNext(args, index, argv0);
      EndsHere(args, index, argv0);
      if arg == "--help" { return Help; }
      if arg == "--version" { return Version; }
      if arg == "--list-diagnostics" { return Diagnostics; }
      if arg == "--list-tunables" { return Tunables; }
      if arg == "--verify" {
        if index + 1 >= |args| { return MissingValue(index); }
        return Verify(index + 1);
      }
      if arg == "--list" {
        if index + 1 >= |args| { return MissingValue(index); }
        return ListNeeded(index + 1);
      }
      if arg == "--argv0" {
        if index + 1 >= |args| { return MissingValue(index); }
        argv0 := Some(index + 1);
        index := index + 2;
        continue;
      }
      if ConsumesValue(arg) {
        if index + 1 >= |args| { return MissingValue(index); }
        index := index + 2;
        continue;
      }
      if arg == "--inhibit-cache" {
        index := index + 1;
        continue;
      }
      if StartsWithDash(arg) {
        EndsUnrecognized(args, index, argv0);
        return Unrecognized(index);
      }
      return Program(index, argv0);
    }
    HelpAtEnd(args, argv0);
    return Help;
  }

  // ---------------------------------------------------------------- the outcome is determined

  /** How far an accepted option moves the loop; nothing for an argument that ends it. */
  function Advance(arg: string): nat {
    match KindOf(arg)
    case Alone => 1
    case Argv0 => 2
    case TakesValue => 2
    case _ => 0
  }

  lemma SomeArgv0(args: seq<string>, i: nat) returns (argv0: Option<nat>)
    requires i <= |args| && ReachesSome(args, i)
    ensures Reaches(args, i, argv0)
  {
    argv0 :| Reaches(args, i, argv0);
  }

  /** The last option before i and what was known before it. */
  lemma Previous(args: seq<string>, i: nat, a: Option<nat>) returns (p: nat, c: Option<nat>)
    requires 1 < i <= |args| && Reaches(args, i, a)
    ensures p < i && Reaches(args, p, c)
    ensures Advance(args[p]) > 0 && p + Advance(args[p]) == i
    ensures a == if KindOf(args[p]) == Argv0 then Some(p + 1) else c
  {
    if KindOf(args[i - 1]) == Alone && Reaches(args, i - 1, a) {
      p, c := i - 1, a;
    } else if KindOf(args[i - 2]) == TakesValue && Reaches(args, i - 2, a) {
      p, c := i - 2, a;
    } else {
      p := i - 2;
      c := SomeArgv0(args, p);
    }
  }

  lemma ReachesFromOne(args: seq<string>, i: nat, a: Option<nat>)
    requires i <= |args| && Reaches(args, i, a)
    ensures i >= 1
  {
  }

  /** If the loop can be at i and at a later j, it went on from i: so i holds an accepted option whose
      value lies before j. */
  lemma {:induction false} ReachesPassesThrough(args: seq<string>, i: nat, j: nat, a: Option<nat>, b: Option<nat>)
    requires i < j <= |args| && Reaches(args, i, a) && Reaches(args, j, b)
    ensures Advance(args[i]) > 0 && i + Advance(args[i]) <= j
    decreases i + j
  {
    ReachesFromOne(args, i, a);
    var p, c := Previous(args, j, b);
    if i < p {
      ReachesPassesThrough(args, i, p, a, c);
    } else if p < i {
      ReachesPassesThrough(args, p, i, c, a);
    }
  }

  lemma {:induction false} ReachesOnce(args: seq<string>, i: nat, a: Option<nat>, b: Option<nat>)
    requires i <= |args| && Reaches(args, i, a) && Reaches(args, i, b)
    ensures a == b
    decreases i
  {
    ReachesFromOne(args, i, a);
    if i > 1 {
      var p, c := Previous(args, i, a);
      var q, d := Previous(args, i, b);
      if p < q {
        ReachesPassesThrough(args, p, q, c, d);
      } else if q < p {
        ReachesPassesThrough(args, q, p, d, c);
      } else {
        ReachesOnce(args, p, c, d);
      }
    }
  }

  /** Where the loop is when it ends in `o`. */
  ghost predicate EndsAt(args: seq<string>, o: Outcome, e: nat) {
    && e <= |args| && ReachesSome(args, e)
    && match o
       case Program(k, argv0) => e == k < |args| && Reaches(args, k, argv0) && !StartsWithDash(args[k])
       case MissingValue(i) => e == i == |args| - 1 && KindOf(args[i]) in {Argv0, TakesValue, UsesValueAndStops}
       case Unrecognized(i) =>
         e == i < |args| && KindOf(args[i]) == Stop && StartsWithDash(args[i]) &&
         args[i] !in {"--help", "--version", "--list-diagnostics", "--list-tunables"}
       case Verify(t) => e + 1 == t < |args| && args[e] == "--verify"
       case ListNeeded(t) => e + 1 == t < |args| && args[e] == "--list"
       case Help => e == |args| || args[e] == "--help"
       case Version => e < |args| && args[e] == "--version"
       case Diagnostics => e < |args| && args[e] == "--list-diagnostics"
       case Tunables => e < |args| && args[e] == "--list-tunables"
  }

  lemma EndPosition(args: seq<string>, o: Outcome) returns (e: nat)
    requires |args| > 1 && EndsIn(args, o)
    ensures EndsAt(args, o, e)
  {
    match o
    case Program(k, _) => e := k;
    case MissingValue(i) => e := i;
    case Unrecognized(i) => e := i;
    case Verify(t) => e := t - 1;
    case ListNeeded(t) => e := t - 1;
    case Help =>
      if ReachesSome(args, |args|) {
        e := |args|;
      } else {
        e :| 0 <= e < |args| && ReachesSome(args, e) && args[e] == "--help";
      }
    case Version => e :| 0 <= e < |args| && ReachesSome(args, e) && args[e] == "--version";
    case Diagnostics => e :| 0 <= e < |args| && ReachesSome(args, e) && args[e] == "--list-diagnostics";
    case Tunables => e :| 0 <= e < |args| && ReachesSome(args, e) && args[e] == "--list-tunables";
  }

  lemma NothingAfterTheEnd(args: seq<string>, o: Outcome, e: nat, later: nat)
    requires EndsAt(args, o, e) && e < later <= |args|
    ensures !ReachesSome(args, later)
  {
    if ReachesSome(args, later) {
      var a := SomeArgv0(args, e);
      var b := SomeArgv0(args, later);
      ReachesPassesThrough(args, e, later, a, b);
    }
  }

  /** The conditions of `EndsIn` leave no choice: an argument list has one outcome. */
  /** Without arguments there is only the help text. */
  lemma NoArguments(args: seq<string>, o: Outcome)
    requires |args| <= 1 && EndsIn(args, o)
    ensures o == Help
  {
    hide KindOf, StartsWithDash;
    forall i: nat | i < |args|
      ensures !ReachesSome(args, i)
    {
      if ReachesSome(args, i) {
        var argv0 := SomeArgv0(args, i);
        ReachesFromOne(args, i, argv0);
      }
    }
    if o.Program? {
      ReachesFromOne(args, o.argvIndex, o.argv0);
    }
    hide Reaches, ReachesSome;
  }

  lemma OutcomeIsDetermined(args: seq<string>, o1: Outcome, o2: Outcome)
    requires EndsIn(args, o1) && EndsIn(args, o2)
    ensures o1 == o2
  {
    if |args| <= 1 {
      NoArguments(args, o1);
      NoArguments(args, o2);
    } else {
      OutcomeOfOptions(args, o1, o2);
    }
  }

  lemma OutcomeOfOptions(args: seq<string>, o1: Outcome, o2: Outcome)
    requires |args| > 1 && EndsIn(args, o1) && EndsIn(args, o2)
    ensures o1 == o2
  {
    var e1 := EndPosition(args, o1);
    var e2 := EndPosition(args, o2);
    if e1 < e2 {
      NothingAfterTheEnd(args, o1, e1, e2);
    } else if e2 < e1 {
      NothingAfterTheEnd(args, o2, e2, e1);
    }
    if o1.Program? && o2.Program? {
      ReachesOnce(args, e1, o1.argv0, o2.argv0);
    }
  }
}
