/**
 * What ParseCommandLine leaves in argv, and the parser with the update of
 * last_argc that its unescaping step evidently relies on.
 *
 * As written, last_argc stays 0, so every round unescapes argv[0] again and
 * no later argument is unescaped at all. The corrected parser sets
 * `last_argc = argc` at the end of each round (as the SDL command-line parser
 * it follows does), so the token counted in a round, and only it, is
 * unescaped once.
 */
module CommandLineFixed {
  import opened Common
  import opened CommandLine

  // ---------------------------------------------------------------------------
  // The arguments of a command line

  /** The q-th token belongs to round q, and that round ends inside the command line. */
  lemma TokenRound(s: string, q: nat)
    requires q < |Tokens(s)|
    ensures var steps := Steps(s, 0);
            && q < |steps| && steps[q].token == Some(Tokens(s)[q])
            && Tokens(s)[q] <= steps[q].end <= |s|
  {
    var steps := Steps(s, 0);
    StepsShape(s, 0);
    forall q' | 0 <= q' < |steps| - 1
      ensures steps[q'].token.Some?
    {
      EarlyRoundsHaveTokens(s, q');
    }
    TokensAreRounds(steps, |steps|);
    assert steps[..|steps|] == steps;
  }

  /**
   * The raw text of the q-th argument: from where its token starts up to the
   * whitespace, closing quote or terminator that ends its round.
   */
  ghost function Argument(s: string, q: nat): (r: string)
    requires q < |Tokens(s)|
    ensures Tokens(s)[q] + |r| <= |s|
  {
    TokenRound(s, q);
    s[Tokens(s)[q]..Steps(s, 0)[q].end]
  }

  /**
   * As written, argv[0] is the first argument unescaped once per round, and
   * every later argument keeps its backslash-quote pairs.
   */
  lemma AsWrittenArguments(c: seq<char>, b: seq<char>, n: nat, q: nat)
    requires n < |b| && b[n] == NUL && NoNul(b[..n])
    requires ParsedAsWritten(c, b, n) && q < |Tokens(b[..n])|
    ensures var s := b[..n];
            HoldsCString(c, Tokens(s)[q], if q == 0 then Repeat(|Steps(s, 0)|, Argument(s, 0)) else Argument(s, q))
  {
    var s := b[..n];
    var steps := Steps(s, 0);
    var reps := AsWrittenReps(steps, |steps|);
    assert b[..|s|] == s;
    TokenRound(s, q);
    TokenHeld(b, s, steps, |steps|, reps, q, c);
  }

  // ---------------------------------------------------------------------------
  // The corrected parser

  /** How often the token of each of the first m rounds is unescaped once last_argc follows argc: once. */
  function FixedReps(steps: seq<Step>, m: nat): (r: seq<nat>)
    requires m <= |steps|
    ensures |r| == m
  {
    seq(m, q requires 0 <= q < m => if steps[q].token.Some? then 1 else 0)
  }

  /** The result of the writing pass of the corrected parser over the buffer b with its terminator at n. */
  ghost predicate ParsedFixed(c: seq<char>, b: seq<char>, n: nat)
    requires n <= |b|
  {
    var steps := Steps(b[..n], 0);
    Shows(c, b, b[..n], steps, |steps|, FixedReps(steps, |steps|))
  }

  /** With the corrected parser every argument is its raw text unescaped exactly once. */
  lemma FixedArguments(c: seq<char>, b: seq<char>, n: nat, q: nat)
    requires n < |b| && b[n] == NUL && NoNul(b[..n])
    requires ParsedFixed(c, b, n) && q < |Tokens(b[..n])|
    ensures var s := b[..n];
            HoldsCString(c, Tokens(s)[q], Unescaped(Argument(s, q)))
  {
    var s := b[..n];
    var steps := Steps(s, 0);
    var reps := FixedReps(steps, |steps|);
    assert b[..|s|] == s;
    TokenRound(s, q);
    TokenHeld(b, s, steps, |steps|, reps, q, c);
    assert reps[q] == 1;
    assert Repeat(1, Argument(s, q)) == Unescaped(Argument(s, q));
  }

  /**
   * The round m - 1 just counted a token (argc moved past last_argc): argv
   * holds it at last_argc, and that round ended behind bufp.
   */
  lemma LatestToken(av: seq<Option<nat>>, bufp: nat, argc: nat, last_argc: nat,
                    s: string, steps: seq<Step>, m: nat, a0: seq<Option<nat>>)
    requires 1 <= m <= |steps| && steps == Steps(s, 0) && bufp == steps[m - 1].next
    requires ArgvHolds(av, Starts(steps[..m]), a0) && argc == |Starts(steps[..m])|
    requires last_argc == |Starts(steps[..m - 1])| && last_argc != argc
    ensures last_argc < |av| && av[last_argc].Some? && steps[m - 1].token == Some(av[last_argc].value)
    ensures steps[m - 1].end < bufp || steps[m - 1].end == bufp == |s|
  {
    StartsSnoc(steps, m - 1);
    StepOf(s, 0, m - 1);
  }

  /** Unescaping the token of round m - 1 once completes the counts of the corrected parser. */
  lemma FixedStep(steps: seq<Step>, m: nat)
    requires 1 <= m <= |steps| && steps[m - 1].token.Some?
    ensures var reps := FixedReps(steps, m - 1) + [0];
            reps[m - 1 := reps[m - 1] + 1] == FixedReps(steps, m)
  {
    var reps := FixedReps(steps, m - 1) + [0];
    assert reps[m - 1 := reps[m - 1] + 1] == FixedReps(steps, m);
  }

  /** After a round that counted a token, that token can be unescaped, completing the counts. */
  lemma LatestReady(c: seq<char>, av: Option<seq<Option<nat>>>, bufp: nat, argc: nat, last_argc: nat,
                    b: seq<char>, s: string, steps: seq<Step>, m: nat, a0: seq<Option<nat>>)
    requires 1 <= m <= |steps| && bufp == steps[m - 1].next
    requires Parsing(c, av, bufp, argc, b, s, steps, m, a0, FixedReps(steps, m - 1) + [0])
    requires last_argc == |Starts(steps[..m - 1])| && av.Some? && last_argc != argc
    ensures last_argc < |av.value| && av.value[last_argc].Some?
    ensures TokenReady(c, b, s, steps, m, FixedReps(steps, m - 1) + [0], m - 1, av.value[last_argc].value, bufp)
    ensures var reps := FixedReps(steps, m - 1) + [0];
            reps[m - 1 := reps[m - 1] + 1] == FixedReps(steps, m)
  {
    LatestToken(av.value, bufp, argc, last_argc, s, steps, m, a0);
    FixedStep(steps, m);
    ParsingReady(c, av, bufp, argc, b, s, steps, m, a0, FixedReps(steps, m - 1) + [0], m - 1, av.value[last_argc].value);
  }

  /** A round that counted no token (argc still equals last_argc) leaves the counts as they were. */
  lemma NoTokenCounted(steps: seq<Step>, m: nat, argc: nat, last_argc: nat)
    requires 1 <= m <= |steps| && argc == |Starts(steps[..m])|
    requires last_argc == |Starts(steps[..m - 1])| && last_argc == argc
    ensures FixedReps(steps, m - 1) + [0] == FixedReps(steps, m)
  {
    StartsSnoc(steps, m - 1);
    assert FixedReps(steps, m - 1) + [0] == FixedReps(steps, m);
  }

  /** A round that counted no token, or the counting pass, unescapes nothing. */
  lemma LatestIdle(c: seq<char>, av: Option<seq<Option<nat>>>, bufp: nat, argc: nat, last_argc: nat,
                   b: seq<char>, s: string, steps: seq<Step>, m: nat, a0: seq<Option<nat>>)
    requires 1 <= m <= |steps|
    requires Parsing(c, av, bufp, argc, b, s, steps, m, a0, FixedReps(steps, m - 1) + [0])
    requires last_argc == |Starts(steps[..m - 1])| && (av.None? || last_argc == argc)
    ensures Parsing(c, av, bufp, argc, b, s, steps, m, a0, FixedReps(steps, m))
  {
    if av.Some? {
      NoTokenCounted(steps, m, argc, last_argc);
    } else {
      ParsingCounting(c, bufp, argc, b, s, steps, m, a0, FixedReps(steps, m - 1) + [0], FixedReps(steps, m));
    }
  }

  /** `if(argv && last_argc != argc) UnEscapeQuotes(argv[last_argc]);` with last_argc the count before this round. */
  method UnescapeLatest(cmdline: array<char>, argv: array?<Option<nat>>, argc: nat, last_argc: nat, bufp: nat,
                        ghost b: seq<char>, ghost s: string, ghost steps: seq<Step>, ghost m: nat, ghost a0: seq<Option<nat>>)
    requires 1 <= m <= |steps|
    requires Parsing(cmdline[..], ArgvOf(argv), bufp, argc, b, s, steps, m, a0, FixedReps(steps, m - 1) + [0])
    requires last_argc == |Starts(steps[..m - 1])| && bufp == steps[m - 1].next
    modifies cmdline
    ensures Parsing(cmdline[..], ArgvOf(argv), bufp, argc, b, s, steps, m, a0, FixedReps(steps, m))
  {
    ghost var reps := FixedReps(steps, m - 1) + [0];
    if argv != null && last_argc != argc {
      ghost var av := ArgvOf(argv);
      ghost var c := cmdline[..];
      LatestReady(c, av, bufp, argc, last_argc, b, s, steps, m, a0);
      var t := argv[last_argc].value;
      UnescapeToken(cmdline, t, bufp, b, s, steps, m, reps, m - 1);
      assert ArgvOf(argv) == av;
      ParsingUnescaped(c, cmdline[..], av, bufp, argc, b, s, steps, m, a0, reps, m - 1, FixedReps(steps, m));
    } else {
      LatestIdle(cmdline[..], ArgvOf(argv), bufp, argc, last_argc, b, s, steps, m, a0);
    }
  }

  /** One round of the corrected outer loop, entered with last_argc == argc. */
  method RoundFixed(cmdline: array<char>, argv: array?<Option<nat>>, bufp: nat, argc: nat, last_argc: nat,
                    ghost b: seq<char>, ghost s: string, ghost steps: seq<Step>, ghost m: nat, ghost a0: seq<Option<nat>>)
    returns (bufp': nat, argc': nat)
    requires m <= |steps| && Parsing(cmdline[..], ArgvOf(argv), bufp, argc, b, s, steps, m, a0, FixedReps(steps, m))
    requires bufp < |s| && last_argc == argc
    modifies cmdline, argv
    ensures m + 1 <= |steps| && Parsing(cmdline[..], ArgvOf(argv), bufp', argc', b, s, steps, m + 1, a0, FixedReps(steps, m + 1))
    ensures bufp < bufp'
  {
    bufp', argc' := Advance(cmdline, argv, bufp, argc, b, s, steps, m, a0, FixedReps(steps, m));
    UnescapeLatest(cmdline, argv, argc', last_argc, bufp', b, s, steps, m + 1, a0);
  }

  /**
   * ParseCommandLine with `last_argc = argc;` at the end of each round: the
   * same count and argv, with every argument unescaped exactly once.
   */
  method ParseCommandLineFixed(cmdline: array<char>, argv: array?<Option<nat>>, ghost n: nat) returns (argc: nat)
    requires n < cmdline.Length && cmdline[n] == NUL && NoNul(cmdline[..n])
    requires argv != null ==> |Tokens(cmdline[..n])| < argv.Length
    modifies cmdline, argv
    ensures argc == |Tokens(old(cmdline[..n]))|
    ensures argv == null ==> cmdline[..] == old(cmdline[..])
    ensures argv != null ==> forall q :: 0 <= q < argc ==> argv[q] == Some(Tokens(old(cmdline[..n]))[q])
    ensures argv != null ==> argv[argc] == None
    ensures argv != null ==> forall q :: argc < q < argv.Length ==> argv[q] == old(argv[q])
    ensures argv != null ==> ParsedFixed(cmdline[..], old(cmdline[..]), n)
  {
    ghost var b := cmdline[..];
    ghost var s := cmdline[..n];
    ghost var steps := Steps(s, 0);
    ghost var m: nat := 0;
    assert b[..|s|] == s;
    argc := 0;
    var last_argc := 0;
    var bufp := 0;
    ghost var a0 := if argv != null then argv[..] else [];
    ParsingStart(b, s, n, ArgvOf(argv), a0, FixedReps(steps, 0));
    while cmdline[bufp] != NUL
      invariant m <= |steps| && Parsing(cmdline[..], ArgvOf(argv), bufp, argc, b, s, steps, m, a0, FixedReps(steps, m))
      invariant last_argc == argc
      decreases |s| - bufp
    {
      bufp, argc := RoundFixed(cmdline, argv, bufp, argc, last_argc, b, s, steps, m, a0);
      last_argc := argc;
      m := m + 1;
    }
    ParsedAll(cmdline[..], ArgvOf(argv), bufp, argc, b, s, steps, m, a0, FixedReps(steps, m));
    if argv != null {
      argv[argc] := None;
    }
  }

  // ---------------------------------------------------------------------------
  // Two command lines on which the parsers differ

  /** The command line `a b\"c`: two arguments, the second with an escaped quote. */
  lemma EscapeInSecond()
    ensures var s := "a b\\\"c";
            && Tokens(s) == [0, 2] && Argument(s, 1) == "b\\\"c" && Unescaped("b\\\"c") == "b\"c"
  {
    var s := "a b\\\"c";
    assert StepAt(s, 0) == Step(0, false, Some(0), 1, 2);
    assert StepAt(s, 2) == Step(2, false, Some(2), 6, 6);
    assert Steps(s, 0) == [StepAt(s, 0), StepAt(s, 2)];
  }

  /** As written, the second argument of `a b\"c` keeps its backslash. */
  lemma AsWrittenKeepsEscape(c: seq<char>, b: seq<char>)
    requires b == "a b\\\"c" + [NUL] && ParsedAsWritten(c, b, 6)
    ensures HoldsCString(c, 2, "b\\\"c")
  {
    EscapeInSecond();
    assert b[..6] == "a b\\\"c";
    AsWrittenArguments(c, b, 6, 1);
  }

  /** Corrected, the second argument of `a b\"c` is `b"c`. */
  lemma FixedDropsEscape(c: seq<char>, b: seq<char>)
    requires b == "a b\\\"c" + [NUL] && ParsedFixed(c, b, 6)
    ensures HoldsCString(c, 2, "b\"c")
  {
    EscapeInSecond();
    assert b[..6] == "a b\\\"c";
    FixedArguments(c, b, 6, 1);
  }

  /** The command line `\\" b`: two arguments, the first with a backslash before an escaped quote. */
  lemma EscapeInFirst()
    ensures var s := "\\\\\" b";
            && |Steps(s, 0)| == 2 && Tokens(s) == [0, 4] && Argument(s, 0) == "\\\\\""
            && Repeat(2, "\\\\\"") == "\"" && Unescaped("\\\\\"") == "\\\""
  {
    var s := "\\\\\" b";
    assert StepAt(s, 0) == Step(0, false, Some(0), 3, 4);
    assert StepAt(s, 4) == Step(4, false, Some(4), 5, 5);
    assert Steps(s, 0) == [StepAt(s, 0), StepAt(s, 4)];
  }

  /** As written, the first argument of `\\" b` is unescaped once per round, leaving only the quote. */
  lemma AsWrittenOverUnescapes(c: seq<char>, b: seq<char>)
    requires b == "\\\\\" b" + [NUL] && ParsedAsWritten(c, b, 5)
    ensures HoldsCString(c, 0, "\"")
  {
    EscapeInFirst();
    assert b[..5] == "\\\\\" b";
    AsWrittenArguments(c, b, 5, 0);
  }

  /** Corrected, the first argument of `\\" b` is unescaped once: `\"`. */
  lemma FixedUnescapesOnce(c: seq<char>, b: seq<char>)
    requires b == "\\\\\" b" + [NUL] && ParsedFixed(c, b, 5)
    ensures HoldsCString(c, 0, "\\\"")
  {
    EscapeInFirst();
    assert b[..5] == "\\\\\" b";
    FixedArguments(c, b, 5, 0);
  }
}
