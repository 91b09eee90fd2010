/** Where the verification sinks go, decided from the last command-line index
    of `--quiet` and of `--status` (`verify_out` / `verify_err` in cli/src/cli.rs,
    src/cli.rs and cli/src/args.rs, and the same decision written inline in the
    `main.rs` files). */
module Routing {
  import opened Wrappers

  /** A writer the tools hand to the engines. */
  datatype Dest = Stdout | Stderr | Sink | AppendFile(path: string)

  /** `verify_out`: the OK lines go to stdout unless either flag was given. */
  function VerifyOut(lastQuiet: Option<nat>, lastStatus: Option<nat>): (d: Dest)
    ensures d == Stdout || d == Sink
    ensures d == Stdout <==> lastQuiet.None? && lastStatus.None?
  {
    if lastQuiet.Some? || lastStatus.Some? then Sink else Stdout
  }

  /** `verify_err`: MISSING and FAILED lines and the summaries go to stderr,
      unless `--status` was given and no `--quiet` came after it. */
  function VerifyErr(lastQuiet: Option<nat>, lastStatus: Option<nat>): (d: Dest)
    ensures d == Stderr || d == Sink
    ensures d == Sink <==> lastStatus.Some? && (lastQuiet.None? || lastQuiet.value <= lastStatus.value)
  {
    match (lastQuiet, lastStatus)
    case (Some(quiet), Some(status)) =>
      if quiet > status then Stderr else Sink
    case (_, Some(_)) => Sink
    case (_, None) => Stderr
  }

  // ---------------------------------------------------------------------------
  // a reference: the verbosity the flags select when read from left to right
  // ---------------------------------------------------------------------------

  /** A command-line word, as far as verbosity goes. */
  datatype Word = QuietFlag | StatusFlag | OtherWord

  datatype Verbosity = Normal | Quiet | Status

  /** Each `--quiet` or `--status` overrides what came before it. */
  function FinalVerbosity(argv: seq<Word>): Verbosity {
    if argv == [] then Normal
    else
      match argv[|argv| - 1]
      case QuietFlag => Quiet
      case StatusFlag => Status
      case OtherWord => FinalVerbosity(argv[..|argv| - 1])
  }

  /** The index of the last occurrence of `w`, which is what clap's
      `indices_of(..)` followed by `last` gives for a flag. */
  function LastIndex(argv: seq<Word>, w: Word): (r: Option<nat>)
    ensures r.Some? ==> r.value < |argv| && argv[r.value] == w
    ensures r.Some? ==> forall i :: r.value < i < |argv| ==> argv[i] != w
    ensures r.None? ==> forall i :: 0 <= i < |argv| ==> argv[i] != w
  {
    if argv == [] then None
    else if argv[|argv| - 1] == w then Some(|argv| - 1)
    else LastIndex(argv[..|argv| - 1], w)
  }

  /** The routing table is the last-flag-wins reading of the command line:
      normal output only when neither flag occurs, silence on both sinks when
      `--status` comes last, and stderr alone when `--quiet` comes last. */
  lemma {:induction false} RoutingFollowsLastFlag(argv: seq<Word>)
    ensures var q, s := LastIndex(argv, QuietFlag), LastIndex(argv, StatusFlag);
      && VerifyOut(q, s) == (if FinalVerbosity(argv) == Normal then Stdout else Sink)
      && VerifyErr(q, s) == (if FinalVerbosity(argv) == Status then Sink else Stderr)
  {
    if argv != [] {
      RoutingFollowsLastFlag(argv[..|argv| - 1]);
    }
  }

  /** Without `--status` the error sink does not depend on `--quiet`, and
      `--status` with no later `--quiet` silences both sinks. */
  lemma StatusDecidesErr(q1: Option<nat>, q2: Option<nat>, status: nat)
    ensures VerifyErr(q1, None) == VerifyErr(q2, None) == Stderr
    ensures VerifyOut(None, Some(status)) == Sink && VerifyErr(None, Some(status)) == Sink
  {
  }

  // ---------------------------------------------------------------------------
  // the inline decision of archive-sum-cli/src/main.rs and src/main.rs
  // ---------------------------------------------------------------------------

  /** Rust's `>` on `Option<usize>`: `None` is below every `Some`. */
  predicate OptionGreater(a: Option<nat>, b: Option<nat>) {
    a.Some? && (b.None? || a.value > b.value)
  }

  /** The error sink as written in the `main.rs` files, where
      `indices_of(..).map(Iterator::last)` gives a nested option and the guard
      compares the inner options. */
  function VerifyErrNested(lastQuiet: Option<Option<nat>>, lastStatus: Option<Option<nat>>): (d: Dest)
    ensures d == Stderr || d == Sink
  {
    match (lastQuiet, lastStatus)
    case (Some(quiet), Some(status)) =>
      if OptionGreater(quiet, status) then Stderr else Sink
    case (_, Some(_)) => Sink
    case (_, None) => Stderr
  }

  /** What `indices_of(..).map(Iterator::last)` gives: clap yields indices only
      for a flag that occurs, so the inner option is never empty. */
  function Nested(last: Option<nat>): (r: Option<Option<nat>>)
    ensures r.Some? <==> last.Some?
  {
    match last
    case None => None
    case Some(i) => Some(Some(i))
  }

  /** The nested-option version decides exactly what `verify_err` decides. */
  lemma NestedAgrees(lastQuiet: Option<nat>, lastStatus: Option<nat>)
    ensures VerifyErrNested(Nested(lastQuiet), Nested(lastStatus)) == VerifyErr(lastQuiet, lastStatus)
  {
  }
}
