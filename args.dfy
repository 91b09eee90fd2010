/** The argument record of cli/src/args.rs, the version of `Arguments` that
    adds the digest choice and `--list-digests`, and that turns verification on
    by the presence of `-c` rather than by its value. */
module Args {
  import opened Wrappers
  import opened Routing
  import Cli
  import Engine

  /** `Arguments`: the fields shared with cli/src/cli.rs (archive, append file,
      the `-c` directory as `check_source`, the last `--quiet` and `--status`
      indices) and the two switches of this version. The digest choice is an
      algorithm handed to the engines and is not part of the record here. */
  datatype Arguments = Arguments(common: Cli.Arguments, check: bool, listDigests: bool)
  {
    /** `list_digests()`. */
    predicate ListDigests() {
      listDigests
    }

    /** `verify()`: `-c` occurred, with or without a directory. */
    predicate Verify() {
      check
    }

    /** `verify_dir()`: the directory given to `-c`, if any. */
    function VerifyDir(): Option<string> {
      common.check
    }

    /** `append_or_sink()`: the append file, else a sink. */
    function AppendOrSink(openError: string -> Option<string>): Result<Dest, string> {
      common.AppendOrSink(openError)
    }

    /** `append_or_stdout()`: the append file, else stdout. */
    function AppendOrStdout(openError: string -> Option<string>): Result<Dest, string> {
      common.AppendOrStdout(openError)
    }

    /** `verify_out()`. */
    function VerifyOutDest(): Dest {
      common.VerifyOutDest()
    }

    /** `verify_err()`. */
    function VerifyErrDest(): Dest {
      common.VerifyErrDest()
    }
  }

  /** `Arguments::from(matches)`: the shared fields are read as cli/src/cli.rs
      reads them; `check` and `list_digests` are presence tests. */
  function FromMatches(m: Cli.Matches): (a: Arguments)
    requires Cli.WellFormed(m)
    ensures a.common == Cli.FromMatches(m)
    ensures a.Verify() <==> Cli.IsPresent(m, "check")
    ensures a.ListDigests() <==> Cli.IsPresent(m, "list-digests")
    ensures a.VerifyDir() == Cli.ValueOf(m, "check")
  {
    Arguments(Cli.FromMatches(m), Cli.IsPresent(m, "check"), Cli.IsPresent(m, "list-digests"))
  }

  /** The two versions disagree only on a bare `-c`: a `-c` with a directory
      verifies in both, no `-c` verifies in neither, and a `-c` without a
      directory verifies here (against the member paths as they stand) but
      prints in cli/src/cli.rs. */
  lemma VerifySwitchDiffers(m: Cli.Matches)
    requires Cli.WellFormed(m)
    ensures Cli.FromMatches(m).Verify() ==> FromMatches(m).Verify()
    ensures FromMatches(m).Verify() && !Cli.FromMatches(m).Verify() <==>
              Cli.IsPresent(m, "check") && "check" !in m.values
    ensures FromMatches(m).Verify() && !Cli.FromMatches(m).Verify() ==> FromMatches(m).VerifyDir() == None
  {
  }

  /** The long help of `-c` (cli/src/cli.rs:190-196) promises that `-c`
      without a directory verifies against the current working directory. This
      record keeps that promise: a bare `-c` verifies, and every member is then
      looked up at its own path, relative to the working directory. */
  lemma BareCheckVerifiesHere(m: Cli.Matches, path: string)
    requires Cli.WellFormed(m) && Cli.IsPresent(m, "check") && "check" !in m.values
    ensures FromMatches(m).Verify()
    ensures Engine.SourcePath(FromMatches(m).VerifyDir(), path) == path
  {
  }

  /** The routing and sink decisions are those of cli/src/cli.rs, so the
      last-flag-wins reading holds here too. */
  lemma SinksAgree(m: Cli.Matches, openError: string -> Option<string>)
    requires Cli.WellFormed(m)
    ensures var a := FromMatches(m);
      && a.VerifyOutDest() == VerifyOut(Cli.LastOf(m, "quiet"), Cli.LastOf(m, "status"))
      && a.VerifyErrDest() == VerifyErr(Cli.LastOf(m, "quiet"), Cli.LastOf(m, "status"))
      && (a.AppendOrSink(openError).Ok? ==>
            a.AppendOrSink(openError).value == if "append" in m.values then AppendFile(m.values["append"]) else Sink)
      && (a.AppendOrStdout(openError).Ok? ==>
            a.AppendOrStdout(openError).value == if "append" in m.values then AppendFile(m.values["append"]) else Stdout)
  {
  }
}
