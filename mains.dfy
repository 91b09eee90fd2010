/** The `main.rs` files of the three Rust command-line tools: which mode runs,
    how its result becomes an exit code and an error line, and the sinks the
    older two set up inline before calling the engines (archive-sum-cli and
    src, which use subcommands) or through `Arguments` (cli). */
module Mains {
  import opened Wrappers
  import opened Routing
  import Cli
  import Args

  /** What the process leaves behind: stdout lines, stderr lines, exit code. */
  datatype Exit = Exit(out: seq<string>, err: seq<string>, code: int)

  /** The `eprintln!` of an error that reaches `main`. */
  function ErrorLine(e: string): string {
    "archive-sum: error: " + e
  }

  /** The subcommand chosen on the command line of the subcommand tools. */
  datatype Subcommand = PrintCommand | VerifyCommand

  /** `main` of archive-sum-cli/src/main.rs and src/main.rs, given what the
      chosen subcommand returned: a verification that finds a mismatch exits
      with 1 and prints nothing more, an error is printed and the process
      still exits with 0. */
  function SubcommandExit(cmd: Subcommand, printResult: Result<(), string>, verifyResult: Result<bool, string>): (x: Exit)
    ensures x.out == []
    ensures x.code == 1 <==> cmd == VerifyCommand && verifyResult == Ok(false)
    ensures x.code == 0 || x.code == 1
    ensures cmd == PrintCommand ==> x.err == (if printResult.Err? then [ErrorLine(printResult.error)] else [])
    ensures cmd == VerifyCommand ==> x.err == (if verifyResult.Err? then [ErrorLine(verifyResult.error)] else [])
  {
    match cmd
    case PrintCommand =>
      (match printResult
       case Ok(_) => Exit([], [], 0)
       case Err(e) => Exit([], [ErrorLine(e)], 0))
    case VerifyCommand =>
      (match verifyResult
       case Ok(true) => Exit([], [], 0)
       case Ok(false) => Exit([], [], 1)
       case Err(e) => Exit([], [ErrorLine(e)], 0))
  }

  /** The three modes of cli/src/main.rs. */
  datatype Mode = ListMode | VerifyMode | PrintMode

  /** `--list-digests` wins over `-c`, which wins over printing. */
  function ModeOf(a: Args.Arguments): (mode: Mode)
    ensures mode == ListMode <==> a.ListDigests()
    ensures mode == VerifyMode <==> !a.ListDigests() && a.Verify()
    ensures mode == PrintMode <==> !a.ListDigests() && !a.Verify()
  {
    if a.ListDigests() then ListMode
    else if a.Verify() then VerifyMode
    else PrintMode
  }

  /** `main` of cli/src/main.rs: the digest names for `--list-digests`, else
      the chosen run, where both a mismatch and an error exit with 1. */
  function MainExit(a: Args.Arguments, digestNames: seq<string>, printResult: Result<(), string>, verifyResult: Result<bool, string>): (x: Exit)
    ensures x.out == (if a.ListDigests() then digestNames else [])
    ensures x.code == 0 <==>
      match ModeOf(a)
      case ListMode => true
      case VerifyMode => verifyResult == Ok(true)
      case PrintMode => printResult.Ok?
    ensures x.code == 0 || x.code == 1
    ensures |x.err| <= 1 && (x.err != [] ==> x.code == 1)
  {
    match ModeOf(a)
    case ListMode => Exit(digestNames, [], 0)
    case VerifyMode =>
      (match verifyResult
       case Ok(true) => Exit([], [], 0)
       case Ok(false) => Exit([], [], 1)
       case Err(e) => Exit([], [ErrorLine(e)], 1))
    case PrintMode =>
      (match printResult
       case Ok(_) => Exit([], [], 0)
       case Err(e) => Exit([], [ErrorLine(e)], 1))
  }

  /** An error is reported with the same line everywhere, but only cli's
      `main` turns it into a failing exit code; a mismatch fails in all. */
  lemma ErrorExitCodes(a: Args.Arguments, digestNames: seq<string>, e: string)
    requires !a.ListDigests() && a.Verify()
    ensures SubcommandExit(VerifyCommand, Ok(()), Err(e)) == Exit([], [ErrorLine(e)], 0)
    ensures MainExit(a, digestNames, Ok(()), Err(e)) == Exit([], [ErrorLine(e)], 1)
    ensures SubcommandExit(VerifyCommand, Ok(()), Ok(false)).code == MainExit(a, digestNames, Ok(()), Ok(false)).code == 1
  {
  }

  // ---------------------------------------------------------------------------
  // sinks set up inline in archive-sum-cli/src/main.rs and src/main.rs
  // ---------------------------------------------------------------------------

  /** The writers `run_verify` hands to the engine. */
  datatype Sinks = Sinks(append: Dest, out: Dest, err: Dest)

  /** `run_verify` up to the engine call: the archive (its open error, if
      any, comes first), then the append file or a sink, then the `out` sink by
      `is_present` and the `err` sink by the nested last indices. */
  function VerifySetup(m: Cli.Matches, archiveError: Option<string>, openError: string -> Option<string>): (r: Result<Sinks, string>)
    requires Cli.WellFormed(m)
    ensures archiveError.Some? ==> r == Err(archiveError.value)
  {
    if archiveError.Some? then Err(archiveError.value)
    else
      var append: Result<Dest, string> :=
        if "append" in m.values then
          match openError(m.values["append"])
          case Some(e) => Err(e)
          case None => Ok(AppendFile(m.values["append"]))
        else Ok(Sink);
      if append.Err? then Err(append.error)
      else
        var out := if Cli.IsPresent(m, "quiet") || Cli.IsPresent(m, "status") then Sink else Stdout;
        var err := VerifyErrNested(Nested(Cli.LastOf(m, "quiet")), Nested(Cli.LastOf(m, "status")));
        Ok(Sinks(append.value, out, err))
  }

  /** `run_print` up to the engine call: the archive, then the append file or
      stdout. */
  function PrintSetup(m: Cli.Matches, archiveError: Option<string>, openError: string -> Option<string>): (r: Result<Dest, string>)
    ensures archiveError.Some? ==> r == Err(archiveError.value)
  {
    if archiveError.Some? then Err(archiveError.value)
    else if "append" in m.values then
      match openError(m.values["append"])
      case Some(e) => Err(e)
      case None => Ok(AppendFile(m.values["append"]))
    else Ok(Stdout)
  }

  /** The inline set-up chooses exactly the writers the later `Arguments`
      methods choose: `append_or_sink`, `verify_out`, `verify_err` and
      `append_or_stdout`. */
  lemma SetupAgreesWithArguments(m: Cli.Matches, openError: string -> Option<string>)
    requires Cli.WellFormed(m)
    ensures var a := Cli.FromMatches(m);
      && VerifySetup(m, None, openError) ==
           (match a.AppendOrSink(openError)
            case Err(e) => Err(e)
            case Ok(d) => Ok(Sinks(d, a.VerifyOutDest(), a.VerifyErrDest())))
      && PrintSetup(m, None, openError) == a.AppendOrStdout(openError)
  {
    NestedAgrees(Cli.LastOf(m, "quiet"), Cli.LastOf(m, "status"));
  }

  /** `run_verify` of cli/src/main.rs up to the engine call: the archive, then
      `append_or_sink`, `verify_out` and `verify_err`. */
  function ArgsVerifySetup(a: Args.Arguments, archiveError: Option<string>, openError: string -> Option<string>): (r: Result<Sinks, string>)
    ensures archiveError.Some? ==> r == Err(archiveError.value)
    ensures archiveError.None? ==> (r.Ok? <==> a.AppendOrSink(openError).Ok?)
    ensures r.Ok? ==> (r.value.out == Sink <==> a.common.lastQuiet.Some? || a.common.lastStatus.Some?)
  {
    if archiveError.Some? then Err(archiveError.value)
    else
      match a.AppendOrSink(openError)
      case Err(e) => Err(e)
      case Ok(d) => Ok(Sinks(d, a.VerifyOutDest(), a.VerifyErrDest()))
  }

  /** `run_print` of cli/src/main.rs up to the engine call: the archive, then
      `append_or_stdout`. */
  function ArgsPrintSetup(a: Args.Arguments, archiveError: Option<string>, openError: string -> Option<string>): (r: Result<Dest, string>)
    ensures archiveError.Some? ==> r == Err(archiveError.value)
    ensures archiveError.None? ==> (r.Ok? <==> a.AppendOrStdout(openError).Ok?)
    ensures r.Ok? && a.common.append.None? ==> r.value == Stdout
  {
    if archiveError.Some? then Err(archiveError.value) else a.AppendOrStdout(openError)
  }

  /** The three tools hand the engines the same writers for the same command
      line: cli's `Arguments` methods choose what the inline set-up of the
      subcommand tools chooses. */
  lemma ArgsSetupAgrees(m: Cli.Matches, archiveError: Option<string>, openError: string -> Option<string>)
    requires Cli.WellFormed(m)
    ensures ArgsVerifySetup(Args.FromMatches(m), archiveError, openError) == VerifySetup(m, archiveError, openError)
    ensures ArgsPrintSetup(Args.FromMatches(m), archiveError, openError) == PrintSetup(m, archiveError, openError)
  {
    SetupAgreesWithArguments(m, openError);
  }

  /** `--status` with no `--quiet` after it silences both sinks; the append
      file is still written. */
  lemma StatusAloneSilences(m: Cli.Matches, openError: string -> Option<string>)
    requires Cli.WellFormed(m) && Cli.IsPresent(m, "status") && !Cli.IsPresent(m, "quiet")
    requires VerifySetup(m, None, openError).Ok?
    ensures var s := VerifySetup(m, None, openError).value;
      s.out == Sink && s.err == Sink && ("append" in m.values ==> s.append == AppendFile(m.values["append"]))
  {
  }

  // ---------------------------------------------------------------------------
  // the gzip decision of src/main.rs
  // ---------------------------------------------------------------------------

  predicate EndsWith(s: string, suffix: string) {
    |suffix| <= |s| && s[|s| - |suffix|..] == suffix
  }

  /** `ends_with(".tar.gz") || ends_with(".tgz")`, case-sensitively. */
  predicate GzipBySuffix(path: string) {
    EndsWith(path, ".tar.gz") || EndsWith(path, ".tgz")
  }

  /** `archive_from`: standard input when no archive is named; otherwise the
      file (an error when it cannot be opened), decompressed when its name ends
      with ".tar.gz" or ".tgz". */
  function ArchiveFrom(archive: Option<string>, openError: string -> Option<string>): (r: Result<Cli.Source, string>)
    ensures archive.None? ==> r == Ok(Cli.Stdin)
    ensures archive.Some? ==> (r.Err? <==> openError(archive.value).Some?)
    ensures r.Ok? && archive.Some? ==>
      r.value == (if GzipBySuffix(archive.value) then Cli.GzipFile(archive.value) else Cli.PlainFile(archive.value))
  {
    match archive
    case None => Ok(Cli.Stdin)
    case Some(path) =>
      match openError(path)
      case Some(e) => Err(e)
      case None => Ok(if GzipBySuffix(path) then Cli.GzipFile(path) else Cli.PlainFile(path))
  }

  /** A name `x` followed by a suffix: the file name of `x + suffix`. */
  lemma FileNameWithSuffix(x: string, stem: string, ext: string)
    requires '/' !in stem && '/' !in ext && '.' !in ext && |ext| > 0
    requires |Cli.AfterLastSlash(x) + stem| > 0
    ensures Cli.Extension(x + (stem + "." + ext)) == Some(ext)
  {
    var name := Cli.AfterLastSlash(x) + stem;
    var tail := stem + "." + ext;
    assert Cli.FileName(x + tail) == Some(name + "." + ext) by {
      assert '/' !in tail;
      assert Cli.AfterLastSlash(x) + tail == name + "." + ext;
      Cli.NotParent(name, ext);
      Cli.FileNameAppend(x, tail);
    }
    Cli.AfterLastDotSplit(name, ext);
  }

  /** Every ".tar.gz" name is also decompressed by the extension test. */
  lemma TarGzHasExtension(path: string)
    requires EndsWith(path, ".tar.gz")
    ensures Cli.GzipByExtension(path)
  {
    var x := path[..|path| - 7];
    assert path == x + (".tar" + "." + "gz");
    FileNameWithSuffix(x, ".tar", "gz");
  }

  /** So is every ".tgz" name with something before the dot in its last
      component. */
  lemma TgzHasExtension(path: string)
    requires EndsWith(path, ".tgz") && |path| > 4 && path[|path| - 5] != '/'
    ensures Cli.GzipByExtension(path)
  {
    var x := path[..|path| - 4];
    assert path == x + ([] + "." + "tgz");
    Cli.AfterLastSlashNonEmpty(x);
    FileNameWithSuffix(x, [], "tgz");
  }

  /** "a.gz", a gzipped file that is not a tarball by name, is decompressed by
      the extension test only. */
  lemma PlainGzOnlyByExtension()
    ensures Cli.GzipByExtension("a.gz") && !GzipBySuffix("a.gz")
  {
    var p := "a.gz";
    Cli.LastBeforeNone(p, '/', |p|);
    Cli.LastBeforeIs(p, '.', |p|, 1);
    assert p[2..] == "gz";
    assert p[|p| - 4..][0] != '.';
  }

  /** "T.GZ" is decompressed by the extension test only: the suffix test is
      case-sensitive. */
  lemma UpperCaseOnlyByExtension()
    ensures Cli.GzipByExtension("T.GZ") && !GzipBySuffix("T.GZ")
  {
    Cli.GzipIgnoresCase();
    assert "T.GZ"[0] != '.';
  }

  /** "d/.tgz" is decompressed by the suffix test only. */
  lemma SuffixWithoutExtension()
    ensures GzipBySuffix("d/.tgz") && !Cli.GzipByExtension("d/.tgz")
  {
    Cli.GzipNeedsStem();
    assert "d/.tgz"[2..] == ".tgz";
  }
}
