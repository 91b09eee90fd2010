/** src/check.c: `archive_check`, the C verification loop. Unlike the Rust tools
    it prints verdicts with the member's own path, routes them by a verbosity
    level, reports unreadable copies through `perror`, keeps no append sink and
    returns 1 for a clean archive and 0 otherwise. */
module CCheck {
  import opened Bytes
  import opened Wrappers
  import opened Native
  import opened Digest
  import opened Hex
  import opened Decimal
  import opened Engine
  import Feed

  /** `verbosity_t`. */
  datatype Verbosity = NORMAL | QUIET | STATUS

  /** Size of `original_path`, terminating NUL included. */
  const PATH_MAX: Pos := 4096

  /** What `perror` appends after a failed `stat` of a path that does not exist. */
  const ENOENT_MESSAGE: string := "No such file or directory"

  /** The line `perror(s)` writes to stderr when `stat(s)` fails. */
  function Perror(s: string): string {
    s + ": " + ENOENT_MESSAGE
  }

  /** `snprintf(buf, n, "%s", s)`: the longest prefix of `s` that leaves room for
      the terminating NUL. */
  function Snprintf(s: string, n: Pos): (r: string)
    ensures |r| < n && r <= s
    ensures |s| < n ==> r == s
    ensures |s| >= n ==> |r| == n - 1
  {
    if |s| < n then s else s[..n - 1]
  }

  /** `original_path`: the member's path, under `check_dir` when that is not
      empty, cut to fewer than PATH_MAX characters (C counts bytes). */
  function OriginalPath(checkDir: string, pathname: string): (r: string)
    ensures |r| < PATH_MAX
  {
    Snprintf(if |checkDir| == 0 then pathname else checkDir + "/" + pathname, PATH_MAX)
  }

  /** The inputs that stay the same for a whole check. */
  datatype CheckEnv = CheckEnv(digest: Algorithm, checkDir: string, disk: Disk, verbosity: Verbosity)

  /** The loop's state: the stdout and stderr lines so far, the two counters, and
      (for the proofs) the verdict of each member that got one. */
  datatype CheckScan = CheckScan(out: seq<string>, err: seq<string>, missing: nat, warning: nat, verdicts: seq<Verdict>)

  /** How a regular member's check ends: its copy cannot be `stat`ed, the two
      digests differ in length, or they are compared. */
  datatype Outcome = Unreadable(original: string) | LengthMismatch | Compared(same: bool)

  /** The outcome for one regular member: the archive digest covers every byte
      the data reads return before they return 0 or an error. */
  function MemberOutcome(m: Member, env: CheckEnv): Outcome {
    var original := OriginalPath(env.checkDir, m.path);
    if original !in env.disk then Unreadable(original)
    else
      var mdArchive := env.digest(m.data);
      var mdOriginal := env.digest(env.disk[original].content);
      if |mdArchive| != |mdOriginal| then LengthMismatch
      else Compared(mdArchive == mdOriginal)
  }

  /** The verbosity table for a compared member: NORMAL prints OK or FAILED,
      QUIET prints only FAILED, STATUS prints nothing; a mismatch always counts. */
  function Tabulate(s: CheckScan, pathname: string, same: bool, verbosity: Verbosity): CheckScan {
    var counted := s.(warning := if same then s.warning else s.warning + 1,
                      verdicts := s.verdicts + [if same then OK else FAILED]);
    match verbosity
    case NORMAL => counted.(out := s.out + [pathname + (if same then ": OK" else ": FAILED")])
    case QUIET => if same then counted else counted.(out := s.out + [pathname + ": FAILED"])
    case STATUS => counted
  }

  /** One turn of the header loop. */
  function CheckStep(s: CheckScan, m: Member, env: CheckEnv): CheckScan {
    if !IsRegular(m) then s
    else
      match MemberOutcome(m, env)
      case Unreadable(original) =>
        s.(err := s.err + [Perror(original)], missing := s.missing + 1, verdicts := s.verdicts + [MISSING])
      case LengthMismatch =>
        s.(err := s.err + [m.path + ": digests don't have the same length"])
      case Compared(same) =>
        Tabulate(s, m.path, same, env.verbosity)
  }

  /** The header loop over the first members; it stops at the first status other
      than ARCHIVE_OK, so a trailing header error ends it silently. */
  function CheckMembers(ms: seq<Member>, env: CheckEnv): CheckScan {
    if ms == [] then CheckScan([], [], 0, 0, [])
    else CheckStep(CheckMembers(ms[..|ms| - 1], env), ms[|ms| - 1], env)
  }

  /** The warning summaries written to stderr unless the verbosity is STATUS. The
      first one picks "file" or "files" by the number of mismatches, not by the
      number of unreadable files. */
  function CheckSummaries(archive: string, missing: nat, warning: nat, verbosity: Verbosity): seq<string> {
    (if missing > 0 && verbosity != STATUS then
       [archive + ": WARNING: " + DecimalString(missing) + " listed "
        + (if warning == 1 then "file" else "files") + " could not be read"]
     else [])
    + (if warning > 0 && verbosity != STATUS then
         [archive + ": WARNING: " + DecimalString(warning) + " computed "
          + (if warning == 1 then "checksum" else "checksums") + " did NOT match"]
       else [])
  }

  /** Everything a call leaves behind: stdout lines, stderr lines, return value. */
  datatype CheckOutput = CheckOutput(out: seq<string>, err: seq<string>, ret: int)

  /** `archive_check(md, check_dir, archive, verbosity)` over the archives and the
      files on disk. */
  function CheckRun(archive: string, archives: map<string, ArchiveFile>, env: CheckEnv): CheckOutput {
    if archive !in archives then CheckOutput([], [Perror(archive)], 0)
    else
      var file := archives[archive];
      if file.openError.Some? then CheckOutput([], [file.openError.value + ": " + archive], 0)
      else
        var s := CheckMembers(Reached(file.container.members), env);
        var err := s.err + CheckSummaries(archive, s.missing, s.warning, env.verbosity);
        if file.freeError.Some? then CheckOutput(s.out, err + [file.freeError.value + ": " + archive], 0)
        else CheckOutput(s.out, err, if s.missing > 0 || s.warning > 0 then 0 else 1)
  }

  // ---------------------------------------------------------------------------
  // the code
  // ---------------------------------------------------------------------------

  /** The length passed to `read` for a member's original file. The source passes
      the file's own `st_blksize`, which overruns `buf` (sized by the archive's
      `st_blksize`) when it is the larger; this is the length that fits. */
  function OriginalReadLength(archiveBsize: Pos, originalBsize: Pos): (n: Pos)
    ensures n <= archiveBsize
    ensures originalBsize <= archiveBsize ==> n == originalBsize
  {
    if originalBsize <= archiveBsize then originalBsize else archiveBsize
  }

  /** The read length exactly as the source computes it. */
  function AsWrittenReadLength(archiveBsize: Pos, originalBsize: Pos): Pos {
    originalBsize
  }

  /** As written, reading an original file whose `st_blksize` exceeds the
      archive's breaks the precondition of the read loop `Feed.FeedFile` for
      `buf`, whose size is the archive's `st_blksize`: when the file is longer
      than `buf`, its first `read` may return more bytes than `buf` holds (an
      archive on a file system with 4096-byte blocks and an original file of
      65536 bytes on one with 65536-byte blocks). The corrected length fits. */
  lemma AsWrittenReadOverflows(archiveBsize: Pos, original: SourceFile)
    requires original.blksize > archiveBsize
    ensures !Feed.FitsBuffer(AsWrittenReadLength(archiveBsize, original.blksize), archiveBsize)
    ensures |original.content| > archiveBsize ==>
      exists k :: Feed.ReadMayReturn(original.content, 0, AsWrittenReadLength(archiveBsize, original.blksize), k)
                  && k > archiveBsize
    ensures Feed.FitsBuffer(OriginalReadLength(archiveBsize, original.blksize), archiveBsize)
  {
    if |original.content| > archiveBsize {
      var k := if original.blksize <= |original.content| then original.blksize else |original.content|;
      assert Feed.ReadMayReturn(original.content, 0, AsWrittenReadLength(archiveBsize, original.blksize), k);
    }
  }

  /** The body of the header loop for one regular member, from the digest of its
      data to its verdict. */
  method CheckMember(a: Reader, archiveBsize: Pos, ghost env: CheckEnv, ghost s: CheckScan,
                     digest: Algorithm, checkDir: string, disk: Disk, verbosity: Verbosity,
                     out: seq<string>, err: seq<string>, missing: nat, warning: nat)
    returns (out': seq<string>, err': seq<string>, missing': nat, warning': nat)
    requires a.Valid() && a.next > 0 && a.pos == 0 && a.Current().filetype == AE_IFREG
    requires env == CheckEnv(digest, checkDir, disk, verbosity)
    requires s.out == out && s.err == err && s.missing == missing && s.warning == warning
    modifies a
    ensures a.Valid() && a.next == old(a.next)
    ensures a.fatal == (old(a.fatal) || a.Current().fault.Some?)
    ensures var r := CheckStep(s, a.Current(), env);
      r == CheckScan(out', err', missing', warning', r.verdicts)
  {
    var m := a.Current();
    var mdctx := new Hasher(digest);
    Feed.FeedArchiveData(a, mdctx, archiveBsize);
    assert mdctx.fed == m.data && a.Current() == m;
    var mdArchive := mdctx.Finalize();
    var originalPath := OriginalPath(checkDir, m.path);
    if originalPath !in disk {
      assert MemberOutcome(m, env) == Unreadable(originalPath);
      return out, err + [Perror(originalPath)], missing + 1, warning;
    }
    var original := disk[originalPath];
    mdctx := new Hasher(digest);
    Feed.FeedFile(mdctx, original.content, OriginalReadLength(archiveBsize, original.blksize), archiveBsize);
    assert mdctx.fed == original.content;
    var mdOriginal := mdctx.Finalize();
    assert MemberOutcome(m, env) == if |mdArchive| != |mdOriginal| then LengthMismatch else Compared(mdArchive == mdOriginal);
    if |mdArchive| != |mdOriginal| {
      return out, err + [m.path + ": digests don't have the same length"], missing, warning;
    }
    out', err', missing', warning' := out, err, missing, warning;
    // memcmp over archive_md_len bytes, both digests being that long
    if verbosity == NORMAL {
      if mdArchive == mdOriginal {
        out' := out + [m.path + ": OK"];
      } else {
        warning' := warning + 1;
        out' := out + [m.path + ": FAILED"];
      }
    } else if verbosity == QUIET {
      if mdArchive != mdOriginal {
        warning' := warning + 1;
        out' := out + [m.path + ": FAILED"];
      }
    } else {
      if mdArchive != mdOriginal {
        warning' := warning + 1;
      }
    }
  }

  /** The two warning summaries, each under its own condition. */
  method WarnSummaries(err: seq<string>, archive: string, missing: nat, warning: nat, verbosity: Verbosity)
    returns (err': seq<string>)
    ensures err' == err + CheckSummaries(archive, missing, warning, verbosity)
  {
    err' := err;
    if missing > 0 && verbosity != STATUS {
      err' := err' + [archive + ": WARNING: " + DecimalString(missing) + " listed "
                      + (if warning == 1 then "file" else "files") + " could not be read"];
    }
    if warning > 0 && verbosity != STATUS {
      err' := err' + [archive + ": WARNING: " + DecimalString(warning) + " computed "
                      + (if warning == 1 then "checksum" else "checksums") + " did NOT match"];
    }
  }

  /** `archive_check`: stdout, stderr and the return value are those of CheckRun. */
  method ArchiveCheck(digest: Algorithm, checkDir: string, archive: string, verbosity: Verbosity,
                      archives: map<string, ArchiveFile>, disk: Disk)
    returns (out: seq<string>, err: seq<string>, ret: int)
    ensures CheckOutput(out, err, ret) == CheckRun(archive, archives, CheckEnv(digest, checkDir, disk, verbosity))
  {
    // bsize(archive, &archive_bsize)
    if archive !in archives {
      return [], [Perror(archive)], 0;
    }
    var file := archives[archive];
    var archiveBsize := file.blksize;
    if file.openError.Some? {
      return [], [file.openError.value + ": " + archive], 0;
    }
    var a := new Reader(file.container);
    var missing, warning;
    ghost var verdicts;
    out, err, missing, warning, verdicts :=
      CheckEntries(a, archiveBsize, CheckEnv(digest, checkDir, disk, verbosity), digest, checkDir, disk, verbosity);
    err := WarnSummaries(err, archive, missing, warning, verbosity);
    if file.freeError.Some? {
      return out, err + [file.freeError.value + ": " + archive], 0;
    }
    if missing > 0 || warning > 0 {
      ret := 0;
    } else {
      ret := 1;
    }
  }

  /** The `archive_read_next_header` loop of `archive_check`: the lines and
      counters of `CheckMembers` over the members it reaches, which are all of
      them unless a data read fails, and then those up to and including the
      member whose read failed. */
  method CheckEntries(a: Reader, archiveBsize: Pos, ghost env: CheckEnv,
                      digest: Algorithm, checkDir: string, disk: Disk, verbosity: Verbosity)
    returns (out: seq<string>, err: seq<string>, missing: nat, warning: nat, ghost verdicts: seq<Verdict>)
    requires a.Valid() && a.next == 0
    requires env == CheckEnv(digest, checkDir, disk, verbosity)
    modifies a
    ensures CheckMembers(Reached(a.members), env) == CheckScan(out, err, missing, warning, verdicts)
  {
    ghost var ms := a.members;
    out, err := [], [];
    missing, warning := 0, 0;
    verdicts := [];
    while true
      invariant a.Valid() && a.members == ms
      invariant CheckMembers(ms[..a.next], env) == CheckScan(out, err, missing, warning, verdicts)
      invariant !a.fatal ==> Sound(ms[..a.next])
      invariant a.fatal ==> Reached(ms) == ms[..a.next]
      decreases |ms| - a.next
    {
      ghost var before := a.next;
      var status := a.NextHeader();
      if status != ARCHIVE_OK {
        if !a.fatal {
          assert ms[..a.next] == ms;
        }
        break;
      }
      SoundStep(ms, before);
      CheckMembersStep(ms, before, env);
      var m := a.Current();
      assert m == ms[before];
      if m.filetype != AE_IFREG {
        continue;
      }
      ghost var s := CheckScan(out, err, missing, warning, verdicts);
      out, err, missing, warning := CheckMember(a, archiveBsize, env, s, digest, checkDir, disk, verbosity,
                                                out, err, missing, warning);
      if a.fatal {
        ReachedAt(ms, a.next);
      }
      verdicts := CheckStep(s, m, env).verdicts;
    }
  }

  // ---------------------------------------------------------------------------
  // proof steps
  // ---------------------------------------------------------------------------

  /** One more header read extends the scan by one step. */
  lemma CheckMembersStep(ms: seq<Member>, k: nat, env: CheckEnv)
    requires k < |ms|
    ensures CheckMembers(ms[..k + 1], env) == CheckStep(CheckMembers(ms[..k], env), ms[k], env)
  {
    assert ms[..k + 1][..k] == ms[..k];
  }

  // ---------------------------------------------------------------------------
  // properties
  // ---------------------------------------------------------------------------

  /** With an empty `check_dir` the copy is looked up at the member's own path,
      and otherwise at the directory joined with it, as in the Rust tools, as long
      as the result fits in PATH_MAX and the directory has no trailing separator. */
  lemma OriginalPathIsSourcePath(checkDir: string, pathname: string)
    requires |pathname| == 0 || pathname[0] != '/'
    requires |checkDir| > 0 ==> checkDir[|checkDir| - 1] != '/'
    requires |checkDir| + 1 + |pathname| < PATH_MAX
    ensures OriginalPath(checkDir, pathname)
      == SourcePath(if |checkDir| == 0 then None else Some(checkDir), pathname)
  {
  }

  /** The raw `memcmp` comparison decides what the Rust tools' comparison of hex
      strings decides, and an unreadable copy is what they call MISSING. */
  lemma OutcomeAgreesWithSourceVerdict(m: Member, env: CheckEnv)
    ensures var original := OriginalPath(env.checkDir, m.path);
      var v := SourceVerdict(HexString(env.digest(m.data)), original, env.digest, env.disk);
      match MemberOutcome(m, env)
      case Unreadable(_) => v == MISSING
      case LengthMismatch => v == FAILED
      case Compared(same) => (same <==> v == OK) && (!same <==> v == FAILED)
  {
    var original := OriginalPath(env.checkDir, m.path);
    if original in env.disk {
      HexStringInjective(env.digest(m.data), env.digest(env.disk[original].content));
    }
  }

  /** The counters, the verdicts and stderr do not depend on the verbosity; only
      stdout does. */
  lemma {:induction false} CountersIgnoreVerbosity(ms: seq<Member>, env: CheckEnv, verbosity: Verbosity)
    ensures var s, t := CheckMembers(ms, env), CheckMembers(ms, env.(verbosity := verbosity));
      s.missing == t.missing && s.warning == t.warning && s.verdicts == t.verdicts && s.err == t.err
  {
    if ms != [] {
      CountersIgnoreVerbosity(ms[..|ms| - 1], env, verbosity);
    }
  }

  /** The counters count the verdicts, and each unreadable copy left a line on
      stderr. */
  predicate Tallied(s: CheckScan) {
    && s.missing == Count(s.verdicts, MISSING)
    && s.warning == Count(s.verdicts, FAILED)
    && s.missing <= |s.err|
  }

  /** One step keeps the tally and adds at most one verdict, only for a regular
      member. */
  lemma StepKeepsTally(s: CheckScan, m: Member, env: CheckEnv)
    requires Tallied(s)
    ensures Tallied(CheckStep(s, m, env))
    ensures |CheckStep(s, m, env).verdicts| <= |s.verdicts| + (if IsRegular(m) then 1 else 0)
  {
    if IsRegular(m) {
      var x := CheckStep(s, m, env).verdicts;
      if |x| > |s.verdicts| {
        var v := x[|x| - 1];
        assert x == s.verdicts + [v];
        CountSnoc(s.verdicts, v, MISSING);
        CountSnoc(s.verdicts, v, FAILED);
      }
    }
  }

  /** `missing` counts the MISSING verdicts and `warning` the FAILED ones; at most
      one verdict per regular member; stderr holds a line per unreadable copy. */
  lemma {:induction false} CheckTally(ms: seq<Member>, env: CheckEnv)
    ensures Tallied(CheckMembers(ms, env))
    ensures |CheckMembers(ms, env).verdicts| <= |Regular(ms)|
  {
    if ms != [] {
      var init := ms[..|ms| - 1];
      CheckTally(init, env);
      StepKeepsTally(CheckMembers(init, env), ms[|ms| - 1], env);
    }
  }

  predicate EndsWith(s: string, suffix: string) {
    |suffix| <= |s| && s[|s| - |suffix|..] == suffix
  }

  /** What stdout holds at each verbosity, as a property of a scan. */
  predicate OutFits(s: CheckScan, verbosity: Verbosity) {
    && (verbosity == NORMAL ==> |s.out| + s.missing == |s.verdicts|)
    && (verbosity == QUIET ==>
          |s.out| == s.warning && forall i :: 0 <= i < |s.out| ==> EndsWith(s.out[i], ": FAILED"))
    && (verbosity == STATUS ==> s.out == [])
  }

  /** One step keeps stdout in line with the verbosity. */
  lemma StepKeepsOut(s: CheckScan, m: Member, env: CheckEnv)
    requires OutFits(s, env.verbosity)
    ensures OutFits(CheckStep(s, m, env), env.verbosity)
  {
    var t := CheckStep(s, m, env);
    if env.verbosity == QUIET && |t.out| > |s.out| {
      var line := m.path + ": FAILED";
      assert t.out == s.out + [line];
      assert line[|line| - |": FAILED"|..] == ": FAILED";
    }
  }

  /** What stdout holds at each verbosity: NORMAL one line per compared member,
      QUIET one "FAILED" line per mismatch, STATUS nothing. */
  lemma {:induction false} OutByVerbosity(ms: seq<Member>, env: CheckEnv)
    ensures OutFits(CheckMembers(ms, env), env.verbosity)
  {
    if ms != [] {
      var init := ms[..|ms| - 1];
      OutByVerbosity(init, env);
      StepKeepsOut(CheckMembers(init, env), ms[|ms| - 1], env);
    }
  }

  /** `archive_check` returns 1 exactly when the archive could be `stat`ed, opened
      and freed and no member was unreadable or mismatched, and 0 otherwise; at
      STATUS it writes nothing to stdout and nothing but `perror` and error lines
      to stderr. */
  lemma CheckRunResult(archive: string, archives: map<string, ArchiveFile>, env: CheckEnv)
    ensures var r := CheckRun(archive, archives, env);
      && (r.ret == 0 || r.ret == 1)
      && (r.ret == 1 <==>
            && archive in archives
            && archives[archive].openError.None?
            && archives[archive].freeError.None?
            && CheckMembers(Reached(archives[archive].container.members), env).missing == 0
            && CheckMembers(Reached(archives[archive].container.members), env).warning == 0)
      && (env.verbosity == STATUS ==> r.out == [])
      && (env.verbosity == STATUS && archive in archives && archives[archive].openError.None? ==>
            r.err == CheckMembers(Reached(archives[archive].container.members), env).err
                     + (if archives[archive].freeError.Some? then [archives[archive].freeError.value + ": " + archive] else []))
  {
    if archive in archives && archives[archive].openError.None? {
      OutByVerbosity(Reached(archives[archive].container.members), env);
    }
  }

  /** The plural of the unreadable-files summary follows the number of
      mismatches, whatever the number of unreadable files: one unreadable file
      and no mismatch read "1 listed files". */
  lemma MissingPluralFollowsWarning(archive: string, missing: nat, warning: nat, verbosity: Verbosity)
    requires missing > 0 && verbosity != STATUS
    ensures EndsWith(CheckSummaries(archive, missing, warning, verbosity)[0],
                     " listed " + (if warning == 1 then "file" else "files") + " could not be read")
  {
    var head := archive + ": WARNING: " + DecimalString(missing);
    var noun := if warning == 1 then "file" else "files";
    var tail := " listed " + noun + " could not be read";
    assert CheckSummaries(archive, missing, warning, verbosity)[0] == head + tail;
    assert (head + tail)[|head + tail| - |tail|..] == tail;
  }
}
