/** What the Rust verification and print loops compute, member by member, as
    functions of the archive's content, the files on disk and the digest
    algorithm. The three Rust versions differ only in the knobs of `Env` and
    `HeaderErrors`; their loops are proved equal to these functions. */
module Engine {
  import opened Bytes
  import opened Wrappers
  import opened Native
  import opened Hex
  import opened Decimal

  /** Only regular-file members are hashed or checked. */
  predicate IsRegular(m: Member) {
    m.filetype == AE_IFREG
  }

  /** No regular member's data ends in a read error. */
  predicate Sound(ms: seq<Member>) {
    forall i :: 0 <= i < |ms| && IsRegular(ms[i]) ==> ms[i].fault.None?
  }

  /** Soundness of a prefix grows member by member. */
  lemma SoundStep(ms: seq<Member>, k: nat)
    requires k < |ms|
    ensures Sound(ms[..k + 1]) <==> Sound(ms[..k]) && (IsRegular(ms[k]) ==> ms[k].fault.None?)
  {
    assert forall i :: 0 <= i < k ==> ms[..k + 1][i] == ms[..k][i];
  }

  /** The members a C header loop gets to: libarchive refuses every header after
      a data read has failed, so the loop ends with the first regular member
      whose data is damaged, and reaches every member when there is none. */
  function Reached(ms: seq<Member>): (r: seq<Member>)
    ensures r <= ms
    ensures Sound(ms) ==> r == ms
    ensures !Sound(ms) ==> r != [] && Sound(r[..|r| - 1]) && IsRegular(r[|r| - 1]) && r[|r| - 1].fault.Some?
  {
    if ms == [] then ms
    else
      var init := ms[..|ms| - 1];
      SoundStep(ms, |ms| - 1);
      assert ms[..|ms|] == ms;
      if Sound(init) then ms else Reached(init)
  }

  /** A loop that has read the first `k` members without a failed data read,
      the last of which then failed, has reached exactly those members. */
  lemma {:induction false} ReachedAt(ms: seq<Member>, k: nat)
    requires 0 < k <= |ms| && Sound(ms[..k - 1]) && !Sound(ms[..k])
    ensures Reached(ms) == ms[..k]
  {
    var init := ms[..|ms| - 1];
    if k == |ms| {
      assert init == ms[..k - 1] && ms[..k] == ms;
    } else {
      assert init[..k - 1] == ms[..k - 1] && init[..k] == ms[..k];
      ReachedAt(init, k);
      assert !Sound(init) by {
        var i :| 0 <= i < k && IsRegular(ms[..k][i]) && ms[..k][i].fault.Some?;
        assert init[i] == ms[..k][i];
      }
    }
  }

  /** The regular members, in archive order. */
  function Regular(ms: seq<Member>): (rs: seq<Member>)
    ensures |rs| <= |ms|
    ensures forall i :: 0 <= i < |rs| ==> IsRegular(rs[i])
  {
    if ms == [] then []
    else Regular(ms[..|ms| - 1]) + (if IsRegular(ms[|ms| - 1]) then [ms[|ms| - 1]] else [])
  }

  /** A source file on disk: its content and its `st_blksize`. */
  datatype SourceFile = SourceFile(content: seq<Byte>, blksize: Pos)

  type Disk = map<string, SourceFile>

  /** `Path::join`: an absolute member path replaces the directory; otherwise one
      separator is put between them unless the directory is empty or already ends
      in one. */
  function Join(dir: string, path: string): (r: string)
    ensures |path| > 0 && path[0] == '/' ==> r == path
    ensures |r| >= |path| && r[|r| - |path|..] == path
  {
    if |path| > 0 && path[0] == '/' then path
    else if |dir| == 0 || dir[|dir| - 1] == '/' then dir + path
    else dir + "/" + path
  }

  /** Where a member's on-disk copy is looked up: under the source directory when
      one is given, else the member's own path (relative to the working directory). */
  function SourcePath(source: Option<string>, path: string): (r: string)
    ensures source.None? ==> r == path
    ensures source.Some? ==> r == Join(source.value, path)
  {
    match source
    case None => path
    case Some(dir) => Join(dir, path)
  }

  /** The md5sum-style line `"<hex>  <path>"`. */
  function DigestLine(hex: string, path: string): string {
    hex + "  " + path
  }

  /** Splits a line at the first two consecutive spaces at or after `i`: the
      inverse of DigestLine. */
  function SplitDigestLine(line: string, i: nat): Option<(string, string)>
    decreases |line| - i
  {
    if i + 2 > |line| then None
    else if line[i] == ' ' && line[i + 1] == ' ' then Some((line[..i], line[i + 2..]))
    else SplitDigestLine(line, i + 1)
  }

  /** A digest line reads back as its hex digest and its path, because the hex
      digits contain no space. */
  lemma {:induction false} SplitDigestLineRoundTrip(hex: string, path: string, i: nat)
    requires IsLowerHex(hex) && i <= |hex|
    ensures SplitDigestLine(DigestLine(hex, path), i) == Some((hex, path))
    decreases |hex| - i
  {
    var line := DigestLine(hex, path);
    if i < |hex| {
      assert line[i] == hex[i] && IsHexDigit(hex[i]);
      SplitDigestLineRoundTrip(hex, path, i + 1);
    } else {
      assert line[..i] == hex && line[i + 2..] == path;
    }
  }

  /** The three verdicts of a checked member. */
  datatype Verdict = OK | FAILED | MISSING

  /** The reference classification: MISSING when there is no file at the source
      path, else OK exactly when the raw digests of the member's content and of the
      file's content are equal. */
  function Classify(m: Member, digest: Algorithm, source: Option<string>, disk: Disk): Verdict {
    var src := SourcePath(source, m.path);
    if src !in disk then MISSING
    else if digest(m.data) == digest(disk[src].content) then OK
    else FAILED
  }

  function Count(vs: seq<Verdict>, v: Verdict): (n: nat)
    ensures n <= |vs|
  {
    if vs == [] then 0 else Count(vs[..|vs| - 1], v) + (if vs[|vs| - 1] == v then 1 else 0)
  }

  /** Appending a verdict adds one to its own count and nothing to the others. */
  lemma CountSnoc(vs: seq<Verdict>, x: Verdict, v: Verdict)
    ensures Count(vs + [x], v) == Count(vs, v) + (if x == v then 1 else 0)
  {
    assert (vs + [x])[..|vs|] == vs;
  }

  /** Which path a verdict line names: the resolved source path (lib/, src/) or
      the member's archive path (archive-sum/). */
  datatype Shown = ResolvedPath | ArchivePath

  datatype Env = Env(digest: Algorithm, source: Option<string>, disk: Disk, shown: Shown)

  /** The state of a verification scan: the three sinks, the two counters, one
      verdict per checked member, the bytes still pending in a shared accumulator,
      and the error that aborted the scan, if any. */
  datatype Scan = Scan(
    append: seq<string>,
    out: seq<string>,
    err: seq<string>,
    missing: nat,
    failures: nat,
    verdicts: seq<Verdict>,
    pending: seq<Byte>,
    abort: Option<string>)

  function VerdictPath(m: Member, env: Env): string {
    if env.shown == ArchivePath then m.path else SourcePath(env.source, m.path)
  }

  /** The verdict the loops reach for a member whose archive digest renders as
      `hashArchive` and whose copy is looked up at `src`: MISSING when there is no
      file there, else OK exactly when the hex digests are equal. */
  function SourceVerdict(hashArchive: string, src: string, digest: Algorithm, disk: Disk): Verdict {
    if src !in disk then MISSING
    else if hashArchive == HexString(digest(disk[src].content)) then OK
    else FAILED
  }

  /** Writes the verdict line for `shown` to its sink and counts it. */
  function Record(s: Scan, shown: string, v: Verdict): Scan {
    match v
    case OK => s.(out := s.out + [shown + ": OK"], verdicts := s.verdicts + [OK])
    case MISSING => s.(err := s.err + [shown + ": MISSING"], missing := s.missing + 1, verdicts := s.verdicts + [MISSING])
    case FAILED => s.(err := s.err + [shown + ": FAILED"], failures := s.failures + 1, verdicts := s.verdicts + [FAILED])
  }

  /** One member of the verification loop: non-regular members are skipped, a
      read error aborts, and otherwise the digest line is appended before the
      verdict is recorded. */
  function VerifyStep(s: Scan, m: Member, env: Env): Scan
    requires s.abort.None?
  {
    if !IsRegular(m) then s
    else if m.fault.Some? then s.(abort := m.fault)
    else
      var hashArchive := HexString(env.digest(s.pending + m.data));
      var s1 := s.(append := s.append + [DigestLine(hashArchive, m.path)], pending := []);
      Record(s1, VerdictPath(m, env), SourceVerdict(hashArchive, SourcePath(env.source, m.path), env.digest, env.disk))
  }

  /** The scan over the members `ms`, starting with `pending` bytes already fed to
      the accumulator. */
  function VerifyMembers(ms: seq<Member>, env: Env, pending: seq<Byte>): Scan {
    if ms == [] then Scan([], [], [], 0, 0, [], pending, None)
    else
      var s := VerifyMembers(ms[..|ms| - 1], env, pending);
      if s.abort.Some? then s else VerifyStep(s, ms[|ms| - 1], env)
  }

  /** The two summary lines, in this order, each only when its counter is positive. */
  function Summary(missing: nat, failures: nat): seq<string> {
    (if missing > 0 then ["archive-sum: WARNING: " + DecimalString(missing) + " MISSING file(s)"] else [])
    + (if failures > 0 then ["archive-sum: FATAL: " + DecimalString(failures) + " FAILED checksum(s)"] else [])
  }

  /** Whether an error reading a header aborts the run (the `tar` and `archive_rs`
      iterators yield it as an `Err`) or ends the iteration (the libarchive
      wrapper's `Entries::next`). */
  datatype HeaderErrors = Propagated | EndOfArchive

  datatype RunOutput = RunOutput(append: seq<string>, out: seq<string>, err: seq<string>, result: Result<bool, string>)

  /** A whole verification run: the sinks' lines and the result. */
  function VerifyRun(c: Container, env: Env, pending: seq<Byte>, headers: HeaderErrors): RunOutput {
    var s := VerifyMembers(c.members, env, pending);
    if s.abort.Some? then RunOutput(s.append, s.out, s.err, Err(s.abort.value))
    else if headers == Propagated && c.trailer.Some? then RunOutput(s.append, s.out, s.err, Err(c.trailer.value))
    else RunOutput(s.append, s.out, s.err + Summary(s.missing, s.failures), Ok(s.missing == 0 && s.failures == 0))
  }

  // ---------------------------------------------------------------------------
  // print mode
  // ---------------------------------------------------------------------------

  datatype PrintScan = PrintScan(lines: seq<string>, pending: seq<Byte>, abort: Option<string>)

  function PrintStep(s: PrintScan, m: Member, digest: Algorithm): PrintScan
    requires s.abort.None?
  {
    if !IsRegular(m) then s
    else if m.fault.Some? then s.(abort := m.fault)
    else s.(lines := s.lines + [DigestLine(HexString(digest(s.pending + m.data)), m.path)], pending := [])
  }

  function PrintMembers(ms: seq<Member>, digest: Algorithm, pending: seq<Byte>): PrintScan {
    if ms == [] then PrintScan([], pending, None)
    else
      var s := PrintMembers(ms[..|ms| - 1], digest, pending);
      if s.abort.Some? then s else PrintStep(s, ms[|ms| - 1], digest)
  }

  datatype PrintOutput = PrintOutput(lines: seq<string>, result: Result<(), string>)

  function PrintRun(c: Container, digest: Algorithm, pending: seq<Byte>, headers: HeaderErrors): PrintOutput {
    var s := PrintMembers(c.members, digest, pending);
    if s.abort.Some? then PrintOutput(s.lines, Err(s.abort.value))
    else if headers == Propagated && c.trailer.Some? then PrintOutput(s.lines, Err(c.trailer.value))
    else PrintOutput(s.lines, Ok(()))
  }

  /** The scan of one more member is one more step. */
  lemma VerifyMembersStep(ms: seq<Member>, k: nat, env: Env, pending: seq<Byte>)
    requires k < |ms| && VerifyMembers(ms[..k], env, pending).abort.None?
    ensures VerifyMembers(ms[..k + 1], env, pending) == VerifyStep(VerifyMembers(ms[..k], env, pending), ms[k], env)
  {
    assert ms[..k + 1][..k] == ms[..k];
  }

  lemma PrintMembersStep(ms: seq<Member>, k: nat, digest: Algorithm, pending: seq<Byte>)
    requires k < |ms| && PrintMembers(ms[..k], digest, pending).abort.None?
    ensures PrintMembers(ms[..k + 1], digest, pending) == PrintStep(PrintMembers(ms[..k], digest, pending), ms[k], digest)
  {
    assert ms[..k + 1][..k] == ms[..k];
  }

  /** The run's output when the scan of the first `k` members aborted. */
  lemma VerifyRunAborted(c: Container, k: nat, env: Env, pending: seq<Byte>, headers: HeaderErrors)
    requires k <= |c.members| && VerifyMembers(c.members[..k], env, pending).abort.Some?
    ensures var s := VerifyMembers(c.members[..k], env, pending);
      VerifyRun(c, env, pending, headers) == RunOutput(s.append, s.out, s.err, Err(s.abort.value))
  {
    VerifyAbortPersists(c.members, k, env, pending);
  }

  /** The run's output when every member was scanned without an abort. */
  lemma VerifyRunCompleted(c: Container, env: Env, pending: seq<Byte>, headers: HeaderErrors)
    requires VerifyMembers(c.members[..|c.members|], env, pending).abort.None?
    ensures var s := VerifyMembers(c.members[..|c.members|], env, pending);
      VerifyRun(c, env, pending, headers) ==
        if headers == Propagated && c.trailer.Some? then RunOutput(s.append, s.out, s.err, Err(c.trailer.value))
        else RunOutput(s.append, s.out, s.err + Summary(s.missing, s.failures), Ok(s.missing == 0 && s.failures == 0))
  {
    assert c.members[..|c.members|] == c.members;
  }

  lemma PrintRunAborted(c: Container, k: nat, digest: Algorithm, pending: seq<Byte>, headers: HeaderErrors)
    requires k <= |c.members| && PrintMembers(c.members[..k], digest, pending).abort.Some?
    ensures var s := PrintMembers(c.members[..k], digest, pending);
      PrintRun(c, digest, pending, headers) == PrintOutput(s.lines, Err(s.abort.value))
  {
    PrintAbortPersists(c.members, k, digest, pending);
  }

  lemma PrintRunCompleted(c: Container, digest: Algorithm, pending: seq<Byte>, headers: HeaderErrors)
    requires PrintMembers(c.members[..|c.members|], digest, pending).abort.None?
    ensures var s := PrintMembers(c.members[..|c.members|], digest, pending);
      PrintRun(c, digest, pending, headers) ==
        if headers == Propagated && c.trailer.Some? then PrintOutput(s.lines, Err(c.trailer.value))
        else PrintOutput(s.lines, Ok(()))
  {
    assert c.members[..|c.members|] == c.members;
  }

  /** Once a scan has aborted, the members after the failing one are never read:
      the whole scan is the aborted prefix's. */
  lemma {:induction false} VerifyAbortPersists(ms: seq<Member>, k: nat, env: Env, pending: seq<Byte>)
    requires k <= |ms| && VerifyMembers(ms[..k], env, pending).abort.Some?
    ensures VerifyMembers(ms, env, pending) == VerifyMembers(ms[..k], env, pending)
    decreases |ms| - k
  {
    if k < |ms| {
      assert ms[..|ms| - 1][..k] == ms[..k];
      VerifyAbortPersists(ms[..|ms| - 1], k, env, pending);
    } else {
      assert ms[..k] == ms;
    }
  }

  lemma {:induction false} PrintAbortPersists(ms: seq<Member>, k: nat, digest: Algorithm, pending: seq<Byte>)
    requires k <= |ms| && PrintMembers(ms[..k], digest, pending).abort.Some?
    ensures PrintMembers(ms, digest, pending) == PrintMembers(ms[..k], digest, pending)
    decreases |ms| - k
  {
    if k < |ms| {
      assert ms[..|ms| - 1][..k] == ms[..k];
      PrintAbortPersists(ms[..|ms| - 1], k, digest, pending);
    } else {
      assert ms[..k] == ms;
    }
  }

  // ---------------------------------------------------------------------------
  // properties
  // ---------------------------------------------------------------------------

  /** A non-regular member writes no line to any sink and changes no counter. */
  lemma NonRegularIgnored(ms: seq<Member>, m: Member, env: Env, pending: seq<Byte>)
    requires !IsRegular(m)
    ensures VerifyMembers(ms + [m], env, pending) == VerifyMembers(ms, env, pending)
    ensures PrintMembers(ms + [m], env.digest, pending) == PrintMembers(ms, env.digest, pending)
  {
    assert (ms + [m])[..|ms|] == ms;
  }

  /** The append sink of a verification receives exactly what print mode writes
      for the same archive, whatever the verdicts: one digest line per regular
      member, before its source is looked at. */
  lemma {:induction false} AppendIsPrintOutput(ms: seq<Member>, env: Env, pending: seq<Byte>)
    ensures VerifyMembers(ms, env, pending).append == PrintMembers(ms, env.digest, pending).lines
    ensures VerifyMembers(ms, env, pending).abort == PrintMembers(ms, env.digest, pending).abort
    ensures VerifyMembers(ms, env, pending).pending == PrintMembers(ms, env.digest, pending).pending
  {
    if ms != [] {
      AppendIsPrintOutput(ms[..|ms| - 1], env, pending);
    }
  }

  /** The counters and the sinks agree with the verdicts: one append line and one
      verdict per checked member, `missing` and `failures` count the MISSING and
      FAILED verdicts, `out` holds one line per OK and `err` one per MISSING or
      FAILED. */
  lemma {:induction false} VerifyTally(ms: seq<Member>, env: Env, pending: seq<Byte>)
    ensures var s := VerifyMembers(ms, env, pending);
      && |s.append| == |s.verdicts|
      && s.missing == Count(s.verdicts, MISSING)
      && s.failures == Count(s.verdicts, FAILED)
      && |s.out| == Count(s.verdicts, OK)
      && |s.err| == s.missing + s.failures
  {
    if ms != [] {
      VerifyTally(ms[..|ms| - 1], env, pending);
      var s := VerifyMembers(ms[..|ms| - 1], env, pending);
      if s.abort.None? && IsRegular(ms[|ms| - 1]) && ms[|ms| - 1].fault.None? {
        var vs := VerifyMembers(ms, env, pending).verdicts;
        assert vs[..|vs| - 1] == s.verdicts;
      }
    }
  }

  /** The scan aborts exactly when some regular member's data ends in a read error. */
  lemma {:induction false} VerifyAbortsIffUnsound(ms: seq<Member>, env: Env, pending: seq<Byte>)
    ensures VerifyMembers(ms, env, pending).abort.Some? <==> !Sound(ms)
  {
    if ms != [] {
      var init := ms[..|ms| - 1];
      VerifyAbortsIffUnsound(init, env, pending);
      assert Sound(ms) <==> Sound(init) && (IsRegular(ms[|ms| - 1]) ==> ms[|ms| - 1].fault.None?) by {
        if Sound(init) && (IsRegular(ms[|ms| - 1]) ==> ms[|ms| - 1].fault.None?) {
          forall i | 0 <= i < |ms| && IsRegular(ms[i]) ensures ms[i].fault.None? {
            if i < |init| { assert ms[i] == init[i]; }
          }
        }
      }
    }
  }

  /** Without pending bytes and without read errors, every regular member gets a
      verdict, in archive order, and it is the reference classification: comparing
      the hex strings decides what comparing the raw digests decides. */
  lemma {:induction false} VerdictsAreClassification(ms: seq<Member>, env: Env)
    requires Sound(ms)
    ensures var s := VerifyMembers(ms, env, []);
      && s.abort.None? && s.pending == []
      && |s.verdicts| == |Regular(ms)|
      && forall i :: 0 <= i < |s.verdicts| ==>
           s.verdicts[i] == Classify(Regular(ms)[i], env.digest, env.source, env.disk)
  {
    if ms != [] {
      var init, m := ms[..|ms| - 1], ms[|ms| - 1];
      assert Sound(init) by {
        forall i | 0 <= i < |init| && IsRegular(init[i]) ensures init[i].fault.None? {
          assert init[i] == ms[i];
        }
      }
      VerdictsAreClassification(init, env);
      if IsRegular(m) {
        var src := SourcePath(env.source, m.path);
        if src in env.disk {
          HexStringInjective(env.digest(m.data), env.digest(env.disk[src].content));
        }
        assert m.data == [] + m.data;
      }
    }
  }

  /** The run succeeds exactly when no member is MISSING or FAILED and nothing
      aborted it; the WARNING summary is written exactly when `missing > 0` and
      precedes the FATAL one, written exactly when `failures > 0`. */
  lemma VerifyRunResult(c: Container, env: Env, pending: seq<Byte>, headers: HeaderErrors)
    ensures var s := VerifyMembers(c.members, env, pending);
      var r := VerifyRun(c, env, pending, headers);
      && (r.result == Ok(true) <==>
           Sound(c.members) && (headers == EndOfArchive || c.trailer.None?) && s.missing == 0 && s.failures == 0)
      && (r.result == Ok(false) <==>
           Sound(c.members) && (headers == EndOfArchive || c.trailer.None?) && (s.missing > 0 || s.failures > 0))
      && r.append == s.append && r.out == s.out
      && (r.result.Ok? ==> r.err == s.err + Summary(s.missing, s.failures))
      && (r.result.Err? ==> r.err == s.err)
  {
    VerifyAbortsIffUnsound(c.members, env, pending);
  }

  /** For an archive read without errors, success means that every regular member
      has an identical-digest copy at its source path. */
  lemma SuccessIffAllOk(c: Container, env: Env, headers: HeaderErrors)
    requires Sound(c.members) && (headers == EndOfArchive || c.trailer.None?)
    ensures VerifyRun(c, env, [], headers).result == Ok(true) <==>
      forall m :: m in Regular(c.members) ==> Classify(m, env.digest, env.source, env.disk) == OK
  {
    var s := VerifyMembers(c.members, env, []);
    var rs := Regular(c.members);
    VerifyAbortsIffUnsound(c.members, env, []);
    VerifyTally(c.members, env, []);
    VerdictsAreClassification(c.members, env);
    CountZero(s.verdicts);
    if s.missing == 0 && s.failures == 0 {
      forall m | m in rs ensures Classify(m, env.digest, env.source, env.disk) == OK {
        var i :| 0 <= i < |rs| && rs[i] == m;
        assert s.verdicts[i] in s.verdicts;
      }
    } else {
      var v := if s.missing > 0 then MISSING else FAILED;
      var i :| 0 <= i < |s.verdicts| && s.verdicts[i] == v;
      assert rs[i] in rs;
    }
  }

  /** Count is zero exactly when the verdict does not occur. */
  lemma {:induction false} CountZero(vs: seq<Verdict>)
    ensures forall v :: Count(vs, v) == 0 <==> v !in vs
  {
    if vs != [] {
      CountZero(vs[..|vs| - 1]);
      assert vs == vs[..|vs| - 1] + [vs[|vs| - 1]];
    }
  }

  /** Print mode writes one digest line per regular member, in archive order, and
      each line reads back as the member's hex digest and path. */
  lemma {:induction false} PrintLines(ms: seq<Member>, digest: Algorithm)
    requires Sound(ms)
    ensures var s := PrintMembers(ms, digest, []);
      && s.abort.None? && s.pending == []
      && |s.lines| == |Regular(ms)|
      && forall i :: 0 <= i < |s.lines| ==>
           && s.lines[i] == DigestLine(HexString(digest(Regular(ms)[i].data)), Regular(ms)[i].path)
           && SplitDigestLine(s.lines[i], 0) == Some((HexString(digest(Regular(ms)[i].data)), Regular(ms)[i].path))
  {
    if ms != [] {
      var init, m := ms[..|ms| - 1], ms[|ms| - 1];
      assert Sound(init) by {
        forall i | 0 <= i < |init| && IsRegular(init[i]) ensures init[i].fault.None? {
          assert init[i] == ms[i];
        }
      }
      PrintLines(init, digest);
      if IsRegular(m) {
        assert m.data == [] + m.data;
        SplitDigestLineRoundTrip(HexString(digest(m.data)), m.path, 0);
      }
    }
  }
}
