/** src/verify.rs: verification through the `tar` crate with a fresh accumulator
    for every member and every source file. */
module SrcVerify {
  import opened Bytes
  import opened Wrappers
  import opened Native
  import opened Hex
  import opened Engine
  import Platform
  import Feed
  import Checking

  /** The buffer `std::io::copy` reads through. */
  const COPY_BUFFER_SIZE: Pos := 8192

  /** `run::<Digest>(archive, source, append, out, err)`: the three sinks receive
      the lines of `VerifyRun` with resolved paths in the verdicts and nothing
      pending before the first member; a header error read after the last member
      is returned as an error. */
  method Run(archive: Reader, digest: Algorithm, source: Option<string>, disk: Disk, host: Platform.Host)
    returns (append: seq<string>, out: seq<string>, err: seq<string>, result: Result<bool, string>)
    requires archive.Valid() && archive.next == 0
    modifies archive
    ensures RunOutput(append, out, err, result) ==
      VerifyRun(Container(archive.members, archive.trailer), Env(digest, source, disk, ResolvedPath), [], Propagated)
  {
    ghost var env := Env(digest, source, disk, ResolvedPath);
    ghost var c := Container(archive.members, archive.trailer);
    var missing, failures, stop;
    ghost var verdicts;
    append, out, err, missing, failures, verdicts, stop := ScanEntries(archive, digest, source, disk, host, env);
    if stop.Some? {
      return append, out, err, Err(stop.value);
    }
    assert c.members[..|c.members|] == c.members;
    VerifyRunCompleted(c, env, [], Propagated);
    err, result := Checking.Summarize(err, missing, failures);
  }

  /** The `entries()` loop of `run`: the lines and counters of all the members
      when the archive ends cleanly, or the run's output up to the error that
      stopped it. */
  method ScanEntries(archive: Reader, digest: Algorithm, source: Option<string>, disk: Disk, host: Platform.Host,
                     ghost env: Env)
    returns (append: seq<string>, out: seq<string>, err: seq<string>, missing: nat, failures: nat,
             ghost verdicts: seq<Verdict>, stop: Option<string>)
    requires archive.Valid() && archive.next == 0
    requires env == Env(digest, source, disk, ResolvedPath)
    modifies archive
    ensures stop.Some? ==>
      VerifyRun(Container(archive.members, archive.trailer), env, [], Propagated)
        == RunOutput(append, out, err, Err(stop.value))
    ensures stop.None? ==>
      && archive.trailer.None?
      && VerifyMembers(archive.members, env, []) == Scan(append, out, err, missing, failures, verdicts, [], None)
  {
    ghost var c := Container(archive.members, archive.trailer);
    ghost var ms := archive.members;
    verdicts := [];
    missing, failures := 0, 0;
    append, out, err := [], [], [];
    while true
      invariant archive.Valid() && !archive.fatal
      invariant VerifyMembers(ms[..archive.next], env, []) == Scan(append, out, err, missing, failures, verdicts, [], None)
      decreases |ms| - archive.next
    {
      var status := archive.NextHeader();
      if status != ARCHIVE_OK {
        assert ms[..archive.next] == ms;
        if status == ARCHIVE_EOF {
          return append, out, err, missing, failures, verdicts, None;
        }
        assert VerifyRun(c, env, [], Propagated) == RunOutput(append, out, err, Err(archive.ErrorString())) by {
          VerifyRunCompleted(c, env, [], Propagated);
        }
        return append, out, err, missing, failures, verdicts, Some(archive.ErrorString());
      }
      append, out, err, missing, failures, verdicts, stop :=
        VisitEntry(archive, digest, source, disk, host, env, verdicts, append, out, err, missing, failures);
      if stop.Some? {
        return;
      }
    }
  }

  /** The body of the `entries()` loop for the entry just read: skipped unless
      it is a regular file, otherwise checked by `CheckMember`; the scan grows
      by that entry, or the run ends with its read error. */
  method VisitEntry(archive: Reader, digest: Algorithm, source: Option<string>, disk: Disk, host: Platform.Host,
                    ghost env: Env, ghost verdicts: seq<Verdict>,
                    append: seq<string>, out: seq<string>, err: seq<string>, missing: nat, failures: nat)
    returns (append': seq<string>, out': seq<string>, err': seq<string>, missing': nat, failures': nat,
             ghost verdicts': seq<Verdict>, stop: Option<string>)
    requires archive.Valid() && archive.next > 0 && archive.pos == 0
    requires env == Env(digest, source, disk, ResolvedPath)
    requires VerifyMembers(archive.members[..archive.next - 1], env, [])
      == Scan(append, out, err, missing, failures, verdicts, [], None)
    modifies archive
    ensures archive.Valid() && archive.next == old(archive.next)
    ensures archive.fatal == (old(archive.fatal) || stop.Some?)
    ensures stop.None? ==>
      VerifyMembers(archive.members[..archive.next], env, [])
        == Scan(append', out', err', missing', failures', verdicts', [], None)
    ensures stop.Some? ==>
      VerifyRun(Container(archive.members, archive.trailer), env, [], Propagated)
        == RunOutput(append', out', err', Err(stop.value))
  {
    ghost var ms := archive.members;
    ghost var k := archive.next - 1;
    var m := archive.Current();
    assert m == ms[k];
    ghost var s := Scan(append, out, err, missing, failures, verdicts, [], None);
    VerifyMembersStep(ms, k, env, []);
    assert ms[..k + 1] == ms[..archive.next];
    if m.filetype != AE_IFREG {
      return append, out, err, missing, failures, verdicts, None;
    }
    var fault;
    append', out', err', missing', failures', fault :=
      CheckMember(archive, digest, source, disk, host, env, s, append, out, err, missing, failures);
    verdicts' := VerifyStep(s, m, env).verdicts;
    stop := fault;
    if fault.Some? {
      VerifyRunAborted(Container(ms, archive.trailer), archive.next, env, [], Propagated);
    }
  }

  /** One regular member: its data is copied into a fresh accumulator, its digest
      line appended, its source file checked and the verdict reported, as
      `VerifyStep` says; or the read error that cut its data short. */
  method CheckMember(archive: Reader, digest: Algorithm, source: Option<string>, disk: Disk, host: Platform.Host,
                     ghost env: Env, ghost s: Scan,
                     append: seq<string>, out: seq<string>, err: seq<string>, missing: nat, failures: nat)
    returns (append': seq<string>, out': seq<string>, err': seq<string>, missing': nat, failures': nat,
             fault: Option<string>)
    requires archive.Valid() && archive.next > 0 && archive.pos == 0 && IsRegular(archive.Current())
    requires env == Env(digest, source, disk, ResolvedPath)
    requires s == Scan(append, out, err, missing, failures, s.verdicts, [], None)
    modifies archive
    ensures archive.Valid() && archive.next == old(archive.next)
    ensures fault == archive.Current().fault && archive.fatal == (old(archive.fatal) || fault.Some?)
    ensures fault.Some? ==> append' == append && out' == out && err' == err
    ensures fault.None? ==>
      VerifyStep(s, archive.Current(), env)
        == Scan(append', out', err', missing', failures', VerifyStep(s, archive.Current(), env).verdicts, [], None)
  {
    var m := archive.Current();
    append', out', err', missing', failures' := append, out, err, missing, failures;
    var hashed := Feed.HashRead(archive, digest, COPY_BUFFER_SIZE);
    if hashed.Err? {
      return append', out', err', missing', failures', Some(hashed.error);
    }
    fault := None;
    assert [] + m.data == m.data;
    var hashArchive := HexString(hashed.value);
    append' := append + [DigestLine(hashArchive, m.path)];
    var sourceFile := SourcePath(source, m.path);
    var verdict := Checking.CheckFresh(hashArchive, sourceFile, digest, disk, host);
    ghost var s1 := s.(append := append', pending := []);
    out', err', missing', failures' := Checking.Report(sourceFile, verdict, out, err, missing, failures, s1);
  }
}
