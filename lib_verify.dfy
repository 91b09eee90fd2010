/** lib/src/verify.rs: verification with one caller-supplied accumulator that is
    finalized and reset after each member and after each source file. */
module LibVerify {
  import opened Bytes
  import opened Wrappers
  import opened Native
  import opened Digest
  import opened Hex
  import opened Engine
  import Platform
  import Feed
  import Checking

  /** `run(archive, source, hasher, append, out, err)`: the three sinks receive
      the lines of `VerifyRun` with resolved paths in the verdicts, and a header
      error read after the last member is returned as an error. Bytes already fed
      to `hasher` before the call count towards the first member's digest. */
  method Run(archive: Reader, source: Option<string>, disk: Disk, host: Platform.Host, hasher: Hasher)
    returns (append: seq<string>, out: seq<string>, err: seq<string>, result: Result<bool, string>)
    requires archive.Valid() && archive.next == 0
    modifies archive, hasher
    ensures RunOutput(append, out, err, result) ==
      VerifyRun(Container(archive.members, archive.trailer),
                Env(hasher.algorithm, source, disk, ResolvedPath), old(hasher.fed), Propagated)
    ensures result.Ok? ==>
      hasher.fed == VerifyMembers(archive.members, Env(hasher.algorithm, source, disk, ResolvedPath), old(hasher.fed)).pending
  {
    ghost var env := Env(hasher.algorithm, source, disk, ResolvedPath);
    ghost var c := Container(archive.members, archive.trailer);
    ghost var ms := archive.members;
    ghost var pending := hasher.fed;
    ghost var verdicts: seq<Verdict> := [];
    var missing: nat, failures: nat := 0, 0;
    append, out, err := [], [], [];
    while true
      invariant archive.Valid() && !archive.fatal
      invariant VerifyMembers(ms[..archive.next], env, pending)
        == Scan(append, out, err, missing, failures, verdicts, hasher.fed, None)
      decreases |ms| - archive.next
    {
      ghost var before := archive.next;
      var status := archive.NextHeader();
      if status != ARCHIVE_OK {
        assert ms[..archive.next] == ms;
        if status == ARCHIVE_EOF {
          break;
        }
        assert VerifyRun(c, env, pending, Propagated) == RunOutput(append, out, err, Err(archive.ErrorString())) by {
          VerifyRunCompleted(c, env, pending, Propagated);
        }
        return append, out, err, Err(archive.ErrorString());
      }
      VerifyMembersStep(ms, before, env, pending);
      var m := archive.Current();
      assert m == ms[before];
      if m.filetype != AE_IFREG {
        continue;
      }
      ghost var s := Scan(append, out, err, missing, failures, verdicts, hasher.fed, None);
      var fault;
      append, out, err, missing, failures, fault :=
        CheckMember(archive, hasher, source, disk, host, env, s, append, out, err, missing, failures);
      if fault.Some? {
        assert VerifyRun(c, env, pending, Propagated) == RunOutput(append, out, err, Err(fault.value)) by {
          VerifyRunAborted(c, archive.next, env, pending, Propagated);
        }
        return append, out, err, Err(fault.value);
      }
      verdicts := VerifyStep(s, m, env).verdicts;
    }
    VerifyRunCompleted(c, env, pending, Propagated);
    err, result := Checking.Summarize(err, missing, failures);
  }

  /** One regular member: its data is hashed with the shared accumulator (the
      bytes pending in it first), its digest line appended, its source file checked
      and the verdict reported, as `VerifyStep` says; or the read error that cut
      its data short. */
  method CheckMember(archive: Reader, hasher: Hasher, source: Option<string>, disk: Disk, host: Platform.Host,
                     ghost env: Env, ghost s: Scan,
                     append: seq<string>, out: seq<string>, err: seq<string>, missing: nat, failures: nat)
    returns (append': seq<string>, out': seq<string>, err': seq<string>, missing': nat, failures': nat,
             fault: Option<string>)
    requires archive.Valid() && archive.next > 0 && archive.pos == 0 && IsRegular(archive.Current())
    requires env == Env(hasher.algorithm, source, disk, ResolvedPath)
    requires s == Scan(append, out, err, missing, failures, s.verdicts, hasher.fed, None)
    modifies archive, hasher
    ensures archive.Valid() && archive.next == old(archive.next)
    ensures fault == archive.Current().fault && archive.fatal == (old(archive.fatal) || fault.Some?)
    ensures fault.Some? ==> append' == append && out' == out && err' == err
    ensures fault.None? ==>
      VerifyStep(s, archive.Current(), env)
        == Scan(append', out', err', missing', failures', VerifyStep(s, archive.Current(), env).verdicts, hasher.fed, None)
  {
    var m := archive.Current();
    append', out', err', missing', failures' := append, out, err, missing, failures;
    var hashed := Feed.HashReadShared(archive, hasher, DEFAULT_BLOCK_SIZE);
    if hashed.Err? {
      return append', out', err', missing', failures', Some(hashed.error);
    }
    fault := None;
    var hashArchive := HexString(hashed.value);
    append' := append + [DigestLine(hashArchive, m.path)];
    var sourceFile := SourcePath(source, m.path);
    var verdict := Checking.CheckShared(hashArchive, sourceFile, hasher, disk, host);
    ghost var s1 := s.(append := append', pending := []);
    out', err', missing', failures' := Checking.Report(sourceFile, verdict, out, err, missing, failures, s1);
  }
}
