/** archive-sum/src/verify.rs: verification through the libarchive wrapper, with
    a fresh OpenSSL accumulator for every member and every source file, and the
    member's archive path in the verdict lines. */
module ArchiveSumVerify {
  import opened Bytes
  import opened Wrappers
  import opened Native
  import opened Hex
  import opened Engine
  import opened LibEntry
  import opened LibArchive
  import Platform
  import Feed
  import Checking

  /** `run(archive, digest, source, append, out, err)`: the three sinks receive
      the lines of `VerifyRun` with archive paths in the verdicts; an error reading
      a header ends the iteration like the end of the archive. A member whose type
      code is none of the eight the bindings declare makes `file_type` panic, so
      the archive is required to have none. */
  method Run(archive: Archive, digest: Algorithm, source: Option<string>, disk: Disk, host: Platform.Host)
    returns (append: seq<string>, out: seq<string>, err: seq<string>, result: Result<bool, string>)
    requires archive.underlying.Valid() && archive.underlying.next == 0
    requires forall i :: 0 <= i < |archive.underlying.members| ==> KnownCode(archive.underlying.members[i].filetype)
    modifies archive.underlying
    ensures RunOutput(append, out, err, result) ==
      VerifyRun(Container(archive.underlying.members, archive.underlying.trailer),
                Env(digest, source, disk, ArchivePath), [], EndOfArchive)
  {
    ghost var env := Env(digest, source, disk, ArchivePath);
    ghost var c := Container(archive.underlying.members, archive.underlying.trailer);
    var missing, failures, stop;
    ghost var verdicts;
    append, out, err, missing, failures, verdicts, stop := ScanEntries(archive, digest, source, disk, host, env);
    if stop.Some? {
      return append, out, err, Err(stop.value);
    }
    assert c.members[..|c.members|] == c.members;
    VerifyRunCompleted(c, env, [], EndOfArchive);
    err, result := Checking.Summarize(err, missing, failures);
  }

  /** The `for entry in archive` loop of `run`: the lines and counters of all
      the members once the entries run out, or the run's output up to the block
      error that stopped it. */
  method ScanEntries(archive: Archive, digest: Algorithm, source: Option<string>, disk: Disk, host: Platform.Host,
                     ghost env: Env)
    returns (append: seq<string>, out: seq<string>, err: seq<string>, missing: nat, failures: nat,
             ghost verdicts: seq<Verdict>, stop: Option<string>)
    requires archive.underlying.Valid() && archive.underlying.next == 0
    requires forall i :: 0 <= i < |archive.underlying.members| ==> KnownCode(archive.underlying.members[i].filetype)
    requires env == Env(digest, source, disk, ArchivePath)
    modifies archive.underlying
    ensures stop.Some? ==>
      VerifyRun(Container(archive.underlying.members, archive.underlying.trailer), env, [], EndOfArchive)
        == RunOutput(append, out, err, Err(stop.value))
    ensures stop.None? ==>
      VerifyMembers(archive.underlying.members, env, []) == Scan(append, out, err, missing, failures, verdicts, [], None)
  {
    ghost var r := archive.underlying;
    ghost var ms := r.members;
    verdicts := [];
    missing, failures := 0, 0;
    append, out, err := [], [], [];
    var entries := new Entries(archive);
    while true
      invariant entries.Valid() && entries.archive == archive && !r.fatal
      invariant VerifyMembers(ms[..r.next], env, []) == Scan(append, out, err, missing, failures, verdicts, [], None)
      decreases |ms| - r.next
    {
      var next := entries.Next();
      if next.None? {
        assert ms[..r.next] == ms;
        return append, out, err, missing, failures, verdicts, None;
      }
      append, out, err, missing, failures, verdicts, stop :=
        VisitEntry(next.value, digest, source, disk, host, env, verdicts, append, out, err, missing, failures);
      if stop.Some? {
        return;
      }
    }
  }

  /** The body of the `for entry in archive` loop for one entry: skipped
      unless `is_file()`, otherwise checked by `CheckMember`; the scan grows by
      that entry, or the run ends with its block error. */
  method VisitEntry(entry: Entry, digest: Algorithm, source: Option<string>, disk: Disk, host: Platform.Host,
                    ghost env: Env, ghost verdicts: seq<Verdict>,
                    append: seq<string>, out: seq<string>, err: seq<string>, missing: nat, failures: nat)
    returns (append': seq<string>, out': seq<string>, err': seq<string>, missing': nat, failures': nat,
             ghost verdicts': seq<Verdict>, stop: Option<string>)
    requires IsCurrent(entry) && entry.archive.pos == 0 && KnownCode(entry.archive.members[entry.index].filetype)
    requires env == Env(digest, source, disk, ArchivePath)
    requires VerifyMembers(entry.archive.members[..entry.index], env, [])
      == Scan(append, out, err, missing, failures, verdicts, [], None)
    modifies entry.archive
    ensures IsCurrent(entry) && entry.archive.fatal == (old(entry.archive.fatal) || stop.Some?)
    ensures stop.None? ==>
      VerifyMembers(entry.archive.members[..entry.index + 1], env, [])
        == Scan(append', out', err', missing', failures', verdicts', [], None)
    ensures stop.Some? ==>
      VerifyRun(Container(entry.archive.members, entry.archive.trailer), env, [], EndOfArchive)
        == RunOutput(append', out', err', Err(stop.value))
  {
    ghost var ms := entry.archive.members;
    ghost var s := Scan(append, out, err, missing, failures, verdicts, [], None);
    VerifyMembersStep(ms, entry.index, env, []);
    if !IsFile(entry) {
      return append, out, err, missing, failures, verdicts, None;
    }
    append', out', err', missing', failures', stop :=
      CheckMember(entry, digest, source, disk, host, env, s, append, out, err, missing, failures);
    verdicts' := VerifyStep(s, ms[entry.index], env).verdicts;
    if stop.Some? {
      VerifyRunAborted(Container(ms, entry.archive.trailer), entry.index + 1, env, [], EndOfArchive);
    }
  }

  /** One regular entry: its blocks are fed to a fresh accumulator, its digest
      line appended, its source file checked and the verdict reported under the
      entry's archive path, as `VerifyStep` says; or the block error that cut its
      data short. */
  method CheckMember(entry: Entry, digest: Algorithm, source: Option<string>, disk: Disk, host: Platform.Host,
                     ghost env: Env, ghost s: Scan,
                     append: seq<string>, out: seq<string>, err: seq<string>, missing: nat, failures: nat)
    returns (append': seq<string>, out': seq<string>, err': seq<string>, missing': nat, failures': nat,
             fault: Option<string>)
    requires IsCurrent(entry) && entry.archive.pos == 0 && IsRegular(entry.archive.members[entry.index])
    requires env == Env(digest, source, disk, ArchivePath)
    requires s == Scan(append, out, err, missing, failures, s.verdicts, [], None)
    modifies entry.archive
    ensures IsCurrent(entry)
    ensures fault == entry.archive.members[entry.index].fault
    ensures entry.archive.fatal == (old(entry.archive.fatal) || fault.Some?)
    ensures fault.Some? ==> append' == append && out' == out && err' == err
    ensures fault.None? ==>
      VerifyStep(s, entry.archive.members[entry.index], env)
        == Scan(append', out', err', missing', failures', VerifyStep(s, entry.archive.members[entry.index], env).verdicts, [], None)
  {
    append', out', err', missing', failures' := append, out, err, missing, failures;
    var hashed := Feed.HashBlocks(entry, digest);
    if hashed.Err? {
      return append', out', err', missing', failures', Some(hashed.error);
    }
    fault := None;
    assert [] + entry.archive.members[entry.index].data == entry.archive.members[entry.index].data;
    var hashArchive := HexString(hashed.value);
    append' := append + [DigestLine(hashArchive, Path(entry))];
    var sourceFile := SourcePath(source, Path(entry));
    var verdict := Checking.CheckFresh(hashArchive, sourceFile, digest, disk, host);
    ghost var s1 := s.(append := append', pending := []);
    out', err', missing', failures' := Checking.Report(Path(entry), verdict, out, err, missing, failures, s1);
  }
}
