/** The second half of each member's check (looking up the member's copy on
    disk, hashing it in buffers of the file's preferred block size, comparing hex
    digests) and the summary that closes a verification. */
module Checking {
  import opened Bytes
  import opened Digest
  import opened Hex
  import opened Platform
  import opened Wrappers
  import opened Decimal
  import opened Engine
  import Feed

  /** src/ and archive-sum/: a fresh accumulator for the source file. */
  method CheckFresh(hashArchive: string, sourceFile: string, digest: Algorithm, disk: Disk, host: Host)
    returns (v: Verdict)
    ensures v == SourceVerdict(hashArchive, sourceFile, digest, disk)
  {
    if sourceFile !in disk {
      return MISSING;
    }
    var blockSize := PreferredBlockSize(host, disk[sourceFile].blksize);
    var digestSource := Feed.HashFile(digest, disk[sourceFile].content, blockSize);
    var hashSource := HexString(digestSource);
    if hashArchive == hashSource {
      v := OK;
    } else {
      v := FAILED;
    }
  }

  /** lib/: the caller's accumulator, reset after the member's digest, is fed
      the source file and finalized and reset again. */
  method CheckShared(hashArchive: string, sourceFile: string, hasher: Hasher, disk: Disk, host: Host)
    returns (v: Verdict)
    requires hasher.fed == []
    modifies hasher
    ensures v == SourceVerdict(hashArchive, sourceFile, hasher.algorithm, disk)
    ensures hasher.fed == []
  {
    if sourceFile !in disk {
      return MISSING;
    }
    var blockSize := PreferredBlockSize(host, disk[sourceFile].blksize);
    Feed.FeedFile(hasher, disk[sourceFile].content, blockSize, blockSize);
    assert hasher.fed == disk[sourceFile].content;
    var digestSource := hasher.FinalizeReset();
    var hashSource := HexString(digestSource);
    if hashArchive == hashSource {
      v := OK;
    } else {
      v := FAILED;
    }
  }

  /** The closing summary: a WARNING line when files were missing, then a FATAL
      line when checksums failed, and success exactly when neither happened. */
  method Summarize(err: seq<string>, missing: nat, failures: nat) returns (err': seq<string>, result: Result<bool, string>)
    ensures err' == err + Summary(missing, failures)
    ensures result == Ok(missing == 0 && failures == 0)
  {
    err' := err;
    if missing > 0 {
      err' := err' + ["archive-sum: WARNING: " + DecimalString(missing) + " MISSING file(s)"];
    }
    if failures > 0 {
      err' := err' + ["archive-sum: FATAL: " + DecimalString(failures) + " FAILED checksum(s)"];
    }
    result := Ok(failures == 0 && missing == 0);
  }

  /** Writing a member's verdict: an OK line to `out`; a MISSING or FAILED line
      to `err`, counted in `missing` or `failures`. */
  method Report(shown: string, verdict: Verdict, out: seq<string>, err: seq<string>, missing: nat, failures: nat, ghost s: Scan)
    returns (out': seq<string>, err': seq<string>, missing': nat, failures': nat)
    requires s.out == out && s.err == err && s.missing == missing && s.failures == failures
    ensures Record(s, shown, verdict) == s.(out := out', err := err', missing := missing', failures := failures', verdicts := s.verdicts + [verdict])
  {
    out', err', missing', failures' := out, err, missing, failures;
    match verdict
    case MISSING =>
      err' := err + [shown + ": MISSING"];
      missing' := missing + 1;
    case OK =>
      out' := out + [shown + ": OK"];
    case FAILED =>
      err' := err + [shown + ": FAILED"];
      failures' := failures + 1;
  }
}
