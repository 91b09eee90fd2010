/** lib/src/print.rs: one md5sum-style line per regular member, with one
    caller-supplied accumulator finalized and reset after each member. */
module LibPrint {
  import opened Bytes
  import opened Wrappers
  import opened Native
  import opened Digest
  import opened Hex
  import opened Engine
  import Feed

  /** `run(archive, hasher, out)`: `out` receives the lines of `PrintRun`; a data
      or header read error is returned as an error after the lines before it. */
  method Run(archive: Reader, hasher: Hasher) returns (out: seq<string>, result: Result<(), string>)
    requires archive.Valid() && archive.next == 0
    modifies archive, hasher
    ensures PrintOutput(out, result) ==
      PrintRun(Container(archive.members, archive.trailer), hasher.algorithm, old(hasher.fed), Propagated)
    ensures result.Ok? ==> hasher.fed == PrintMembers(archive.members, hasher.algorithm, old(hasher.fed)).pending
  {
    ghost var ms := archive.members;
    ghost var pending := hasher.fed;
    out := [];
    while true
      invariant archive.Valid() && !archive.fatal
      invariant PrintMembers(ms[..archive.next], hasher.algorithm, pending) == PrintScan(out, hasher.fed, None)
      decreases |ms| - archive.next
    {
      ghost var before := archive.next;
      var status := archive.NextHeader();
      if status != ARCHIVE_OK {
        assert ms[..archive.next] == ms;
        if status == ARCHIVE_EOF {
          break;
        }
        result := Err(archive.ErrorString());
        return;
      }
      PrintMembersStep(ms, before, hasher.algorithm, pending);
      var m := archive.Current();
      if m.filetype != AE_IFREG {
        continue;
      }
      var fault := Feed.FeedRead(archive, hasher, DEFAULT_BLOCK_SIZE);
      if fault.Some? {
        PrintAbortPersists(ms, archive.next, hasher.algorithm, pending);
        result := Err(fault.value);
        return;
      }
      var hash := hasher.FinalizeReset();
      out := out + [DigestLine(HexString(hash), m.path)];
    }
    result := Ok(());
  }
}
