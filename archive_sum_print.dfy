/** archive-sum/src/print.rs: one md5sum-style line per regular member, through
    the libarchive wrapper, with a fresh OpenSSL accumulator for every member. */
module ArchiveSumPrint {
  import opened Bytes
  import opened Wrappers
  import opened Native
  import opened Hex
  import opened Engine
  import opened LibEntry
  import opened LibArchive
  import Feed

  /** `run(archive, digest, out)`: `out` receives the lines of `PrintRun`; a block
      error is returned after the lines before it, and a header error ends the
      iteration like the end of the archive. */
  method Run(archive: Archive, digest: Algorithm) returns (out: seq<string>, result: Result<(), string>)
    requires archive.underlying.Valid() && archive.underlying.next == 0
    requires forall i :: 0 <= i < |archive.underlying.members| ==> KnownCode(archive.underlying.members[i].filetype)
    modifies archive.underlying
    ensures PrintOutput(out, result) ==
      PrintRun(Container(archive.underlying.members, archive.underlying.trailer), digest, [], EndOfArchive)
  {
    ghost var r := archive.underlying;
    ghost var ms := r.members;
    out := [];
    var entries := new Entries(archive);
    while true
      invariant entries.Valid() && entries.archive == archive && !r.fatal
      invariant PrintMembers(ms[..r.next], digest, []) == PrintScan(out, [], None)
      decreases |ms| - r.next
    {
      ghost var before := r.next;
      var next := entries.Next();
      if next.None? {
        assert ms[..r.next] == ms;
        break;
      }
      var entry := next.value;
      PrintMembersStep(ms, before, digest, []);
      if !IsFile(entry) {
        continue;
      }
      var hashed := Feed.HashBlocks(entry, digest);
      if hashed.Err? {
        PrintAbortPersists(ms, r.next, digest, []);
        result := Err(hashed.error);
        return;
      }
      assert [] + ms[before].data == ms[before].data;
      out := out + [DigestLine(HexString(hashed.value), Path(entry))];
    }
    result := Ok(());
  }
}
