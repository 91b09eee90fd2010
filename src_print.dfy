/** src/print.rs: one md5sum-style line per regular member, through the `tar`
    crate, with a fresh accumulator for every member. */
module SrcPrint {
  import opened Bytes
  import opened Wrappers
  import opened Native
  import opened Digest
  import opened Hex
  import opened Engine
  import Feed
  import SrcVerify

  /** `run::<Digest>(archive, out)`: `out` receives the lines of `PrintRun`; a data
      or header read error is returned as an error after the lines before it. */
  method Run(archive: Reader, digest: Algorithm) returns (out: seq<string>, result: Result<(), string>)
    requires archive.Valid() && archive.next == 0
    modifies archive
    ensures PrintOutput(out, result) == PrintRun(Container(archive.members, archive.trailer), digest, [], Propagated)
  {
    ghost var ms := archive.members;
    out := [];
    while true
      invariant archive.Valid() && !archive.fatal
      invariant PrintMembers(ms[..archive.next], digest, []) == PrintScan(out, [], None)
      decreases |ms| - archive.next
    {
      ghost var before := archive.next;
      var status := archive.NextHeader();
      if status != ARCHIVE_OK {
        assert ms[..archive.next] == ms;
        if status == ARCHIVE_EOF {
          break;
        }
        result := Err(archive.ErrorString());
        return;
      }
      PrintMembersStep(ms, before, digest, []);
      var m := archive.Current();
      assert m == ms[before];
      if m.filetype != AE_IFREG {
        continue;
      }
      var hashed := Feed.HashRead(archive, digest, SrcVerify.COPY_BUFFER_SIZE);
      if hashed.Err? {
        PrintAbortPersists(ms, archive.next, digest, []);
        result := Err(hashed.error);
        return;
      }
      var hash := hashed.value;
      assert [] + m.data == m.data;
      out := out + [DigestLine(HexString(hash), m.path)];
    }
    result := Ok(());
  }
}
