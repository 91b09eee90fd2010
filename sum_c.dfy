/** src/sum.c and archive-sum.c: `archive_sum`, the C print loop (the two files
    hold the same function), and the archive loop of archive-sum.c's `main`. */
module CSum {
  import opened Bytes
  import opened Wrappers
  import opened Native
  import opened Digest
  import opened Hex
  import opened Engine
  import Feed
  import CCheck

  const EXIT_SUCCESS: int := 0
  const EXIT_FAILURE: int := 1

  /** The lines printed for the members the loop reaches: one digest line per
      regular member. A data read error ends that member's data like its end
      does, so a damaged member still gets a line, the digest of the bytes read
      before the error; no header is read after it (see `Reached`). */
  function SumLines(ms: seq<Member>, digest: Algorithm): seq<string> {
    if ms == [] then []
    else
      var m := ms[|ms| - 1];
      SumLines(ms[..|ms| - 1], digest)
      + (if IsRegular(m) then [DigestLine(HexString(digest(m.data)), m.path)] else [])
  }

  /** Everything one call leaves behind: stdout lines, stderr lines, exit status. */
  datatype SumOutput = SumOutput(out: seq<string>, err: seq<string>, status: int)

  /** `archive_sum(md, filename)` over the archives on disk. */
  function SumRun(filename: string, archives: map<string, ArchiveFile>, digest: Algorithm): SumOutput {
    if filename !in archives then SumOutput([], [CCheck.Perror(filename)], EXIT_FAILURE)
    else
      var file := archives[filename];
      if file.openError.Some? then SumOutput([], [file.openError.value + ": " + filename], EXIT_FAILURE)
      else
        var lines := SumLines(Reached(file.container.members), digest);
        if file.freeError.Some? then SumOutput(lines, [file.freeError.value + ": " + filename], EXIT_FAILURE)
        else SumOutput(lines, [], EXIT_SUCCESS)
  }

  /** The archive loop of `main`: each archive's output after the previous ones'. */
  function SumAll(filenames: seq<string>, archives: map<string, ArchiveFile>, digest: Algorithm): (r: SumOutput)
    ensures r.status == EXIT_SUCCESS
  {
    if filenames == [] then SumOutput([], [], EXIT_SUCCESS)
    else
      var before := SumAll(filenames[..|filenames| - 1], archives, digest);
      var last := SumRun(filenames[|filenames| - 1], archives, digest);
      SumOutput(before.out + last.out, before.err + last.err, EXIT_SUCCESS)
  }

  // ---------------------------------------------------------------------------
  // the code
  // ---------------------------------------------------------------------------

  /** The `for` loop printing `%02x` for each digest byte. */
  method HexDigits(md: seq<Byte>) returns (line: string)
    ensures line == HexString(md)
  {
    line := [];
    for i := 0 to |md|
      invariant line == HexString(md[..i])
    {
      assert md[..i + 1][..i] == md[..i];
      line := line + HexByte(md[i]);
    }
    assert md[..|md|] == md;
  }

  /** `archive_sum`: stdout, stderr and the exit status are those of SumRun. */
  method ArchiveSum(digest: Algorithm, filename: string, archives: map<string, ArchiveFile>)
    returns (out: seq<string>, err: seq<string>, status: int)
    ensures SumOutput(out, err, status) == SumRun(filename, archives, digest)
  {
    // stat(filename, &s)
    if filename !in archives {
      return [], [CCheck.Perror(filename)], EXIT_FAILURE;
    }
    var file := archives[filename];
    var bsize := file.blksize;
    if file.openError.Some? {
      return [], [file.openError.value + ": " + filename], EXIT_FAILURE;
    }
    var a := new Reader(file.container);
    ghost var ms := a.members;
    out, err := [], [];
    while true
      invariant a.Valid() && a.members == ms
      invariant SumLines(ms[..a.next], digest) == out
      invariant !a.fatal ==> Sound(ms[..a.next])
      invariant a.fatal ==> Reached(ms) == ms[..a.next]
      decreases |ms| - a.next
    {
      ghost var before := a.next;
      var r := a.NextHeader();
      if r != ARCHIVE_OK {
        if !a.fatal {
          assert ms[..a.next] == ms;
        }
        break;
      }
      SoundStep(ms, before);
      assert ms[..a.next][..before] == ms[..before];
      var m := a.Current();
      assert m == ms[before];
      if m.filetype != AE_IFREG {
        continue;
      }
      var mdctx := new Hasher(digest);
      Feed.FeedArchiveData(a, mdctx, bsize);
      assert mdctx.fed == m.data;
      if a.fatal {
        ReachedAt(ms, a.next);
      }
      var mdValue := mdctx.Finalize();
      var line := HexDigits(mdValue);
      out := out + [line + "  " + m.path];
    }
    if file.freeError.Some? {
      return out, [file.freeError.value + ": " + filename], EXIT_FAILURE;
    }
    status := EXIT_SUCCESS;
  }

  /** archive-sum.c's `main` after option parsing: `archive_sum` for every
      archive argument in order, whose status is ignored. */
  method SumArchives(digest: Algorithm, filenames: seq<string>, archives: map<string, ArchiveFile>)
    returns (out: seq<string>, err: seq<string>, status: int)
    ensures SumOutput(out, err, status) == SumAll(filenames, archives, digest)
  {
    out, err := [], [];
    for i := 0 to |filenames|
      invariant SumAll(filenames[..i], archives, digest) == SumOutput(out, err, EXIT_SUCCESS)
    {
      assert filenames[..i + 1][..i] == filenames[..i];
      var o, e, _ := ArchiveSum(digest, filenames[i], archives);
      out, err := out + o, err + e;
    }
    assert filenames[..|filenames|] == filenames;
    status := EXIT_SUCCESS;
  }

  // ---------------------------------------------------------------------------
  // properties
  // ---------------------------------------------------------------------------

  /** One line per regular member, in archive order, each reading back as the
      hex digest of the member's data and its path. */
  lemma {:induction false} SumLinesRegular(ms: seq<Member>, digest: Algorithm)
    ensures var lines := SumLines(ms, digest);
      && |lines| == |Regular(ms)|
      && forall i :: 0 <= i < |lines| ==>
           && lines[i] == DigestLine(HexString(digest(Regular(ms)[i].data)), Regular(ms)[i].path)
           && SplitDigestLine(lines[i], 0) == Some((HexString(digest(Regular(ms)[i].data)), Regular(ms)[i].path))
  {
    if ms != [] {
      var init, m := ms[..|ms| - 1], ms[|ms| - 1];
      SumLinesRegular(init, digest);
      if IsRegular(m) {
        SplitDigestLineRoundTrip(HexString(digest(m.data)), m.path, 0);
      }
    }
  }

  /** For an archive whose regular members read without error, the C loop
      reaches every member and prints exactly what the Rust print mode writes. */
  lemma {:induction false} SumIsPrint(ms: seq<Member>, digest: Algorithm)
    requires Sound(ms)
    ensures Reached(ms) == ms
    ensures PrintMembers(ms, digest, []) == PrintScan(SumLines(Reached(ms), digest), [], None)
  {
    if ms != [] {
      var init, m := ms[..|ms| - 1], ms[|ms| - 1];
      assert Sound(init) by {
        forall i | 0 <= i < |init| && IsRegular(init[i]) ensures init[i].fault.None? {
          assert init[i] == ms[i];
        }
      }
      SumIsPrint(init, digest);
      assert [] + m.data == m.data;
    }
  }

  /** On an archive with a damaged regular member the two tools part ways at
      that member: the Rust print mode stops with its read error and prints no
      line for it, while the C loop prints one more line, the digest of the
      bytes read before the error, and then stops too. */
  lemma SumStopsAfterDamage(ms: seq<Member>, digest: Algorithm)
    requires !Sound(ms)
    ensures var r := Reached(ms); var d := r[|r| - 1];
      && PrintMembers(ms, digest, []).abort == d.fault
      && SumLines(r, digest) == PrintMembers(ms, digest, []).lines + [DigestLine(HexString(digest(d.data)), d.path)]
  {
    var r := Reached(ms);
    var k := |r|;
    var init, d := r[..k - 1], r[k - 1];
    assert IsRegular(d) && d.fault.Some?;
    SumIsPrint(init, digest);
    var s := PrintScan(SumLines(init, digest), [], None);
    assert PrintMembers(init, digest, []) == s;
    assert PrintMembers(r, digest, []) == s.(abort := d.fault);
    assert SumLines(r, digest) == SumLines(init, digest) + [DigestLine(HexString(digest(d.data)), d.path)];
    assert ms[..k] == r;
    PrintAbortPersists(ms, k, digest, []);
  }

  /** The exit status is failure exactly when the archive cannot be `stat`ed,
      opened or freed; the digest lines are printed whenever it could be opened,
      even if freeing it then fails. */
  lemma SumRunStatus(filename: string, archives: map<string, ArchiveFile>, digest: Algorithm)
    ensures var r := SumRun(filename, archives, digest);
      && (r.status == EXIT_FAILURE <==>
            filename !in archives || archives[filename].openError.Some? || archives[filename].freeError.Some?)
      && (r.status == EXIT_SUCCESS || r.status == EXIT_FAILURE)
      && (r.out != [] ==> filename in archives && archives[filename].openError.None?)
      && (filename in archives && archives[filename].openError.None? ==>
            r.out == SumLines(Reached(archives[filename].container.members), digest))
  {
  }

  /** A failing archive does not stop `main`: what every archive writes is
      there, after what the archives before it wrote. */
  lemma {:induction false} SumAllContinues(filenames: seq<string>, archives: map<string, ArchiveFile>, digest: Algorithm, k: nat)
    requires k < |filenames|
    ensures var all, before := SumAll(filenames, archives, digest), SumAll(filenames[..k], archives, digest);
      && before.out + SumRun(filenames[k], archives, digest).out <= all.out
      && before.err + SumRun(filenames[k], archives, digest).err <= all.err
  {
    var init := filenames[..|filenames| - 1];
    if k < |filenames| - 1 {
      assert init[..k] == filenames[..k] && init[k] == filenames[k];
      SumAllContinues(init, archives, digest, k);
    } else {
      assert init == filenames[..k];
    }
  }
}
