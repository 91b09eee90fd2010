/** The command-line arguments of the `tar`-based tools (cli/src/cli.rs and
    src/cli.rs, which agree on everything modelled here): the record built from
    clap's matches, the verification switch, the archive source with its gzip
    decision, the append sink and the routing of the verification sinks. */
module Cli {
  import opened Wrappers
  import opened Routing

  /** clap's `ArgMatches`, reduced to what the tools ask of it: the value given
      to an argument, and the command-line indices of each occurrence of an
      argument (an argument that occurs has at least one). */
  datatype Matches = Matches(values: map<string, string>, indices: map<string, seq<nat>>)

  /** What clap guarantees: an argument with a value occurred, and the indices
      of an occurring argument are non-empty and increasing. */
  predicate WellFormed(m: Matches) {
    && (forall id :: id in m.values ==> id in m.indices)
    && (forall id :: id in m.indices ==>
          |m.indices[id]| > 0 && forall i, j :: 0 <= i < j < |m.indices[id]| ==> m.indices[id][i] < m.indices[id][j])
  }

  /** `value_of(id)`. */
  function ValueOf(m: Matches, id: string): Option<string> {
    if id in m.values then Some(m.values[id]) else None
  }

  /** `indices_of(id)`: `None` for an argument that did not occur. */
  function IndicesOf(m: Matches, id: string): Option<seq<nat>> {
    if id in m.indices then Some(m.indices[id]) else None
  }

  /** `is_present(id)` / `contains_id(id)`. */
  predicate IsPresent(m: Matches, id: string) {
    id in m.indices
  }

  /** `indices_of(id).and_then(Iterator::last)`: the index of the last
      occurrence, the largest of them. */
  function LastOf(m: Matches, id: string): (r: Option<nat>)
    requires WellFormed(m)
    ensures r.Some? <==> IsPresent(m, id)
    ensures r.Some? ==> r.value in m.indices[id] && forall i :: i in m.indices[id] ==> i <= r.value
  {
    match IndicesOf(m, id)
    case None => None
    case Some(occ) =>
      var r := occ[|occ| - 1];
      assert forall k :: 0 <= k < |occ| ==> occ[k] <= r by {
        forall k | 0 <= k < |occ| ensures occ[k] <= r {
          if k < |occ| - 1 {
            assert occ[k] < occ[|occ| - 1];
          }
        }
      }
      Some(r)
  }

  /** Where the archive is read from. */
  datatype Source = Stdin | PlainFile(path: string) | GzipFile(path: string)

  /** `Arguments`. */
  datatype Arguments = Arguments(
    archive: Option<string>,
    append: Option<string>,
    check: Option<string>,
    lastQuiet: Option<nat>,
    lastStatus: Option<nat>)
  {
    /** `verify()`: verification needs a directory value, so a bare `-c` does not
        turn it on. */
    predicate Verify() {
      check.Some?
    }

    /** `verify_dir()`. */
    function VerifyDir(): Option<string> {
      check
    }

    /** `archive()`: standard input when no archive is named; otherwise the
        file, decompressed when its extension is "gz" or "tgz" in any case; an
        error when the file cannot be opened (`openError` gives the message). */
    function ArchiveSource(openError: string -> Option<string>): (r: Result<Source, string>)
      ensures archive.None? ==> r == Ok(Stdin)
      ensures archive.Some? && openError(archive.value).Some? ==> r == Err(openError(archive.value).value)
      ensures r.Ok? && archive.Some? ==>
        r.value == (if GzipByExtension(archive.value) then GzipFile(archive.value) else PlainFile(archive.value))
    {
      match archive
      case None => Ok(Stdin)
      case Some(path) =>
        match openError(path)
        case Some(e) => Err(e)
        case None => Ok(if GzipByExtension(path) then GzipFile(path) else PlainFile(path))
    }

    /** `append()`: the append file opened for appending, if one is named. */
    function Append(openError: string -> Option<string>): (r: Result<Option<Dest>, string>)
      ensures append.None? ==> r == Ok(None)
      ensures append.Some? ==> r == (match openError(append.value)
                                      case Some(e) => Err(e)
                                      case None => Ok(Some(AppendFile(append.value))))
    {
      match append
      case None => Ok(None)
      case Some(file) =>
        match openError(file)
        case Some(e) => Err(e)
        case None => Ok(Some(AppendFile(file)))
    }

    /** `append_or_sink()`: the append file, else a sink. */
    function AppendOrSink(openError: string -> Option<string>): (r: Result<Dest, string>)
      ensures r.Ok? <==> Append(openError).Ok?
      ensures r.Ok? ==> r.value == (if append.Some? then AppendFile(append.value) else Sink)
    {
      match Append(openError)
      case Err(e) => Err(e)
      case Ok(o) => Ok(if o.Some? then o.value else Sink)
    }

    /** `append_or_stdout()`: the append file, else stdout. */
    function AppendOrStdout(openError: string -> Option<string>): (r: Result<Dest, string>)
      ensures r.Ok? <==> Append(openError).Ok?
      ensures r.Ok? ==> r.value == (if append.Some? then AppendFile(append.value) else Stdout)
    {
      match Append(openError)
      case Err(e) => Err(e)
      case Ok(o) => Ok(if o.Some? then o.value else Stdout)
    }

    /** `verify_out()`. */
    function VerifyOutDest(): Dest {
      VerifyOut(lastQuiet, lastStatus)
    }

    /** `verify_err()`. */
    function VerifyErrDest(): Dest {
      VerifyErr(lastQuiet, lastStatus)
    }
  }

  /** `Arguments::try_from(matches)`, which never fails. */
  function FromMatches(m: Matches): (a: Arguments)
    requires WellFormed(m)
    ensures a.Verify() <==> "check" in m.values
    ensures a.lastQuiet.Some? <==> IsPresent(m, "quiet")
    ensures a.lastStatus.Some? <==> IsPresent(m, "status")
  {
    Arguments(ValueOf(m, "archive"), ValueOf(m, "append"), ValueOf(m, "check"),
              LastOf(m, "quiet"), LastOf(m, "status"))
  }

  // ---------------------------------------------------------------------------
  // the gzip decision
  // ---------------------------------------------------------------------------

  /** The position of the last `c` among the first `n` characters of `s`. */
  function LastBefore(s: string, c: char, n: nat): (r: Option<nat>)
    requires n <= |s|
    ensures r.Some? ==> r.value < n && s[r.value] == c && forall i :: r.value < i < n ==> s[i] != c
    ensures r.None? ==> forall i :: 0 <= i < n ==> s[i] != c
  {
    if n == 0 then None
    else if s[n - 1] == c then Some(n - 1)
    else LastBefore(s, c, n - 1)
  }

  /** What follows the last '/' of `path` (all of it when there is none). */
  function AfterLastSlash(path: string): string {
    match LastBefore(path, '/', |path|)
    case None => path
    case Some(k) => path[k + 1..]
  }

  /** `Path::file_name`: the last component, absent when it is empty or "..".
      Rust first drops trailing '/' and "." components ("a.tgz/" names
      "a.tgz"), which this does not; the difference is never seen, because the
      `is_file` validator of the archive argument (cli/src/cli.rs:261-272)
      rejects every such path, which names no regular file. */
  function FileName(path: string): Option<string> {
    var name := AfterLastSlash(path);
    if name == [] || name == ".." then None else Some(name)
  }

  /** `Path::extension`: what follows the last '.' of the file name, unless that
      dot is the name's first character or the name is "..". */
  function Extension(path: string): (r: Option<string>)
  {
    match FileName(path)
    case None => None
    case Some(name) => AfterLastDot(name)
  }

  /** What follows the last '.' of `name`, when some character precedes that
      dot (the `rsplitn(2, '.')` of `Path::extension`). */
  function AfterLastDot(name: string): Option<string> {
    match LastBefore(name, '.', |name|)
    case None => None
    case Some(k) => if k == 0 then None else Some(name[k + 1..])
  }

  /** ASCII lower-casing of one character. */
  function ToAsciiLower(c: char): char {
    if 'A' <= c <= 'Z' then (c as int + 32) as char else c
  }

  /** `eq_ignore_ascii_case`. */
  predicate EqIgnoreAsciiCase(a: string, b: string) {
    |a| == |b| && forall i :: 0 <= i < |a| ==> ToAsciiLower(a[i]) == ToAsciiLower(b[i])
  }

  /** The gzip decision of cli/src/cli.rs and src/cli.rs. */
  predicate GzipByExtension(path: string) {
    match Extension(path)
    case None => false
    case Some(ext) => EqIgnoreAsciiCase(ext, "gz") || EqIgnoreAsciiCase(ext, "tgz")
  }

  // ---------------------------------------------------------------------------
  // properties
  // ---------------------------------------------------------------------------

  /** A bare `-c` (the argument present without a directory) leaves verification
      off; `-c dir` turns it on with that directory. */
  lemma BareCheckDoesNotVerify(m: Matches)
    requires WellFormed(m) && IsPresent(m, "check")
    ensures FromMatches(m).Verify() <==> "check" in m.values
    ensures "check" !in m.values ==> FromMatches(m).VerifyDir() == None
    ensures "check" in m.values ==> FromMatches(m).VerifyDir() == Some(m.values["check"])
  {
  }

  /** The last-index fields route the sinks: stdout only when neither flag
      occurs, stderr unless `--status` occurs with no later `--quiet`. */
  lemma ArgumentsRouting(m: Matches)
    requires WellFormed(m)
    ensures var a := FromMatches(m);
      && (a.VerifyOutDest() == Stdout <==> !IsPresent(m, "quiet") && !IsPresent(m, "status"))
      && (a.VerifyErrDest() == Sink <==>
            IsPresent(m, "status")
            && (!IsPresent(m, "quiet")
                || forall i :: i in m.indices["quiet"] ==> exists j :: j in m.indices["status"] && i <= j))
  {
    var a := FromMatches(m);
    if IsPresent(m, "status") && IsPresent(m, "quiet") {
      var q, s := a.lastQuiet.value, a.lastStatus.value;
      if q <= s {
        forall i | i in m.indices["quiet"] ensures exists j :: j in m.indices["status"] && i <= j {
          assert s in m.indices["status"];
        }
      }
    }
  }

  /** A position holding `c` with no `c` after it is the last one. */
  lemma LastBeforeIs(s: string, c: char, n: nat, k: nat)
    requires k < n <= |s| && s[k] == c
    requires forall i :: k < i < n ==> s[i] != c
    ensures LastBefore(s, c, n) == Some(k)
  {
  }

  /** No position holding `c`: there is no last one. */
  lemma LastBeforeNone(s: string, c: char, n: nat)
    requires n <= |s| && forall i :: 0 <= i < n ==> s[i] != c
    ensures LastBefore(s, c, n) == None
  {
  }

  /** A path that does not end with '/' has a non-empty last component. */
  lemma AfterLastSlashNonEmpty(path: string)
    requires path != [] && path[|path| - 1] != '/'
    ensures AfterLastSlash(path) != []
  {
  }

  /** The last component holds no '/'. */
  lemma AfterLastSlashHasNoSlash(path: string)
    ensures '/' !in AfterLastSlash(path)
  {
    var name := AfterLastSlash(path);
    match LastBefore(path, '/', |path|)
    case None =>
    case Some(k) =>
      forall j | 0 <= j < |name| ensures name[j] != '/' {
        assert name[j] == path[k + 1 + j];
      }
  }

  /** Appending characters other than `c` keeps the last `c` where it was. */
  lemma LastBeforeAppend(s: string, t: string, c: char)
    requires c !in t
    ensures LastBefore(s + t, c, |s + t|) == LastBefore(s, c, |s|)
  {
    var st := s + t;
    assert forall i :: |s| <= i < |st| ==> st[i] == t[i - |s|];
    assert forall i :: 0 <= i < |s| ==> st[i] == s[i];
    match LastBefore(s, c, |s|)
    case None =>
      LastBeforeNone(st, c, |st|);
    case Some(k) =>
      LastBeforeIs(st, c, |st|, k);
  }

  /** Appending a name without '/' extends the last component by it. */
  lemma AfterLastSlashAppend(path: string, name: string)
    requires '/' !in name
    ensures AfterLastSlash(path + name) == AfterLastSlash(path) + name
  {
    LastBeforeAppend(path, name, '/');
    match LastBefore(path, '/', |path|)
    case None =>
    case Some(k) =>
      assert (path + name)[k + 1..] == path[k + 1..] + name;
  }

  /** A name `stem.ext` with a non-empty stem and no dot in `ext` has the
      extension `ext`. */
  lemma AfterLastDotSplit(stem: string, ext: string)
    requires |stem| > 0 && '.' !in ext
    ensures AfterLastDot(stem + "." + ext) == Some(ext)
  {
    var name := stem + "." + ext;
    forall i | |stem| < i < |name| ensures name[i] != '.' {
      assert name[i] == ext[i - |stem| - 1] && ext[i - |stem| - 1] in ext;
    }
    LastBeforeIs(name, '.', |name|, |stem|);
    assert name[|stem| + 1..] == ext;
  }

  /** A name that starts with its only dot has no extension. */
  lemma AfterLastDotLeading(ext: string)
    requires '.' !in ext
    ensures AfterLastDot("." + ext) == None
  {
    var name := "." + ext;
    forall i | 0 < i < |name| ensures name[i] != '.' {
      assert name[i] == ext[i - 1] && ext[i - 1] in ext;
    }
    LastBeforeIs(name, '.', |name|, 0);
  }

  /** `stem.ext` is never the parent-directory name "..". */
  lemma NotParent(stem: string, ext: string)
    requires |stem| > 0 && (stem != "." || ext != [])
    ensures stem + "." + ext != ".."
  {
    var name := stem + "." + ext;
    if |name| == 2 {
      assert |stem| == 1 && stem == [stem[0]];
      assert name[0] == stem[0] != '.';
    }
  }

  /** Appending a name without '/' to a path extends its file name by it. */
  lemma FileNameAppend(path: string, name: string)
    requires '/' !in name
    requires AfterLastSlash(path) + name != [] && AfterLastSlash(path) + name != ".."
    ensures FileName(path + name) == Some(AfterLastSlash(path) + name)
  {
    AfterLastSlashAppend(path, name);
  }

  /** A name without '/' placed after a directory prefix is the file name. */
  lemma FileNameAfterDir(dir: string, name: string)
    requires '/' !in name && name != [] && name != ".."
    requires dir == [] || dir[|dir| - 1] == '/'
    ensures FileName(dir + name) == Some(name)
  {
    assert AfterLastSlash(dir) == [];
    AfterLastSlashAppend(dir, name);
    assert [] + name == name;
  }

  /** The extension of `dir/stem.ext`, for a stem and an extension without '/'
      and an extension without '.', is `ext`. */
  lemma ExtensionOfName(dir: string, stem: string, ext: string)
    requires |stem| > 0 && stem != "." && '/' !in stem && '/' !in ext && '.' !in ext
    requires dir == [] || dir[|dir| - 1] == '/'
    ensures Extension(dir + stem + "." + ext) == Some(ext)
  {
    var name := stem + "." + ext;
    NotParent(stem, ext);
    FileNameAfterDir(dir, name);
    assert dir + stem + "." + ext == dir + name;
    AfterLastDotSplit(stem, ext);
  }

  /** The extension test ignores case: "T.GZ" is decompressed. */
  lemma GzipIgnoresCase()
    ensures GzipByExtension("T.GZ")
  {
    var p := "T.GZ";
    LastBeforeNone(p, '/', |p|);
    LastBeforeIs(p, '.', |p|, 1);
    assert p[2..] == "GZ";
    assert ToAsciiLower('G') == 'g' && ToAsciiLower('Z') == 'z';
    assert EqIgnoreAsciiCase("GZ", "gz");
  }

  /** A dot that starts the file name does not start an extension: "d/.tgz"
      is read as a plain archive. */
  lemma GzipNeedsStem()
    ensures !GzipByExtension("d/.tgz")
  {
    var p := "d/.tgz";
    LastBeforeIs(p, '/', |p|, 1);
    var name := p[2..];
    assert name == ".tgz";
    LastBeforeIs(name, '.', |name|, 0);
  }
}
