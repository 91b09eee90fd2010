/** The safe wrapper's archive handle (libarchive/src/archive.rs): opening from a
    path or from standard input with a chosen block size, and the `Entries`
    iterator over member headers. */
module LibArchive {
  import opened Bytes
  import opened Wrappers
  import opened Native
  import opened Platform
  import opened LibEntry

  /** `Archive`: the library handle and the block size it was opened with. */
  datatype Archive = Archive(underlying: Reader, blockSize: nat)

  const ALLOCATION_ERROR: string := "archive allocation error"

  /** The message of the I/O error `fs::metadata` reports for a missing path. */
  const NOT_FOUND: string := "No such file or directory (os error 2)"

  /** A handle fresh from opening `file`. */
  ghost predicate OpenedFrom(a: Archive, file: ArchiveFile)
    reads a.underlying
  {
    && a.underlying.Valid()
    && a.underlying.members == file.container.members
    && a.underlying.trailer == file.container.trailer
    && a.underlying.next == 0
    && !a.underlying.fatal
  }

  /** `Archive::open_filename`: fails with a fixed message when the library cannot
      allocate a handle, with the library's message when opening fails, and
      otherwise keeps the requested block size unchanged. */
  method OpenFilename(file: ArchiveFile, allocOk: bool, blockSize: nat) returns (r: Result<Archive, string>)
    ensures !allocOk ==> r == Err(ALLOCATION_ERROR)
    ensures allocOk && file.openError.Some? ==> r == Err(file.openError.value)
    ensures allocOk && file.openError.None? ==>
      r.Ok? && r.value.blockSize == blockSize && fresh(r.value.underlying) && OpenedFrom(r.value, file)
  {
    if !allocOk {
      return Err(ALLOCATION_ERROR);
    }
    match file.openError
    case Some(message) =>
      r := Err(message);
    case None =>
      var reader := new Reader(file.container);
      r := Ok(Archive(reader, blockSize));
  }

  /** The library's open error for a path that does not exist. */
  function MissingFileError(path: string): string {
    "Failed to open '" + path + "'"
  }

  /** `Archive::open(path)`: on Unix the block size comes from the file's
      metadata (a missing file is an I/O error, reported before any handle is
      allocated); elsewhere it is the default, and a missing file reaches
      `open_filename`, where it is the library's open error. */
  method Open(path: string, files: map<string, ArchiveFile>, host: Host, allocOk: bool)
    returns (r: Result<Archive, string>)
    ensures path !in files && host.unix ==> r == Err(NOT_FOUND)
    ensures path !in files && !host.unix && allocOk ==> r == Err(MissingFileError(path))
    ensures path in files && allocOk && files[path].openError.None? ==>
      && r.Ok? && fresh(r.value.underlying) && OpenedFrom(r.value, files[path])
      && r.value.blockSize == PreferredBlockSize(host, files[path].blksize)
    ensures (path in files || !host.unix) && !allocOk ==> r == Err(ALLOCATION_ERROR)
    ensures path in files && allocOk && files[path].openError.Some? ==> r == Err(files[path].openError.value)
  {
    var file;
    if path in files {
      file := files[path];
    } else if host.unix {
      return Err(NOT_FOUND);
    } else {
      file := ArchiveFile(DEFAULT_BLOCK_SIZE, Some(MissingFileError(path)), Container([], None), None);
    }
    var blockSize := PreferredBlockSize(host, file.blksize);
    r := OpenFilename(file, allocOk, blockSize);
  }

  /** `Archive::stdin()`: standard input, always with the default block size. */
  method Stdin(input: ArchiveFile, allocOk: bool) returns (r: Result<Archive, string>)
    ensures allocOk && input.openError.None? ==>
      r.Ok? && r.value.blockSize == DEFAULT_BLOCK_SIZE && fresh(r.value.underlying) && OpenedFrom(r.value, input)
    ensures !allocOk ==> r == Err(ALLOCATION_ERROR)
    ensures allocOk && input.openError.Some? ==> r == Err(input.openError.value)
  {
    r := OpenFilename(input, allocOk, DEFAULT_BLOCK_SIZE);
  }

  /** `Entries`: the iterator `entries()` makes by consuming the archive. */
  class Entries {
    const archive: Archive
    /** The header the library returned last. */
    var current: Option<nat>

    ghost predicate Valid()
      reads this, archive.underlying
    {
      && archive.underlying.Valid()
      && (current.Some? ==> current.value + 1 == archive.underlying.next)
    }

    /** `Archive::entries` / `into_iter`: only an archive no header of which was
        read yet can be turned into a cursor. */
    constructor (archive: Archive)
      requires archive.underlying.Valid() && archive.underlying.next == 0
      ensures Valid() && this.archive == archive && current == None
    {
      this.archive := archive;
      current := None;
    }

    /** `Entries::next`: the next header, in archive order and whatever its type,
        while archive_read_next_header reports ARCHIVE_OK; None once it reports
        anything else, whether a clean end, a header error or the fatal state a
        failed data read left behind. */
    method Next() returns (e: Option<Entry>)
      requires Valid()
      modifies this, archive.underlying
      ensures Valid() && archive.underlying.fatal == old(archive.underlying.fatal)
      ensures e.Some? <==> !old(archive.underlying.fatal) && old(archive.underlying.next) < |archive.underlying.members|
      ensures e.Some? ==>
        && e.value == Entry(archive.underlying, old(archive.underlying.next))
        && IsCurrent(e.value) && archive.underlying.pos == 0
      ensures e.None? && !old(archive.underlying.fatal) ==> archive.underlying.next == |archive.underlying.members|
    {
      var index := archive.underlying.next;
      var result := archive.underlying.NextHeader();
      if result == 0 {
        current := Some(index);
        e := Some(Entry(archive.underlying, index));
      } else {
        e := None;
      }
    }
  }
}
