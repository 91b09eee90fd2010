/** The safe wrapper's view of one archive member (libarchive/src/entry.rs):
    file-type decoding, the `Read` implementation and the `Blocks` iterator. An
    `Entry` refers to the archive handle it was read from and to its header; it is
    only meaningful while it is the archive's current member. */
module LibEntry {
  import opened Bytes
  import opened Wrappers
  import opened Native

  datatype FileType =
    BlockDevice | CharacterDevice | Directory | Mount | NamedPipe | RegularFile | Socket | SymbolicLink

  /** The eight codes the bindings declare; any other code makes `file_type` panic. */
  predicate KnownCode(code: int) {
    code in {AE_IFMT, AE_IFREG, AE_IFLNK, AE_IFSOCK, AE_IFCHR, AE_IFBLK, AE_IFDIR, AE_IFIFO}
  }

  /** `Entry::file_type`: the file type of a raw code. */
  function FileTypeOf(code: int): (t: FileType)
    requires KnownCode(code)
    ensures CodeOf(t) == code
  {
    if code == AE_IFMT then Mount
    else if code == AE_IFREG then RegularFile
    else if code == AE_IFLNK then SymbolicLink
    else if code == AE_IFSOCK then Socket
    else if code == AE_IFCHR then CharacterDevice
    else if code == AE_IFBLK then BlockDevice
    else if code == AE_IFDIR then Directory
    else NamedPipe
  }

  /** The code each file type is decoded from: the inverse of FileTypeOf. */
  function CodeOf(t: FileType): (code: int)
    ensures KnownCode(code)
  {
    match t
    case Mount => AE_IFMT
    case RegularFile => AE_IFREG
    case SymbolicLink => AE_IFLNK
    case Socket => AE_IFSOCK
    case CharacterDevice => AE_IFCHR
    case BlockDevice => AE_IFBLK
    case Directory => AE_IFDIR
    case NamedPipe => AE_IFIFO
  }

  /** Decoding is a bijection between the eight codes and the eight file types. */
  lemma FileTypeOfBijective(c1: int, c2: int, t: FileType)
    requires KnownCode(c1) && KnownCode(c2)
    ensures FileTypeOf(c1) == FileTypeOf(c2) <==> c1 == c2
    ensures FileTypeOf(CodeOf(t)) == t
  {
    assert CodeOf(FileTypeOf(c1)) == c1 && CodeOf(FileTypeOf(c2)) == c2;
  }

  /** A member header of an open archive. */
  datatype Entry = Entry(archive: Reader, index: nat)

  predicate IsHeader(e: Entry) {
    e.index < |e.archive.members|
  }

  /** The entry is the archive's current member, so its data may be read. */
  ghost predicate IsCurrent(e: Entry)
    reads e.archive
  {
    e.archive.Valid() && e.archive.next == e.index + 1
  }

  /** `Entry::path`. */
  function Path(e: Entry): string
    requires IsHeader(e)
  {
    e.archive.members[e.index].path
  }

  /** `Entry::is_file`: the member is a regular file, decided on its raw code. */
  function IsFile(e: Entry): (b: bool)
    requires IsHeader(e) && KnownCode(e.archive.members[e.index].filetype)
    ensures b <==> e.archive.members[e.index].filetype == AE_IFREG
  {
    FileTypeOf(e.archive.members[e.index].filetype) == RegularFile
  }

  /** `Read::read` for an entry: the library's count is returned as a `usize`
      without checking it for an error code, so the model requires a read whose
      count is not an error: the data is clean, or bytes remain before its fault. */
  method Read(e: Entry, len: nat) returns (n: nat, bytes: seq<Byte>)
    requires IsCurrent(e)
    requires e.archive.members[e.index].fault.None? || e.archive.pos < |e.archive.members[e.index].data|
    modifies e.archive
    ensures IsCurrent(e) && e.archive.fatal == old(e.archive.fatal)
    ensures |bytes| == n <= len
    ensures e.archive.pos == old(e.archive.pos) + n
    ensures bytes == e.archive.members[e.index].data[old(e.archive.pos)..e.archive.pos]
    ensures n == 0 <==> len == 0 || old(e.archive.pos) == |e.archive.members[e.index].data|
  {
    var r;
    r, bytes := e.archive.ReadData(len);
    n := r;
    if r == 0 {
      bytes := [];
    }
  }

  /** What `Blocks::next` yields for a status of archive_read_data_block. */
  function BlockItem(status: int, block: seq<Byte>, message: string): Option<Result<seq<Byte>, string>> {
    if status == ARCHIVE_EOF then None
    else if status == ARCHIVE_OK then Some(Ok(block))
    else Some(Err(message))
  }

  /** `Blocks::next`: the next non-empty block of the member's data in order, None
      at the end of clean data, and the library's message at the end of damaged
      data. */
  method BlocksNext(e: Entry) returns (item: Option<Result<seq<Byte>, string>>)
    requires IsCurrent(e)
    modifies e.archive
    ensures IsCurrent(e)
    ensures e.archive.fatal == (old(e.archive.fatal) || (item.Some? && item.value.Err?))
    ensures item.None? <==>
      old(e.archive.pos) == |e.archive.members[e.index].data| && e.archive.members[e.index].fault.None?
    ensures item.None? ==> e.archive.pos == old(e.archive.pos)
    ensures item.Some? && item.value.Ok? ==>
      && old(e.archive.pos) < e.archive.pos
      && item.value.value == e.archive.members[e.index].data[old(e.archive.pos)..e.archive.pos]
    ensures item.Some? && item.value.Err? ==>
      && old(e.archive.pos) == e.archive.pos == |e.archive.members[e.index].data|
      && e.archive.members[e.index].fault == Some(item.value.error)
  {
    var r, block := e.archive.ReadDataBlock();
    item := BlockItem(r, block, e.archive.ErrorString());
  }
}
