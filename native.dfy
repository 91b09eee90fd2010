/** The archive-reading library as the tools see it: libarchive (or, for the
    Rust versions built on the `tar` crate, that crate's reader), reduced to its
    observable behaviour. An opened archive is a sequence of member headers, each
    followed by that member's data; a cursor reads one header at a time and then,
    optionally, the data of the current member in blocks whose size the library
    chooses. */
module Native {
  import opened Bytes
  import opened Wrappers

  // Status codes of the library (ARCHIVE_OK and ARCHIVE_EOF as re-declared by the
  // bindings; ARCHIVE_FATAL is libarchive's code for an unrecoverable error).
  const ARCHIVE_OK: int := 0
  const ARCHIVE_EOF: int := 1
  const ARCHIVE_FATAL: int := -30

  // File-type codes, the octal values 0o170000, 0o100000, 0o120000, 0o140000,
  // 0o020000, 0o060000, 0o040000 and 0o010000.
  const AE_IFMT: int := 61440
  const AE_IFREG: int := 32768
  const AE_IFLNK: int := 40960
  const AE_IFSOCK: int := 49152
  const AE_IFCHR: int := 8192
  const AE_IFBLK: int := 24576
  const AE_IFDIR: int := 16384
  const AE_IFIFO: int := 4096

  /** One member as the library delivers it: its path, its raw file-type code, the
      bytes its data reads produce, and, when the data is damaged, the message the
      library reports instead of end-of-data once those bytes are consumed. */
  datatype Member = Member(path: string, filetype: int, data: seq<Byte>, fault: Option<string>)

  /** An archive's content: its members in order, and the message of the header
      error that follows the last member, if the archive ends in one instead of a
      clean end-of-archive. */
  datatype Container = Container(members: seq<Member>, trailer: Option<string>)

  /** An archive file on disk as the tools see it: its `st_blksize`, the message
      the library gives when opening it fails, its content, and the message when
      releasing the handle fails. */
  datatype ArchiveFile = ArchiveFile(
    blksize: Pos,
    openError: Option<string>,
    container: Container,
    freeError: Option<string>)

  /** The library's read handle: header cursor `next` (number of headers read so
      far, the current member being `members[next - 1]`), data offset `pos` within
      the current member, the last error message, and whether the handle is in
      libarchive's fatal state, which a data read returning ARCHIVE_FATAL enters
      and after which no further header can be read. */
  class Reader {
    const members: seq<Member>
    const trailer: Option<string>
    var next: nat
    var pos: nat
    var error: string
    var fatal: bool

    ghost predicate Valid()
      reads this
    {
      && next <= |members|
      && (next == 0 ==> pos == 0)
      && (next > 0 ==> pos <= |members[next - 1].data|)
      && (fatal ==> next > 0 && pos == |members[next - 1].data| && members[next - 1].fault == Some(error))
    }

    /** Opening: positioned before the first header. */
    constructor (c: Container)
      ensures Valid() && members == c.members && trailer == c.trailer
      ensures next == 0 && pos == 0 && !fatal
    {
      members := c.members;
      trailer := c.trailer;
      next, pos := 0, 0;
      error := "";
      fatal := false;
    }

    /** The member whose header was read last. */
    function Current(): Member
      reads this
      requires Valid() && next > 0
    {
      members[next - 1]
    }

    /** `archive_error_string`. */
    function ErrorString(): string
      reads this
    {
      error
    }

    /** `archive_read_next_header`: in the fatal state, fails again with
        ARCHIVE_FATAL and changes nothing; otherwise moves to the next header,
        skipping any data of the current member that was not read, and after the
        last member reports a clean end or the archive's trailing header error, and
        stays there. */
    method NextHeader() returns (r: int)
      requires Valid()
      modifies this
      ensures Valid() && fatal == old(fatal)
      ensures old(fatal) ==> r == ARCHIVE_FATAL && next == old(next) && pos == old(pos) && error == old(error)
      ensures !old(fatal) && old(next) < |members| ==> r == ARCHIVE_OK && next == old(next) + 1 && pos == 0
      ensures !old(fatal) && old(next) == |members| ==> next == old(next) && pos == old(pos)
      ensures !old(fatal) && old(next) == |members| && trailer.None? ==> r == ARCHIVE_EOF
      ensures !old(fatal) && old(next) == |members| && trailer.Some? ==> r == ARCHIVE_FATAL && error == trailer.value
    {
      if fatal {
        r := ARCHIVE_FATAL;
      } else if next < |members| {
        next, pos := next + 1, 0;
        r := ARCHIVE_OK;
      } else if trailer.None? {
        r := ARCHIVE_EOF;
      } else {
        error := trailer.value;
        r := ARCHIVE_FATAL;
      }
    }

    /** `archive_read_data(a, buf, len)`: copies between 1 and `len` of the next
        bytes of the current member (the library decides how many) and returns
        their count; returns 0 at the end of clean data (or when `len` is 0), and
        ARCHIVE_FATAL at the end of damaged data. */
    method ReadData(len: nat) returns (r: int, bytes: seq<Byte>)
      requires Valid() && next > 0
      modifies this
      ensures Valid() && next == old(next)
      ensures r > 0 ==> old(pos) < |Current().data| && r <= len && pos == old(pos) + r
      ensures r > 0 ==> bytes == Current().data[old(pos)..pos]
      ensures len > 0 && old(pos) < |Current().data| ==> r > 0
      ensures r == 0 ==> pos == old(pos) && (len == 0 || (pos == |Current().data| && Current().fault.None?))
      ensures r < 0 ==> r == ARCHIVE_FATAL && pos == old(pos) == |Current().data|
      ensures r < 0 ==> Current().fault == Some(error)
      ensures fatal == (old(fatal) || r < 0)
    {
      var data := members[next - 1].data;
      if pos < |data| && len > 0 {
        var k :| 1 <= k <= len && pos + k <= |data|;
        bytes := data[pos..pos + k];
        pos := pos + k;
        r := k;
      } else if pos < |data| || members[next - 1].fault.None? {
        r, bytes := 0, [];
      } else {
        error := members[next - 1].fault.value;
        r, bytes := ARCHIVE_FATAL, [];
        fatal := true;
      }
    }

    /** `archive_read_data_block`: the next block of the current member (of a size
        the library decides), ARCHIVE_EOF at the end of clean data, ARCHIVE_FATAL at
        the end of damaged data. */
    method ReadDataBlock() returns (r: int, block: seq<Byte>)
      requires Valid() && next > 0
      modifies this
      ensures Valid() && next == old(next)
      ensures old(pos) < |Current().data| <==> r == ARCHIVE_OK
      ensures r == ARCHIVE_OK ==> old(pos) < pos && block == Current().data[old(pos)..pos]
      ensures r != ARCHIVE_OK ==> pos == old(pos) == |Current().data|
      ensures r == ARCHIVE_EOF <==> (old(pos) == |Current().data| && Current().fault.None?)
      ensures r != ARCHIVE_OK && r != ARCHIVE_EOF ==> r == ARCHIVE_FATAL && Current().fault == Some(error)
      ensures fatal == (old(fatal) || r == ARCHIVE_FATAL)
    {
      var data := members[next - 1].data;
      if pos < |data| {
        var k :| 1 <= k && pos + k <= |data|;
        block := data[pos..pos + k];
        pos := pos + k;
        r := ARCHIVE_OK;
      } else if members[next - 1].fault.None? {
        r, block := ARCHIVE_EOF, [];
      } else {
        error := members[next - 1].fault.value;
        r, block := ARCHIVE_FATAL, [];
        fatal := true;
      }
    }
  }
}
