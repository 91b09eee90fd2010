/** The read loops that stream bytes into a digest accumulator. Each one feeds
    exactly the bytes of its input, in order, whatever sizes the reads return. */
module Feed {
  import opened Bytes
  import opened Wrappers
  import opened Native
  import opened Digest
  import LibEntry

  /** The Rust loop over an archive member read through `Read`
      (`let nbytes = entry.read(&mut buf)?; if nbytes > 0 { update } else { break }`):
      feeds the member's remaining data; a read error ends the loop with the
      library's message after the bytes before it were fed. */
  method FeedRead(a: Reader, h: Hasher, bufLen: Pos) returns (fault: Option<string>)
    requires a.Valid() && a.next > 0
    modifies a, h
    ensures a.Valid() && a.next == old(a.next) && a.pos == |a.Current().data|
    ensures fault == a.Current().fault && a.fatal == (old(a.fatal) || fault.Some?)
    ensures h.fed == old(h.fed) + a.Current().data[old(a.pos)..]
  {
    ghost var data := a.Current().data;
    while true
      invariant a.Valid() && a.next == old(a.next) && a.fatal == old(a.fatal)
      invariant old(a.pos) <= a.pos
      invariant h.fed == old(h.fed) + data[old(a.pos)..a.pos]
      decreases |data| - a.pos
    {
      var nbytes, bytes := a.ReadData(bufLen);
      if nbytes < 0 {
        return Some(a.ErrorString());
      }
      if nbytes > 0 {
        h.Update(bytes);
      } else {
        break;
      }
    }
    fault := None;
  }

  /** The Rust loop over an entry's blocks (`for block in entry.blocks() {
      hasher.update(block?)? }`): feeds every block in order; a block error ends
      the loop with its message. */
  method FeedBlocks(e: LibEntry.Entry, h: Hasher) returns (fault: Option<string>)
    requires LibEntry.IsCurrent(e)
    modifies e.archive, h
    ensures LibEntry.IsCurrent(e) && e.archive.pos == |e.archive.members[e.index].data|
    ensures fault == e.archive.members[e.index].fault
    ensures e.archive.fatal == (old(e.archive.fatal) || fault.Some?)
    ensures h.fed == old(h.fed) + e.archive.members[e.index].data[old(e.archive.pos)..]
  {
    ghost var data := e.archive.members[e.index].data;
    while true
      invariant LibEntry.IsCurrent(e) && e.archive.fatal == old(e.archive.fatal)
      invariant old(e.archive.pos) <= e.archive.pos
      invariant h.fed == old(h.fed) + data[old(e.archive.pos)..e.archive.pos]
      decreases |data| - e.archive.pos
    {
      var item := LibEntry.BlocksNext(e);
      match item
      case None =>
        return None;
      case Some(Err(message)) =>
        return Some(message);
      case Some(Ok(block)) =>
        h.Update(block);
    }
  }

  /** The C loop `while ((size = archive_read_data(a, buf, bsize)) > 0) update`:
      feeds the member's remaining data; an error result ends the loop exactly as
      the end of data does, except that it leaves the handle in the fatal state. */
  method FeedArchiveData(a: Reader, h: Hasher, bsize: Pos)
    requires a.Valid() && a.next > 0
    modifies a, h
    ensures a.Valid() && a.next == old(a.next) && a.pos == |a.Current().data|
    ensures a.fatal == (old(a.fatal) || a.Current().fault.Some?)
    ensures h.fed == old(h.fed) + a.Current().data[old(a.pos)..]
  {
    ghost var data := a.Current().data;
    while true
      invariant a.Valid() && a.next == old(a.next) && a.fatal == old(a.fatal)
      invariant old(a.pos) <= a.pos
      invariant h.fed == old(h.fed) + data[old(a.pos)..a.pos]
      decreases |data| - a.pos
    {
      ghost var before := a.pos;
      var size, bytes := a.ReadData(bsize);
      if size > 0 {
        assert data[old(a.pos)..a.pos] == data[old(a.pos)..before] + bytes;
        h.Update(bytes);
      } else {
        break;
      }
    }
  }

  /** A read of `len` bytes into a buffer of `capacity` bytes stays inside it. */
  predicate FitsBuffer(len: nat, capacity: nat) {
    len <= capacity
  }

  /** The counts a read of at most `len` bytes at offset `pos` of a file may
      return while bytes remain: at least one, at most `len`, never past the end. */
  predicate ReadMayReturn(content: seq<Byte>, pos: nat, len: nat, k: int) {
    1 <= k <= len && pos + k <= |content|
  }

  /** Reading a file on disk in `bufLen`-sized reads into a buffer of
      `capacity` bytes (`File::read` in Rust, `read(2)` in C) and feeding each
      non-empty read: feeds the whole content. */
  method FeedFile(h: Hasher, content: seq<Byte>, bufLen: Pos, capacity: nat)
    requires FitsBuffer(bufLen, capacity)
    modifies h
    ensures h.fed == old(h.fed) + content
  {
    var pos := 0;
    while true
      invariant pos <= |content|
      invariant h.fed == old(h.fed) + content[..pos]
      decreases |content| - pos
    {
      var nbytes := 0;
      if pos < |content| {
        assert ReadMayReturn(content, pos, bufLen, 1);
        nbytes :| ReadMayReturn(content, pos, bufLen, nbytes);
        assert ReadMayReturn(content, pos, bufLen, nbytes);
      }
      if nbytes > 0 {
        h.Update(content[pos..pos + nbytes]);
        pos := pos + nbytes;
      } else {
        break;
      }
    }
    assert content[..pos] == content;
  }

  /** Hashing a file on disk with a fresh accumulator (`Digest::new()`,
      `Hasher::new(digest)`), read in `bufLen`-sized buffers and finalized: the
      digest of the file's whole content. */
  method HashFile(digest: Algorithm, content: seq<Byte>, bufLen: Pos) returns (d: seq<Byte>)
    ensures d == digest(content)
  {
    var hasher := new Hasher(digest);
    FeedFile(hasher, content, bufLen, bufLen);
    assert hasher.fed == content;
    d := hasher.Finalize();
  }

  /** Hashing the current member with a fresh accumulator by copying it through
      `Read` (`std::io::copy(&mut entry, &mut hasher)?`, then `finalize()`): the
      digest of the member's data, or the read error that cut it short. */
  method HashRead(a: Reader, digest: Algorithm, bufLen: Pos) returns (r: Result<seq<Byte>, string>)
    requires a.Valid() && a.next > 0 && a.pos == 0
    modifies a
    ensures a.Valid() && a.next == old(a.next) && a.pos == |a.Current().data|
    ensures a.fatal == (old(a.fatal) || r.Err?)
    ensures r == if a.Current().fault.Some? then Err(a.Current().fault.value) else Ok(digest(a.Current().data))
  {
    var hasher := new Hasher(digest);
    var fault := FeedRead(a, hasher, bufLen);
    if fault.Some? {
      return Err(fault.value);
    }
    assert hasher.fed == a.Current().data;
    var d := hasher.Finalize();
    r := Ok(d);
  }

  /** Hashing an entry with a fresh accumulator fed block by block
      (`for block in entry.blocks() { hasher.update(block?)?; }`, then `finish()`):
      the digest of the member's data, or the block error that cut it short. */
  method HashBlocks(e: LibEntry.Entry, digest: Algorithm) returns (r: Result<seq<Byte>, string>)
    requires LibEntry.IsCurrent(e) && e.archive.pos == 0
    modifies e.archive
    ensures LibEntry.IsCurrent(e) && e.archive.pos == |e.archive.members[e.index].data|
    ensures e.archive.fatal == (old(e.archive.fatal) || r.Err?)
    ensures r == if e.archive.members[e.index].fault.Some? then Err(e.archive.members[e.index].fault.value)
                 else Ok(digest(e.archive.members[e.index].data))
  {
    var hasher := new Hasher(digest);
    var fault := FeedBlocks(e, hasher);
    if fault.Some? {
      return Err(fault.value);
    }
    assert hasher.fed == e.archive.members[e.index].data;
    var d := hasher.Finalize();
    r := Ok(d);
  }

  /** Hashing the current member with the caller's accumulator, read in
      `bufLen`-sized buffers and finalized and reset (lib/): the digest of what was
      pending in the accumulator followed by the member's data, or the read error
      that cut it short. */
  method HashReadShared(a: Reader, hasher: Hasher, bufLen: Pos) returns (r: Result<seq<Byte>, string>)
    requires a.Valid() && a.next > 0 && a.pos == 0
    modifies a, hasher
    ensures a.Valid() && a.next == old(a.next) && a.pos == |a.Current().data|
    ensures a.fatal == (old(a.fatal) || r.Err?)
    ensures a.Current().fault.Some? ==> r == Err(a.Current().fault.value)
    ensures a.Current().fault.None? ==>
      r == Ok(hasher.algorithm(old(hasher.fed) + a.Current().data)) && hasher.fed == []
  {
    var fault := FeedRead(a, hasher, bufLen);
    if fault.Some? {
      return Err(fault.value);
    }
    assert a.Current().data[0..] == a.Current().data;
    var d := hasher.FinalizeReset();
    r := Ok(d);
  }
}
