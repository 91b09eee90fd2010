/** Data blocks with offsets, as `archive_read_data_block` reports them, against
    the member's content as `archive_read_data` delivers it. A sparse member
    comes as blocks with holes between them; libarchive's contiguous reader
    fills the holes with zero bytes, while the `Blocks` iterator of
    libarchive/src/entry.rs drops each block's offset and yields the blocks'
    bytes back to back. */
module Sparse {
  import opened Bytes

  /** One block: the bytes, and the offset within the member where they belong. */
  datatype Block = Block(offset: nat, bytes: seq<Byte>)

  /** The offset just past a block. */
  function End(b: Block): nat {
    b.offset + |b.bytes|
  }

  /** The order libarchive delivers blocks in: increasing offsets, no overlap. */
  predicate Ordered(bs: seq<Block>) {
    forall i, j :: 0 <= i < j < |bs| ==> End(bs[i]) <= bs[j].offset
  }

  /** `n` zero bytes, the content of a hole. */
  function Zeros(n: nat): (z: seq<Byte>)
    ensures |z| == n
    ensures forall k :: 0 <= k < n ==> z[k] == 0
  {
    seq(n, _ => 0)
  }

  /** What a caller of the `Blocks` iterator sees, joined up: each block's bytes
      in order, the offsets dropped (libarchive/src/entry.rs:80-91). */
  function Concatenated(bs: seq<Block>): seq<Byte> {
    if bs == [] then [] else Concatenated(bs[..|bs| - 1]) + bs[|bs| - 1].bytes
  }

  /** The blocks laid out at their offsets with zeros in between, up to the end
      of the last block. */
  function Filled(bs: seq<Block>): (r: seq<Byte>)
    requires Ordered(bs)
    ensures bs == [] ==> r == []
    ensures bs != [] ==> |r| == End(bs[|bs| - 1])
  {
    if bs == [] then []
    else
      var init := bs[..|bs| - 1];
      assert Ordered(init);
      Filled(init) + Zeros(bs[|bs| - 1].offset - |Filled(init)|) + bs[|bs| - 1].bytes
  }

  /** The member's content as `archive_read_data` delivers it: the filled blocks,
      then zeros up to the member's size. */
  function Content(bs: seq<Block>, size: nat): (r: seq<Byte>)
    requires Ordered(bs) && |Filled(bs)| <= size
    ensures |r| == size
    ensures r[..|Filled(bs)|] == Filled(bs)
  {
    Filled(bs) + Zeros(size - |Filled(bs)|)
  }

  /** The zero bytes between blocks (and before the first). */
  function HoleBytes(bs: seq<Block>): nat
    requires Ordered(bs)
  {
    if bs == [] then 0
    else
      var init := bs[..|bs| - 1];
      assert Ordered(init);
      HoleBytes(init) + (bs[|bs| - 1].offset - |Filled(init)|)
  }

  /** The iterator as written loses every hole: the bytes it yields are shorter
      than the member's content by the holes' total, and they are the content
      exactly when the member has no hole at all. */
  lemma BlocksDropHoles(bs: seq<Block>, size: nat)
    requires Ordered(bs) && |Filled(bs)| <= size
    ensures |Content(bs, size)| == |Concatenated(bs)| + HoleBytes(bs) + (size - |Filled(bs)|)
    ensures Concatenated(bs) == Content(bs, size) <==> HoleBytes(bs) == 0 && |Filled(bs)| == size
  {
    FilledIsConcatenatedPlusHoles(bs);
    if HoleBytes(bs) == 0 && |Filled(bs)| == size {
      assert Content(bs, size) == Filled(bs);
    }
  }

  lemma {:induction false} FilledIsConcatenatedPlusHoles(bs: seq<Block>)
    requires Ordered(bs)
    ensures |Filled(bs)| == |Concatenated(bs)| + HoleBytes(bs)
    ensures HoleBytes(bs) == 0 ==> Filled(bs) == Concatenated(bs)
  {
    if bs != [] {
      var init := bs[..|bs| - 1];
      assert Ordered(init);
      FilledIsConcatenatedPlusHoles(init);
      var b, gap := bs[|bs| - 1], bs[|bs| - 1].offset - |Filled(init)|;
      assert Filled(bs) == Filled(init) + Zeros(gap) + b.bytes;
      assert Concatenated(bs) == Concatenated(init) + b.bytes;
      assert HoleBytes(bs) == HoleBytes(init) + gap;
      if HoleBytes(bs) == 0 {
        assert Zeros(gap) == [];
      }
    }
  }

  /** A sparse member of three bytes, `1`, a hole, `2`: the iterator yields
      `[1, 2]`, the member's content is `[1, 0, 2]`. */
  lemma SparseMemberHashedShort()
    ensures var bs := [Block(0, [1]), Block(2, [2])];
      Ordered(bs) && Concatenated(bs) == [1, 2] && Content(bs, 3) == [1, 0, 2]
  {
    var bs := [Block(0, [1]), Block(2, [2])];
    assert bs[..1] == [Block(0, [1])];
    assert bs[..1][..0] == [];
    assert Filled(bs[..1]) == [1];
  }

  /** The content places every block's bytes at that block's offset, so reading
      with the offsets honoured (as `archive_read_data` does) gives the member's
      bytes where they belong. */
  lemma {:induction false} FilledPlacesBlocks(bs: seq<Block>, i: nat)
    requires Ordered(bs) && i < |bs|
    ensures End(bs[i]) <= |Filled(bs)|
    ensures Filled(bs)[bs[i].offset..End(bs[i])] == bs[i].bytes
  {
    var init, b := bs[..|bs| - 1], bs[|bs| - 1];
    assert Ordered(init);
    var gap := Zeros(b.offset - |Filled(init)|);
    assert Filled(bs) == Filled(init) + gap + b.bytes;
    var front := Filled(init) + gap;
    if i < |bs| - 1 {
      FilledPlacesBlocks(init, i);
      assert init[i] == bs[i];
      assert Filled(bs) == Filled(init) + (gap + b.bytes);
      SliceOfFront(Filled(init), gap + b.bytes, bs[i].offset, End(bs[i]));
    } else {
      assert |front| == b.offset;
      assert Filled(bs) == front + b.bytes;
      assert (front + b.bytes)[|front|..] == b.bytes;
    }
  }

  lemma SliceOfFront(front: seq<Byte>, back: seq<Byte>, lo: nat, hi: nat)
    requires lo <= hi <= |front|
    ensures (front + back)[lo..hi] == front[lo..hi]
  {
  }

  /** Outside every block the content is zero: holes read as zero bytes. */
  lemma {:induction false} FilledHolesAreZero(bs: seq<Block>, k: nat)
    requires Ordered(bs) && k < |Filled(bs)|
    requires forall i :: 0 <= i < |bs| ==> !(bs[i].offset <= k < End(bs[i]))
    ensures Filled(bs)[k] == 0
  {
    var init, b := bs[..|bs| - 1], bs[|bs| - 1];
    assert Ordered(init);
    var gap := Zeros(b.offset - |Filled(init)|);
    assert Filled(bs) == Filled(init) + gap + b.bytes;
    if k < |Filled(init)| {
      forall i | 0 <= i < |init|
        ensures !(init[i].offset <= k < End(init[i]))
      {
        assert init[i] == bs[i];
      }
      FilledHolesAreZero(init, k);
    } else {
      assert !(b.offset <= k < End(b));
    }
  }
}
