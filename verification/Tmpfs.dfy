/** File contents in src/fs/tmpfs.c: a list of 4096-byte blocks that must read and write like
    one flat byte sequence.  Offsets up to the file size are covered; a write past it would
    leave a gap in the block list. */
module Tmpfs {
  const BLOCK := 4096

  type Byte = b: int | 0 <= b < 256

  datatype BlockInfo = BlockInfo(id: nat, data: seq<Byte>)

  // ---------------------------------------------------------------------------
  // The flat file

  /** `f` with `p` written over it at `off`, longer if `p` reaches past its end. */
  function Splice(f: seq<Byte>, off: nat, p: seq<Byte>): (r: seq<Byte>)
    requires off <= |f|
  {
    f[..off] + p + (if off + |p| < |f| then f[off + |p|..] else [])
  }

  /** What was written reads back, everything else is as before, and writing the old bytes back
      in place restores the file. */
  lemma SpliceLaws(f: seq<Byte>, off: nat, p: seq<Byte>)
    requires off <= |f|
    ensures var r := Splice(f, off, p);
      && |r| == (if off + |p| > |f| then off + |p| else |f|)
      && r[off..off + |p|] == p && r[..off] == f[..off]
      && (forall x :: off + |p| <= x < |f| ==> r[x] == f[x])
      && (off + |p| <= |f| ==> Splice(r, off, f[off..off + |p|]) == f)
  {
    var r := Splice(f, off, p);
    if off + |p| <= |f| {
      var back := Splice(r, off, f[off..off + |p|]);
      assert |back| == |f|;
      forall x | 0 <= x < |f| ensures back[x] == f[x] {
        if x >= off + |p| {
          assert r[x] == f[x];
        }
      }
    }
  }

  datatype WriteOp = WriteOp(off: nat, bytes: seq<Byte>)

  predicate Covers(w: WriteOp, x: nat) { w.off <= x < w.off + |w.bytes| }

  /** A history of writes, each at an offset the file has reached by then. */
  ghost predicate Replayable(f: seq<Byte>, ws: seq<WriteOp>)
    decreases |ws|, 0
  {
    ws == [] || (var n := |ws| - 1; Replayable(f, ws[..n]) && ws[n].off <= |Replay(f, ws[..n])|)
  }

  ghost function Replay(f: seq<Byte>, ws: seq<WriteOp>): seq<Byte>
    requires Replayable(f, ws)
    decreases |ws|, 1
  {
    if ws == [] then f else var n := |ws| - 1; Splice(Replay(f, ws[..n]), ws[n].off, ws[n].bytes)
  }

  /** After any history of writes, a byte is the one the last write covering it put there. */
  lemma {:induction false} LastWriteWins(f: seq<Byte>, ws: seq<WriteOp>, k: nat, x: nat)
    requires Replayable(f, ws) && k < |ws| && Covers(ws[k], x)
    requires forall j :: k < j < |ws| ==> !Covers(ws[j], x)
    ensures x < |Replay(f, ws)| && Replay(f, ws)[x] == ws[k].bytes[x - ws[k].off]
    decreases |ws|
  {
    hide Splice;
    var n := |ws| - 1;
    SpliceAt(Replay(f, ws[..n]), ws[n].off, ws[n].bytes, x);
    if k < n {
      LastWriteWins(f, ws[..n], k, x);
    }
  }

  lemma SpliceAt(f: seq<Byte>, off: nat, p: seq<Byte>, x: nat)
    requires off <= |f|
    ensures x < |f| || x < off + |p| ==>
      x < |Splice(f, off, p)| && Splice(f, off, p)[x] == if off <= x < off + |p| then p[x - off] else f[x]
  {
  }

  /** The bytes there are to read from `off` on. */
  function Available(size: nat, off: nat, n: nat): (a: nat)
    ensures off >= size ==> a == 0
    ensures off < size ==> a <= n && off + a <= size && (a == n || off + a == size)
  {
    if off >= size then 0 else if off + n > size then size - off else n
  }

  // ---------------------------------------------------------------------------
  // Blocks

  /** Block ids are distinct and gap-free from 0, each block is 4096 bytes. */
  ghost predicate Dense(bs: seq<BlockInfo>)
  {
    forall i :: 0 <= i < |bs| ==> bs[i].id == i && |bs[i].data| == BLOCK
  }

  ghost function ByteAt(bs: seq<BlockInfo>, x: nat): Byte
    requires Dense(bs) && x < BLOCK * |bs|
  {
    bs[x / BLOCK].data[x % BLOCK]
  }

  /** Byte `x` after a piece has been written at `lo`; blocks that did not exist were zeroed. */
  ghost function Patched(bs: seq<BlockInfo>, lo: nat, piece: seq<Byte>, x: nat): Byte
    requires Dense(bs)
  {
    if lo <= x < lo + |piece| then piece[x - lo] else if x < BLOCK * |bs| then ByteAt(bs, x) else 0
  }

  ghost function Flat(bs: seq<BlockInfo>, size: nat): (f: seq<Byte>)
    requires Dense(bs) && size <= BLOCK * |bs|
    ensures |f| == size
  {
    seq(size, x requires 0 <= x < size => ByteAt(bs, x))
  }

  /** The bytes of `ptr` up to file position `to` are in place at `off`, the rest is as before. */
  ghost predicate Overlaid(bs: seq<BlockInfo>, bs': seq<BlockInfo>, off: nat, ptr: seq<Byte>, to: nat)
  {
    && Dense(bs) && Dense(bs') && |bs| <= |bs'| && off <= to <= off + |ptr| && to <= BLOCK * |bs'|
    && forall x :: 0 <= x < BLOCK * |bs'| ==> ByteAt(bs', x) == Patched(bs, off, ptr[..to - off], x)
  }

  lemma OverlayStarts(bs: seq<BlockInfo>, off: nat, ptr: seq<Byte>)
    requires Dense(bs) && off <= BLOCK * |bs|
    ensures Overlaid(bs, bs, off, ptr, off)
  {
  }

  /** Adding the next piece extends the overlay. */
  lemma OverlayNext(bs: seq<BlockInfo>, b1: seq<BlockInfo>, b2: seq<BlockInfo>, off: nat, ptr: seq<Byte>, to: nat, to': nat)
    requires Overlaid(bs, b1, off, ptr, to) && Dense(b2) && |b1| <= |b2| && to <= to' <= off + |ptr| && to' <= BLOCK * |b2|
    requires forall x :: 0 <= x < BLOCK * |b2| ==> ByteAt(b2, x) == Patched(b1, to, ptr[to - off..to' - off], x)
    ensures Overlaid(bs, b2, off, ptr, to')
  {
    forall x | 0 <= x < BLOCK * |b2| ensures ByteAt(b2, x) == Patched(bs, off, ptr[..to' - off], x) {
      assert ByteAt(b2, x) == Patched(b1, to, ptr[to - off..to' - off], x);
      assert x < BLOCK * |b1| ==> ByteAt(b1, x) == Patched(bs, off, ptr[..to - off], x);
    }
  }

  /** A complete overlay is the splice of the flat file. */
  lemma OverlaySplices(bs: seq<BlockInfo>, bs': seq<BlockInfo>, size: nat, off: nat, ptr: seq<Byte>)
    requires Overlaid(bs, bs', off, ptr, off + |ptr|) && off <= size <= BLOCK * |bs|
    requires var n := off + |ptr|; (if n > size then n else size) <= BLOCK * |bs'|
    ensures var n := off + |ptr|; Flat(bs', if n > size then n else size) == Splice(Flat(bs, size), off, ptr)
  {
    var n := off + |ptr|;
    var a, b := Flat(bs', if n > size then n else size), Splice(Flat(bs, size), off, ptr);
    assert |a| == |b|;
    forall x | 0 <= x < |a| ensures a[x] == b[x] {
      assert a[x] == Patched(bs, off, ptr[..|ptr|], x);
    }
  }

  lemma FlatAt(bs: seq<BlockInfo>, size: nat, id: nat, pos: nat)
    requires Dense(bs) && BLOCK * id + pos < size <= BLOCK * |bs| && pos < BLOCK
    ensures id < |bs| && Flat(bs, size)[BLOCK * id + pos] == bs[id].data[pos]
  {
    assert (BLOCK * id + pos) / BLOCK == id && (BLOCK * id + pos) % BLOCK == pos;
  }

  /** The first `n` bytes of the buffer hold the file from `off` on, the others are as before. */
  ghost predicate Copied(b: seq<Byte>, before: seq<Byte>, f: seq<Byte>, off: nat, n: nat)
  {
    && |b| == |before| && n <= |b| && off + n <= |f|
    && forall x :: 0 <= x < |b| ==> b[x] == if x < n then f[off + x] else before[x]
  }

  lemma CopiedMeans(b: seq<Byte>, before: seq<Byte>, f: seq<Byte>, off: nat, n: nat)
    requires Copied(b, before, f, off, n)
    ensures b[..n] == f[off..off + n] && b[n..] == before[n..]
  {
  }

  /** Where the bytes for file position BLOCK * blk start in the caller's buffer. */
  lemma PieceStart(off: nat, blk: nat)
    requires off / BLOCK < blk
    ensures BLOCK * (blk - off / BLOCK) - off % BLOCK == BLOCK * blk - off > 0
  {
    assert off == BLOCK * (off / BLOCK) + off % BLOCK;
  }

  lemma DropTake(p: seq<Byte>, a: nat, n: nat)
    requires a + n <= |p|
    ensures p[a..][..n] == p[a..a + n]
  {
  }

  class File {
    var blocks: seq<BlockInfo>
    var size: nat

    ghost predicate Valid()
      reads this
    {
      Dense(blocks) && size <= BLOCK * |blocks| && |blocks| <= size / BLOCK + 1
    }

    ghost function Contents(): (f: seq<Byte>)
      requires Valid()
      reads this
    {
      Flat(blocks, size)
    }

    constructor ()
      ensures Valid() && Contents() == []
    {
      blocks, size := [], 0;
    }

    /** tmpfs_getBlockPtr: the place of block `id` in the list, or -1. */
    method GetBlockPtr(id: nat) returns (k: int)
      ensures k == -1 ==> forall i :: 0 <= i < |blocks| ==> blocks[i].id != id
      ensures k != -1 ==> 0 <= k < |blocks| && blocks[k].id == id
      ensures Dense(blocks) ==> k == if id < |blocks| then id else -1
    {
      k := 0;
      while k < |blocks|
        invariant 0 <= k <= |blocks| && forall i :: 0 <= i < k ==> blocks[i].id != id
      {
        if blocks[k].id == id {
          return;
        }
        k := k + 1;
      }
      ghost var i: int := id;
      assert 0 <= i < |blocks| ==> blocks[i].id != id;
      k := -1;
    }

    /** tmpfs_getOrCreateBlock: an existing block, or a zeroed one put at the end of the list
        (block 0 becomes the list). */
    method GetOrCreateBlock(id: nat) returns (k: nat)
      requires Dense(blocks) && id <= |blocks|
      modifies this`blocks
      ensures k == id && Dense(blocks)
      ensures blocks == if id < |old(blocks)| then old(blocks) else old(blocks) + [BlockInfo(id, seq(4096, _ => 0))]
    {
      var found := GetBlockPtr(id);
      if found != -1 {
        return found;
      }
      var inf := BlockInfo(id, seq(BLOCK, _ => 0));
      if id == 0 {
        blocks := [inf];
      } else {
        blocks := blocks + [inf];
      }
      k := id;
    }

    /** One memcpy into block `id` at `pos`. */
    method WritePiece(id: nat, pos: nat, piece: seq<Byte>)
      requires Dense(blocks) && id <= |blocks| && pos + |piece| <= BLOCK
      modifies this`blocks
      ensures Dense(blocks) && |blocks| == if id < |old(blocks)| then |old(blocks)| else id + 1
      ensures forall x :: 0 <= x < BLOCK * |blocks| ==> ByteAt(blocks, x) == Patched(old(blocks), BLOCK * id + pos, piece, x)
    {
      var k := GetOrCreateBlock(id);
      ghost var bs := blocks;
      var d := blocks[k].data;
      blocks := blocks[k := BlockInfo(id, d[..pos] + piece + d[pos + |piece|..])];
      forall x | 0 <= x < BLOCK * |blocks|
        ensures ByteAt(blocks, x) == Patched(old(blocks), BLOCK * id + pos, piece, x)
      {
        if x / BLOCK == id {
          assert x == BLOCK * id + x % BLOCK;
        } else {
          assert blocks[x / BLOCK] == bs[x / BLOCK];
          assert x < BLOCK * id || x >= BLOCK * id + BLOCK;
        }
      }
    }

    /** tmpfs_write at an offset inside the file or at its end. */
    method Write(off: nat, ptr: seq<Byte>) returns (n: nat)
      requires Valid() && off <= size
      modifies this
      ensures Valid() && n == |ptr| && Contents() == Splice(old(Contents()), off, ptr)
    {
      hide ByteAt, Patched, Splice, Overlaid;
      ghost var bs, size0 := blocks, size;
      var endptr := off + |ptr|;
      if endptr > size {
        size := endptr;
      }
      var start, end := off / BLOCK, endptr / BLOCK;
      n := |ptr|;
      if start == end {
        WriteWithin(off, ptr, start);
      } else {
        WriteAcross(off, ptr, start, end);
      }
      OverlaySplices(bs, blocks, size0, off, ptr);
    }

    /** The range lies in one block. */
    method WriteWithin(off: nat, ptr: seq<Byte>, start: nat)
      requires Dense(blocks) && off <= BLOCK * |blocks| && start == off / BLOCK == (off + |ptr|) / BLOCK
      modifies this`blocks
      ensures Overlaid(old(blocks), blocks, off, ptr, off + |ptr|) && Dense(blocks)
      ensures |blocks| == if |old(blocks)| > start then |old(blocks)| else start + 1
    {
      hide ByteAt, Patched;
      ghost var bs := blocks;
      OverlayStarts(bs, off, ptr);
      WritePiece(start, off % BLOCK, ptr);
      assert ptr[off - off..off + |ptr| - off] == ptr;
      OverlayNext(bs, bs, blocks, off, ptr, off, off + |ptr|);
    }

    /** The range crosses a block boundary: whole blocks first, then what is left over. */
    method WriteAcross(off: nat, ptr: seq<Byte>, start: nat, end: nat)
      requires Dense(blocks) && off <= BLOCK * |blocks| && start == off / BLOCK < end == (off + |ptr|) / BLOCK
      modifies this`blocks
      ensures Overlaid(old(blocks), blocks, off, ptr, off + |ptr|) && Dense(blocks)
      ensures var n := if BLOCK * end < off + |ptr| then end + 1 else end;
        |blocks| == if |old(blocks)| > n then |old(blocks)| else n
    {
      hide ByteAt, Patched;
      ghost var bs := blocks;
      var remOff := off + |ptr| - end * BLOCK;
      var written := WriteBlocks(off, ptr, start, end, bs);
      if remOff != 0 {
        ghost var b1 := blocks;
        PieceStart(off, end);
        DropTake(ptr, BLOCK * end - off, remOff);
        var piece := ptr[BLOCK * written - off % BLOCK..][..remOff];
        WritePiece(end, 0, piece);
        OverlayNext(bs, b1, blocks, off, ptr, BLOCK * end, off + |ptr|);
      }
    }

    /** The loop over whole blocks: the first one from the offset on, the others entirely. */
    method WriteBlocks(off: nat, ptr: seq<Byte>, start: nat, end: nat, ghost bs: seq<BlockInfo>) returns (written: nat)
      requires Dense(blocks) && blocks == bs && off <= BLOCK * |blocks|
      requires start == off / BLOCK < end == (off + |ptr|) / BLOCK
      modifies this`blocks
      ensures written == end - start && Overlaid(bs, blocks, off, ptr, BLOCK * end)
      ensures |blocks| == if |bs| > end then |bs| else end
    {
      hide ByteAt, Patched;
      OverlayStarts(bs, off, ptr);
      written := 0;
      ghost var to := off;
      for blk := start to end
        invariant written == blk - start && to == (if blk == start then off else BLOCK * blk)
        invariant Overlaid(bs, blocks, off, ptr, to)
        invariant |blocks| == if |bs| > blk then |bs| else blk
      {
        ghost var b1 := blocks;
        if blk == start {
          var piece := ptr[..BLOCK - off % BLOCK];
          WritePiece(blk, off % BLOCK, piece);
          assert piece == ptr[to - off..BLOCK * (blk + 1) - off];
        } else {
          PieceStart(off, blk);
          DropTake(ptr, BLOCK * blk - off, BLOCK);
          var piece := ptr[BLOCK * written - off % BLOCK..][..BLOCK];
          WritePiece(blk, 0, piece);
          assert piece == ptr[to - off..BLOCK * (blk + 1) - off];
        }
        OverlayNext(bs, b1, blocks, off, ptr, to, BLOCK * (blk + 1));
        to := BLOCK * (blk + 1);
        written := written + 1;
      }
    }

    /** How tmpfs_read works out the end of the range and the count it returns, for any offset.
        The count is the number of bytes there are to read if and only if the read does not start
        past the end of the file; there it should be 0 but is the distance past the end. */
    method ReadRange(off: nat, n: nat) returns (endptr: nat, count: nat)
      ensures count == Available(size, off, n) <==> off <= size
      ensures off <= size ==> endptr == off + count <= size && count <= n && (count == n || endptr == size)
      ensures off > size ==> count == endptr == off - size
    {
      endptr := off + n;
      if endptr > size {
        if off > 0 && off > size {
          endptr := off - size;
        } else {
          endptr := size;
        }
      }
      count := if off > size then endptr else endptr - off;
    }

    /** tmpfs_read at an offset inside the file or at its end: the bytes up to the end of the
        file, the rest of the buffer untouched. */
    method Read(off: nat, n: nat, buff: array<Byte>) returns (r: nat)
      requires Valid() && off <= size && n <= buff.Length
      modifies buff
      ensures r <= n && off + r <= size && (r == n || off + r == size)
      ensures buff[..r] == Contents()[off..off + r] && buff[r..] == old(buff[r..])
    {
      hide Flat;
      ghost var before := buff[..];
      var endptr;
      endptr, r := ReadRange(off, n);
      var start, end := off / BLOCK, endptr / BLOCK;
      if start == end {
        ReadPiece(start, off % BLOCK, r, buff, 0, off, before);
      } else {
        ReadAcross(off, endptr, start, end, buff, before);
      }
      CopiedMeans(buff[..], before, Contents(), off, r);
      assert buff[..r] == buff[..][..r] && buff[r..] == buff[..][r..];
    }

    /** The range crosses a block boundary. */
    method ReadAcross(off: nat, endptr: nat, start: nat, end: nat, buff: array<Byte>, ghost before: seq<Byte>)
      requires Valid() && off <= endptr <= size && endptr - off <= buff.Length && buff[..] == before
      requires start == off / BLOCK < end == endptr / BLOCK
      modifies buff
      ensures Copied(buff[..], before, Contents(), off, endptr - off)
    {
      hide Flat, ByteAt;
      var remOff := endptr - end * BLOCK;
      var written := 0;
      ghost var done := 0;
      for blk := start to end
        invariant written == blk - start && done == (if blk == start then 0 else BLOCK * blk - off)
        invariant Copied(buff[..], before, Contents(), off, done)
      {
        if blk == start {
          ReadPiece(blk, off % BLOCK, BLOCK - off % BLOCK, buff, 0, off, before);
        } else {
          PieceStart(off, blk);
          ReadPiece(blk, 0, BLOCK, buff, BLOCK * written - off % BLOCK, off, before);
        }
        done := BLOCK * (blk + 1) - off;
        written := written + 1;
      }
      if remOff != 0 {
        PieceStart(off, end);
        ReadPiece(end, 0, remOff, buff, BLOCK * written - off % BLOCK, off, before);
      }
    }

    /** One memcpy out of block `id`; with nothing to copy the block may be missing. */
    method ReadPiece(id: nat, pos: nat, n: nat, buff: array<Byte>, at: nat, ghost off: nat, ghost before: seq<Byte>)
      requires Valid() && pos + n <= BLOCK && at + n <= buff.Length && BLOCK * id + pos == off + at && off + at + n <= size
      requires Copied(buff[..], before, Contents(), off, at)
      modifies buff
      ensures Copied(buff[..], before, Contents(), off, at + n)
    {
      hide Flat;
      var k := GetBlockPtr(id);
      for i := 0 to n
        invariant Copied(buff[..], before, Contents(), off, at + i)
      {
        FlatAt(blocks, size, id, pos + i);
        buff[at + i] := blocks[k].data[pos + i];
      }
    }
  }
}
