/** ext2_read_file on a device (module/ext2/main.c): blocks are fetched by a 32-bit position.  What
    the file holds is defined with exact positions; the read delivers it exactly when every block
    it needs, tables included, lies below two gigabytes. */
module Ext2Device {
  import opened Ext2

  const LIMIT := 0x8000_0000

  /** The position the code computes: 32-bit arithmetic, handed on as a signed int. */
  function Pos(b: nat, bs: nat): (p: int)
    ensures -0x8000_0000 <= p < 0x8000_0000 && (b * bs - p) % 0x1_0000_0000 == 0
  {
    var p := b * bs % 0x1_0000_0000; if p < LIMIT then p else p - 0x1_0000_0000
  }

  /** The position is right exactly below two gigabytes, and never at or above. */
  lemma PosRightIff(b: nat, bs: nat)
    ensures Pos(b, bs) == b * bs <==> b * bs < LIMIT
    ensures Pos(b, bs) < LIMIT
  {
  }

  ghost predicate BlockDevice(dev: Device, bs: nat) { bs > 0 && bs % 4 == 0 && forall p :: |dev(p)| == bs }

  /** The blocks as the code fetches them, and as they are. */
  function Seen(dev: Device, bs: nat): Disk { (b: nat) => dev(Pos(b, bs)) }

  function Truth(dev: Device, bs: nat): Disk { (b: nat) => dev(b * bs) }

  lemma BothBlocky(dev: Device, bs: nat)
    requires BlockDevice(dev, bs)
    ensures Blocky(Seen(dev, bs), bs) && Blocky(Truth(dev, bs), bs)
  {
  }

  /** Byte `j` of block `i` of the file. */
  ghost function TrueByte(dev: Device, bs: nat, ib: seq<nat>, i: nat, j: nat): Byte
    requires BlockDevice(dev, bs) && Inode(ib) && j < bs
  {
    BothBlocky(dev, bs);
    Truth(dev, bs)(LogicalBlock(Truth(dev, bs), bs, ib, 0, i))[j]
  }

  ghost predicate NoHoles(dev: Device, bs: nat, ib: seq<nat>, n: nat)
    requires BlockDevice(dev, bs) && Inode(ib)
  {
    BothBlocky(dev, bs);
    HoleFree(Truth(dev, bs), bs, ib, 0, n)
  }

  /** The bytes the code delivers when asked for as much as there is. */
  ghost function Delivered(dev: Device, bs: nat, ib: seq<nat>): seq<Byte>
    requires Inode(ib)
  {
    Flat(Seen(dev, bs), From(Seen(dev, bs), ib, 0))
  }

  // ---------------------------------------------------------------------------
  // Below two gigabytes

  /** Every block on the way to index `i`, tables and data, lies below the limit. */
  ghost predicate LowAt(get: Disk, bs: nat, d: nat, es: seq<nat>, i: nat)
    requires Blocky(get, bs) && i < Cap(bs, d, |es|)
    decreases d
  {
    var w := Pow(bs / 4, d);
    IndexInRange(|es|, w, i);
    var p := es[i / w];
    p * bs < LIMIT && (p == 0 || d == 0 || LowAt(get, bs, d - 1, Entries(get(p)), i % w))
  }

  ghost predicate LowBlock(get: Disk, bs: nat, ib: seq<nat>, d: nat, i: nat)
    requires Blocky(get, bs) && Inode(ib) && d <= 4
    decreases 4 - d
  {
    if d == 4 then true
    else if i < Reach(bs, d) then PartReach(bs, ib, d); LowAt(get, bs, d, Part(ib, d), i)
    else LowBlock(get, bs, ib, d + 1, i - Reach(bs, d))
  }

  /** There the code finds the blocks that are there. */
  lemma {:induction false} AtAgrees(dev: Device, bs: nat, d: nat, es: seq<nat>, i: nat)
    requires BlockDevice(dev, bs) && Blocky(Truth(dev, bs), bs) && Blocky(Seen(dev, bs), bs)
    requires i < Cap(bs, d, |es|) && LowAt(Truth(dev, bs), bs, d, es, i)
    ensures At(Seen(dev, bs), bs, d, es, i) == At(Truth(dev, bs), bs, d, es, i)
    ensures At(Truth(dev, bs), bs, d, es, i) * bs < LIMIT
    decreases d
  {
    var w := Pow(bs / 4, d);
    IndexInRange(|es|, w, i);
    var p := es[i / w];
    PosRightIff(p, bs);
    if p != 0 && d > 0 {
      assert Seen(dev, bs)(p) == Truth(dev, bs)(p);
      AtAgrees(dev, bs, d - 1, Entries(Truth(dev, bs)(p)), i % w);
    }
  }

  lemma {:induction false} BlockAgrees(dev: Device, bs: nat, ib: seq<nat>, d: nat, i: nat)
    requires BlockDevice(dev, bs) && Blocky(Truth(dev, bs), bs) && Blocky(Seen(dev, bs), bs) && Inode(ib) && d <= 4
    requires LowBlock(Truth(dev, bs), bs, ib, d, i)
    ensures LogicalBlock(Seen(dev, bs), bs, ib, d, i) == LogicalBlock(Truth(dev, bs), bs, ib, d, i)
    ensures LogicalBlock(Truth(dev, bs), bs, ib, d, i) * bs < LIMIT
    decreases 4 - d
  {
    if d < 4 {
      PartReach(bs, ib, d);
      if i < Reach(bs, d) {
        AtAgrees(dev, bs, d, Part(ib, d), i);
      } else {
        BlockAgrees(dev, bs, ib, d + 1, i - Reach(bs, d));
      }
    }
  }

  ghost predicate LowFile(dev: Device, bs: nat, ib: seq<nat>, n: nat)
    requires BlockDevice(dev, bs) && Inode(ib)
  {
    BothBlocky(dev, bs);
    forall i: nat :: i < n ==> LowBlock(Truth(dev, bs), bs, ib, 0, i)
  }

  function Offset(i: nat, bs: nat, j: nat): nat { i * bs + j }

  /** Byte `j` of block `i` is delivered as it is. */
  ghost predicate ReadRight(dev: Device, bs: nat, ib: seq<nat>, i: nat, j: nat)
    requires BlockDevice(dev, bs) && Inode(ib) && j < bs
  {
    var x, f := Offset(i, bs, j), Delivered(dev, bs, ib);
    x < |f| && f[x] == TrueByte(dev, bs, ib, i, j)
  }

  lemma LowIsReadRight(dev: Device, bs: nat, ib: seq<nat>, n: nat, i: nat, j: nat)
    requires BlockDevice(dev, bs) && Inode(ib) && NoHoles(dev, bs, ib, n) && LowFile(dev, bs, ib, n) && i < n && j < bs
    ensures ReadRight(dev, bs, ib, i, j)
  {
    BothBlocky(dev, bs);
    var seen, truth := Seen(dev, bs), Truth(dev, bs);
    forall x: nat | x < n
      ensures LogicalBlock(seen, bs, ib, 0, x) == LogicalBlock(truth, bs, ib, 0, x) && LogicalBlock(seen, bs, ib, 0, x) != 0
    {
      BlockAgrees(dev, bs, ib, 0, x);
    }
    BytesInOrder(seen, bs, ib, n, i, j);
    BlockAgrees(dev, bs, ib, 0, i);
    PosRightIff(LogicalBlock(truth, bs, ib, 0, i), bs);
  }

  // ---------------------------------------------------------------------------
  // At or above two gigabytes

  ghost predicate SameBelow(dev: Device, dev': Device) { forall p :: p < LIMIT ==> dev'(p) == dev(p) }

  /** The same device below the limit, and nothing but the byte `v` from there on. */
  function Raised(dev: Device, bs: nat, v: Byte): Device { (p: int) => if p < LIMIT then dev(p) else seq(bs, _ => v) }

  lemma RaisedDevice(dev: Device, bs: nat, v: Byte)
    requires BlockDevice(dev, bs)
    ensures BlockDevice(Raised(dev, bs, v), bs) && SameBelow(dev, Raised(dev, bs, v))
  {
  }

  lemma {:induction false} SameLeaves(get: Disk, get': Disk, d: nat, es: seq<nat>)
    requires forall b :: get'(b) == get(b)
    ensures Leaves(get', d, es) == Leaves(get, d, es)
    decreases d, |es|
  {
    if es != [] && es[0] != 0 {
      if d > 0 {
        SameLeaves(get, get', d - 1, Entries(get(es[0])));
      }
      SameLeaves(get, get', d, es[1..]);
    }
  }

  lemma {:induction false} SameFrom(get: Disk, get': Disk, ib: seq<nat>, d: nat)
    requires (forall b :: get'(b) == get(b)) && Inode(ib) && d <= 4
    ensures From(get', ib, d) == From(get, ib, d)
    decreases 4 - d
  {
    if d < 4 {
      SameLeaves(get, get', d, Part(ib, d));
      SameFrom(get, get', ib, d + 1);
    }
  }

  lemma {:induction false} SameFlat(get: Disk, get': Disk, bl: seq<nat>)
    requires forall b :: get'(b) == get(b)
    ensures Flat(get', bl) == Flat(get, bl)
  {
    if bl != [] {
      SameFlat(get, get', bl[..|bl| - 1]);
    }
  }

  /** The code never looks at or above the limit: it delivers the same whatever lies there. */
  lemma DeliveredSame(dev: Device, dev': Device, bs: nat, ib: seq<nat>)
    requires SameBelow(dev, dev') && Inode(ib)
    ensures Delivered(dev', bs, ib) == Delivered(dev, bs, ib)
  {
    var get, get' := Seen(dev, bs), Seen(dev', bs);
    forall b: nat ensures get'(b) == get(b) { PosRightIff(b, bs); }
    SameFrom(get, get', ib, 0);
    SameFlat(get, get', From(get, ib, 0));
  }

  lemma {:induction false} LowAtSame(dev: Device, dev': Device, bs: nat, d: nat, es: seq<nat>, i: nat)
    requires SameBelow(dev, dev') && Blocky(Truth(dev, bs), bs) && Blocky(Truth(dev', bs), bs) && i < Cap(bs, d, |es|)
    requires LowAt(Truth(dev, bs), bs, d, es, i)
    ensures LowAt(Truth(dev', bs), bs, d, es, i) && At(Truth(dev', bs), bs, d, es, i) == At(Truth(dev, bs), bs, d, es, i)
    decreases d
  {
    var w := Pow(bs / 4, d);
    IndexInRange(|es|, w, i);
    var p := es[i / w];
    if p != 0 && d > 0 {
      assert Truth(dev', bs)(p) == Truth(dev, bs)(p);
      LowAtSame(dev, dev', bs, d - 1, Entries(Truth(dev, bs)(p)), i % w);
    }
  }

  /** A table of bytes `v` from 128 on points above the limit everywhere. */
  lemma RaisedEntries(bs: nat, v: Byte, k: nat)
    requires bs >= 4 && v >= 128 && k < bs / 4
    ensures Entries(seq(bs, _ => v))[k] * bs >= LIMIT
  {
    var e := Entries(seq(bs, _ => v))[k];
    assert e == v * 0x101_0101 >= LIMIT;
    assert e * bs >= e;
  }

  /** From a pointer above the limit on, everything on the raised device is above it. */
  lemma {:induction false} HighAt(dev: Device, bs: nat, v: Byte, d: nat, es: seq<nat>, i: nat)
    requires BlockDevice(dev, bs) && v >= 128 && Blocky(Truth(Raised(dev, bs, v), bs), bs) && i < Cap(bs, d, |es|)
    requires Pow(bs / 4, d) > 0 && i / Pow(bs / 4, d) < |es| && es[i / Pow(bs / 4, d)] * bs >= LIMIT
    ensures At(Truth(Raised(dev, bs, v), bs), bs, d, es, i) * bs >= LIMIT
    decreases d
  {
    var w, truth := Pow(bs / 4, d), Truth(Raised(dev, bs, v), bs);
    var p := es[i / w];
    if d > 0 {
      var sub, w' := Entries(truth(p)), Pow(bs / 4, d - 1);
      assert truth(p) == seq(bs, _ => v);
      IndexInRange(|es|, w, i);
      IndexInRange(|sub|, w', i % w);
      RaisedEntries(bs, v, i % w / w');
      HighAt(dev, bs, v, d - 1, sub, i % w);
    }
  }

  /** A path that leaves the low part ends above the limit on the raised device. */
  lemma {:induction false} NotLowAt(dev: Device, bs: nat, v: Byte, d: nat, es: seq<nat>, i: nat)
    requires BlockDevice(dev, bs) && v >= 128 && i < Cap(bs, d, |es|)
    requires Blocky(Truth(dev, bs), bs) && Blocky(Truth(Raised(dev, bs, v), bs), bs) && !LowAt(Truth(dev, bs), bs, d, es, i)
    ensures At(Truth(Raised(dev, bs, v), bs), bs, d, es, i) * bs >= LIMIT
    decreases d
  {
    var w, truth, truth' := Pow(bs / 4, d), Truth(dev, bs), Truth(Raised(dev, bs, v), bs);
    IndexInRange(|es|, w, i);
    var p := es[i / w];
    if p * bs >= LIMIT {
      HighAt(dev, bs, v, d, es, i);
    } else {
      assert truth'(p) == truth(p);
      NotLowAt(dev, bs, v, d - 1, Entries(truth(p)), i % w);
    }
  }

  lemma {:induction false} RaisedBlock(dev: Device, bs: nat, v: Byte, ib: seq<nat>, d: nat, i: nat)
    requires BlockDevice(dev, bs) && v >= 128 && Inode(ib) && d <= 4
    requires Blocky(Truth(dev, bs), bs) && Blocky(Truth(Raised(dev, bs, v), bs), bs)
    ensures var b := LogicalBlock(Truth(Raised(dev, bs, v), bs), bs, ib, d, i);
      if LowBlock(Truth(dev, bs), bs, ib, d, i) then b == LogicalBlock(Truth(dev, bs), bs, ib, d, i) else b * bs >= LIMIT
    decreases 4 - d
  {
    if d < 4 {
      PartReach(bs, ib, d);
      if i >= Reach(bs, d) {
        RaisedBlock(dev, bs, v, ib, d + 1, i - Reach(bs, d));
      } else if LowAt(Truth(dev, bs), bs, d, Part(ib, d), i) {
        LowAtSame(dev, Raised(dev, bs, v), bs, d, Part(ib, d), i);
      } else {
        NotLowAt(dev, bs, v, d, Part(ib, d), i);
      }
    }
  }

  ghost predicate AllRight(dev: Device, bs: nat, ib: seq<nat>, n: nat)
    requires BlockDevice(dev, bs) && Inode(ib)
  {
    forall i: nat, j: nat :: i < n && j < bs ==> ReadRight(dev, bs, ib, i, j)
  }

  /** Whatever lies at or above the limit, the first `n` blocks are delivered as they are. */
  ghost predicate AlwaysRight(dev: Device, bs: nat, ib: seq<nat>, n: nat)
    requires Inode(ib)
  {
    forall dev': Device :: SameBelow(dev, dev') && BlockDevice(dev', bs) && NoHoles(dev', bs, ib, n) ==> AllRight(dev', bs, ib, n)
  }

  lemma LowFileSame(dev: Device, dev': Device, bs: nat, ib: seq<nat>, n: nat)
    requires BlockDevice(dev, bs) && BlockDevice(dev', bs) && SameBelow(dev, dev') && Inode(ib) && LowFile(dev, bs, ib, n)
    ensures LowFile(dev', bs, ib, n)
  {
    BothBlocky(dev, bs);
    BothBlocky(dev', bs);
    forall i: nat | i < n ensures LowBlock(Truth(dev', bs), bs, ib, 0, i) { LowBlockSame(dev, dev', bs, ib, 0, i); }
  }

  lemma {:induction false} LowBlockSame(dev: Device, dev': Device, bs: nat, ib: seq<nat>, d: nat, i: nat)
    requires SameBelow(dev, dev') && Blocky(Truth(dev, bs), bs) && Blocky(Truth(dev', bs), bs) && Inode(ib) && d <= 4
    requires LowBlock(Truth(dev, bs), bs, ib, d, i)
    ensures LowBlock(Truth(dev', bs), bs, ib, d, i)
    decreases 4 - d
  {
    if d < 4 {
      PartReach(bs, ib, d);
      if i < Reach(bs, d) {
        LowAtSame(dev, dev', bs, d, Part(ib, d), i);
      } else {
        LowBlockSame(dev, dev', bs, ib, d + 1, i - Reach(bs, d));
      }
    }
  }

  /** On a raised device the byte is `v`, the delivered one is what it was, and holes appear nowhere. */
  lemma RaisedRead(dev: Device, bs: nat, ib: seq<nat>, n: nat, v: Byte, i: nat)
    requires BlockDevice(dev, bs) && Inode(ib) && NoHoles(dev, bs, ib, n) && v >= 128 && i < n
    requires Blocky(Truth(dev, bs), bs) && !LowBlock(Truth(dev, bs), bs, ib, 0, i)
    ensures var dev' := Raised(dev, bs, v);
      && BlockDevice(dev', bs) && SameBelow(dev, dev') && NoHoles(dev', bs, ib, n)
      && TrueByte(dev', bs, ib, i, 0) == v && Delivered(dev', bs, ib) == Delivered(dev, bs, ib)
  {
    var dev' := Raised(dev, bs, v);
    RaisedDevice(dev, bs, v);
    BothBlocky(dev', bs);
    DeliveredSame(dev, dev', bs, ib);
    RaisedBlock(dev, bs, v, ib, 0, i);
    forall x: nat | x < n ensures LogicalBlock(Truth(dev', bs), bs, ib, 0, x) != 0 {
      RaisedBlock(dev, bs, v, ib, 0, x);
      assert LogicalBlock(Truth(dev, bs), bs, ib, 0, x) != 0;
    }
  }

  /** The read is right if and only if every block it needs, tables included, lies below two
      gigabytes: otherwise there is a device, the same below, on which a delivered byte is wrong. */
  lemma AlwaysRightIff(dev: Device, bs: nat, ib: seq<nat>, n: nat)
    requires BlockDevice(dev, bs) && Inode(ib) && NoHoles(dev, bs, ib, n)
    ensures AlwaysRight(dev, bs, ib, n) <==> LowFile(dev, bs, ib, n)
  {
    BothBlocky(dev, bs);
    if LowFile(dev, bs, ib, n) {
      forall dev': Device | SameBelow(dev, dev') && BlockDevice(dev', bs) && NoHoles(dev', bs, ib, n) ensures AllRight(dev', bs, ib, n) {
        LowFileSame(dev, dev', bs, ib, n);
        forall i: nat, j: nat | i < n && j < bs ensures ReadRight(dev', bs, ib, i, j) {
          LowIsReadRight(dev', bs, ib, n, i, j);
        }
      }
    } else {
      var i: nat :| i < n && !LowBlock(Truth(dev, bs), bs, ib, 0, i);
      MisreadSomewhere(dev, bs, ib, n, i);
    }
  }

  lemma MisreadSomewhere(dev: Device, bs: nat, ib: seq<nat>, n: nat, i: nat)
    requires BlockDevice(dev, bs) && Inode(ib) && NoHoles(dev, bs, ib, n) && i < n
    requires Blocky(Truth(dev, bs), bs) && !LowBlock(Truth(dev, bs), bs, ib, 0, i)
    ensures !AlwaysRight(dev, bs, ib, n)
  {
    var d1, d2 := Raised(dev, bs, 254), Raised(dev, bs, 255);
    RaisedRead(dev, bs, ib, n, 254, i);
    RaisedRead(dev, bs, ib, n, 255, i);
    hide *;
    RightAt(d1, bs, ib, n, i);
    RightAt(d2, bs, ib, n, i);
    NotAlways(dev, d1, bs, ib, n);
    NotAlways(dev, d2, bs, ib, n);
  }

  lemma RightAt(dev: Device, bs: nat, ib: seq<nat>, n: nat, i: nat)
    requires BlockDevice(dev, bs) && Inode(ib) && i < n
    ensures AllRight(dev, bs, ib, n) ==>
      var x, f := Offset(i, bs, 0), Delivered(dev, bs, ib); x < |f| && f[x] == TrueByte(dev, bs, ib, i, 0)
  {
    assert AllRight(dev, bs, ib, n) ==> ReadRight(dev, bs, ib, i, 0);
  }

  lemma NotAlways(dev: Device, dev': Device, bs: nat, ib: seq<nat>, n: nat)
    requires SameBelow(dev, dev') && BlockDevice(dev', bs) && Inode(ib) && NoHoles(dev', bs, ib, n)
    ensures AlwaysRight(dev, bs, ib, n) ==> AllRight(dev', bs, ib, n)
  {
  }

  /** Block 0x400001 of 1024 bytes is read as block 1. */
  lemma HighBlockReadAsLow(dev: Device)
    ensures Seen(dev, 1024)(0x40_0001) == Truth(dev, 1024)(1)
  {
    assert Pos(0x40_0001, 1024) == 1024;
  }

  // ---------------------------------------------------------------------------
  // The code

  /** What is read of a file without holes that lies low: as many bytes as asked for, each the
      file's own. */
  lemma FileRead(dev: Device, bs: nat, ib: seq<nat>, n: nat, size: nat, i: nat, j: nat)
    requires BlockDevice(dev, bs) && Inode(ib) && NoHoles(dev, bs, ib, n) && LowFile(dev, bs, ib, n)
    requires size <= n * bs && i < n && j < bs && Offset(i, bs, j) < size
    ensures var first := FirstBytes(Delivered(dev, bs, ib), size);
      |first| == size && first[Offset(i, bs, j)] == TrueByte(dev, bs, ib, i, j)
  {
    BothBlocky(dev, bs);
    assert HoleFree(Seen(dev, bs), bs, ib, 0, n) by {
      forall x: nat | x < n ensures LogicalBlock(Seen(dev, bs), bs, ib, 0, x) != 0 {
        BlockAgrees(dev, bs, ib, 0, x);
        assert LogicalBlock(Truth(dev, bs), bs, ib, 0, x) != 0;
      }
    }
    BlocksEnough(Seen(dev, bs), bs, ib, n);
    LowIsReadRight(dev, bs, ib, n, i, j);
  }

  /** ext2_read_file: the first `size` bytes of what the walk delivers, or all there is. */
  method ReadFile(dev: Device, bs: nat, ib: seq<nat>, size: int, out: array<Byte>)
    requires BlockDevice(dev, bs) && Inode(ib) && size <= out.Length
    modifies out
    ensures var first := FirstBytes(Delivered(dev, bs, ib), size);
      |first| <= out.Length && out[..] == first + old(out[..])[|first|..]
  {
    BothBlocky(dev, bs);
    ReadBlocks(Seen(dev, bs), bs, ib, size, out);
  }
}
