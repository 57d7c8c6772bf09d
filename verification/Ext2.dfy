/** Reading an ext2 file from its start (module/ext2/main.c, ext2_read_file at offset 0): the walk
    over direct, single, double and triple indirect blocks. */
module Ext2 {
  import opened Facts

  type Byte = b: int | 0 <= b < 256
  const DIRECT := 12

  /** What the device answers, one block at a time, by position. */
  type Device = int -> seq<Byte>

  /** Blocks by number. */
  type Disk = nat -> seq<Byte>

  ghost predicate Blocky(get: Disk, bs: nat) { bs > 0 && bs % 4 == 0 && forall b :: |get(b)| == bs }

  function Min(a: nat, b: nat): nat { if a < b then a else b }

  function Le32(s: seq<Byte>, i: nat): nat
    requires i + 4 <= |s|
  {
    s[i] as int + 0x100 * s[i + 1] as int + 0x1_0000 * s[i + 2] as int + 0x100_0000 * s[i + 3] as int
  }

  /** A block read as a table of block numbers. */
  function Entries(s: seq<Byte>): seq<nat>
  {
    seq(|s| / 4, i requires 0 <= i < |s| / 4 => Le32(s, 4 * i))
  }

  /** A block number as it is stored, least significant byte first. */
  function Bytes32(b: nat): (s: seq<Byte>)
    requires b < 0x1_0000_0000
    ensures |s| == 4
  {
    [b % 0x100, b / 0x100 % 0x100, b / 0x1_0000 % 0x100, b / 0x100_0000]
  }

  lemma Le32RoundTrip(b: nat)
    requires b < 0x1_0000_0000
    ensures Le32(Bytes32(b), 0) == b
  {
    assert b == b % 0x100 + 0x100 * (b / 0x100);
    assert b / 0x100 == b / 0x100 % 0x100 + 0x100 * (b / 0x1_0000);
  }

  predicate Words(es: seq<nat>) { forall i :: 0 <= i < |es| ==> es[i] < 0x1_0000_0000 }

  /** A table of block numbers as it is stored. */
  function Stored(es: seq<nat>): (s: seq<Byte>)
    requires Words(es)
    ensures |s| == 4 * |es|
  {
    if es == [] then [] else Stored(es[..|es| - 1]) + Bytes32(es[|es| - 1])
  }

  lemma EntriesAppend(t: seq<Byte>, w: seq<Byte>)
    requires |t| % 4 == 0 && |w| == 4
    ensures Entries(t + w) == Entries(t) + [Le32(w, 0)]
  {
    var n := |t| / 4;
    forall i: nat | i < n ensures Le32(t + w, 4 * i) == Le32(t, 4 * i) {
      assert 4 * i + 4 <= |t|;
    }
    assert Le32(t + w, 4 * n) == Le32(w, 0);
  }

  /** A stored table reads back. */
  lemma {:induction false} TableRoundTrip(es: seq<nat>)
    requires Words(es)
    ensures Entries(Stored(es)) == es
  {
    if es != [] {
      var m := |es| - 1;
      hide Bytes32, Entries, Le32;
      Le32RoundTrip(es[m]);
      TableRoundTrip(es[..m]);
      EntriesAppend(Stored(es[..m]), Bytes32(es[m]));
      assert es == es[..m] + [es[m]];
    }
  }

  // ---------------------------------------------------------------------------
  // The walk

  /** The data blocks below the pointers `es` of depth `d`, in the order of the walk; a zero
      pointer ends its table. */
  function Leaves(get: Disk, d: nat, es: seq<nat>): seq<nat>
    decreases d, |es|
  {
    if es == [] || es[0] == 0 then [] else Below(get, d, es[0]) + Leaves(get, d, es[1..])
  }

  function Below(get: Disk, d: nat, b: nat): seq<nat>
    decreases d, 0
  {
    if d == 0 then [b] else Leaves(get, d - 1, Entries(get(b)))
  }

  ghost predicate Inode(ib: seq<nat>) { |ib| == DIRECT + 3 }

  function Flat(get: Disk, bl: seq<nat>): seq<Byte>
  {
    if bl == [] then [] else Flat(get, bl[..|bl| - 1]) + get(bl[|bl| - 1])
  }

  lemma {:induction false} FlatLength(get: Disk, bs: nat, bl: seq<nat>)
    requires Blocky(get, bs)
    ensures |Flat(get, bl)| == |bl| * bs
  {
    if bl != [] {
      FlatLength(get, bs, bl[..|bl| - 1]);
    }
  }

  lemma {:induction false} FlatAt(get: Disk, bs: nat, bl: seq<nat>, i: nat, j: nat)
    requires Blocky(get, bs) && i < |bl| && j < bs
    ensures i * bs + j < |Flat(get, bl)| && Flat(get, bl)[i * bs + j] == get(bl[i])[j]
  {
    var m := |bl| - 1;
    FlatLength(get, bs, bl);
    FlatLength(get, bs, bl[..m]);
    Monotone(i + 1, |bl|, bs);
    if i < m {
      FlatAt(get, bs, bl[..m], i, j);
    }
  }

  lemma {:induction false} FlatConcat(get: Disk, a: seq<nat>, b: seq<nat>)
    ensures Flat(get, a + b) == Flat(get, a) + Flat(get, b)
    decreases |b|
  {
    if b == [] {
      assert a + b == a;
    } else {
      var m := |b| - 1;
      assert (a + b)[..|a + b| - 1] == a + b[..m] && (a + b)[|a + b| - 1] == b[m];
      FlatConcat(get, a, b[..m]);
    }
  }

  // ---------------------------------------------------------------------------
  // Logical order

  function Pow(q: nat, d: nat): (r: nat)
    ensures q > 0 ==> r > 0
  {
    if d == 0 then 1 else q * Pow(q, d - 1)
  }

  /** How many blocks `n` pointers of depth `d` can name. */
  function Cap(bs: nat, d: nat, n: nat): nat { n * Pow(bs / 4, d) }

  /** The block found for index `i` below the pointers `es` of depth `d`; zero in a hole. */
  function At(get: Disk, bs: nat, d: nat, es: seq<nat>, i: nat): nat
    requires Blocky(get, bs) && i < Cap(bs, d, |es|)
    decreases d
  {
    var w := Pow(bs / 4, d);
    IndexInRange(|es|, w, i);
    if es[i / w] == 0 then 0
    else if d == 0 then es[i / w]
    else At(get, bs, d - 1, Entries(get(es[i / w])), i % w)
  }

  lemma IndexInRange(n: nat, w: nat, i: nat)
    requires w > 0 && i < n * w
    ensures i / w < n && i % w < w
  {
    Monotone(n, i / w, w);
  }

  lemma Shift(n: nat, w: nat, i: nat)
    requires w > 0 && n > 0 && w <= i < n * w
    ensures i - w < (n - 1) * w && (i - w) / w == i / w - 1 && (i - w) % w == i % w
  {
    Monotone(n - 1, n, w);
    Monotone(i / w - 1, n, w);
    Quotient(i - w, w, i / w - 1, i % w);
  }

  lemma AtShift(get: Disk, bs: nat, d: nat, es: seq<nat>, i: nat)
    requires Blocky(get, bs) && es != [] && Pow(bs / 4, d) <= i < Cap(bs, d, |es|)
    ensures i - Pow(bs / 4, d) < Cap(bs, d, |es[1..]|)
    ensures At(get, bs, d, es, i) == At(get, bs, d, es[1..], i - Pow(bs / 4, d))
  {
    var w := Pow(bs / 4, d);
    Shift(|es|, w, i);
    IndexInRange(|es|, w, i);
    IndexInRange(|es| - 1, w, i - w);
    assert es[1..][(i - w) / w] == es[i / w];
  }

  ghost predicate NoHole(get: Disk, bs: nat, d: nat, es: seq<nat>, n: nat)
    requires Blocky(get, bs) && n <= Cap(bs, d, |es|)
  {
    forall i: nat :: i < n ==> At(get, bs, d, es, i) != 0
  }

  /** Up to the first hole the walk meets the blocks in logical order. */
  lemma {:induction false} LeavesInOrder(get: Disk, bs: nat, d: nat, es: seq<nat>, n: nat)
    requires Blocky(get, bs) && n <= Cap(bs, d, |es|) && NoHole(get, bs, d, es, n)
    ensures n <= |Leaves(get, d, es)| <= Cap(bs, d, |es|)
    ensures forall i: nat :: i < n ==> Leaves(get, d, es)[i] == At(get, bs, d, es, i)
    decreases d, |es|
  {
    hide Pow, Cap, Entries;
    var w := Pow(bs / 4, d);
    if es != [] && es[0] != 0 {
      var a := Min(n, w);
      CapStep(bs, d, |es|);
      FirstInOrder(get, bs, d, es, a);
      forall i: nat | i < n - a ensures At(get, bs, d, es[1..], i) != 0 {
        AtShift(get, bs, d, es, i + w);
      }
      LeavesInOrder(get, bs, d, es[1..], n - a);
      forall i: nat | i < n ensures Leaves(get, d, es)[i] == At(get, bs, d, es, i) {
        if i >= w {
          AtShift(get, bs, d, es, i);
        }
      }
    } else {
      CapNone(bs, d);
      if es != [] {
        AtZero(get, bs, d, es);
      }
    }
  }

  lemma CapStep(bs: nat, d: nat, n: nat)
    requires n > 0
    ensures Cap(bs, d, n) == Pow(bs / 4, d) + Cap(bs, d, n - 1) >= Pow(bs / 4, d)
  {
    Monotone(n - 1, n, Pow(bs / 4, d));
  }

  lemma CapNone(bs: nat, d: nat)
    ensures Cap(bs, d, 0) == 0
  {
  }

  lemma AtZero(get: Disk, bs: nat, d: nat, es: seq<nat>)
    requires Blocky(get, bs) && es != [] && es[0] == 0
    ensures Cap(bs, d, |es|) > 0 && At(get, bs, d, es, 0) == 0
  {
    Monotone(1, |es|, Pow(bs / 4, d));
  }

  lemma AtFirst(get: Disk, bs: nat, d: nat, es: seq<nat>, i: nat)
    requires Blocky(get, bs) && d > 0 && es != [] && es[0] != 0 && i < Pow(bs / 4, d)
    ensures var sub := Entries(get(es[0]));
      && Cap(bs, d - 1, |sub|) == Pow(bs / 4, d) <= Cap(bs, d, |es|)
      && At(get, bs, d, es, i) == At(get, bs, d - 1, sub, i)
  {
    var w := Pow(bs / 4, d);
    Monotone(1, |es|, w);
    Quotient(i, w, 0, i);
  }

  lemma FirstInOrder(get: Disk, bs: nat, d: nat, es: seq<nat>, n: nat)
    requires Blocky(get, bs) && es != [] && es[0] != 0
    requires n <= Pow(bs / 4, d) <= Cap(bs, d, |es|) && NoHole(get, bs, d, es, n)
    ensures n <= |Below(get, d, es[0])| <= Pow(bs / 4, d)
    ensures forall i: nat :: i < n ==> Below(get, d, es[0])[i] == At(get, bs, d, es, i)
    decreases d, 0
  {
    if d > 0 {
      hide NoHole, Cap;
      var sub := Entries(get(es[0]));
      HolesFirst(get, bs, d, d - 1, es, n);
      LeavesInOrder(get, bs, d - 1, sub, n);
    } else {
      assert At(get, bs, 0, es, 0) == es[0 / 1];
    }
  }

  lemma HolesFirst(get: Disk, bs: nat, d: nat, e: nat, es: seq<nat>, n: nat)
    requires Blocky(get, bs) && d == e + 1 && es != [] && es[0] != 0
    requires n <= Pow(bs / 4, d) <= Cap(bs, d, |es|) && NoHole(get, bs, d, es, n)
    ensures var sub := Entries(get(es[0]));
      && Cap(bs, e, |sub|) == Pow(bs / 4, d) && NoHole(get, bs, e, sub, n)
      && forall i: nat :: i < n ==> At(get, bs, d, es, i) == At(get, bs, e, sub, i)
  {
    var sub := Entries(get(es[0]));
    AtFirst(get, bs, d, es, 0);
    hide Pow, Cap, Entries;
    forall i: nat | i < n
      ensures At(get, bs, d, es, i) == At(get, bs, e, sub, i) && At(get, bs, e, sub, i) != 0
    {
      AtFirst(get, bs, d, es, i);
    }
  }

  /** How many blocks each part of the inode can name, and which block index `i` of the file is. */
  function Reach(bs: nat, d: nat): nat { if d == 0 then DIRECT else Pow(bs / 4, d) }

  function Part(ib: seq<nat>, d: nat): (es: seq<nat>)
    requires Inode(ib) && d < 4
    ensures |es| == if d == 0 then DIRECT else 1
  {
    if d == 0 then ib[..DIRECT] else [ib[DIRECT - 1 + d]]
  }

  lemma PartReach(bs: nat, ib: seq<nat>, d: nat)
    requires Inode(ib) && d < 4
    ensures Cap(bs, d, |Part(ib, d)|) == Reach(bs, d)
  {
  }

  function LogicalBlock(get: Disk, bs: nat, ib: seq<nat>, d: nat, i: nat): nat
    requires Blocky(get, bs) && Inode(ib) && d <= 4
    decreases 4 - d
  {
    if d == 4 then 0
    else if i < Reach(bs, d) then At(get, bs, d, Part(ib, d), i)
    else LogicalBlock(get, bs, ib, d + 1, i - Reach(bs, d))
  }

  /** The data blocks of the parts from `d` on. */
  function From(get: Disk, ib: seq<nat>, d: nat): seq<nat>
    requires Inode(ib) && d <= 4
    decreases 4 - d
  {
    if d == 4 then [] else Leaves(get, d, Part(ib, d)) + From(get, ib, d + 1)
  }

  /** The walk over all parts of an inode without holes among its first `n` blocks names them in
      logical order. */
  lemma {:induction false} WalkInOrder(get: Disk, bs: nat, ib: seq<nat>, d: nat, n: nat)
    requires Blocky(get, bs) && Inode(ib) && d <= 4 && HoleFree(get, bs, ib, d, n)
    ensures n <= |From(get, ib, d)|
    ensures forall i: nat :: i < n ==> From(get, ib, d)[i] == LogicalBlock(get, bs, ib, d, i)
    decreases 4 - d
  {
    if d < 4 {
      var c, es, d' := Reach(bs, d), Part(ib, d), d + 1;
      var m := Min(n, c);
      var all, low, high := From(get, ib, d), Leaves(get, d, es), From(get, ib, d');
      assert all == low + high;
      SplitHoles(get, bs, ib, d, d', n, m);
      LeavesInOrder(get, bs, d, es, m);
      WalkInOrder(get, bs, ib, d', n - m);
      hide *;
      forall i: nat | i < n ensures all[i] == LogicalBlock(get, bs, ib, d, i) {
        if i >= m {
          var j: nat := i - m;
          assert high[j] == LogicalBlock(get, bs, ib, d', j);
        }
        WalkAt(get, bs, ib, d, d', n, i, low, high);
      }
    } else if n > 0 {
      NothingBeyond(get, bs, ib, n);
    }
  }

  /** Block `i` is in the part at hand or in the later ones. */
  lemma WalkAt(get: Disk, bs: nat, ib: seq<nat>, d: nat, d': nat, n: nat, i: nat, low: seq<nat>, high: seq<nat>)
    requires Blocky(get, bs) && Inode(ib) && d < 4 && d' == d + 1 && i < n
    requires var m := Min(n, Reach(bs, d));
      && m <= |low| <= Reach(bs, d) && n - m <= |high|
      && (i < m ==> low[i] == At(get, bs, d, Part(ib, d), i))
      && (i >= m ==> high[i - m] == LogicalBlock(get, bs, ib, d', i - m))
    ensures (low + high)[i] == LogicalBlock(get, bs, ib, d, i)
  {
    hide Reach, At, LogicalBlock, Part, Blocky, Inode;
    LogicalStep(get, bs, ib, d, d', Reach(bs, d), i);
  }

  lemma NothingBeyond(get: Disk, bs: nat, ib: seq<nat>, n: nat)
    requires Blocky(get, bs) && Inode(ib)
    ensures n > 0 ==> !HoleFree(get, bs, ib, 4, n)
  {
    assert LogicalBlock(get, bs, ib, 4, 0) == 0;
  }

  ghost predicate HoleFree(get: Disk, bs: nat, ib: seq<nat>, d: nat, n: nat)
    requires Blocky(get, bs) && Inode(ib) && d <= 4
  {
    forall i: nat :: i < n ==> LogicalBlock(get, bs, ib, d, i) != 0
  }

  lemma LogicalStep(get: Disk, bs: nat, ib: seq<nat>, d: nat, d': nat, c: nat, i: nat)
    requires Blocky(get, bs) && Inode(ib) && d < 4 && d' == d + 1 && c == Reach(bs, d)
    ensures Cap(bs, d, |Part(ib, d)|) == c
    ensures i < c ==> LogicalBlock(get, bs, ib, d, i) == At(get, bs, d, Part(ib, d), i)
    ensures i >= c ==> LogicalBlock(get, bs, ib, d, i) == LogicalBlock(get, bs, ib, d', i - c)
  {
    PartReach(bs, ib, d);
  }

  lemma SplitHoles(get: Disk, bs: nat, ib: seq<nat>, d: nat, d': nat, n: nat, m: nat)
    requires Blocky(get, bs) && Inode(ib) && d < 4 && d' == d + 1 && m == Min(n, Reach(bs, d))
    requires HoleFree(get, bs, ib, d, n)
    ensures Cap(bs, d, |Part(ib, d)|) == Reach(bs, d)
    ensures NoHole(get, bs, d, Part(ib, d), m) && HoleFree(get, bs, ib, d', n - m)
  {
    var c := Reach(bs, d);
    LogicalStep(get, bs, ib, d, d', c, 0);
    hide Reach, Cap, Pow, At, LogicalBlock;
    forall i: nat | i < m ensures At(get, bs, d, Part(ib, d), i) != 0 {
      LogicalStep(get, bs, ib, d, d', c, i);
    }
    forall i: nat | i < n - m ensures LogicalBlock(get, bs, ib, d', i) != 0 {
      LogicalStep(get, bs, ib, d, d', c, i + c);
    }
  }

  /** A file without holes among its first `n` blocks: the walk yields at least `n` blocks ... */
  lemma BlocksEnough(get: Disk, bs: nat, ib: seq<nat>, n: nat)
    requires Blocky(get, bs) && Inode(ib) && HoleFree(get, bs, ib, 0, n)
    ensures n * bs <= |Flat(get, From(get, ib, 0))|
  {
    var bl := From(get, ib, 0);
    assert n <= |bl| by { WalkInOrder(get, bs, ib, 0, n); }
    Monotone(n, |bl|, bs);
    FlatLength(get, bs, bl);
  }

  /** ... and byte `j` of its block `i` is found where it belongs. */
  lemma BytesInOrder(get: Disk, bs: nat, ib: seq<nat>, n: nat, i: nat, j: nat)
    requires Blocky(get, bs) && Inode(ib) && HoleFree(get, bs, ib, 0, n) && i < n && j < bs
    ensures i * bs + j < |Flat(get, From(get, ib, 0))|
    ensures Flat(get, From(get, ib, 0))[i * bs + j] == get(LogicalBlock(get, bs, ib, 0, i))[j]
  {
    var bl := From(get, ib, 0);
    assert i < |bl| && bl[i] == LogicalBlock(get, bs, ib, 0, i) by { WalkInOrder(get, bs, ib, 0, n); }
    FlatAt(get, bs, bl, i, j);
  }

  /** At most `size` bytes from the front of `f`. */
  function FirstBytes(f: seq<Byte>, size: int): (r: seq<Byte>)
    ensures r <= f && (size <= 0 ==> r == [])
    ensures size > 0 ==> |r| <= size && (|r| == size || r == f)
  {
    if size < 0 then [] else f[..Min(size, |f|)]
  }

  /** What reading yields for a file without holes: all `size` bytes, each from its logical block. */
  lemma ReadInOrder(get: Disk, bs: nat, ib: seq<nat>, n: nat, size: nat, i: nat, j: nat)
    requires Blocky(get, bs) && Inode(ib) && HoleFree(get, bs, ib, 0, n) && size <= n * bs
    requires i < n && j < bs && i * bs + j < size
    ensures var first := FirstBytes(Flat(get, From(get, ib, 0)), size);
      |first| == size && first[i * bs + j] == get(LogicalBlock(get, bs, ib, 0, i))[j]
  {
    BlocksEnough(get, bs, ib, n);
    BytesInOrder(get, bs, ib, n, i, j);
    hide *;
  }

  // ---------------------------------------------------------------------------
  // Copying

  /** `head` bytes of the blocks `done` are at the front of `out`, the rest is as in `o`. */
  ghost predicate Copied(get: Disk, o: seq<Byte>, out: seq<Byte>, want: nat, done: seq<nat>, head: nat)
  {
    && |out| == |o| && want <= |o| && head == Min(want, |Flat(get, done)|)
    && out == Flat(get, done)[..head] + o[head..]
  }

  /** Once all is copied, more blocks change nothing. */
  lemma CopiedMore(get: Disk, o: seq<Byte>, out: seq<Byte>, want: nat, done: seq<nat>, more: seq<nat>, head: nat)
    requires Copied(get, o, out, want, done, head) && head == want
    ensures Copied(get, o, out, want, done + more, head)
  {
    FlatConcat(get, done, more);
  }

  lemma CopiedBlock(get: Disk, bs: nat, o: seq<Byte>, out: seq<Byte>, out': seq<Byte>, want: nat, done: seq<nat>, b: nat,
                    head: nat, n: nat)
    requires Blocky(get, bs) && Copied(get, o, out, want, done, head) && n == Min(want - head, bs)
    requires |out'| == |out| && out' == out[..head] + get(b)[..n] + out[head + n..]
    ensures Copied(get, o, out', want, done + [b], head + n)
  {
    var f, g := Flat(get, done), get(b);
    assert (done + [b])[..|done + [b]| - 1] == done;
    assert Flat(get, done + [b]) == f + g;
    hide Flat;
    assert n > 0 ==> head == |f|;
    assert (f + g)[..head + n] == f[..head] + g[..n];
    assert out[..head] == f[..head] && out[head + n..] == o[head + n..];
  }

  /** The remaining size and the cursor, `want` being what there is to copy at all. */
  predicate Counts(size: int, want: nat, head: nat) { if size >= 0 then size == want - head else want == head }

  method CopyBlock(get: Disk, bs: nat, b: nat, size: int, out: array<Byte>, head: nat, ghost o: seq<Byte>, ghost want: nat,
                   ghost done: seq<nat>)
    returns (size': int, head': nat)
    requires Blocky(get, bs) && size >= 0 && Counts(size, want, head) && Copied(get, o, out[..], want, done, head)
    modifies out
    ensures 0 <= size' <= size && Counts(size', want, head') && Copied(get, o, out[..], want, done + [b], head')
  {
    var buf := get(b);
    var n := if size > bs then bs else size;
    ghost var was := out[..];
    Memcpy(out, head, buf, n);
    head' := head + n;
    size' := size - n;
    CopiedBlock(get, bs, o, was, out[..], want, done, b, head, n);
  }

  method Memcpy(out: array<Byte>, head: nat, buf: seq<Byte>, n: nat)
    requires n <= |buf| && head + n <= out.Length
    modifies out
    ensures out[..] == old(out[..])[..head] + buf[..n] + old(out[..])[head + n..]
  {
    ghost var was := out[..];
    for i := 0 to n
      invariant forall x :: 0 <= x < out.Length ==> out[x] == if head <= x < head + i then buf[x - head] else was[x]
    {
      out[head + i] := buf[i];
    }
  }

  /** A loop over data blocks; the one for the single indirect block does not look at the size. */
  method CopyRun(get: Disk, bs: nat, es: seq<nat>, checked: bool, size0: int, out: array<Byte>, head0: nat, ghost o: seq<Byte>,
                 ghost want: nat, ghost done: seq<nat>)
    returns (size: int, head: nat, stop: bool)
    requires Blocky(get, bs) && (!checked ==> size0 >= 0)
    requires Counts(size0, want, head0) && Copied(get, o, out[..], want, done, head0)
    modifies out
    ensures Counts(size, want, head) && Copied(get, o, out[..], want, done + Leaves(get, 0, es), head)
    ensures stop ==> size <= 0
  {
    hide Flat, Copied;
    size, head, stop := size0, head0, false;
    var i := 0;
    ghost var sofar, all := done, done + Leaves(get, 0, es);
    assert es[0..] == es;
    while i < |es| && es[i] != 0
      invariant i <= |es| && sofar + Leaves(get, 0, es[i..]) == all
      invariant Counts(size, want, head) && Copied(get, o, out[..], want, sofar, head) && (!checked ==> size >= 0)
    {
      if checked && size <= 0 {
        CopiedMore(get, o, out[..], want, sofar, Leaves(get, 0, es[i..]), head);
        stop := true;
        return;
      }
      size, head := CopyBlock(get, bs, es[i], size, out, head, o, want, sofar);
      assert es[i..][1..] == es[i + 1..];
      assert sofar + ([es[i]] + Leaves(get, 0, es[i + 1..])) == sofar + [es[i]] + Leaves(get, 0, es[i + 1..]);
      sofar, i := sofar + [es[i]], i + 1;
    }
    assert Leaves(get, 0, es[i..]) == [] && sofar == all;
  }

  /** A loop over tables of data blocks. */
  method CopyTables(get: Disk, bs: nat, es: seq<nat>, size0: int, out: array<Byte>, head0: nat, ghost o: seq<Byte>,
                    ghost want: nat, ghost done: seq<nat>)
    returns (size: int, head: nat, stop: bool)
    requires Blocky(get, bs) && Counts(size0, want, head0) && Copied(get, o, out[..], want, done, head0)
    modifies out
    ensures Counts(size, want, head) && Copied(get, o, out[..], want, done + Leaves(get, 1, es), head)
    ensures stop ==> size <= 0
  {
    hide Flat, Copied, Entries;
    size, head, stop := size0, head0, false;
    var i := 0;
    ghost var sofar, all := done, done + Leaves(get, 1, es);
    assert es[0..] == es;
    while i < |es| && es[i] != 0
      invariant i <= |es| && sofar + Leaves(get, 1, es[i..]) == all
      invariant Counts(size, want, head) && Copied(get, o, out[..], want, sofar, head)
    {
      var pp := Entries(get(es[i]));
      ghost var below, rest := Leaves(get, 0, pp), Leaves(get, 1, es[i + 1..]);
      assert es[i..][1..] == es[i + 1..];
      assert Leaves(get, 1, es[i..]) == below + rest && sofar + (below + rest) == sofar + below + rest;
      size, head, stop := CopyRun(get, bs, pp, true, size, out, head, o, want, sofar);
      sofar, i := sofar + below, i + 1;
      if stop {
        CopiedMore(get, o, out[..], want, sofar, rest, head);
        return;
      }
    }
    assert Leaves(get, 1, es[i..]) == [] && sofar == all;
  }

  /** A loop over tables of tables. */
  method CopyTablesOfTables(get: Disk, bs: nat, es: seq<nat>, size0: int, out: array<Byte>, head0: nat, ghost o: seq<Byte>,
                            ghost want: nat, ghost done: seq<nat>)
    returns (size: int, head: nat, stop: bool)
    requires Blocky(get, bs) && Counts(size0, want, head0) && Copied(get, o, out[..], want, done, head0)
    modifies out
    ensures Counts(size, want, head) && Copied(get, o, out[..], want, done + Leaves(get, 2, es), head)
    ensures stop ==> size <= 0
  {
    hide Flat, Copied, Entries;
    size, head, stop := size0, head0, false;
    var i := 0;
    ghost var sofar, all := done, done + Leaves(get, 2, es);
    assert es[0..] == es;
    while i < |es| && es[i] != 0
      invariant i <= |es| && sofar + Leaves(get, 2, es[i..]) == all
      invariant Counts(size, want, head) && Copied(get, o, out[..], want, sofar, head)
    {
      var pp := Entries(get(es[i]));
      ghost var below, rest := Leaves(get, 1, pp), Leaves(get, 2, es[i + 1..]);
      assert es[i..][1..] == es[i + 1..];
      assert Leaves(get, 2, es[i..]) == below + rest && sofar + (below + rest) == sofar + below + rest;
      size, head, stop := CopyTables(get, bs, pp, size, out, head, o, want, sofar);
      sofar, i := sofar + below, i + 1;
      if stop {
        CopiedMore(get, o, out[..], want, sofar, rest, head);
        return;
      }
    }
    assert Leaves(get, 2, es[i..]) == [] && sofar == all;
  }

  lemma CopiedMeans(get: Disk, o: seq<Byte>, out: seq<Byte>, size: int, done: seq<nat>, head: nat)
    requires Copied(get, o, out, if size < 0 then 0 else size, done, head)
    ensures var first := FirstBytes(Flat(get, done), size); |first| <= |out| && out == first + o[|first|..]
  {
  }

  lemma LeavesOne(get: Disk, d: nat, b: nat, done: seq<nat>)
    ensures Leaves(get, d + 1, [b]) == if b == 0 then [] else Leaves(get, d, Entries(get(b)))
    ensures done + [] == done
  {
  }

  method ReadDirect(get: Disk, bs: nat, ib: seq<nat>, size0: int, out: array<Byte>, ghost o: seq<Byte>, ghost want: nat)
    returns (size: int, head: nat, stop: bool)
    requires Blocky(get, bs) && Inode(ib) && size0 <= out.Length && o == out[..] && want == if size0 < 0 then 0 else size0
    modifies out
    ensures Counts(size, want, head) && Copied(get, o, out[..], want, Leaves(get, 0, ib[..DIRECT]), head)
    ensures stop ==> size <= 0
  {
    size, head, stop := CopyRun(get, bs, ib[..DIRECT], true, size0, out, 0, o, want, []);
    assert [] + Leaves(get, 0, ib[..DIRECT]) == Leaves(get, 0, ib[..DIRECT]);
  }

  method ReadIndirect(get: Disk, bs: nat, d: nat, b: nat, size0: int, out: array<Byte>, head0: nat, ghost o: seq<Byte>,
                      ghost want: nat, ghost done: seq<nat>)
    returns (size: int, head: nat, stop: bool)
    requires Blocky(get, bs) && d < 3
    requires Counts(size0, want, head0) && Copied(get, o, out[..], want, done, head0)
    modifies out
    ensures Counts(size, want, head) && Copied(get, o, out[..], want, done + Leaves(get, d + 1, [b]), head)
    ensures stop ==> size <= 0
  {
    LeavesOne(get, d, b, done);
    hide Flat, Copied, Leaves, Entries;
    size, head, stop := size0, head0, false;
    if b == 0 {
      return;
    }
    var p := Entries(get(b));
    if d == 0 {
      if size <= 0 {
        CopiedMore(get, o, out[..], want, done, Leaves(get, 0, p), head);
        stop := true;
        return;
      }
      size, head, stop := CopyRun(get, bs, p, false, size, out, head, o, want, done);
    } else if d == 1 {
      size, head, stop := CopyTables(get, bs, p, size, out, head, o, want, done);
    } else {
      size, head, stop := CopyTablesOfTables(get, bs, p, size, out, head, o, want, done);
    }
  }

  /** The body of ext2_read_file over blocks by number. */
  method ReadBlocks(get: Disk, bs: nat, ib: seq<nat>, size0: int, out: array<Byte>)
    requires Blocky(get, bs) && Inode(ib) && size0 <= out.Length
    modifies out
    ensures var first := FirstBytes(Flat(get, From(get, ib, 0)), size0);
      |first| <= out.Length && out[..] == first + old(out[..])[|first|..]
  {
    hide Flat, Copied, Leaves, Entries;
    ghost var o, want := out[..], if size0 < 0 then 0 else size0;
    ghost var done := Leaves(get, 0, ib[..DIRECT]);
    var size, head, stop := ReadDirect(get, bs, ib, size0, out, o, want);
    var d := 0;
    while d < 3 && !stop
      invariant d <= 3 && done + From(get, ib, d + 1) == From(get, ib, 0)
      invariant Counts(size, want, head) && Copied(get, o, out[..], want, done, head)
      invariant stop ==> size <= 0
    {
      size, head, stop := ReadIndirect(get, bs, d, ib[DIRECT + d], size, out, head, o, want, done);
      ghost var more, rest := Leaves(get, d + 1, [ib[DIRECT + d]]), From(get, ib, d + 2);
      assert done + (more + rest) == done + more + rest;
      done, d := done + more, d + 1;
    }
    ghost var rest := From(get, ib, d + 1);
    if stop {
      CopiedMore(get, o, out[..], want, done, rest, head);
    } else {
      assert done + rest == done;
    }
    CopiedMeans(get, o, out[..], size0, From(get, ib, 0), head);
  }
}
