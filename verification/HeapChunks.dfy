/** The kernel heap as a list of chunks: what kmalloc and kfree of src/mm/alloc.c do to the
    list, and what they keep.  Addresses are offsets from KERN_HEAP_BEGIN. */
module HeapChunks {
  const HEADER := 4         // sizeof(struct MallocHeader)
  const MIN_CHUNK := 16     // KMALLOC_MINSIZE
  const PAGE := 4096

  datatype Chunk = Chunk(addr: nat, size: nat, used: bool)

  function End(c: Chunk): nat { c.addr + c.size }

  /** The chunks tile [0, brk) without gap or overlap, each at least 16 bytes. */
  ghost predicate Tiles(cs: seq<Chunk>, brk: nat)
  {
    && |cs| > 0 && cs[0].addr == 0 && End(cs[|cs| - 1]) == brk
    && (forall i :: 0 <= i < |cs| ==> cs[i].size >= MIN_CHUNK)
    && (forall i :: 0 < i < |cs| ==> cs[i].addr == End(cs[i - 1]))
  }

  /** Bytes a request of `size` bytes takes, header included. */
  function Need(size: nat): (n: nat)
    ensures n >= 16 && n >= size + 4 && (n == 16 || n == size + 4)
  {
    if HEADER + size < MIN_CHUNK then MIN_CHUNK else HEADER + size
  }

  predicate Fits(c: Chunk, need: nat) { !c.used && c.size >= need }

  /** The first chunk from `i` on that is free and large enough, or the list's length. */
  function FirstFit(cs: seq<Chunk>, need: nat, i: nat): (j: nat)
    requires i <= |cs|
    ensures i <= j <= |cs| && (j < |cs| ==> Fits(cs[j], need))
    ensures forall k :: i <= k < j ==> !Fits(cs[k], need)
    decreases |cs| - i
  {
    if i == |cs| || Fits(cs[i], need) then i else FirstFit(cs, need, i + 1)
  }

  /** Takes `need` bytes from the front of chunk `i`; a remainder below 16 bytes stays with it. */
  function Carve(cs: seq<Chunk>, i: nat, need: nat): seq<Chunk>
    requires i < |cs| && cs[i].size >= need
  {
    var c := cs[i];
    if c.size - need < MIN_CHUNK then
      cs[i := Chunk(c.addr, c.size, true)]
    else
      cs[..i] + [Chunk(c.addr, need, true), Chunk(c.addr + need, c.size - need, false)] + cs[i + 1..]
  }

  /** Pages the heap grows by when no chunk fits. */
  function GrowPages(need: nat): (g: nat)
    ensures need + 4096 < 4096 * g <= need + 8192
  {
    need / PAGE + 2
  }

  function Grown(cs: seq<Chunk>, brk: nat, n: nat): seq<Chunk> { cs + [Chunk(brk, n * PAGE, false)] }

  /** The list a request is carved from: grown exactly when no chunk fits. */
  function Supply(cs: seq<Chunk>, brk: nat, need: nat): seq<Chunk>
  {
    if FirstFit(cs, need, 0) < |cs| then cs else Grown(cs, brk, GrowPages(need))
  }

  function SupplyBrk(cs: seq<Chunk>, brk: nat, need: nat): nat
  {
    if FirstFit(cs, need, 0) < |cs| then brk else brk + GrowPages(need) * PAGE
  }

  /** The first used chunk after `i`, or the list's length. */
  function NextUsed(cs: seq<Chunk>, i: nat): (j: nat)
    requires i <= |cs|
    ensures i <= j <= |cs| && (j < |cs| ==> cs[j].used) && forall k :: i <= k < j ==> !cs[k].used
    decreases |cs| - i
  {
    if i == |cs| || cs[i].used then i else NextUsed(cs, i + 1)
  }

  /** Chunks `i` up to `j` replaced by one free chunk. */
  function Merge(cs: seq<Chunk>, i: nat, j: nat): seq<Chunk>
    requires i < j <= |cs| && cs[i].addr <= End(cs[j - 1])
  {
    cs[..i] + [Chunk(cs[i].addr, End(cs[j - 1]) - cs[i].addr, false)] + cs[j..]
  }

  // ---------------------------------------------------------------------------
  // Geometry

  /** Later chunks lie behind earlier ones. */
  lemma {:induction false} ChunksOrdered(cs: seq<Chunk>, brk: nat, i: nat, j: nat)
    requires Tiles(cs, brk) && i < j < |cs|
    ensures End(cs[i]) <= cs[j].addr && End(cs[j]) <= brk
    decreases |cs| - i
  {
    if j == i + 1 {
      if j + 1 < |cs| {
        ChunksOrdered(cs, brk, j, j + 1);
      }
    } else {
      ChunksOrdered(cs, brk, i + 1, j);
    }
  }

  lemma ChunkInHeap(cs: seq<Chunk>, brk: nat, i: nat)
    requires Tiles(cs, brk) && i < |cs|
    ensures End(cs[i]) <= brk
  {
    if i + 1 < |cs| {
      ChunksOrdered(cs, brk, i, i + 1);
    }
  }

  /** The heap's bytes each belong to exactly one chunk: payloads are pairwise disjoint, and no
      payload byte lies in any chunk's header. */
  lemma PayloadsDisjoint(cs: seq<Chunk>, brk: nat, i: nat, j: nat, x: nat)
    requires Tiles(cs, brk) && i < |cs| && j < |cs|
    requires cs[i].addr + HEADER <= x < End(cs[i])
    ensures !(cs[j].addr <= x < cs[j].addr + HEADER)
    ensures i != j ==> !(cs[j].addr <= x < End(cs[j]))
  {
    if i < j {
      ChunksOrdered(cs, brk, i, j);
    } else if j < i {
      ChunksOrdered(cs, brk, j, i);
    }
  }

  // ---------------------------------------------------------------------------
  // What the operations keep

  lemma CarveTiles(cs: seq<Chunk>, brk: nat, i: nat, need: nat)
    requires Tiles(cs, brk) && i < |cs| && cs[i].size >= need >= MIN_CHUNK
    ensures Tiles(Carve(cs, i, need), brk)
  {
    var c, cs' := cs[i], Carve(cs, i, need);
    if c.size - need >= MIN_CHUNK {
      assert forall k :: 0 <= k < i ==> cs'[k] == cs[k];
      assert forall k :: i + 2 <= k < |cs'| ==> cs'[k] == cs[k - 1];
      forall k | 0 < k < |cs'| ensures cs'[k].addr == End(cs'[k - 1]) {
        if k > i + 2 {
          assert cs[k - 1].addr == End(cs[k - 2]);
        } else if k == i + 2 {
          assert cs[i + 1].addr == End(cs[i]);
        }
      }
    }
  }

  lemma GrownTiles(cs: seq<Chunk>, brk: nat, n: nat)
    requires Tiles(cs, brk) && n > 0
    ensures Tiles(Grown(cs, brk, n), brk + n * PAGE)
  {
  }

  lemma MergeTiles(cs: seq<Chunk>, brk: nat, i: nat, j: nat)
    requires Tiles(cs, brk) && i < j <= |cs|
    ensures cs[i].addr < End(cs[j - 1]) && Tiles(Merge(cs, i, j), brk)
  {
    if i < j - 1 {
      ChunksOrdered(cs, brk, i, j - 1);
    }
    var cs', d := Merge(cs, i, j), j - i - 1;
    assert |cs'| == |cs| - d && cs'[..i] == cs[..i];
    assert forall k :: i + 1 <= k < |cs'| ==> cs'[k] == cs[k + d];
    forall k | 0 < k < |cs'| ensures cs'[k].addr == End(cs'[k - 1]) {
      if k > i + 1 {
        var m := k + d;
        assert cs'[k] == cs[m] && cs'[k - 1] == cs[m - 1];
      } else if k == i + 1 {
        assert cs'[k] == cs[j] && cs[j].addr == End(cs[j - 1]);
      } else {
        assert cs'[k - 1] == cs[k - 1];
      }
    }
  }

  /** The chunk taken is the first that is free and large enough.  Without one the heap is grown
      by a free chunk of more than 4096 and at most 8192 bytes above what is needed, else not at
      all; it ends where its last chunk ends. */
  lemma SupplyMeans(cs: seq<Chunk>, brk: nat, need: nat)
    requires Tiles(cs, brk)
    ensures var r, j := Supply(cs, brk, need), FirstFit(cs, need, 0);
      && |r| > 0 && SupplyBrk(cs, brk, need) == End(r[|r| - 1])
      && j < |r| && !r[j].used && r[j].size >= need && (forall k :: 0 <= k < j ==> r[k].used || r[k].size < need)
      && ((exists k :: 0 <= k < |cs| && !cs[k].used && cs[k].size >= need) ==> r == cs)
      && ((forall k :: 0 <= k < |cs| ==> cs[k].used || cs[k].size < need) ==>
            |r| == |cs| + 1 && r[..|cs|] == cs && r[|cs|].addr == brk && !r[|cs|].used && need + 4096 < r[|cs|].size <= need + 8192)
  {
    var j := FirstFit(cs, need, 0);
    if k :| 0 <= k < |cs| && !cs[k].used && cs[k].size >= need {
      assert Fits(cs[k], need);
    }
  }

  /** Allocation touches no live chunk: every used chunk is still there, unchanged, and the only
      new used chunk is the one handed out. */
  lemma CarveKeepsLive(cs: seq<Chunk>, i: nat, need: nat, c: Chunk)
    requires i < |cs| && cs[i].size >= need && !cs[i].used && c.used
    ensures c in Carve(cs, i, need) <==> c in cs || c == Carve(cs, i, need)[i]
    ensures Carve(cs, i, need)[i].addr == cs[i].addr && Carve(cs, i, need)[i].used
    ensures need <= Carve(cs, i, need)[i].size < need + 16
    ensures Carve(cs, i, need)[i].size == if cs[i].size < need + 16 then cs[i].size else need
  {
    var cs' := Carve(cs, i, need);
    if cs[i].size - need >= MIN_CHUNK {
      assert cs == cs[..i] + [cs[i]] + cs[i + 1..];
    } else {
      assert cs == cs[..i] + [cs[i]] + cs[i + 1..];
      assert cs' == cs[..i] + [cs'[i]] + cs[i + 1..];
    }
  }

  lemma ChunkOnce(cs: seq<Chunk>, brk: nat, i: nat, k: nat)
    requires Tiles(cs, brk) && i < |cs| && k < |cs| && i != k
    ensures cs[k] != cs[i]
  {
    if k < i {
      ChunksOrdered(cs, brk, k, i);
    } else {
      ChunksOrdered(cs, brk, i, k);
    }
  }

  /** Freeing touches no other live chunk. */
  lemma MergeKeepsLive(cs: seq<Chunk>, brk: nat, i: nat, j: nat, c: Chunk)
    requires Tiles(cs, brk) && i < j <= |cs| && cs[i].used && c.used && cs[i].addr <= End(cs[j - 1])
    requires forall k :: i < k < j ==> !cs[k].used
    ensures c in Merge(cs, i, j) <==> c in cs && c != cs[i]
  {
    var cs' := Merge(cs, i, j);
    assert c in cs' <==> c in cs[..i] || c in cs[j..];
    if c in cs && c != cs[i] {
      var k :| 0 <= k < |cs| && cs[k] == c;
      assert if k < i then c == cs[..i][k] else c == cs[j..][k - j];
    }
    if c in cs' {
      var k :| 0 <= k < |cs| && k != i && cs[k] == c;
      ChunkOnce(cs, brk, i, k);
    }
  }

  /** The freed chunk reaches up to the next used chunk or the end of the heap. */
  lemma MergeReaches(cs: seq<Chunk>, brk: nat, i: nat)
    requires Tiles(cs, brk) && i < |cs|
    ensures var j := NextUsed(cs, i + 1);
      cs[i].addr < End(cs[j - 1]) && (End(Merge(cs, i, j)[i]) == if j < |cs| then cs[j].addr else brk)
  {
    MergeTiles(cs, brk, i, NextUsed(cs, i + 1));
  }

  // ---------------------------------------------------------------------------
  // Accounting

  /** Bytes in used chunks. */
  function UsedBytes(cs: seq<Chunk>): nat
  {
    if cs == [] then 0 else (if cs[|cs| - 1].used then cs[|cs| - 1].size else 0) + UsedBytes(cs[..|cs| - 1])
  }

  lemma {:induction false} UsedBytesConcat(a: seq<Chunk>, b: seq<Chunk>)
    ensures UsedBytes(a + b) == UsedBytes(a) + UsedBytes(b)
  {
    if b == [] {
      assert a + b == a;
    } else {
      assert (a + b)[..|a + b| - 1] == a + b[..|b| - 1];
      UsedBytesConcat(a, b[..|b| - 1]);
    }
  }

  lemma {:induction false} UnusedBytes(cs: seq<Chunk>)
    requires forall c :: c in cs ==> !c.used
    ensures UsedBytes(cs) == 0
  {
    if cs != [] {
      UnusedBytes(cs[..|cs| - 1]);
    }
  }

  lemma UsedBytesAround(a: seq<Chunk>, b: seq<Chunk>, c: seq<Chunk>)
    ensures UsedBytes(a + b + c) == UsedBytes(a) + UsedBytes(b) + UsedBytes(c)
  {
    UsedBytesConcat(a + b, c);
    UsedBytesConcat(a, b);
  }

  lemma UsedBytesOne(c: Chunk)
    ensures UsedBytes([c]) == if c.used then c.size else 0
  {
    assert [c][..0] == [];
  }

  /** Allocating adds the size of the chunk handed out. */
  lemma CarveUsedBytes(cs: seq<Chunk>, i: nat, need: nat)
    requires i < |cs| && cs[i].size >= need && !cs[i].used
    ensures UsedBytes(Carve(cs, i, need)) == UsedBytes(cs) + Carve(cs, i, need)[i].size
  {
    var cs' := Carve(cs, i, need);
    var a, b, c, c' := cs[..i], cs[i + 1..], cs[i], cs'[i];
    assert cs == a + [c] + b;
    if c.size - need >= MIN_CHUNK {
      assert cs' == a + ([c'] + [cs'[i + 1]]) + b;
    } else {
      assert cs' == a + [c'] + b;
    }
    hide UsedBytes, Carve;
    UsedBytesSwapped(a, c, c', b);
    if c.size - need >= MIN_CHUNK {
      UsedBytesSplit(a, c, c', cs'[i + 1], b);
    }
  }

  lemma UsedBytesSwapped(a: seq<Chunk>, c: Chunk, c': Chunk, b: seq<Chunk>)
    requires !c.used && c'.used
    ensures UsedBytes(a + [c'] + b) == UsedBytes(a + [c] + b) + c'.size
  {
    hide *;
    UsedBytesAround(a, [c], b);
    UsedBytesAround(a, [c'], b);
    UsedBytesOne(c);
    UsedBytesOne(c');
  }

  lemma UsedBytesSplit(a: seq<Chunk>, c: Chunk, c': Chunk, rest: Chunk, b: seq<Chunk>)
    requires !c.used && c'.used && !rest.used
    ensures UsedBytes(a + ([c'] + [rest]) + b) == UsedBytes(a + [c] + b) + c'.size
  {
    hide *;
    UsedBytesSwapped(a, c, c', b);
    UsedBytesAround(a, [c'], b);
    UsedBytesAround(a, [c'] + [rest], b);
    UsedBytesConcat([c'], [rest]);
    UsedBytesOne(rest);
  }

  /** Freeing takes away the size of the chunk freed. */
  lemma MergeUsedBytes(cs: seq<Chunk>, i: nat, j: nat)
    requires i < j <= |cs| && cs[i].addr <= End(cs[j - 1]) && cs[i].used
    requires forall k :: i < k < j ==> !cs[k].used
    ensures UsedBytes(cs) == UsedBytes(Merge(cs, i, j)) + cs[i].size
  {
    hide UsedBytes;
    var a, b, c := cs[..i], cs[i + 1..j], cs[j..];
    assert cs == a + ([cs[i]] + b) + c;
    assert Merge(cs, i, j) == a + [Merge(cs, i, j)[i]] + c;
    ReplacedBytes(a, cs[i], b, Merge(cs, i, j)[i], c);
  }

  /** A used chunk and the unused ones behind it replaced by one unused chunk. */
  lemma ReplacedBytes(a: seq<Chunk>, x: Chunk, b: seq<Chunk>, m: Chunk, c: seq<Chunk>)
    requires x.used && !m.used && forall y :: y in b ==> !y.used
    ensures UsedBytes(a + ([x] + b) + c) == UsedBytes(a + [m] + c) + x.size
  {
    UsedBytesAround(a, [x] + b, c);
    UsedBytesAround(a, [m], c);
    UsedBytesConcat([x], b);
    UsedBytesOne(x);
    UsedBytesOne(m);
    UnusedBytes(b);
  }

  // ---------------------------------------------------------------------------
  // Whole runs

  /** `live` remembers the chunks handed out and not yet freed. */
  datatype HeapState = HeapState(cs: seq<Chunk>, brk: nat, live: set<Chunk>)

  datatype Op = Alloc(need: nat) | Free(i: nat)

  predicate Possible(h: HeapState, op: Op)
  {
    match op
    case Alloc(need) => need >= MIN_CHUNK
    case Free(i) => i < |h.cs| && h.cs[i].used && h.cs[i].addr <= End(h.cs[NextUsed(h.cs, i + 1) - 1])
  }

  function Apply(h: HeapState, op: Op): HeapState
    requires Possible(h, op)
  {
    match op
    case Alloc(need) =>
      var supply, i := Supply(h.cs, h.brk, need), FirstFit(h.cs, need, 0);
      var cs' := Carve(supply, i, need);
      HeapState(cs', SupplyBrk(h.cs, h.brk, need), h.live + {cs'[i]})
    case Free(i) =>
      HeapState(Merge(h.cs, i, NextUsed(h.cs, i + 1)), h.brk, h.live - {h.cs[i]})
  }

  ghost predicate Sound(h: HeapState)
  {
    Tiles(h.cs, h.brk) && forall c :: c in h.live <==> c in h.cs && c.used
  }

  /** The heap as kheap_init leaves it: one page, one free chunk, nothing handed out. */
  lemma BootSound()
    ensures Sound(HeapState([Chunk(0, 4096, false)], 4096, {}))
  {
  }

  lemma AllocSound(h: HeapState, need: nat)
    requires Sound(h) && need >= MIN_CHUNK
    ensures Sound(Apply(h, Alloc(need)))
  {
    var supply, i, brk := Supply(h.cs, h.brk, need), FirstFit(h.cs, need, 0), SupplyBrk(h.cs, h.brk, need);
    if i == |h.cs| {
      GrownTiles(h.cs, h.brk, GrowPages(need));
    }
    CarveTiles(supply, brk, i, need);
    forall c: Chunk ensures c in Apply(h, Alloc(need)).live <==> c in Carve(supply, i, need) && c.used {
      if c.used {
        CarveKeepsLive(supply, i, need, c);
      } else {
        CarveKeepsLive(supply, i, need, Chunk(0, 0, true));
      }
    }
  }

  lemma FreeSound(h: HeapState, i: nat)
    requires Sound(h) && Possible(h, Free(i))
    ensures Sound(Apply(h, Free(i)))
  {
    var j := NextUsed(h.cs, i + 1);
    MergeTiles(h.cs, h.brk, i, j);
    forall c: Chunk ensures c in Apply(h, Free(i)).live <==> c in Merge(h.cs, i, j) && c.used {
      if c.used {
        MergeKeepsLive(h.cs, h.brk, i, j, c);
      }
    }
  }

  ghost predicate Runs(h: HeapState, ops: seq<Op>)
    decreases |ops|
  {
    ops == [] || (Possible(h, ops[0]) && Runs(Apply(h, ops[0]), ops[1..]))
  }

  ghost function After(h: HeapState, ops: seq<Op>): HeapState
    requires Runs(h, ops)
    decreases |ops|
  {
    if ops == [] then h else After(Apply(h, ops[0]), ops[1..])
  }

  /** After any sequence of allocations and frees the chunks tile the heap, and the used chunks
      are exactly those handed out and not freed. */
  lemma {:induction false} RunSound(h: HeapState, ops: seq<Op>)
    requires Sound(h) && Runs(h, ops)
    ensures Sound(After(h, ops))
    decreases |ops|
  {
    if ops != [] {
      match ops[0]
      case Alloc(need) => AllocSound(h, need);
      case Free(i) => FreeSound(h, i);
    }
    if ops != [] {
      RunSound(Apply(h, ops[0]), ops[1..]);
    }
  }

  /** Hence blocks handed out never overlap and never leave the heap. */
  lemma LiveBlocksDisjoint(h: HeapState, ops: seq<Op>, c: Chunk, d: Chunk)
    requires Sound(h) && Runs(h, ops)
    requires c in After(h, ops).live && d in After(h, ops).live && c != d
    ensures End(c) <= d.addr || End(d) <= c.addr
    ensures End(c) <= After(h, ops).brk
  {
    RunSound(h, ops);
    var cs, brk := After(h, ops).cs, After(h, ops).brk;
    var i :| 0 <= i < |cs| && cs[i] == c;
    var j :| 0 <= j < |cs| && cs[j] == d;
    ChunkInHeap(cs, brk, i);
    if i < j {
      ChunksOrdered(cs, brk, i, j);
    } else {
      ChunksOrdered(cs, brk, j, i);
    }
  }
}
