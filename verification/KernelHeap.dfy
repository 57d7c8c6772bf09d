/** The first-fit kernel heap of src/mm/alloc.c, on bytes: chunk headers live in the same
    memory as the payloads.  The chunk list of `HeapChunks` is what the headers spell out.
    Addresses are offsets from KERN_HEAP_BEGIN. */
module KernelHeap {
  import opened HeapChunks

  // KERN_HEAP_END - KERN_HEAP_BEGIN
  const LIMIT := 0x3E00_0000
  const SIZE_BITS := 0x8000_0000    // the size field has 31 bits, the used flag is above it

  type Byte = b: int | 0 <= b < 256

  // ---------------------------------------------------------------------------
  // Headers in memory: a little-endian 32-bit word

  function WordAt(m: seq<Byte>, a: nat): nat
    requires a + HEADER <= |m|
  {
    m[a] as int + 0x100 * (m[a + 1] as int) + 0x1_0000 * (m[a + 2] as int) + 0x100_0000 * (m[a + 3] as int)
  }

  function SizeAt(m: seq<Byte>, a: nat): nat
    requires a + HEADER <= |m|
  {
    WordAt(m, a) % SIZE_BITS
  }

  predicate UsedAt(m: seq<Byte>, a: nat)
    requires a + HEADER <= |m|
  {
    WordAt(m, a) >= SIZE_BITS
  }

  function PutHeader(m: seq<Byte>, a: nat, size: nat, used: bool): (m': seq<Byte>)
    requires a + HEADER <= |m| && size < SIZE_BITS
    ensures |m'| == |m| && SameOutside(m, m', a, a + HEADER)
  {
    var w := if used then size + SIZE_BITS else size;
    m[a := w % 0x100][a + 1 := w / 0x100 % 0x100][a + 2 := w / 0x1_0000 % 0x100][a + 3 := w / 0x100_0000]
  }

  /** Only bytes in [lo, hi) may differ. */
  predicate SameOutside(m: seq<Byte>, m': seq<Byte>, lo: nat, hi: nat)
  {
    |m'| == |m| && forall x :: 0 <= x < |m| && !(lo <= x < hi) ==> m'[x] == m[x]
  }

  lemma SameTwice(m: seq<Byte>, m1: seq<Byte>, m2: seq<Byte>, lo: nat, hi: nat)
    requires SameOutside(m, m1, lo, hi) && SameOutside(m1, m2, lo, hi)
    ensures SameOutside(m, m2, lo, hi)
  {
  }

  lemma WordBytes(w: nat)
    requires w < 0x1_0000_0000
    ensures w == w % 0x100 + 0x100 * (w / 0x100 % 0x100) + 0x1_0000 * (w / 0x1_0000 % 0x100) + 0x100_0000 * (w / 0x100_0000)
  {
    assert w / 0x1_0000 == w / 0x100 / 0x100;
    assert w / 0x100_0000 == w / 0x1_0000 / 0x100;
  }

  /** A header reads back as written. */
  lemma HeaderRoundTrip(m: seq<Byte>, a: nat, size: nat, used: bool)
    requires a + HEADER <= |m| && size < SIZE_BITS
    ensures SizeAt(PutHeader(m, a, size, used), a) == size && UsedAt(PutHeader(m, a, size, used), a) == used
    ensures WordAt(PutHeader(m, a, size, used), a) == size + if used then 0x8000_0000 else 0
  {
    var w := if used then size + SIZE_BITS else size;
    WordBytes(w);
    assert WordAt(PutHeader(m, a, size, used), a) == w;
  }

  /** The headers in memory spell out the chunk list. */
  ghost predicate Headers(m: seq<Byte>, cs: seq<Chunk>)
  {
    forall i :: 0 <= i < |cs| ==> HeaderIs(m, cs[i])
  }

  predicate HeaderIs(m: seq<Byte>, c: Chunk)
  {
    c.addr + HEADER <= |m| && SizeAt(m, c.addr) == c.size && UsedAt(m, c.addr) == c.used
  }

  lemma HeaderElsewhere(m: seq<Byte>, m': seq<Byte>, lo: nat, hi: nat, c: Chunk)
    requires SameOutside(m, m', lo, hi) && HeaderIs(m, c) && (End(c) <= lo || hi <= c.addr) && c.size >= HEADER
    ensures HeaderIs(m', c)
  {
  }

  /** Changing bytes inside chunk `i` leaves every other chunk's header and payload alone. */
  lemma OtherChunksSame(m: seq<Byte>, m': seq<Byte>, cs: seq<Chunk>, brk: nat, i: nat, k: nat)
    requires Tiles(cs, brk) && brk == |m| && Headers(m, cs) && i < |cs| && k < |cs| && i != k
    requires SameOutside(m, m', cs[i].addr, End(cs[i]))
    ensures HeaderIs(m', cs[k]) && End(cs[k]) <= |m| == |m'| && m'[cs[k].addr..End(cs[k])] == m[cs[k].addr..End(cs[k])]
  {
    ChunkInHeap(cs, brk, k);
    if k < i {
      ChunksOrdered(cs, brk, k, i);
    } else {
      ChunksOrdered(cs, brk, i, k);
    }
    HeaderElsewhere(m, m', cs[i].addr, End(cs[i]), cs[k]);
  }

  /** Payload bytes of live chunks survive. */
  ghost predicate PayloadsKept(m: seq<Byte>, m': seq<Byte>, cs: seq<Chunk>, except: int)
  {
    forall k :: 0 <= k < |cs| && k != except && cs[k].used && End(cs[k]) <= |m| && End(cs[k]) <= |m'|
      ==> m'[cs[k].addr..End(cs[k])] == m[cs[k].addr..End(cs[k])]
  }

  lemma SamePrefix(m: seq<Byte>, m': seq<Byte>, m2: seq<Byte>)
    requires |m| <= |m'| && m'[..|m|] == m && SameOutside(m', m2, |m|, |m| + HEADER)
    ensures |m2| == |m'| && m2[..|m|] == m && forall x :: 0 <= x < |m| ==> m2[x] == m[x]
  {
    assert forall x :: 0 <= x < |m| ==> m2[x] == m'[x] == m'[..|m|][x];
  }

  /** Marking chunk `i` used whole, or splitting it, in memory. */
  function CarveBytes(m: seq<Byte>, c: Chunk, need: nat): (m': seq<Byte>)
    requires MIN_CHUNK <= need <= c.size && End(c) <= |m| && c.size < SIZE_BITS
    ensures SameOutside(m, m', c.addr, End(c))
  {
    if c.size - need < MIN_CHUNK then PutHeader(m, c.addr, c.size, true)
    else PutHeader(PutHeader(m, c.addr + need, c.size - need, false), c.addr, need, true)
  }

  lemma CarvedHeader(m: seq<Byte>, c: Chunk, need: nat)
    requires MIN_CHUNK <= need <= c.size && End(c) <= |m| && c.size < SIZE_BITS
    ensures var m' := CarveBytes(m, c, need);
      if c.size - need < MIN_CHUNK then HeaderIs(m', Chunk(c.addr, c.size, true))
      else HeaderIs(m', Chunk(c.addr, need, true)) && HeaderIs(m', Chunk(c.addr + need, c.size - need, false))
  {
    hide PutHeader, SizeAt, UsedAt;
    if c.size - need < MIN_CHUNK {
      HeaderRoundTrip(m, c.addr, c.size, true);
    } else {
      var m1 := PutHeader(m, c.addr + need, c.size - need, false);
      HeaderRoundTrip(m, c.addr + need, c.size - need, false);
      HeaderRoundTrip(m1, c.addr, need, true);
      HeaderElsewhere(m1, CarveBytes(m, c, need), c.addr, c.addr + HEADER, Chunk(c.addr + need, c.size - need, false));
    }
  }

  /** The carved memory spells out the carved list, and other chunks keep their bytes. */
  lemma CarveHeaders(m: seq<Byte>, cs: seq<Chunk>, i: nat, need: nat)
    requires Tiles(cs, |m|) && Headers(m, cs) && |m| < SIZE_BITS && i < |cs| && MIN_CHUNK <= need <= cs[i].size
    ensures End(cs[i]) <= |m|
    ensures Headers(CarveBytes(m, cs[i], need), Carve(cs, i, need))
    ensures PayloadsKept(m, CarveBytes(m, cs[i], need), cs, i)
  {
    hide HeaderIs, CarveBytes, SameOutside;
    ChunkInHeap(cs, |m|, i);
    var c, cs' := cs[i], Carve(cs, i, need);
    var m' := CarveBytes(m, c, need);
    forall k | 0 <= k < |cs| && k != i
      ensures HeaderIs(m', cs[k]) && End(cs[k]) <= |m| == |m'| && m'[cs[k].addr..End(cs[k])] == m[cs[k].addr..End(cs[k])]
    {
      OtherChunksSame(m, m', cs, |m|, i, k);
    }
    CarvedHeader(m, c, need);
    CarvedList(m', cs, i, need);
  }

  lemma CarvedList(m: seq<Byte>, cs: seq<Chunk>, i: nat, need: nat)
    requires i < |cs| && cs[i].size >= need
    requires forall k :: 0 <= k < |cs| && k != i ==> HeaderIs(m, cs[k])
    requires var c := cs[i];
      if c.size - need < MIN_CHUNK then HeaderIs(m, Chunk(c.addr, c.size, true))
      else HeaderIs(m, Chunk(c.addr, need, true)) && HeaderIs(m, Chunk(c.addr + need, c.size - need, false))
    ensures Headers(m, Carve(cs, i, need))
  {
    hide HeaderIs;
    var cs' := Carve(cs, i, need);
    forall k | 0 <= k < |cs'| ensures HeaderIs(m, cs'[k]) {
      if cs[i].size - need >= MIN_CHUNK && k > i + 1 {
        assert cs'[k] == cs[k - 1];
      }
    }
  }

  /** Everything taking chunk `i` keeps. */
  lemma Taken(m: seq<Byte>, cs: seq<Chunk>, i: nat, need: nat)
    requires Tiles(cs, |m|) && Headers(m, cs) && |m| <= LIMIT && i < |cs| && Fits(cs[i], need) && need >= MIN_CHUNK
    ensures End(cs[i]) <= |m| && cs[i].addr + HEADER <= |m| && SizeAt(m, cs[i].addr) == cs[i].size
    ensures var m', cs' := CarveBytes(m, cs[i], need), Carve(cs, i, need);
      && |m'| == |m| && Tiles(cs', |m'|) && Headers(m', cs') && PayloadsKept(m, m', cs, i)
      && i < |cs'| && need <= cs'[i].size < need + MIN_CHUNK && UsedBytes(cs') == UsedBytes(cs) + cs'[i].size
  {
    hide UsedBytes, CarveBytes;
    assert HeaderIs(m, cs[i]);
    CarveHeaders(m, cs, i, need);
    CarveTiles(cs, |m|, i, need);
    CarveUsedBytes(cs, i, need);
  }

  /** Appending pages and writing a free header at their start. */
  lemma GrownHeaders(m: seq<Byte>, m': seq<Byte>, cs: seq<Chunk>, n: nat)
    requires Tiles(cs, |m|) && Headers(m, cs) && n > 0 && |m'| == |m| + n * PAGE < SIZE_BITS && m'[..|m|] == m
    ensures var m2, cs2 := PutHeader(m', |m|, n * PAGE, false), Grown(cs, |m|, n);
      Tiles(cs2, |m2|) && Headers(m2, cs2) && UsedBytes(cs2) == UsedBytes(cs) && m2[..|m|] == m
  {
    hide UsedBytes, PutHeader, SameOutside;
    var m2, cs2 := PutHeader(m', |m|, n * PAGE, false), Grown(cs, |m|, n);
    assert SameOutside(m', m2, |m|, |m| + HEADER);
    GrownTiles(cs, |m|, n);
    HeaderRoundTrip(m', |m|, n * PAGE, false);
    UsedBytesConcat(cs, [cs2[|cs|]]);
    UsedBytesOne(cs2[|cs|]);
    SamePrefix(m, m', m2);
    forall i | 0 <= i < |cs| ensures HeaderIs(m2, cs[i]) {
      ChunkInHeap(cs, |m|, i);
    }
  }

  /** What the header of chunk `i` says, and where it leads. */
  lemma ReadChunk(m: seq<Byte>, cs: seq<Chunk>, i: nat)
    requires Tiles(cs, |m|) && Headers(m, cs) && i < |cs|
    ensures HeaderIs(m, cs[i]) && cs[i].size >= MIN_CHUNK && End(cs[i]) <= |m| && (i == 0 ==> cs[i].addr == 0)
    ensures if i + 1 == |cs| then End(cs[i]) == |m| else cs[i + 1].addr == End(cs[i]) < |m|
  {
    ChunkInHeap(cs, |m|, i);
    if i + 1 < |cs| {
      ChunkInHeap(cs, |m|, i + 1);
    }
  }

  /** Rewriting the header of chunk `i` leaves the header of a later chunk. */
  lemma LaterHeader(m: seq<Byte>, m': seq<Byte>, cs: seq<Chunk>, i: nat, j: nat)
    requires Tiles(cs, |m|) && Headers(m, cs) && i < j < |cs| && SameOutside(m, m', cs[i].addr, cs[i].addr + HEADER)
    ensures HeaderIs(m', cs[j])
  {
    ChunksOrdered(cs, |m|, i, j);
    HeaderElsewhere(m, m', cs[i].addr, cs[i].addr + HEADER, cs[j]);
  }

  /** The merged memory spells out the merged list. */
  lemma MergedHeaders(m: seq<Byte>, m': seq<Byte>, cs: seq<Chunk>, i: nat, j: nat)
    requires Tiles(cs, |m|) && Headers(m, cs) && i < j <= |cs| && SameOutside(m, m', cs[i].addr, cs[i].addr + HEADER)
    requires cs[i].addr <= End(cs[j - 1]) && HeaderIs(m', Chunk(cs[i].addr, End(cs[j - 1]) - cs[i].addr, false))
    ensures Headers(m', Merge(cs, i, j)) && PayloadsKept(m, m', cs, i)
  {
    hide HeaderIs;
    var cs', d := Merge(cs, i, j), j - i - 1;
    ChunkInHeap(cs, |m|, i);
    assert SameOutside(m, m', cs[i].addr, End(cs[i]));
    forall k | 0 <= k < |cs| && k != i
      ensures HeaderIs(m', cs[k]) && End(cs[k]) <= |m| == |m'| && m'[cs[k].addr..End(cs[k])] == m[cs[k].addr..End(cs[k])]
    {
      OtherChunksSame(m, m', cs, |m|, i, k);
    }
    forall k | 0 <= k < |cs'| ensures HeaderIs(m', cs'[k]) {
      if k > i {
        assert cs'[k] == cs[k + d];
      }
    }
  }

  lemma CarveAt(cs: seq<Chunk>, i: nat, need: nat)
    requires i < |cs| && cs[i].size >= need
    ensures i < |Carve(cs, i, need)| && Carve(cs, i, need)[i].addr == cs[i].addr
  {
  }

  lemma SliceOfTake(m: seq<Byte>, n: nat, a: nat, b: nat)
    requires a <= b <= n <= |m|
    ensures m[..n][a..b] == m[a..b]
  {
  }

  /** Payloads survive growing and carving: the carved chunk was free. */
  lemma KeptThroughGrowth(m: seq<Byte>, m1: seq<Byte>, m2: seq<Byte>, cs: seq<Chunk>, need: nat, i: nat)
    requires |m| <= |m1| && m1[..|m|] == m && |m2| == |m1|
    requires i == FirstFit(cs, need, 0) && PayloadsKept(m1, m2, Supply(cs, |m|, need), i)
    ensures PayloadsKept(m, m2, cs, -1)
  {
    var supply := Supply(cs, |m|, need);
    forall k | 0 <= k < |cs| && cs[k].used && End(cs[k]) <= |m|
      ensures m2[cs[k].addr..End(cs[k])] == m[cs[k].addr..End(cs[k])]
    {
      assert supply[k] == cs[k] && k != i;
      SliceOfTake(m1, |m|, cs[k].addr, End(cs[k]));
    }
  }

  lemma {:induction false} NextUsedIs(cs: seq<Chunk>, i: nat, j: nat)
    requires i <= j <= |cs| && (j < |cs| ==> cs[j].used) && forall k :: i <= k < j ==> !cs[k].used
    ensures NextUsed(cs, i) == j
  {
  }

  // ---------------------------------------------------------------------------

  datatype Outcome =
    | Null
    | Block(addr: nat)
    | Fault          // walked onto the unmapped page at the end of the heap
    | Stray          // walked past KERN_HEAP_END, where user memory begins
    | Panic          // no physical frame left

  class Heap {
    var bytes: seq<Byte>          // mapped heap memory; its length is m_kheap
    var heapUsed: int
    var numAllocs: nat
    var freeFrames: nat           // frames the page allocator can still give
    ghost var chunks: seq<Chunk>
    ghost var slack: nat          // bytes handed out in chunks but not counted in heapUsed

    ghost predicate Valid()
      reads this
    {
      Layout() && slack <= 15 * numAllocs
    }

    ghost predicate Layout()
      reads this
    {
      && |bytes| <= LIMIT && Tiles(chunks, |bytes|) && Headers(bytes, chunks)
      && heapUsed == UsedBytes(chunks) - slack
    }

    /** kheap_init: one page, one free chunk. */
    constructor (page: seq<Byte>, frames: nat)
      requires |page| == PAGE
      ensures Valid() && chunks == [Chunk(0, 4096, false)] && heapUsed == 0 && freeFrames == frames
    {
      bytes := PutHeader(page, 0, PAGE, false);
      chunks := [Chunk(0, PAGE, false)];
      heapUsed, numAllocs, freeFrames, slack := 0, 0, frames, 0;
      new;
      HeaderRoundTrip(page, 0, PAGE, false);
      UsedBytesOne(Chunk(0, PAGE, false));
    }

    /** The mapping loop of ksbrk_page: `n` frames appended with whatever they hold. */
    method MapPages(n: nat) returns (ok: bool)
      modifies this`bytes, this`freeFrames
      ensures ok <==> n <= old(freeFrames)
      ensures ok ==> |bytes| == |old(bytes)| + n * PAGE && bytes[..|old(bytes)|] == old(bytes)
      ensures ok ==> freeFrames == old(freeFrames) - n
    {
      var base := |bytes|;
      for i := 0 to n
        invariant freeFrames == old(freeFrames) - i && |bytes| == base + i * PAGE
        invariant bytes[..base] == old(bytes)
      {
        if freeFrames == 0 {
          return false;
        }
        freeFrames := freeFrames - 1;
        ghost var zeros: seq<Byte> := seq(PAGE, _ => 0);
        assert |zeros| == PAGE;
        var stale: seq<Byte> :| |stale| == PAGE;
        bytes := bytes + stale;
      }
      ok := true;
    }

    /** ksbrk_page.  False when the limit would be passed (which kmalloc does not notice) or no
        frame is left (which panics). */
    method GrowHeap(n: nat) returns (ok: bool)
      requires Valid() && n > 0
      modifies this`bytes, this`freeFrames, this`chunks
      ensures ok <==> |old(bytes)| + n * PAGE <= LIMIT && n <= old(freeFrames)
      ensures |old(bytes)| + n * PAGE > LIMIT ==> bytes == old(bytes) && chunks == old(chunks) && freeFrames == old(freeFrames)
      ensures ok ==> Valid() && chunks == Grown(old(chunks), |old(bytes)|, n) && |bytes| == |old(bytes)| + n * PAGE
      ensures ok ==> bytes[..|old(bytes)|] == old(bytes) && freeFrames == old(freeFrames) - n
    {
      if |bytes| + n * PAGE > LIMIT {
        return false;
      }
      var base := |bytes|;
      ok := MapPages(n);
      if ok {
        GrownHeaders(old(bytes), bytes, chunks, n);
        bytes := PutHeader(bytes, base, n * PAGE, false);
        chunks := Grown(chunks, base, n);
      }
    }

    /** kmalloc.  First fit; the heap grows at most once and only when nothing fits.  The ways to
        fail are the ones the code does not survive: no room below KERN_HEAP_END, the heap grown
        up to it, or no frame left. */
    method Kmalloc(size: nat) returns (r: Outcome)
      requires Valid() && size < SIZE_BITS - 4 * PAGE
      modifies this
      ensures size == 0 ==> r == Null && Valid() && chunks == old(chunks) && bytes == old(bytes)
      ensures size > 0 ==>
        var need := Need(size); var fits := FirstFit(old(chunks), need, 0) < |old(chunks)|;
        var top := |old(bytes)| + GrowPages(need) * PAGE;
        && (r.Fault? <==> !fits && top > LIMIT && |old(bytes)| < LIMIT)
        && (r.Stray? <==> !fits && |old(bytes)| == LIMIT)
        && (r.Panic? <==> !fits && top <= LIMIT && GrowPages(need) > old(freeFrames))
        && (r.Block? <==> !r.Fault? && !r.Stray? && !r.Panic?)
      ensures r.Block? ==>
        var need := Need(size); var i := FirstFit(old(chunks), need, 0);
        var supply := Supply(old(chunks), |old(bytes)|, need);
        && Valid() && i < |supply| && chunks == Carve(supply, i, need) && |bytes| == SupplyBrk(old(chunks), |old(bytes)|, need)
        && r.addr == chunks[i].addr + 4 && heapUsed == old(heapUsed) + need
        && PayloadsKept(old(bytes), bytes, old(chunks), -1)
    {
      if size == 0 {
        return Null;
      }
      numAllocs := numAllocs + 1;
      var need := if HEADER + size < MIN_CHUNK then MIN_CHUNK else HEADER + size;
      ghost var i;
      hide Tiles, Headers, UsedBytes, PayloadsKept, Carve, FirstFit, Supply, SupplyBrk, Fits;
      r, i := FindChunk(need);
      if r.Block? {
        TakeFound(r.addr - HEADER, need, i, old(bytes), old(chunks));
      }
    }

    /** The chunk found is taken; `m` and `cs` are the heap before the search. */
    method TakeFound(chunk: nat, need: nat, ghost i: nat, ghost m: seq<Byte>, ghost cs: seq<Chunk>)
      requires Layout() && numAllocs > 0 && slack <= 15 * (numAllocs - 1) && need >= MIN_CHUNK
      requires i == FirstFit(cs, need, 0) < |chunks| && chunk == chunks[i].addr && Fits(chunks[i], need)
      requires chunks == Supply(cs, |m|, need) && |m| <= |bytes| && bytes[..|m|] == m
      modifies this`bytes, this`chunks, this`slack, this`heapUsed
      ensures Valid() && chunks == Carve(old(chunks), i, need) && i < |chunks| && chunks[i].addr == chunk
      ensures |bytes| == |old(bytes)| && heapUsed == old(heapUsed) + need && PayloadsKept(m, bytes, cs, -1)
    {
      hide Tiles, Headers, UsedBytes, PayloadsKept, Carve, FirstFit, Supply;
      TakeChunk(chunk, need, i);
      CarveAt(old(chunks), i, need);
      KeptThroughGrowth(m, old(bytes), bytes, cs, need, i);
    }

    /** The search loop of kmalloc, growing the heap when it runs off the last chunk. */
    method FindChunk(need: nat) returns (r: Outcome, ghost i: nat)
      requires Valid() && MIN_CHUNK <= need < SIZE_BITS
      modifies this`bytes, this`freeFrames, this`chunks
      ensures var fits := FirstFit(old(chunks), need, 0) < |old(chunks)|; var top := |old(bytes)| + GrowPages(need) * PAGE;
        && (r.Fault? <==> !fits && top > LIMIT && |old(bytes)| < LIMIT)
        && (r.Stray? <==> !fits && |old(bytes)| == LIMIT)
        && (r.Panic? <==> !fits && top <= LIMIT && GrowPages(need) > old(freeFrames))
        && (r.Block? <==> !r.Fault? && !r.Stray? && !r.Panic?)
      ensures r.Block? ==> Valid() && i == FirstFit(old(chunks), need, 0) < |chunks| && Fits(chunks[i], need)
      ensures r.Block? ==> chunks == Supply(old(chunks), |old(bytes)|, need) && |bytes| == SupplyBrk(old(chunks), |old(bytes)|, need)
      ensures r.Block? ==> r.addr == chunks[i].addr + HEADER && |old(bytes)| <= |bytes| && bytes[..|old(bytes)|] == old(bytes)
    {
      assert |chunks| > 0;
      hide Tiles, Headers, UsedBytes, SizeAt, UsedAt, FirstFit;
      var chunk: nat := 0;
      i := 0;
      ReadChunk(bytes, chunks, 0);
      while UsedAt(bytes, chunk) || SizeAt(bytes, chunk) < need
        invariant i < |chunks| && chunk == chunks[i].addr && HeaderIs(bytes, chunks[i])
        invariant forall k :: 0 <= k < i ==> !Fits(chunks[k], need)
        invariant Valid() && bytes == old(bytes) && chunks == old(chunks) && freeFrames == old(freeFrames)
        decreases |chunks| - i
      {
        // The "null size" panic needs a chunk of size 0, the "out of limit" panic one that
        // reaches past the heap; the tiling has neither.
        ReadChunk(bytes, chunks, i);
        assert SizeAt(bytes, chunk) != 0 && chunk + SizeAt(bytes, chunk) <= |bytes|;
        chunk := chunk + SizeAt(bytes, chunk);
        i := i + 1;
        if chunk == |bytes| {
          r := GrowFor(need, chunk);
          return;
        }
        ReadChunk(bytes, chunks, i);
      }
      r := Block(chunk + HEADER);
    }

    /** The search has passed the last chunk, which is at `chunk`. */
    method GrowFor(need: nat, chunk: nat) returns (r: Outcome)
      requires Valid() && MIN_CHUNK <= need < SIZE_BITS && chunk == |bytes|
      requires forall k :: 0 <= k < |chunks| ==> !Fits(chunks[k], need)
      modifies this`bytes, this`freeFrames, this`chunks
      ensures var top := |old(bytes)| + GrowPages(need) * PAGE;
        && (r.Fault? <==> top > LIMIT && |old(bytes)| < LIMIT)
        && (r.Stray? <==> |old(bytes)| == LIMIT)
        && (r.Panic? <==> top <= LIMIT && GrowPages(need) > old(freeFrames))
        && (r.Block? <==> !r.Fault? && !r.Stray? && !r.Panic?)
      ensures r.Block? ==> Valid() && chunks == Grown(old(chunks), |old(bytes)|, GrowPages(need)) && r.addr == chunk + HEADER
      ensures r.Block? ==> |bytes| == |old(bytes)| + GrowPages(need) * PAGE && bytes[..|old(bytes)|] == old(bytes)
      ensures r.Block? ==> Fits(chunks[|old(chunks)|], need)
    {
      hide Tiles, Headers, UsedBytes;
      var n := need / PAGE + 2;
      var over, full := |bytes| + n * PAGE > LIMIT, |bytes| == LIMIT;
      var ok := GrowHeap(n);
      if !ok {
        return if full then Stray else if over then Fault else Panic;
      }
      // The new chunk is free and large enough, so the search stops on it.
      ReadChunk(bytes, chunks, |chunks| - 1);
      assert !UsedAt(bytes, chunk) && SizeAt(bytes, chunk) >= need;
      r := Block(chunk + HEADER);
    }

    /** Marks the chunk used, splitting off the rest when that is at least 16 bytes. */
    method TakeChunk(chunk: nat, need: nat, ghost i: nat)
      requires Layout() && numAllocs > 0 && slack <= 15 * (numAllocs - 1)
      requires i < |chunks| && chunk == chunks[i].addr && Fits(chunks[i], need) && need >= MIN_CHUNK
      modifies this`bytes, this`chunks, this`slack, this`heapUsed
      ensures Valid() && chunks == Carve(old(chunks), i, need) && |bytes| == |old(bytes)|
      ensures heapUsed == old(heapUsed) + need && PayloadsKept(old(bytes), bytes, old(chunks), i)
    {
      hide UsedBytes, Tiles, Headers, PayloadsKept, Carve, SizeAt;
      Taken(bytes, chunks, i, need);
      ghost var m := bytes;
      var size := SizeAt(bytes, chunk);
      if size - need < MIN_CHUNK {
        bytes := PutHeader(bytes, chunk, size, true);
      } else {
        bytes := PutHeader(bytes, chunk + need, size - need, false);
        bytes := PutHeader(bytes, chunk, need, true);
      }
      assert bytes == CarveBytes(m, chunks[i], need);
      heapUsed := heapUsed + need;
      chunks := Carve(chunks, i, need);
      slack := slack + (chunks[i].size - need);
    }

    /** kfree of the payload of chunk `i`, or of -1.  Freeing a chunk that is not in use, or -1,
        does nothing.  Otherwise the chunk swallows the free chunks behind it. */
    method Kfree(addr: int, ghost i: nat)
      requires Valid() && (addr == -1 || (i < |chunks| && addr == chunks[i].addr + 4))
      modifies this`bytes, this`heapUsed, this`chunks
      ensures Valid()
      ensures addr == -1 || !old(chunks)[i].used ==> bytes == old(bytes) && chunks == old(chunks) && heapUsed == old(heapUsed)
      ensures addr != -1 && old(chunks)[i].used ==>
        var cs := old(chunks); var j := NextUsed(cs, i + 1);
        && cs[i].addr <= End(cs[j - 1]) && chunks == Merge(cs, i, j)
        && |bytes| == |old(bytes)| && heapUsed == old(heapUsed) - cs[i].size
        && PayloadsKept(old(bytes), bytes, cs, i)
    {
      if addr == -1 {
        return;
      }
      var chunk := addr - HEADER;
      ReadChunk(bytes, chunks, i);
      if !UsedAt(bytes, chunk) {
        return;
      }
      hide Tiles, Headers, UsedBytes, PayloadsKept, SizeAt, UsedAt, HeaderIs;
      ghost var m, cs := bytes, chunks;
      heapUsed := heapUsed - SizeAt(bytes, chunk);
      ghost var j := MergeChunks(chunk, i);
      MergeUsedBytes(cs, i, j);
      chunks := Merge(cs, i, j);
    }

    /** Clears the used flag and absorbs the free chunks that follow.  Only the header of chunk
        `i` is written. */
    method MergeChunks(chunk: nat, ghost i: nat) returns (ghost j: nat)
      requires Tiles(chunks, |bytes|) && Headers(bytes, chunks) && |bytes| <= LIMIT && i < |chunks| && chunk == chunks[i].addr
      modifies this`bytes
      ensures |bytes| == |old(bytes)| && j == NextUsed(chunks, i + 1) && chunks[i].addr < End(chunks[j - 1])
      ensures Tiles(Merge(chunks, i, j), |bytes|) && Headers(bytes, Merge(chunks, i, j))
      ensures PayloadsKept(old(bytes), bytes, chunks, i)
    {
      hide Tiles, Headers, PayloadsKept, NextUsed, Merge, SizeAt, UsedAt, PutHeader, SameOutside;
      ghost var m, cs := bytes, chunks;
      ReadChunk(m, cs, i);
      HeaderRoundTrip(bytes, chunk, SizeAt(bytes, chunk), false);
      bytes := PutHeader(bytes, chunk, SizeAt(bytes, chunk), false);
      if i + 1 < |cs| {
        LaterHeader(m, bytes, cs, i, i + 1);
      }
      j := i + 1;
      var other := chunk + SizeAt(bytes, chunk);
      while other < |bytes| && !UsedAt(bytes, other)
        invariant i < j <= |cs| && chunk <= other == End(cs[j - 1]) <= |bytes| == |m| && (other < |m| <==> j < |cs|)
        invariant j < |cs| ==> HeaderIs(bytes, cs[j]) && cs[j].addr == other
        invariant SameOutside(m, bytes, chunk, chunk + HEADER)
        invariant HeaderIs(bytes, Chunk(chunk, other - chunk, false))
        invariant forall k :: i < k < j ==> !cs[k].used
        decreases |cs| - j
      {
        ReadChunk(m, cs, j);
        ghost var before := bytes;
        // The "null chunk" panic needs a chunk of size 0.
        assert SizeAt(bytes, other) != 0;
        HeaderRoundTrip(bytes, chunk, SizeAt(bytes, chunk) + SizeAt(bytes, other), false);
        bytes := PutHeader(bytes, chunk, SizeAt(bytes, chunk) + SizeAt(bytes, other), false);
        SameTwice(m, before, bytes, chunk, chunk + HEADER);
        j := j + 1;
        other := chunk + SizeAt(bytes, chunk);
        if j < |cs| {
          LaterHeader(m, bytes, cs, i, j);
        }
      }
      NextUsedIs(cs, i + 1, j);
      MergeTiles(cs, |m|, i, j);
      MergedHeaders(m, bytes, cs, i, j);
    }

    /** A store through a live pointer, anywhere in its payload: no header changes. */
    method StoreByte(x: nat, b: Byte, ghost i: nat)
      requires Valid() && i < |chunks| && chunks[i].used && chunks[i].addr + HEADER <= x < End(chunks[i])
      modifies this`bytes
      ensures Valid() && chunks == old(chunks) && x < |old(bytes)| && bytes == old(bytes)[x := b]
    {
      ghost var m := bytes;
      ReadChunk(m, chunks, i);
      bytes := bytes[x := b];
      forall k | 0 <= k < |chunks| ensures HeaderIs(bytes, chunks[k]) {
        ReadChunk(m, chunks, k);
        PayloadsDisjoint(chunks, |m|, i, k, x);
      }
    }
  }
}
