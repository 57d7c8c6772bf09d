/** The physical page allocator of src/mm/alloc.c: pages are first handed out by a bump
    counter, then the bitmap takes over.  Memory starts at a page boundary, as
    arch_getMemStart guarantees on this architecture. */
module FrameAllocator {
  const PAGE := 4096

  /** 1 << bit */
  function Mask(bit: nat): bv8
    requires bit < 8
  {
    match bit
    case 0 => 1
    case 1 => 2
    case 2 => 4
    case 3 => 8
    case 4 => 16
    case 5 => 32
    case 6 => 64
    case _ => 128
  }

  predicate ByteBit(b: bv8, bit: nat)
    requires bit < 8
  {
    b & Mask(bit) != 0
  }

  /** Page `p` is marked in the bitmap. */
  predicate Used(bytes: seq<bv8>, p: int)
  {
    0 <= p && p / 8 < |bytes| && ByteBit(bytes[p / 8], p % 8)
  }

  lemma ByteOps(b: bv8, i: nat, j: nat)
    requires i < 8 && j < 8
    ensures ByteBit(b | Mask(i), j) == (i == j || ByteBit(b, j))
    ensures ByteBit(b & !Mask(i), j) == (i != j && ByteBit(b, j))
    ensures !ByteBit(0, j) && (b == 0xFF ==> ByteBit(b, j))
  {
  }

  /** SET_PAGEFRAME_USED and SET_PAGEFRAME_UNUSED touch one page's bit. */
  lemma SetBit(bytes: seq<bv8>, p: nat, q: nat)
    requires p / 8 < |bytes| && q / 8 < |bytes|
    ensures Used(bytes[p / 8 := bytes[p / 8] | Mask(p % 8)], q) == (p == q || Used(bytes, q))
    ensures Used(bytes[p / 8 := bytes[p / 8] & !Mask(p % 8)], q) == (p != q && Used(bytes, q))
  {
    if p / 8 == q / 8 {
      ByteOps(bytes[p / 8], p % 8, q % 8);
      assert p == q <==> p % 8 == q % 8;
    }
  }

  // Page numbers below count from the start of managed memory.

  /** Pages kept for the bitmap itself. */
  function Reserved(totalPages: nat): (r: nat)
    ensures 4096 * (r - 10) <= 2 * totalPages < 4096 * (r - 9)
  {
    totalPages * 2 / PAGE + 10
  }

  /** Bump allocation starts behind this page. */
  function EarlyBase(totalPages: nat): (r: nat)
    ensures 4096 * (r - 10) <= 8 * totalPages < 4096 * (r - 9)
  {
    totalPages * 8 / PAGE + 10
  }

  /** Pages the bitmap scan looks at. */
  function Managed(totalPages: nat): (m: nat)
    ensures m % 8 == 0 && m <= totalPages < m + 8
  {
    totalPages / 8 * 8
  }

  /** The reserve covers every page the bitmap's bytes lie on, and bump pages lie behind it. */
  lemma LayoutDisjoint(totalPages: nat, p: nat)
    requires p * PAGE < totalPages / 8
    ensures p < Reserved(totalPages) <= EarlyBase(totalPages)
  {
  }

  lemma ReserveFirst(totalPages: nat)
    ensures Reserved(totalPages) <= EarlyBase(totalPages)
  {
  }

  class Allocator {
    const start: nat                  // allocStart
    const totalPages: nat
    const physMap: array<bv8>
    var mapped: bool
    var early: nat                    // pagesUsedBeforeMapping
    var used: int                     // usedPhysMem
    ghost var out: set<nat>           // page numbers handed out and not given back

    ghost predicate Valid()
      reads this, physMap
    {
      && start % PAGE == 0 && physMap.Length == totalPages / 8 + 2
      && used == PAGE * |out|
      && (forall p :: p in out ==> Reserved(totalPages) <= p)
      && (if mapped then
            && (forall p :: p in out && p < Managed(totalPages) ==> Used(physMap[..], p))
            && (forall p :: 0 <= p < Reserved(totalPages) && p < Managed(totalPages) ==> Used(physMap[..], p))
          else
            forall p :: p in out ==> EarlyBase(totalPages) < p <= EarlyBase(totalPages) + early)
    }

    function PageOf(addr: int): int { (addr - start) / PAGE }

    /** The pages the scan can still hand out. */
    ghost function FreePages(): set<nat>
      requires physMap.Length == totalPages / 8 + 2
      reads physMap
    {
      set p: nat | p < Managed(totalPages) && !Used(physMap[..], p)
    }

    constructor (memStart: nat, highMem: nat)
      requires memStart % PAGE == 0
      ensures Valid() && !mapped && out == {} && start == memStart && totalPages == highMem / PAGE && fresh(physMap)
    {
      start, totalPages := memStart, highMem / PAGE;
      physMap := new bv8[highMem / PAGE / 8 + 2];
      mapped, early, used, out := false, 0, 0, {};
    }

    /** alloc_getPage.  Before the switch: the next page behind the bump base.  After it: the
        lowest page whose bit is clear, or -1.  Either way a page not handed out already, and
        never one of the bitmap's own. */
    method GetPage() returns (addr: int)
      requires Valid()
      modifies this, physMap
      ensures Valid() && mapped == old(mapped)
      ensures addr == -1 ==>
        (&& old(mapped) && out == old(out) && used == old(used) && physMap[..] == old(physMap[..])
         && forall p :: 0 <= p < Managed(totalPages) ==> Used(physMap[..], p))
      ensures addr != -1 ==>
        (&& addr >= start && addr % PAGE == 0 && used == old(used) + PAGE && PageOf(addr) !in old(out)
         && out == old(out) + {PageOf(addr)} && Reserved(totalPages) <= PageOf(addr))
      ensures addr != -1 && old(mapped) ==>
        PageOf(addr) < Managed(totalPages) && !Used(old(physMap[..]), PageOf(addr)) && forall q :: 0 <= q < PageOf(addr) ==> Used(old(physMap[..]), q)
      ensures !old(mapped) ==> addr == start + (EarlyBase(totalPages) + early) * PAGE && early == old(early) + 1
      ensures old(mapped) ==> (addr == -1 <==> old(FreePages()) == {})
      ensures addr != -1 && old(mapped) ==> PageOf(addr) in old(FreePages()) && FreePages() == old(FreePages()) - {PageOf(addr)}
      ensures addr != -1 ==> addr == start + PageOf(addr) * PAGE
    {
      if !mapped {
        addr := Bump();
        return;
      }
      var page := FindFree();
      assert page >= 0 ==> !Used(old(physMap[..]), page) && forall q :: 0 <= q < page ==> Used(old(physMap[..]), q);
      if page < 0 {
        assert FreePages() == {};
        return -1;
      }
      assert page in FreePages();
      addr := MarkPage(page);
    }

    /** The scan of alloc_getPage: whole bytes are skipped when full, then bits are tried in order. */
    method FindFree() returns (page: int)
      requires physMap.Length == totalPages / 8 + 2
      ensures -1 <= page < Managed(totalPages)
      ensures page < 0 ==> forall q :: 0 <= q < Managed(totalPages) ==> Used(physMap[..], q)
      ensures page >= 0 ==> !Used(physMap[..], page) && forall q :: 0 <= q < page ==> Used(physMap[..], q)
    {
      for byte := 0 to totalPages / 8
        invariant forall q: nat :: q / 8 < byte ==> Used(physMap[..], q)
      {
        if physMap[byte] != 0xFF {
          for bit := 0 to 8
            invariant forall q: nat :: q / 8 == byte && q % 8 < bit ==> Used(physMap[..], q)
          {
            page := 8 * byte + bit;
            assert page / 8 == byte && page % 8 == bit;
            if physMap[byte] & Mask(bit) == 0 {
              assert !Used(physMap[..], page);
              return;
            }
          }
        } else {
          forall q: nat | q / 8 == byte ensures Used(physMap[..], q) {
            ByteOps(physMap[byte], 0, q % 8);
          }
        }
      }
      page := -1;
    }

    /** The path before the switch: the next page behind the bump base. */
    method Bump() returns (addr: int)
      requires Valid() && !mapped
      modifies this
      ensures Valid() && !mapped && early == old(early) + 1 && used == old(used) + PAGE
      ensures PageOf(addr) == EarlyBase(totalPages) + early && PageOf(addr) !in old(out)
      ensures addr == start + PageOf(addr) * PAGE && addr % PAGE == 0 && out == old(out) + {PageOf(addr)}
    {
      ReserveFirst(totalPages);
      hide Reserved, EarlyBase, Used, Managed;
      early := early + 1;
      used := used + PAGE;
      var p := EarlyBase(totalPages) + early;
      out := out + {p};
      addr := start + p * PAGE;
    }

    /** SET_PAGEFRAME_USED. */
    method SetUsed(page: nat)
      requires page / 8 < physMap.Length
      modifies physMap
      ensures forall q: nat :: q / 8 < physMap.Length ==> Used(physMap[..], q) == (q == page || Used(old(physMap[..]), q))
    {
      ghost var before := physMap[..];
      physMap[page / 8] := physMap[page / 8] | Mask(page % 8);
      assert physMap[..] == before[page / 8 := before[page / 8] | Mask(page % 8)];
      forall q: nat | q / 8 < physMap.Length ensures Used(physMap[..], q) == (q == page || Used(before, q)) {
        SetBit(before, page, q);
      }
    }

    /** SET_PAGEFRAME_UNUSED. */
    method SetUnused(page: nat)
      requires page / 8 < physMap.Length
      modifies physMap
      ensures forall q: nat :: q / 8 < physMap.Length ==> Used(physMap[..], q) == (q != page && Used(old(physMap[..]), q))
    {
      ghost var before := physMap[..];
      physMap[page / 8] := physMap[page / 8] & !Mask(page % 8);
      assert physMap[..] == before[page / 8 := before[page / 8] & !Mask(page % 8)];
      forall q: nat | q / 8 < physMap.Length ensures Used(physMap[..], q) == (q != page && Used(before, q)) {
        SetBit(before, page, q);
      }
    }

    /** SET_PAGEFRAME_USED and the accounting, for a page found free. */
    method MarkPage(page: nat) returns (addr: int)
      requires Valid() && mapped && page < Managed(totalPages) && !Used(physMap[..], page)
      modifies this, physMap
      ensures Valid() && mapped && early == old(early) && used == old(used) + PAGE
      ensures page !in old(out) && out == old(out) + {page} && Reserved(totalPages) <= page
      ensures addr == start + page * PAGE && addr % PAGE == 0 && PageOf(addr) == page
      ensures forall q: nat :: q / 8 < physMap.Length ==> Used(physMap[..], q) == (q == page || Used(old(physMap[..]), q))
    {
      hide Used;
      SetUsed(page);
      used := used + PAGE;
      out := out + {page};
      addr := start + page * PAGE;
    }

    /** alloc_freePage, for a page handed out earlier that the bitmap covers. */
    method FreePage(addr: nat)
      requires Valid() && addr >= start && addr % PAGE == 0
      requires PageOf(addr) in out && PageOf(addr) < Managed(totalPages)
      modifies this, physMap
      ensures Valid() && mapped == old(mapped) && used == old(used) - PAGE
      ensures out == old(out) - {PageOf(addr)}
      ensures mapped ==> forall q: nat :: q / 8 < physMap.Length ==> Used(physMap[..], q) == (q != PageOf(addr) && Used(old(physMap[..]), q))
    {
      var page := PageOf(addr);
      hide Used;
      SetUnused(page);
      used := used - PAGE;
      out := out - {page};
    }

    /** Sets the bits of pages `from` up to `to`, leaving the others. */
    method MarkRange(from: nat, to: nat)
      requires from <= to && (from < to ==> (to - 1) / 8 < physMap.Length)
      modifies physMap
      ensures forall q: nat :: q / 8 < physMap.Length ==> Used(physMap[..], q) == (from <= q < to || Used(old(physMap[..]), q))
    {
      for i := from to to
        invariant forall q: nat :: q / 8 < physMap.Length ==> Used(physMap[..], q) == (from <= q < i || Used(old(physMap[..]), q))
      {
        SetUsed(i);
      }
    }

    method ClearMap()
      requires physMap.Length == totalPages / 8 + 2
      modifies physMap
      ensures forall q :: 0 <= q < Managed(totalPages) ==> !Used(physMap[..], q)
    {
      for pg := 0 to totalPages / 8
        invariant forall b :: 0 <= b < pg ==> physMap[b] == 0
      {
        physMap[pg] := 0;
      }
      forall q: nat | q < Managed(totalPages) ensures !Used(physMap[..], q) { ByteOps(0, 0, q % 8); }
    }

    /** alloc_mapItself: clear the bitmap, reserve its own pages, and mark what the bump
        counter handed out, with one guard page on either side. */
    method MapItself()
      requires Valid() && !mapped
      modifies this, physMap
      ensures Valid() && mapped && out == old(out) && used == old(used)
      ensures forall p :: 0 <= p < Managed(totalPages) ==>
        (Used(physMap[..], p) <==> p < Reserved(totalPages) || EarlyBase(totalPages) <= p < EarlyBase(totalPages) + early + 2)
    {
      ClearMap();
      MarkRange(0, Reserved(totalPages));
      assert forall p :: 0 <= p < Managed(totalPages) ==> (Used(physMap[..], p) <==> p < Reserved(totalPages));
      mapped := true;
      var from := EarlyBase(totalPages);
      var to := if from + early + 2 > totalPages then totalPages else from + early + 2;
      if from < to {
        MarkRange(from, to);
      }
    }
  }
}
