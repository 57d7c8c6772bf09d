/** The bitmap allocator seen as a set of frames in use, for the address-space code: what
    alloc_getPage and alloc_freePage do to that set, proved of the bitmap. */
module FrameMarks {
  import opened FrameAllocator

  /** Frame number of page `p` of the allocator. */
  function FrameOf(start: nat, p: nat): nat { start / PAGE + p }

  /** `used` are the frames handed out by the bitmap and not given back, all of them marked in it;
      `ram` are these and the ones not marked. */
  ghost predicate Agrees(a: Allocator, ram: set<nat>, used: set<nat>)
    reads a, a.physMap
  {
    && a.Valid() && a.mapped && used <= ram
    && Marks(a.start, a.totalPages, a.physMap[..], a.out, ram, used)
  }

  ghost predicate Marks(start: nat, pages: nat, bits: seq<bv8>, out: set<nat>, ram: set<nat>, used: set<nat>)
    requires |bits| == pages / 8 + 2
  {
    && (forall f :: f in ram ==> start / PAGE <= f < start / PAGE + Managed(pages))
    && (forall p: nat :: p < Managed(pages) ==> (FrameOf(start, p) in used <==> p in out))
    && (forall p: nat :: p < Managed(pages) ==> (FrameOf(start, p) in ram <==> (Used(bits, p) ==> p in out)))
  }

  /** The frames in use are marked in the bitmap, the others of `ram` are not. */
  lemma MarkedIff(a: Allocator, ram: set<nat>, used: set<nat>, f: nat)
    requires Agrees(a, ram, used) && f in ram
    ensures var p := f - a.start / PAGE;
      0 <= p < Managed(a.totalPages) && (Used(a.physMap[..], p) <==> f in used)
  {
    assert f == FrameOf(a.start, f - a.start / PAGE);
  }

  /** Marking a page that was not marked, for the sets. */
  lemma MarksTaken(start: nat, pages: nat, bits: seq<bv8>, bits': seq<bv8>, out: set<nat>, ram: set<nat>, used: set<nat>, p: nat)
    requires |bits| == |bits'| == pages / 8 + 2 && Marks(start, pages, bits, out, ram, used)
    requires p < Managed(pages) && !Used(bits, p)
    requires forall q: nat :: q < Managed(pages) ==> (Used(bits', q) <==> Used(bits, q) || q == p)
    ensures FrameOf(start, p) in ram && Marks(start, pages, bits', out + {p}, ram, used + {FrameOf(start, p)})
  {
    hide Used, Managed;
  }

  /** Clearing the mark of a page handed out, for the sets. */
  lemma MarksGiven(start: nat, pages: nat, bits: seq<bv8>, bits': seq<bv8>, out: set<nat>, ram: set<nat>, used: set<nat>, p: nat)
    requires |bits| == |bits'| == pages / 8 + 2 && Marks(start, pages, bits, out, ram, used)
    requires p < Managed(pages) && p in out
    requires forall q: nat :: q < Managed(pages) ==> (Used(bits', q) <==> Used(bits, q) && q != p)
    ensures Marks(start, pages, bits', out - {p}, ram, used - {FrameOf(start, p)})
  {
    hide Used, Managed;
  }

  /** alloc_getPage: a frame that was not in use is, and is marked. */
  method Take(a: Allocator, ghost ram: set<nat>, ghost used: set<nat>) returns (f: nat)
    requires Agrees(a, ram, used) && ram - used != {}
    modifies a, a.physMap
    ensures f in ram && f !in used && Agrees(a, ram, used + {f})
  {
    hide Used;
    ghost var free, bits, out := a.FreePages(), a.physMap[..], a.out;
    assert free != {} by {
      var g: nat :| g in ram - used;
      MarkedIff(a, ram, used, g);
      assert g - a.start / PAGE in free;
    }
    hide Marks;
    var addr := a.GetPage();
    f := addr / PAGE;
    ghost var p := a.PageOf(addr);
    assert p in free && f == FrameOf(a.start, p);
    forall q: nat | q < Managed(a.totalPages) ensures Used(a.physMap[..], q) <==> Used(bits, q) || q == p {
      assert q in free <==> !Used(bits, q);
      assert q in a.FreePages() <==> !Used(a.physMap[..], q);
    }
    MarksTaken(a.start, a.totalPages, bits, a.physMap[..], out, ram, used, p);
    NotYetUsed(a.start, a.totalPages, bits, out, ram, used, p);
  }

  lemma NotYetUsed(start: nat, pages: nat, bits: seq<bv8>, out: set<nat>, ram: set<nat>, used: set<nat>, p: nat)
    requires |bits| == pages / 8 + 2 && Marks(start, pages, bits, out, ram, used) && p < Managed(pages) && p !in out
    ensures FrameOf(start, p) !in used
  {
  }

  /** alloc_freePage: a frame in use is not any more, nor marked. */
  method Give(a: Allocator, f: nat, ghost ram: set<nat>, ghost used: set<nat>)
    requires Agrees(a, ram, used) && f in used
    modifies a, a.physMap
    ensures Agrees(a, ram, used - {f})
  {
    hide Used;
    ghost var p: nat, bits, out := f - a.start / PAGE, a.physMap[..], a.out;
    assert f == FrameOf(a.start, p) && p in a.out && a.PageOf(f * PAGE) == p && f * PAGE >= a.start;
    hide Marks;
    a.FreePage(f * PAGE);
    MarksGiven(a.start, a.totalPages, bits, a.physMap[..], out, ram, used, p);
  }
}
