/** Index arithmetic of ring buffers. */
module Ring {

  /** The slot `i` places after `tail`. */
  function Slot(tail: nat, i: nat, size: nat): (s: nat)
    requires tail < size && i <= size
    ensures s < size
  {
    if tail + i < size then tail + i else tail + i - size
  }

  lemma NextSlot(x: nat, size: nat)
    requires x < size
    ensures (x + 1) % size == if x + 1 == size then 0 else x + 1
  {
    if x + 1 < size {
      assert (x + 1) % size == x + 1;
    }
  }

  lemma SlotsDistinct(tail: nat, size: nat, i: nat)
    requires tail < size && i < size
    ensures forall j :: 0 <= j < size && j != i ==> Slot(tail, j, size) != Slot(tail, i, size)
  {
  }

  lemma SlotStep(tail: nat, size: nat, i: nat)
    requires tail < size && i < size
    ensures (Slot(tail, i, size) + 1) % size == Slot(tail, i + 1, size)
  {
    NextSlot(Slot(tail, i, size), size);
  }
}
