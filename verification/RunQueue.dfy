/** The ring behind the run queue of src/thread.c (`filo_read`, `filo_write`, `filo_remove`).
    It is a first-in first-out queue of at most size - 1 handles. */
module RunQueue {
  import opened Facts
  import opened Ring

  type Handle = nat
  const NULL: Handle := 0

  function Length(head: nat, tail: nat, size: nat): (n: nat)
    requires head < size && tail < size
    ensures n < size
  {
    if head >= tail then head - tail else head + size - tail
  }

  /** The queued handles, oldest first. */
  function Queued(data: seq<Handle>, head: nat, tail: nat): (q: seq<Handle>)
    requires head < |data| && tail < |data|
    ensures |q| == Length(head, tail, |data|)
  {
    seq(Length(head, tail, |data|), i requires 0 <= i < Length(head, tail, |data|) => data[Slot(tail, i, |data|)])
  }

  lemma HeadSlot(head: nat, tail: nat, size: nat, i: nat)
    requires head < size && tail < size && i <= Length(head, tail, size)
    ensures Slot(tail, i, size) == head <==> i == Length(head, tail, size)
  {
  }

  class Filo {
    var head: nat
    var tail: nat
    const size: nat
    const data: array<Handle>

    ghost predicate Valid()
      reads this, data
    {
      size > 0 && data.Length == size && head < size && tail < size
    }

    ghost function Contents(): (q: seq<Handle>)
      requires Valid()
      reads this, data
    {
      Queued(data[..], head, tail)
    }

    constructor (max: nat)
      requires max > 0
      ensures Valid() && Contents() == [] && size == max && fresh(data)
    {
      head, tail, size := 0, 0, max;
      data := new Handle[max];
    }

    /** filo_read: the oldest handle, or NULL when empty. */
    method Read() returns (handle: Handle)
      requires Valid()
      modifies this`tail, data
      ensures Valid()
      ensures old(Contents()) == [] ==> handle == NULL && Contents() == []
      ensures old(Contents()) != [] ==> handle == old(Contents())[0] && Contents() == old(Contents())[1..]
    {
      if tail == head {
        return NULL;
      }
      ghost var before := Contents();
      handle := data[tail];
      data[tail] := NULL;
      NextSlot(tail, size);
      tail := (tail + 1) % size;
      assert Contents() == before[1..];
    }

    /** filo_write: -1 when size - 1 handles are queued. */
    method Write(handle: Handle) returns (r: int)
      requires Valid()
      modifies this`head, data
      ensures Valid()
      ensures r == if |old(Contents())| == size - 1 then -1 else 0
      ensures Contents() == if r == 0 then old(Contents()) + [handle] else old(Contents())
    {
      NextSlot(head, size);
      if (head + 1) % size == tail {
        return -1;
      }
      ghost var before := Contents();
      data[head] := handle;
      head := (head + 1) % size;
      r := 0;
      assert Contents() == before + [handle];
    }

    /** filo_remove: deletes the first occurrence, keeping the order of the rest. */
    method Remove(handle: Handle) returns (r: int)
      requires Valid()
      modifies this`head, data
      ensures Valid()
      ensures r == if handle in old(Contents()) then 0 else -1
      ensures Contents() == RemoveFirst(old(Contents()), handle)
    {
      ghost var before := Contents();
      var cur := tail;
      ghost var k := 0;
      while cur != head
        invariant Valid() && Contents() == before && data[..] == old(data[..])
        invariant k <= |before| && cur == Slot(tail, k, size) && (cur == head <==> k == |before|)
        invariant handle !in before[..k]
        decreases |before| - k
      {
        if data[cur] == handle {
          CloseGap(cur, k);
          RemoveFirstAt(before, handle, k);
          return 0;
        }
        assert before[..k + 1] == before[..k] + [before[k]];
        NextSlot(cur, size);
        cur := (cur + 1) % size;
        k := k + 1;
      }
      assert before[..k] == before;
      r := -1;
    }

    /** Everything behind slot `at` moves up by one and the head steps back. */
    method CloseGap(at: nat, ghost k: nat)
      requires Valid() && k < |Contents()| && at == Slot(tail, k, size)
      modifies this`head, data
      ensures Valid() && Contents() == old(Contents())[..k] + old(Contents())[k + 1..]
    {
      ShiftUp(at, k);
      ghost var head0 := head;
      if head != 0 {
        head := head - 1;
      } else {
        head := size - 1;
      }
      GapClosed(old(data[..]), data[..], head0, head, tail, k);
    }

    method ShiftUp(at: nat, ghost k: nat)
      requires Valid() && k < Length(head, tail, size) && at == Slot(tail, k, size)
      modifies data
      ensures ShiftedFrom(old(data[..]), data[..], tail, k, Length(head, tail, size))
    {
      hide Slot, Length;
      ghost var d, n := data[..], Length(head, tail, size);
      var cur := at;
      SlotsDistinct(tail, size, k);
      HeadSlot(head, tail, size, k);
      data[cur] := NULL;
      ghost var q := k;
      while cur != head
        invariant k <= q <= n && cur == Slot(tail, q, size) && (cur == head <==> q == n)
        invariant forall i :: 0 <= i < k || q < i <= n ==> data[Slot(tail, i, size)] == d[Slot(tail, i, size)]
        invariant forall i :: k <= i < q && i + 1 < n ==> data[Slot(tail, i, size)] == d[Slot(tail, i + 1, size)]
        decreases n - q
      {
        SlotStep(tail, size, q);
        SlotsDistinct(tail, size, q);
        HeadSlot(head, tail, size, q + 1);
        var next := (cur + 1) % size;
        data[cur] := data[next];
        cur := next;
        q := q + 1;
      }
    }
  }

  /** The `n` queued slots after the shift: those before place `k` as before, the others one up. */
  ghost predicate ShiftedFrom(d: seq<Handle>, d': seq<Handle>, tail: nat, k: nat, n: nat)
    requires tail < |d| && n <= |d|
  {
    && |d'| == |d|
    && (forall i :: 0 <= i < k && i < n ==> d'[Slot(tail, i, |d|)] == d[Slot(tail, i, |d|)])
    && (forall i :: k <= i && i + 1 < n ==> d'[Slot(tail, i, |d|)] == d[Slot(tail, i + 1, |d|)])
  }

  lemma GapClosed(d: seq<Handle>, d': seq<Handle>, head: nat, head': nat, tail: nat, k: nat)
    requires head < |d| && tail < |d| && k < Length(head, tail, |d|)
    requires ShiftedFrom(d, d', tail, k, Length(head, tail, |d|))
    requires head' == if head != 0 then head - 1 else |d| - 1
    ensures Queued(d', head', tail) == Queued(d, head, tail)[..k] + Queued(d, head, tail)[k + 1..]
  {
    assert Length(head', tail, |d|) == Length(head, tail, |d|) - 1;
  }
}
