/** The cyclic doubly linked list, src/lib/clist.c. */
module CyclicList {
  import opened Facts

  class Node {
    var prev: Node?
    var next: Node?
    var data: int

    constructor (data: int)
      ensures this.data == data
    {
      this.data, prev, next := data, null, null;
    }
  }

  function Succ(i: nat, n: nat): nat { if i + 1 == n then 0 else i + 1 }
  function Pred(i: nat, n: nat): nat { if i == 0 && n > 0 then n - 1 else if i > 0 then i - 1 else 0 }

  /** Neighbours in `s`, taken round the end, point at each other. */
  ghost predicate Ring(s: seq<Node>)
    reads s
  {
    && Distinct(s)
    && (forall i: nat :: i < |s| ==> s[i].next == s[Succ(i, |s|)])
    && (forall i: nat :: i < |s| ==> s[i].prev == s[Pred(i, |s|)])
  }

  function Inserted(s: seq<Node>, k: nat, e: Node): seq<Node>
    requires k <= |s|
  {
    s[..k] + [e] + s[k..]
  }

  /** The new node is at its place, those before it keep theirs, those from there on move up by one. */
  lemma InsertedAt(s: seq<Node>, k: nat, e: Node, i: nat)
    requires k <= |s| && i <= |s|
    ensures |Inserted(s, k, e)| == |s| + 1
    ensures Inserted(s, k, e)[i] == if i == k then e else if i < k then s[i] else s[i - 1]
  {
  }

  /** `e` spliced in behind place `k - 1` of a ring. */
  lemma RingInserted(s: seq<Node>, k: nat, e: Node)
    requires Distinct(s) && e !in s && 0 < k <= |s|
    requires e.prev == s[k - 1] && s[k - 1].next == e && e.next == s[Succ(k - 1, |s|)] && s[Succ(k - 1, |s|)].prev == e
    requires forall i: nat :: i < |s| && i != k - 1 ==> s[i].next == s[Succ(i, |s|)]
    requires forall i: nat :: i < |s| && i != Succ(k - 1, |s|) ==> s[i].prev == s[Pred(i, |s|)]
    ensures Ring(Inserted(s, k, e))
  {
    var n, t := |s|, Inserted(s, k, e);
    InsertedDistinct(s, k, e);
    forall i: nat | i < n + 1 ensures t[i].next == t[Succ(i, n + 1)] && t[i].prev == t[Pred(i, n + 1)] {
      InsertedNext(s, k, e, i);
      InsertedPrev(s, k, e, i);
    }
    hide Inserted, Distinct, Succ, Pred;
  }

  lemma InsertedDistinct(s: seq<Node>, k: nat, e: Node)
    requires Distinct(s) && e !in s && k <= |s|
    ensures Distinct(Inserted(s, k, e)) && |Inserted(s, k, e)| == |s| + 1
  {
    var t := Inserted(s, k, e);
    assert forall i :: 0 <= i < |t| ==> t[i] == if i < k then s[i] else if i == k then e else s[i - 1];
  }

  lemma InsertedNext(s: seq<Node>, k: nat, e: Node, i: nat)
    requires 0 < k <= |s| && i < |s| + 1 && s[k - 1].next == e && e.next == s[Succ(k - 1, |s|)]
    requires forall i: nat :: i < |s| && i != k - 1 ==> s[i].next == s[Succ(i, |s|)]
    ensures Inserted(s, k, e)[i].next == Inserted(s, k, e)[Succ(i, |s| + 1)]
  {
    if i < k - 1 {
      assert s[i].next == s[i + 1];
    } else if i > k {
      assert s[i - 1].next == s[Succ(i - 1, |s|)];
    }
  }

  lemma InsertedPrev(s: seq<Node>, k: nat, e: Node, i: nat)
    requires 0 < k <= |s| && i < |s| + 1 && e.prev == s[k - 1] && s[Succ(k - 1, |s|)].prev == e
    requires forall i: nat :: i < |s| && i != Succ(k - 1, |s|) ==> s[i].prev == s[Pred(i, |s|)]
    ensures Inserted(s, k, e)[i].prev == Inserted(s, k, e)[Pred(i, |s| + 1)]
  {
    if i < k {
      assert i != Succ(k - 1, |s|) ==> s[i].prev == s[Pred(i, |s|)];
    } else if i > k + 1 {
      assert s[i - 1].prev == s[i - 2];
    }
  }

  /** Place `k` of a ring of at least two taken out. */
  lemma RingRemoved(s: seq<Node>, k: nat)
    requires Distinct(s) && k < |s| && |s| >= 2
    requires s[Pred(k, |s|)].next == s[Succ(k, |s|)] && s[Succ(k, |s|)].prev == s[Pred(k, |s|)]
    requires forall i: nat :: i < |s| && i != k && i != Pred(k, |s|) ==> s[i].next == s[Succ(i, |s|)]
    requires forall i: nat :: i < |s| && i != k && i != Succ(k, |s|) ==> s[i].prev == s[Pred(i, |s|)]
    ensures Ring(Removed(s, k))
  {
    var n, t := |s|, Removed(s, k);
    RemovedDistinct(s, k);
    forall i: nat | i < n - 1 ensures t[i].next == t[Succ(i, n - 1)] && t[i].prev == t[Pred(i, n - 1)] {
      RemovedNext(s, k, i);
      RemovedPrev(s, k, i);
    }
    hide Removed, Distinct, Succ, Pred;
  }

  lemma RemovedNext(s: seq<Node>, k: nat, i: nat)
    requires |s| >= 2 && k < |s| && i < |s| - 1 && s[Pred(k, |s|)].next == s[Succ(k, |s|)]
    requires forall i: nat :: i < |s| && i != k && i != Pred(k, |s|) ==> s[i].next == s[Succ(i, |s|)]
    ensures Removed(s, k)[i].next == Removed(s, k)[Succ(i, |s| - 1)]
  {
    var j := if i < k then i else i + 1;
    assert j != Pred(k, |s|) ==> s[j].next == s[Succ(j, |s|)];
  }

  lemma RemovedPrev(s: seq<Node>, k: nat, i: nat)
    requires |s| >= 2 && k < |s| && i < |s| - 1 && s[Succ(k, |s|)].prev == s[Pred(k, |s|)]
    requires forall i: nat :: i < |s| && i != k && i != Succ(k, |s|) ==> s[i].prev == s[Pred(i, |s|)]
    ensures Removed(s, k)[i].prev == Removed(s, k)[Pred(i, |s| - 1)]
  {
    var j := if i < k then i else i + 1;
    assert j != Succ(k, |s|) ==> s[j].prev == s[Pred(j, |s|)];
  }

  lemma HeadAfter(s: seq<Node>, k: nat)
    requires Distinct(s) && k < |s| && |s| >= 2
    ensures |Removed(s, k)| == |s| - 1 && Removed(s, k)[0] == (if k == 0 then s[Succ(0, |s|)] else s[0]) && s[Succ(k, |s|)] != s[k]
    ensures k > 0 ==> s[0] != s[k]
  {
  }

  /** Links `e` between two neighbours. */
  method Splice(e: Node, prev: Node, next: Node)
    requires e != prev && e != next
    modifies e`prev, e`next, prev`next, next`prev
    ensures e.prev == prev && e.next == next && prev.next == e && next.prev == e
  {
    e.prev, e.next := prev, next;
    prev.next := e;
    next.prev := e;
  }

  /** Links two nodes past what was between them. */
  method Join(prev: Node, next: Node)
    modifies prev`next, next`prev
    ensures prev.next == next && next.prev == prev
  {
    prev.next := next;
    next.prev := prev;
  }

  class List {
    var head: Node?
    ghost var nodes: seq<Node>       // from the head on

    ghost predicate Valid()
      reads this, nodes
    {
      Ring(nodes) && head == if nodes == [] then null else nodes[0]
    }

    constructor ()
      ensures Valid() && nodes == []
    {
      head, nodes := null, [];
    }

    /** A new entry between two neighbours of a list that is not empty. */
    method InsertBetween(prev: Node, next: Node, data: int, ghost k: nat) returns (e: Node)
      requires Valid() && 0 < k <= |nodes| && prev == nodes[k - 1] && next == nodes[Succ(k - 1, |nodes|)]
      modifies this`nodes, nodes
      ensures Valid() && fresh(e) && e.data == data && nodes == Inserted(old(nodes), k, e)
      ensures forall x :: x in old(nodes) ==> x.data == old(x.data)
    {
      e := new Node(data);
      ghost var s, n := nodes, |nodes|;
      assert Distinct(s) && prev in s && next in s && e !in s;
      assert forall i: nat :: i < n && i != k - 1 ==> s[i] != prev;
      assert forall i: nat :: i < n && i != Succ(k - 1, n) ==> s[i] != next;
      nodes := Inserted(s, k, e);
      Splice(e, prev, next);
      assert forall i: nat :: i < n && i != k - 1 ==> s[i].next == s[Succ(i, n)];
      assert forall i: nat :: i < n && i != Succ(k - 1, n) ==> s[i].prev == s[Pred(i, n)];
      hide Ring;
      RingInserted(s, k, e);
    }

    /** clist_insert_entry_after. */
    method InsertAfter(pos: Node?, data: int, ghost k: nat) returns (e: Node)
      requires Valid() && (nodes != [] ==> k < |nodes| && pos == nodes[k])
      modifies this, nodes
      ensures Valid() && fresh(e) && e.data == data
      ensures nodes == if old(nodes) == [] then [e] else Inserted(old(nodes), k + 1, e)
      ensures forall x :: x in old(nodes) ==> x.data == old(x.data)
    {
      if head == null {
        e := new Node(data);
        e.next, e.prev := e, e;
        head, nodes := e, [e];
      } else {
        e := InsertBetween(pos, pos.next, data, k + 1);
      }
    }

    /** clist_insert_entry_before; before the head is behind the last one. */
    method InsertBefore(pos: Node?, data: int, ghost k: nat) returns (e: Node)
      requires Valid() && (nodes != [] ==> k < |nodes| && pos == nodes[k])
      modifies this, nodes
      ensures Valid() && fresh(e) && e.data == data
      ensures nodes == if old(nodes) == [] then [e] else Inserted(old(nodes), if k == 0 then |old(nodes)| else k, e)
      ensures forall x :: x in old(nodes) ==> x.data == old(x.data)
    {
      if head == null {
        e := new Node(data);
        e.next, e.prev := e, e;
        head, nodes := e, [e];
      } else {
        e := InsertBetween(pos.prev, pos, data, if k == 0 then |nodes| else k);
      }
    }

    /** clist_delete_entry. */
    method Delete(entry: Node, ghost k: nat)
      requires Valid() && k < |nodes| && nodes[k] == entry
      modifies this, nodes
      ensures Valid() && nodes == Removed(old(nodes), k)
      ensures forall x :: x in old(nodes) ==> x.data == old(x.data)
    {
      ghost var s, n := nodes, |nodes|;
      assert Distinct(s) && entry.prev == s[Pred(k, n)] && entry.next == s[Succ(k, n)];
      var prev, next := entry.prev, entry.next;
      assert forall i: nat :: i < n && i != Pred(k, n) ==> s[i] != prev;
      assert forall i: nat :: i < n && i != Succ(k, n) ==> s[i] != next;
      Join(prev, next);
      assert forall i: nat :: i < n && i != Pred(k, n) ==> s[i].next == s[Succ(i, n)];
      assert forall i: nat :: i < n && i != Succ(k, n) ==> s[i].prev == s[Pred(i, n)];
      if n > 1 {
        hide Ring;
        RingRemoved(s, k);
        HeadAfter(s, k);
      }
      if head == entry {
        head := if entry.next != entry then entry.next else null;
      }
      nodes := Removed(s, k);
    }

    /** clist_find: the first entry from the head that the detector takes; each is asked once. */
    method Find(detector: int -> bool) returns (r: Node?)
      requires Valid()
      ensures r == null ==> forall x :: x in nodes ==> !detector(x.data)
      ensures r != null ==> exists i :: 0 <= i < |nodes| && nodes[i] == r && detector(r.data) && forall j :: 0 <= j < i ==> !detector(nodes[j].data)
    {
      var current := head;
      ghost var i: nat := 0;
      while current != null
        invariant nodes == [] ==> current == null
        invariant current != null ==> i < |nodes| && current == nodes[i]
        invariant forall j :: 0 <= j < i && j < |nodes| ==> !detector(nodes[j].data)
        invariant current == null ==> i == |nodes|
        decreases |nodes| - i
      {
        if detector(current.data) {
          return current;
        }
        if current.next == head {
          assert Succ(i, |nodes|) == 0;
          return null;
        }
        current := current.next;
        i := i + 1;
      }
      r := null;
    }

    method Size() returns (size: nat)
      requires Valid()
      ensures size == |nodes|
    {
      size := 0;
      var current := head;
      while current != null
        invariant nodes == [] ==> current == null && size == 0
        invariant current != null ==> size < |nodes| && current == nodes[size]
        invariant current == null ==> size == |nodes|
        decreases |nodes| - size, current != null
      {
        size := size + 1;
        if current.next == head {
          return;
        }
        current := current.next;
      }
    }
  }
}
