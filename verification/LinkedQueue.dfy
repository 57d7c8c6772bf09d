/** The doubly linked queue, include/lib/queue.h. */
module LinkedQueue {
  import opened Facts

  class Node {
    const value: int
    var prev: Node?
    var next: Node?

    constructor (value: int)
      ensures this.value == value && prev == null && next == null
    {
      this.value, prev, next := value, null, null;
    }
  }

  function After(s: seq<Node>, i: nat): Node? { if i + 1 < |s| then s[i + 1] else null }
  function Before(s: seq<Node>, i: nat): Node? { if 0 < i <= |s| then s[i - 1] else null }

  /** Neighbours in `s` point at each other, and nothing lies beyond its ends. */
  ghost predicate Chain(s: seq<Node>)
    reads s
  {
    && Distinct(s)
    && (forall i: nat :: i < |s| ==> s[i].next == After(s, i))
    && (forall i: nat :: i < |s| ==> s[i].prev == Before(s, i))
  }

  function Values(s: seq<Node>): (v: seq<int>)
    ensures |v| == |s|
  {
    seq(|s|, i requires 0 <= i < |s| => s[i].value)
  }

  /** What removing the first occurrence, at place `k`, leaves at the head, in the middle and at the end. */
  lemma FirstGone(v: seq<int>, x: int, k: nat)
    requires k <= |v| && (forall i :: 0 <= i < k ==> v[i] != x) && (k < |v| ==> v[k] == x)
    ensures RemoveFirst(v, x) == if k == |v| then v else if k == 0 then v[1..] else if k == |v| - 1 then v[..k] else v[..k] + v[k + 1..]
  {
    if k < |v| {
      RemoveFirstAt(v, x, k);
    }
  }

  /** A middle node unlinked by joining its neighbours. */
  lemma ChainRemoved(s: seq<Node>, k: nat)
    requires Distinct(s) && 0 < k < |s| - 1 && s[k - 1].next == s[k + 1] && s[k + 1].prev == s[k - 1]
    requires forall i: nat :: i < |s| && i != k - 1 && i != k ==> s[i].next == After(s, i)
    requires forall i: nat :: i < |s| && i != k && i != k + 1 ==> s[i].prev == Before(s, i)
    ensures Chain(Removed(s, k))
  {
    var t := Removed(s, k);
    forall i: nat | i < |t| ensures t[i].next == After(t, i) && t[i].prev == Before(t, i) {
      RemovedLinks(s, k, i);
    }
    assert Distinct(t);
    hide Removed, After, Before, Distinct;
  }

  lemma RemovedLinks(s: seq<Node>, k: nat, i: nat)
    requires 0 < k < |s| - 1 && i < |s| - 1 && s[k - 1].next == s[k + 1] && s[k + 1].prev == s[k - 1]
    requires forall i: nat :: i < |s| && i != k - 1 && i != k ==> s[i].next == After(s, i)
    requires forall i: nat :: i < |s| && i != k && i != k + 1 ==> s[i].prev == Before(s, i)
    ensures Removed(s, k)[i].next == After(Removed(s, k), i) && Removed(s, k)[i].prev == Before(Removed(s, k), i)
  {
    var j := if i < k then i else i + 1;
    assert j != k - 1 ==> s[j].next == After(s, j);
    assert j != k + 1 ==> s[j].prev == Before(s, j);
  }

  lemma ValuesRemoved(s: seq<Node>, k: nat)
    requires k < |s|
    ensures Values(Removed(s, k)) == Values(s)[..k] + Values(s)[k + 1..]
  {
  }

  lemma ChainOne(node: Node)
    requires node.next == null && node.prev == null
    ensures Chain([node]) && Values([node]) == [node.value] && Values([]) == []
  {
  }

  lemma ChainPushed(s: seq<Node>, node: Node)
    requires Distinct(s) && node !in s && node.next == null && node.prev == Before(s, |s|) && (s != [] ==> s[|s| - 1].next == node)
    requires forall i: nat :: i < |s| - 1 ==> s[i].next == After(s, i)
    requires forall i: nat :: i < |s| ==> s[i].prev == Before(s, i)
    ensures Chain(s + [node]) && Values(s + [node]) == Values(s) + [node.value]
  {
  }

  lemma ChainPopped(s: seq<Node>)
    requires Distinct(s) && s != [] && (|s| > 1 ==> s[1].prev == null)
    requires forall i: nat :: 0 < i < |s| ==> s[i].next == After(s, i)
    requires forall i: nat :: 1 < i < |s| ==> s[i].prev == Before(s, i)
    ensures Chain(s[1..]) && Values(s[1..]) == Values(s)[1..]
  {
    var t := s[1..];
    forall i: nat | i < |t| ensures t[i].next == After(t, i) && t[i].prev == Before(t, i) {
      assert s[i + 1].next == After(s, i + 1);
      assert i > 0 ==> s[i + 1].prev == Before(s, i + 1);
    }
  }

  lemma ChainCut(s: seq<Node>)
    requires Distinct(s) && |s| > 1 && s[|s| - 2].next == null
    requires forall i: nat :: i < |s| - 2 ==> s[i].next == After(s, i)
    requires forall i: nat :: i < |s| - 1 ==> s[i].prev == Before(s, i)
    ensures s[..|s| - 1] == Removed(s, |s| - 1) && Chain(s[..|s| - 1]) && Values(s[..|s| - 1]) == Values(s)[..|s| - 1]
  {
  }

  // ---------------------------------------------------------------------------
  // Changing the links

  method LinkLast(node: Node, tail: Node, ghost s: seq<Node>)
    requires Chain(s) && s != [] && tail == s[|s| - 1] && node !in s && node.next == null
    modifies node`prev, tail`next
    ensures Chain(s + [node]) && Values(s + [node]) == Values(s) + [node.value]
  {
    assert Distinct(s) && forall i: nat :: i < |s| - 1 ==> s[i] != tail;
    node.prev := tail;
    tail.next := node;
    assert forall i: nat :: i < |s| - 1 ==> s[i].next == After(s, i);
    assert forall i: nat :: i < |s| ==> s[i].prev == Before(s, i);
    hide Chain, Values;
    ChainPushed(s, node);
  }

  method UnlinkFirst(head: Node, ghost s: seq<Node>) returns (next: Node?)
    requires Chain(s) && s != [] && head == s[0]
    modifies s
    ensures Chain(s[1..]) && Values(s[1..]) == Values(s)[1..] && next == After(s, 0)
  {
    assert Distinct(s) && s[0].next == After(s, 0);
    next := head.next;
    if next != null {
      next.prev := null;
    }
    assert forall i: nat :: 0 < i < |s| ==> s[i].next == After(s, i);
    assert forall i: nat :: 1 < i < |s| ==> s[i].prev == Before(s, i);
    hide Chain, Values;
    ChainPopped(s);
  }

  method UnlinkLast(tail: Node, ghost s: seq<Node>) returns (last: Node)
    requires Chain(s) && |s| > 1 && tail == s[|s| - 1]
    modifies s
    ensures Chain(s[..|s| - 1]) && Values(s[..|s| - 1]) == Values(s)[..|s| - 1] && last == s[|s| - 2]
  {
    assert Distinct(s) && s[|s| - 1].prev == Before(s, |s| - 1);
    last := tail.prev;
    assert forall i: nat :: i < |s| - 2 ==> s[i] != last;
    last.next := null;
    assert forall i: nat :: i < |s| - 2 ==> s[i].next == After(s, i);
    assert forall i: nat :: i < |s| - 1 ==> s[i].prev == Before(s, i);
    hide Chain, Values;
    ChainCut(s);
  }

  method UnlinkMiddle(node: Node, ghost s: seq<Node>, ghost k: nat)
    requires Chain(s) && 0 < k < |s| - 1 && node == s[k]
    modifies s
    ensures Chain(Removed(s, k)) && Values(Removed(s, k)) == Values(s)[..k] + Values(s)[k + 1..]
  {
    assert Distinct(s) && s[k].prev == Before(s, k) && s[k].next == After(s, k);
    var prev, next := node.prev, node.next;
    assert forall i: nat :: i < |s| && i != k - 1 ==> s[i] != prev;
    assert forall i: nat :: i < |s| && i != k + 1 ==> s[i] != next;
    Join(prev, next);
    assert forall i: nat :: i < |s| && i != k - 1 && i != k ==> s[i].next == After(s, i);
    assert forall i: nat :: i < |s| && i != k && i != k + 1 ==> s[i].prev == Before(s, i);
    hide Chain, Values;
    ChainRemoved(s, k);
    ValuesRemoved(s, k);
  }

  method Join(prev: Node, next: Node)
    modifies prev`next, next`prev
    ensures prev.next == next && next.prev == prev
  {
    prev.next := next;
    next.prev := prev;
  }

  class Queue {
    var size: nat
    var head: Node?
    var tail: Node?
    ghost var nodes: seq<Node>

    ghost predicate Valid()
      reads this, nodes
    {
      && Chain(nodes) && size == |nodes|
      && head == (if nodes == [] then null else nodes[0])
      && tail == (if nodes == [] then null else nodes[|nodes| - 1])
    }

    ghost function Contents(): seq<int>
      reads this
    {
      Values(nodes)
    }

    constructor ()
      ensures Valid() && nodes == []
    {
      size, head, tail, nodes := 0, null, null, [];
    }

    method Enqueue(value: int) returns (node: Node)
      requires Valid()
      modifies this, nodes
      ensures Valid() && fresh(node) && nodes == old(nodes) + [node] && Contents() == old(Contents()) + [value]
    {
      node := new Node(value);
      hide Chain, Values;
      if size == 0 {
        AppendFirst(node);
      } else {
        AppendMore(node);
      }
    }

    method AppendFirst(node: Node)
      requires Valid() && nodes == [] && node.next == null && node.prev == null
      modifies this
      ensures Valid() && nodes == [node] && Contents() == old(Contents()) + [node.value]
    {
      ChainOne(node);
      head, tail, nodes, size := node, node, [node], size + 1;
    }

    method AppendMore(node: Node)
      requires Valid() && nodes != [] && node !in nodes && node.next == null
      modifies this, nodes, node
      ensures Valid() && nodes == old(nodes) + [node] && Contents() == old(Contents()) + [node.value]
    {
      hide Chain, Values;
      LinkLast(node, tail, nodes);
      tail, nodes, size := node, nodes + [node], size + 1;
    }

    /** The oldest value; nothing happens on an empty queue. */
    method Dequeue() returns (value: int, ok: bool)
      requires Valid()
      modifies this, nodes
      ensures Valid() && ok == (old(nodes) != [])
      ensures ok ==> value == old(Contents())[0] && nodes == old(nodes)[1..] && Contents() == old(Contents())[1..]
      ensures !ok ==> nodes == old(nodes)
    {
      value, ok := 0, false;
      if size == 0 {
        return;
      }
      value, ok := head.value, true;
      assert value == Contents()[0];
      hide Chain, Values;
      size := size - 1;
      var first := head;
      head := UnlinkFirst(first, nodes);
      if first == tail {
        tail := null;
      }
      nodes := nodes[1..];
    }

    /** queue_remove: the first node with the value, wherever it is. */
    method Remove(value: int)
      requires Valid()
      modifies this, nodes
      ensures Valid() && Contents() == RemoveFirst(old(Contents()), value)
    {
      var node, k := First(value);
      ghost var v := Contents();
      FirstGone(v, value, k);
      assert node != null ==> node.prev == Before(nodes, k) && node.next == After(nodes, k);
      hide RemoveFirst, Values, Chain;
      if node == null {
        return;
      }
      if node.prev == null {
        var v, ok := Dequeue();
      } else if node.next == null {
        RemoveLast();
      } else {
        RemoveMiddle(node, k);
      }
    }

    method RemoveLast()
      requires Valid() && |nodes| > 1
      modifies this, nodes
      ensures Valid() && nodes == old(nodes)[..|old(nodes)| - 1] && Contents() == old(Contents())[..|old(nodes)| - 1]
    {
      hide Chain, Values;
      size := size - 1;
      tail := UnlinkLast(tail, nodes);
      nodes := nodes[..|nodes| - 1];
    }

    method RemoveMiddle(node: Node, ghost k: nat)
      requires Valid() && 0 < k < |nodes| - 1 && node == nodes[k]
      modifies this, nodes
      ensures Valid() && nodes == Removed(old(nodes), k) && Contents() == old(Contents())[..k] + old(Contents())[k + 1..]
    {
      hide Chain, Values;
      size := size - 1;
      UnlinkMiddle(node, nodes, k);
      nodes := Removed(nodes, k);
    }

    /** The walk of queue_remove. */
    method First(value: int) returns (node: Node?, ghost k: nat)
      requires Valid()
      ensures k <= |nodes| && node == (if k < |nodes| then nodes[k] else null)
      ensures forall i :: 0 <= i < k ==> Contents()[i] != value
      ensures k < |nodes| ==> Contents()[k] == value
    {
      node, k := head, 0;
      while node != null && node.value != value
        invariant k <= |nodes| && node == if k < |nodes| then nodes[k] else null
        invariant forall i :: 0 <= i < k ==> Contents()[i] != value
        decreases |nodes| - k
      {
        assert nodes[k].next == After(nodes, k);
        node, k := node.next, k + 1;
      }
    }
  }
}
