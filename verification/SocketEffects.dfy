/** What each socket operation does to the sockets, and what this comes to over whole runs: the
    bytes an end receives are the bytes its peer's callers handed to send, in that order. */
module SocketEffects {
  import opened SocketMachine

  /** A send takes the first `k` bytes of the data, at least one: all of them, or as many as fill
      the queue to 500 KB.  They are appended to the queue; nothing else changes. */
  lemma SendTakesPrefix(net: Net, a: Id, data: seq<Byte>) returns (k: nat)
    requires Enabled(net, Send(a, data))
    ensures var net' := Step(net, Send(a, data));
      && 0 < k <= |data| && net'.Keys == net.Keys
      && net'[a].queue == net[a].queue + data[..k] && net'[a].sent == net[a].sent + data[..k]
      && (k == |data| || |net'[a].queue| == 512000) && |net'[a].queue| <= 512000
      && net'[a].conn == net[a].conn && net'[a].accept == net[a].accept && net'[a].received == net[a].received
      && (forall x :: x in net && x != a ==> net'[x] == net[x])
  {
    k := Min(CAPACITY - |net[a].queue|, |data|);
  }

  /** A receive takes the `k` oldest bytes out of the peer's queue, at least one: as many as asked
      for, or all there are. */
  lemma RecvTakesOldest(net: Net, a: Id, n: nat) returns (k: nat)
    requires Paired(net) && Enabled(net, Recv(a, n))
    ensures var net', b := Step(net, Recv(a, n)), net[a].conn.value;
      && 0 < k <= n && k <= |net[b].queue| && net'.Keys == net.Keys && a != b
      && net'[b].queue == net[b].queue[k..] && net'[a].received == net[a].received + net[b].queue[..k]
      && (k == n || net'[b].queue == [])
      && net'[a].queue == net[a].queue && net'[b].received == net[b].received
      && (forall x :: x in net ==> net'[x].sent == net[x].sent && net'[x].conn == net[x].conn && net'[x].accept == net[x].accept)
      && (forall x :: x in net && x != a && x != b ==> net'[x] == net[x])
  {
    k := Min(|net[net[a].conn.value].queue|, n);
  }

  /** The other operations move no bytes: a new socket is unconnected and empty, listening starts
      with no requests, connecting puts the request last, accepting serves the one that waited
      longest and joins it to a new socket, both ways. */
  lemma ConnectionEffects(net: Net, e: Event)
    requires Enabled(net, e) && !e.Send? && !e.Recv?
    ensures var net' := Step(net, e);
      && (forall x :: x in net ==> x in net' && net'[x].queue == net[x].queue && net'[x].sent == net[x].sent
                                   && net'[x].received == net[x].received && net'[x].nonBlock == net[x].nonBlock)
      && (forall x :: x in net' && x !in net ==> net'[x].queue == [] && net'[x].sent == [] && net'[x].received == [] && net'[x].accept == None)
      && (e.Open? ==> net'.Keys == net.Keys + {e.a} && net'[e.a].conn == None && net'[e.a].nonBlock == e.nonBlock
                      && forall x :: x in net ==> net'[x] == net[x])
      && (e.Listen? ==> net'.Keys == net.Keys && net'[e.a].accept == Some([]) && net'[e.a].conn == net[e.a].conn
                        && forall x :: x in net && x != e.a ==> net'[x] == net[x])
      && (e.Connect? ==> net'.Keys == net.Keys && net'[e.l].accept == Some(net[e.l].accept.value + [e.a]) && net'[e.l].conn == net[e.l].conn
                         && forall x :: x in net && x != e.l ==> net'[x] == net[x])
      && (e.Accept? ==>
            var first := net[e.l].accept.value[0];
            && net'.Keys == net.Keys + {e.n} && net'[e.n].conn == Some(first) && net'[first].conn == Some(e.n) && !net'[e.n].nonBlock
            && net[e.l].accept.value == [first] + net'[e.l].accept.value
            && (forall x :: x in net && x != first ==> net'[x].conn == net[x].conn)
            && (forall x :: x in net && x != e.l ==> net'[x].accept == net[x].accept))
  {
    if e.Accept? {
      assert Waiting(net, e.l, 0);
    }
  }

  // ---------------------------------------------------------------------------
  // Whole runs

  /** What of the data handed to `a` in the event `e` is taken: all that fits into 500 KB. */
  function Taken(net: Net, e: Event, a: Id): seq<Byte>
  {
    if e.Send? && e.a == a && a in net && |net[a].queue| <= 512000 then
      var room := 512000 - |net[a].queue|;
      if |e.data| <= room then e.data else e.data[..room]
    else []
  }

  /** The data taken from the callers of send on `a` along a run, one after the other. */
  ghost function AllTaken(net: Net, es: seq<Event>, a: Id): seq<Byte>
    requires Runs(net, es)
    decreases |es|
  {
    if es == [] then [] else Taken(net, es[0], a) + AllTaken(Step(net, es[0]), es[1..], a)
  }

  function SentBy(net: Net, a: Id): seq<Byte> { if a in net then net[a].sent else [] }

  lemma StepSent(net: Net, e: Event, a: Id)
    requires Enabled(net, e)
    ensures SentBy(Step(net, e), a) == SentBy(net, a) + Taken(net, e, a)
  {
    if e.Send? {
      var k := SendTakesPrefix(net, e.a, e.data);
      assert |e.data[..k]| == k;
    } else if e.Accept? {
      assert Waiting(net, e.l, 0);
    }
  }

  /** The history of an end is what its callers handed over. */
  lemma {:induction false} SentIsTaken(net: Net, es: seq<Event>, a: Id)
    requires Runs(net, es)
    ensures SentBy(After(net, es), a) == SentBy(net, a) + AllTaken(net, es, a)
    decreases |es|
  {
    if es != [] {
      var net', e, rest := Step(net, es[0]), es[0], es[1..];
      StepSent(net, e, a);
      SentIsTaken(net', rest, a);
      hide Step, Taken, SentBy, After;
      assert SentBy(net, a) + Taken(net, e, a) + AllTaken(net', rest, a) == SentBy(net, a) + (Taken(net, e, a) + AllTaken(net', rest, a));
    }
  }

  /** From no sockets on, over every run in which no accept takes a socket connected meanwhile and
      whatever the interleaving: what an end has received, followed by what is queued for it, is
      the data taken from the callers of its peer, in their order. */
  lemma DeliveredInOrder(es: seq<Event>, a: Id, b: Id)
    requires Runs(map[], es) && AllCareful(map[], es)
    requires b in After(map[], es) && After(map[], es)[b].conn == Some(a)
    ensures var net := After(map[], es);
      && a in net && net[a].conn == Some(b) && net[b].received + net[a].queue == AllTaken(map[], es, a)
      && net[b].received <= AllTaken(map[], es, a)
  {
    NoSocketsInv();
    StreamsReliable(map[], es, b);
    SentIsTaken(map[], es, a);
  }
}
