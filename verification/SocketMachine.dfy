/** UNIX-domain sockets (src/socket/unix.c) as a state machine: one operation is one step, and
    an operation that would poll is not enabled.  Each socket queues the bytes it sends; its
    peer takes them out of that queue. */
module SocketMachine {
  type Byte = b: int | 0 <= b < 256
  type Id = nat

  const CAPACITY := 500 * 1024

  datatype Option<T> = None | Some(value: T)

  /** `sent` and `received` are histories: bytes accepted by send, bytes returned by recv. */
  datatype Sock = Sock(conn: Option<Id>, accept: Option<seq<Id>>, queue: seq<Byte>, nonBlock: bool,
                       sent: seq<Byte>, received: seq<Byte>)

  type Net = map<Id, Sock>

  datatype Event =
    | Open(a: Id, nonBlock: bool)
    | Listen(a: Id)
    | Connect(a: Id, l: Id)
    | Accept(l: Id, n: Id)
    | Send(a: Id, data: seq<Byte>)
    | Recv(a: Id, n: nat)

  function Min(a: nat, b: nat): nat { if a < b then a else b }

  function Fresh(nonBlock: bool): Sock { Sock(None, None, [], nonBlock, [], []) }

  ghost predicate Waiting(net: Net, l: Id, i: nat) { l in net && net[l].accept.Some? && i < |net[l].accept.value| }

  function WaitingAt(net: Net, l: Id, i: nat): Id
    requires l in net && net[l].accept.Some? && i < |net[l].accept.value|
  {
    net[l].accept.value[i]
  }

  /** `a` has asked to connect and has not been accepted yet. */
  ghost predicate Pending(net: Net, a: Id)
  {
    exists l, i :: Waiting(net, l, i) && WaitingAt(net, l, i) == a
  }

  ghost predicate Enabled(net: Net, e: Event)
  {
    match e
    case Open(a, _) => a !in net
    case Listen(a) => a in net
    case Connect(a, l) => a in net && net[a].conn.None? && l in net && net[l].accept.Some?
    case Accept(l, n) => Waiting(net, l, 0) && n !in net && WaitingAt(net, l, 0) in net
    case Send(a, data) => a in net && |data| > 0 && |net[a].queue| < CAPACITY
    case Recv(a, n) => a in net && net[a].conn.Some? && net[a].conn.value in net && n > 0 && net[net[a].conn.value].queue != []
  }

  ghost function Step(net: Net, e: Event): Net
    requires Enabled(net, e)
  {
    match e
    case Open(a, nonBlock) => net[a := Fresh(nonBlock)]
    case Listen(a) => net[a := net[a].(accept := Some([]))]
    case Connect(a, l) => net[l := net[l].(accept := Some(net[l].accept.value + [a]))]
    case Accept(l, n) =>
      var other := net[l].accept.value[0];
      var net1 := net[l := net[l].(accept := Some(net[l].accept.value[1..]))];
      net1[other := net1[other].(conn := Some(n))][n := Fresh(false).(conn := Some(other))]
    case Send(a, data) =>
      var part := data[..Min(CAPACITY - |net[a].queue|, |data|)];
      net[a := net[a].(queue := net[a].queue + part, sent := net[a].sent + part)]
    case Recv(a, n) =>
      var b := net[a].conn.value;
      var k := Min(|net[b].queue|, n);
      var net1 := net[a := net[a].(received := net[a].received + net[b].queue[..k])];
      net1[b := net1[b].(queue := net[b].queue[k..])]
  }

  // ---------------------------------------------------------------------------
  // Pairs and streams

  /** Connected ends point at each other. */
  ghost predicate Paired(net: Net)
  {
    forall a :: a in net && net[a].conn.Some? ==>
      net[a].conn.value != a && net[a].conn.value in net && net[net[a].conn.value].conn == Some(a)
  }

  ghost predicate RequestsKnown(net: Net)
  {
    forall l, i :: Waiting(net, l, i) ==> WaitingAt(net, l, i) in net
  }

  /** What an end has received, then what its peer has queued, is what the peer has sent. */
  ghost predicate Streams(net: Net)
  {
    && (forall a :: a in net && net[a].conn.None? ==> net[a].queue == net[a].sent && net[a].received == [])
    && (forall a :: a in net && net[a].conn.Some? && net[a].conn.value in net ==>
          net[a].received + net[net[a].conn.value].queue == net[net[a].conn.value].sent)
  }

  ghost predicate Inv(net: Net) { Paired(net) && RequestsKnown(net) && Streams(net) }

  /** Before the first socket is made. */
  lemma NoSocketsInv()
    ensures Inv(map[]) && RequestsUnique(map[])
  {
  }

  /** unix_accept does not look whether the socket it takes from the queue has been connected
      since it asked; the pairing holds just when it has not. */
  ghost predicate Careful(net: Net, e: Event)
    requires Enabled(net, e)
  {
    e.Accept? ==> net[WaitingAt(net, e.l, 0)].conn.None?
  }

  /** A step that leaves connections alone keeps the pairing. */
  lemma SameConnsPaired(net: Net, net': Net)
    requires Paired(net) && net.Keys <= net'.Keys
    requires forall a :: a in net ==> net'[a].conn == net[a].conn
    requires forall a :: a in net' && a !in net ==> net'[a].conn.None?
    ensures Paired(net')
  {
  }

  lemma StepRequests(net: Net, e: Event)
    requires RequestsKnown(net) && Enabled(net, e)
    ensures RequestsKnown(Step(net, e)) && net.Keys <= Step(net, e).Keys
  {
    var net' := Step(net, e);
    forall m, i: nat | Waiting(net', m, i) ensures WaitingAt(net', m, i) in net' {
      if e.Accept? && m == e.l {
        assert Waiting(net, m, i + 1) && WaitingAt(net', m, i) == WaitingAt(net, m, i + 1);
      } else if e.Connect? && m == e.l && i == |net[m].accept.value| {
        assert WaitingAt(net', m, i) == e.a;
      } else {
        assert e.Listen? || e.Open? || (Waiting(net, m, i) && WaitingAt(net', m, i) == WaitingAt(net, m, i));
        assert Waiting(net, m, i) ==> WaitingAt(net, m, i) in net;
      }
    }
  }

  /** Accepting keeps the pairing exactly when the socket taken from the queue is unconnected. */
  lemma AcceptPairsIff(net: Net, l: Id, n: Id)
    requires Paired(net) && Enabled(net, Accept(l, n))
    ensures Paired(Step(net, Accept(l, n))) <==> net[WaitingAt(net, l, 0)].conn.None?
  {
    var net', other := Step(net, Accept(l, n)), WaitingAt(net, l, 0);
    assert net'.Keys == net.Keys + {n} && net'[n].conn == Some(other) && net'[other].conn == Some(n);
    assert forall x :: x in net && x != other ==> net'[x].conn == net[x].conn;
    hide Step;
    if net[other].conn.Some? {
      assert net'[net[other].conn.value].conn == Some(other);
    }
  }

  lemma AcceptStreams(net: Net, l: Id, n: Id)
    requires Inv(net) && Enabled(net, Accept(l, n)) && net[WaitingAt(net, l, 0)].conn.None?
    ensures Streams(Step(net, Accept(l, n)))
  {
    hide Streams, Paired;
    StreamsJoined(net, Step(net, Accept(l, n)), WaitingAt(net, l, 0), n);
  }

  /** Joining `other`, which may have queued bytes already, to a new empty socket `n`. */
  lemma StreamsJoined(net: Net, net': Net, other: Id, n: Id)
    requires Paired(net) && Streams(net) && other in net && n !in net && net[other].conn.None?
    requires net'.Keys == net.Keys + {n} && net'[n].conn == Some(other) && net'[other].conn == Some(n)
    requires net'[n].queue == [] && net'[n].sent == [] && net'[n].received == []
    requires forall x :: x in net ==> net'[x].queue == net[x].queue && net'[x].sent == net[x].sent
    requires forall x :: x in net ==> net'[x].received == net[x].received && (x != other ==> net'[x].conn == net[x].conn)
    ensures Streams(net')
  {
    assert forall x :: x in net && net[x].conn.Some? ==> net[x].conn.value != other;
  }

  /** Moving `part` between the ends of one stream, or into it, is all that matters to it. */
  lemma StreamMoved(net: Net, net': Net, a: Id, b: Id)
    requires Paired(net) && Streams(net) && a in net && net[a].conn == Some(b)
    requires net'.Keys == net.Keys && (forall x :: x in net ==> net'[x].conn == net[x].conn)
    requires forall x :: x in net && x != b ==> net'[x].queue == net[x].queue && net'[x].sent == net[x].sent
    requires forall x :: x in net && x != a ==> net'[x].received == net[x].received
    requires net'[a].received + net'[b].queue == net'[b].sent
    ensures Streams(net')
  {
    assert forall x :: x in net && net[x].conn == Some(b) ==> x == a;
  }

  lemma SendStreams(net: Net, a: Id, data: seq<Byte>)
    requires Inv(net) && Enabled(net, Send(a, data))
    ensures Paired(Step(net, Send(a, data))) && Streams(Step(net, Send(a, data)))
  {
    var net', part := Step(net, Send(a, data)), data[..Min(CAPACITY - |net[a].queue|, |data|)];
    assert net'[a].queue == net[a].queue + part && net'[a].sent == net[a].sent + part;
    SameConnsPaired(net, net');
    hide Streams, Paired;
    if net[a].conn.Some? {
      var x := net[a].conn.value;
      assert x in net && net[x].conn == Some(a) && x != a && net[x].received + net[a].queue == net[a].sent by {
        SendPeer(net, a);
      }
      assert net[x].received + (net[a].queue + part) == net[x].received + net[a].queue + part;
      StreamMoved(net, net', x, a);
    } else {
      SendUnconnected(net, net', a);
    }
  }

  lemma SendPeer(net: Net, a: Id)
    requires Paired(net) && Streams(net) && a in net && net[a].conn.Some?
    ensures var x := net[a].conn.value;
      x in net && x != a && net[x].conn == Some(a) && net[x].received + net[a].queue == net[a].sent
  {
  }

  lemma SendUnconnected(net: Net, net': Net, a: Id)
    requires Paired(net) && Streams(net) && a in net && net[a].conn.None?
    requires net'.Keys == net.Keys && (forall x :: x in net && x != a ==> net'[x] == net[x])
    requires net'[a].conn.None? && net'[a].queue == net'[a].sent && net'[a].received == net[a].received
    ensures Streams(net')
  {
  }

  lemma RecvStreams(net: Net, a: Id, n: nat)
    requires Inv(net) && Enabled(net, Recv(a, n))
    ensures Paired(Step(net, Recv(a, n))) && Streams(Step(net, Recv(a, n)))
  {
    var net', b := Step(net, Recv(a, n)), net[a].conn.value;
    SendPeer(net, b);
    SameConnsPaired(net, net');
    hide Streams, Paired;
    var r, q, k := net[a].received, net[b].queue, Min(|net[b].queue|, n);
    assert net'[a].received + net'[b].queue == r + q by {
      assert (r + q[..k]) + q[k..] == r + (q[..k] + q[k..]) && q[..k] + q[k..] == q;
    }
    StreamMoved(net, net', a, b);
  }

  lemma StepKeepsInv(net: Net, e: Event)
    requires Inv(net) && Enabled(net, e) && Careful(net, e)
    ensures Inv(Step(net, e))
  {
    StepRequests(net, e);
    match e
    case Open(a, nonBlock) => SameConnsPaired(net, Step(net, e));
    case Listen(a) => SameConnsPaired(net, Step(net, e));
    case Connect(a, l) => SameConnsPaired(net, Step(net, e));
    case Accept(l, n) => AcceptPairsIff(net, l, n); AcceptStreams(net, l, n);
    case Send(a, data) => SendStreams(net, a, data);
    case Recv(a, n) => RecvStreams(net, a, n);
  }

  // ---------------------------------------------------------------------------
  // Whole runs

  ghost predicate Runs(net: Net, es: seq<Event>)
    decreases |es|
  {
    es == [] || (Enabled(net, es[0]) && Runs(Step(net, es[0]), es[1..]))
  }

  ghost function After(net: Net, es: seq<Event>): Net
    requires Runs(net, es)
    decreases |es|
  {
    if es == [] then net else After(Step(net, es[0]), es[1..])
  }

  ghost predicate AllCareful(net: Net, es: seq<Event>)
    requires Runs(net, es)
    decreases |es|
  {
    es == [] || (Careful(net, es[0]) && AllCareful(Step(net, es[0]), es[1..]))
  }

  ghost predicate AlwaysPaired(net: Net, es: seq<Event>)
    requires Runs(net, es)
    decreases |es|
  {
    Paired(net) && (es != [] ==> AlwaysPaired(Step(net, es[0]), es[1..]))
  }

  /** Along every run, whatever the interleaving, connected ends point at each other throughout
      if and only if no accept takes a socket that was connected meanwhile. */
  lemma {:induction false} PairedThroughoutIff(net: Net, es: seq<Event>)
    requires Inv(net) && Runs(net, es)
    ensures AlwaysPaired(net, es) <==> AllCareful(net, es)
    decreases |es|
  {
    if es != [] {
      if Careful(net, es[0]) {
        StepKeepsInv(net, es[0]);
        PairedThroughoutIff(Step(net, es[0]), es[1..]);
      } else {
        AcceptPairsIff(net, es[0].l, es[0].n);
        assert !AlwaysPaired(Step(net, es[0]), es[1..]);
      }
    }
  }

  /** A connected pair carries two reliable byte streams. */
  lemma {:induction false} StreamsReliable(net: Net, es: seq<Event>, a: Id)
    requires Inv(net) && Runs(net, es) && AllCareful(net, es)
    ensures Inv(After(net, es))
    ensures a in After(net, es) && After(net, es)[a].conn.Some? ==> Reliable(After(net, es), a, After(net, es)[a].conn.value)
    decreases |es|
  {
    if es != [] {
      StepKeepsInv(net, es[0]);
      StreamsReliable(Step(net, es[0]), es[1..], a);
    }
  }

  /** Both directions between `a` and `b`: received, then still queued, is what was sent. */
  ghost predicate Reliable(net: Net, a: Id, b: Id)
  {
    && a in net && b in net && net[a].conn == Some(b) && net[b].conn == Some(a)
    && net[a].received + net[b].queue == net[b].sent
    && net[b].received + net[a].queue == net[a].sent
  }

  // ---------------------------------------------------------------------------
  // Asking once is enough

  /** Queued requests are by unconnected sockets, one request each. */
  ghost predicate RequestsUnique(net: Net)
  {
    && (forall l, i :: Waiting(net, l, i) ==> WaitingAt(net, l, i) in net && net[WaitingAt(net, l, i)].conn.None?)
    && (forall l, i, m, j :: Waiting(net, l, i) && Waiting(net, m, j) && (l, i) != (m, j)
          ==> WaitingAt(net, l, i) != WaitingAt(net, m, j))
  }

  /** No connect by a socket whose request is still queued: a blocking caller cannot do that,
      because it waits; a non-blocking one can. */
  ghost predicate AsksOnce(net: Net, es: seq<Event>)
    requires Runs(net, es)
    decreases |es|
  {
    es == [] || ((es[0].Connect? ==> !Pending(net, es[0].a)) && AsksOnce(Step(net, es[0]), es[1..]))
  }

  /** Every request left after a step was there before, or is the one just made. */
  lemma StepWaiting(net: Net, e: Event, m: Id, i: nat)
    requires Enabled(net, e) && Waiting(Step(net, e), m, i)
    ensures var i' := if e.Accept? && m == e.l then i + 1 else i;
      (e.Connect? && m == e.l && i == |net[m].accept.value| && WaitingAt(Step(net, e), m, i) == e.a)
      || (Waiting(net, m, i') && WaitingAt(Step(net, e), m, i) == WaitingAt(net, m, i'))
  {
  }

  lemma StepConns(net: Net, e: Event, x: Id)
    requires Enabled(net, e) && x in net
    ensures x in Step(net, e) && (Step(net, e)[x].conn == net[x].conn || (e.Accept? && x == WaitingAt(net, e.l, 0)))
  {
  }

  lemma StepUnique(net: Net, e: Event)
    requires RequestsUnique(net) && Enabled(net, e) && (e.Connect? ==> !Pending(net, e.a))
    ensures RequestsUnique(Step(net, e))
  {
    hide Step;
    var net' := Step(net, e);
    forall l, i | Waiting(net', l, i)
      ensures WaitingAt(net', l, i) in net' && net'[WaitingAt(net', l, i)].conn.None?
    {
      StepWaiting(net, e, l, i);
      StepConns(net, e, WaitingAt(net', l, i));
      assert e.Accept? ==> Waiting(net, e.l, 0);
    }
    forall l, i, m, j | Waiting(net', l, i) && Waiting(net', m, j) && (l, i) != (m, j)
      ensures WaitingAt(net', l, i) != WaitingAt(net', m, j)
    {
      StepWaiting(net, e, l, i);
      StepWaiting(net, e, m, j);
    }
  }

  lemma {:induction false} AskingOnceIsCareful(net: Net, es: seq<Event>)
    requires RequestsUnique(net) && Runs(net, es) && AsksOnce(net, es)
    ensures AllCareful(net, es)
    decreases |es|
  {
    if es != [] {
      StepUnique(net, es[0]);
      assert es[0].Accept? ==> Waiting(net, es[0].l, 0);
      AskingOnceIsCareful(Step(net, es[0]), es[1..]);
    }
  }

  /** Asking twice is not, from any state: connecting `a` to `l` twice and accepting both as
      `n` and `m` leaves `n` pointing at a socket that points elsewhere. */
  lemma DoubleConnectBreaks(net: Net, a: Id, l: Id, n: Id, m: Id)
    requires Inv(net) && Enabled(net, Connect(a, l)) && net[l].accept == Some([]) && a != l
    requires n !in net && m !in net && n != m
    ensures Runs(net, [Connect(a, l), Connect(a, l), Accept(l, n), Accept(l, m)])
    ensures !AlwaysPaired(net, [Connect(a, l), Connect(a, l), Accept(l, n), Accept(l, m)])
  {
    var e, es := Connect(a, l), [Connect(a, l), Connect(a, l), Accept(l, n), Accept(l, m)];
    var net2, net3, net4 := AcceptedTwice(net, a, l, n, m);
    hide Step, Enabled;
    var net1 := Step(net, e);
    assert es[1..] == [e, Accept(l, n), Accept(l, m)] && es[1..][1..] == [Accept(l, n), Accept(l, m)];
    assert es[1..][1..][1..] == [Accept(l, m)] && es[1..][1..][1..][1..] == [];
    assert Runs(net3, [Accept(l, m)]) && !AlwaysPaired(net3, [Accept(l, m)]);
    assert Runs(net2, es[1..][1..]) && !AlwaysPaired(net2, es[1..][1..]);
    assert Runs(net1, es[1..]) && !AlwaysPaired(net1, es[1..]);
  }

  lemma AcceptedTwice(net: Net, a: Id, l: Id, n: Id, m: Id) returns (net2: Net, net3: Net, net4: Net)
    requires Enabled(net, Connect(a, l)) && net[l].accept == Some([]) && a != l
    requires n !in net && m !in net && n != m
    ensures Enabled(Step(net, Connect(a, l)), Connect(a, l)) && net2 == Step(Step(net, Connect(a, l)), Connect(a, l))
    ensures Enabled(net2, Accept(l, n)) && net3 == Step(net2, Accept(l, n))
    ensures Enabled(net3, Accept(l, m)) && net4 == Step(net3, Accept(l, m))
    ensures !Paired(net4)
  {
    net2 := Step(Step(net, Connect(a, l)), Connect(a, l));
    assert Waiting(net2, l, 0) && WaitingAt(net2, l, 0) == a && net2[l].accept.value == [a, a];
    net3 := Step(net2, Accept(l, n));
    assert Waiting(net3, l, 0) && WaitingAt(net3, l, 0) == a;
    net4 := Step(net3, Accept(l, m));
    assert n in net4 && net4[n].conn == Some(a) && net4[a].conn == Some(m);
  }
}
