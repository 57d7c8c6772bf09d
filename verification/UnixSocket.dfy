/** UNIX-domain sockets, src/socket/unix.c: the operations on the socket objects, each proved to
    be one step of the socket machine or to change nothing.  `Wait` stands for an operation
    that would go on polling. */
module UnixSocket {
  import opened ByteFifo
  import M = SocketMachine

  datatype Answer = Wait | Return(value: int)

  /** A uint32_t result handed back as a signed one. */
  function Signed(r: nat): int { if r < 0x8000_0000 then r else r - 0x1_0000_0000 }

  class Socket {
    ghost const id: nat
    var conn: Socket?
    var acceptQueue: seq<Socket>
    var listening: bool
    const nonBlock: bool
    var discon: bool
    const sended: Queue
    ghost var sent: seq<Byte>        // bytes accepted by send so far
    ghost var received: seq<Byte>    // bytes returned by recv so far

    constructor (nonBlock: bool, ghost id: nat)
      ensures this.id == id && this.nonBlock == nonBlock && fresh(sended) && fresh(sended.buffer)
      ensures sended.Valid() && sended.buffer.Length == M.CAPACITY && View(this) == M.Fresh(nonBlock)
      ensures conn == null && acceptQueue == [] && !listening && !discon
    {
      this.id, this.nonBlock := id, nonBlock;
      conn, acceptQueue, listening, discon, sent, received := null, [], false, false, [], [];
      sended := new Queue(M.CAPACITY);
    }
  }

  // ---------------------------------------------------------------------------
  // What the objects mean

  ghost predicate Known(all: seq<Socket>, s: Socket) { s.id < |all| && all[s.id] == s }

  ghost function Ids(q: seq<Socket>): seq<nat> { seq(|q|, i requires 0 <= i < |q| => q[i].id) }

  ghost function View(s: Socket): M.Sock
    requires s.sended.Valid()
    reads s, s.sended, s.sended.buffer
  {
    M.Sock(if s.conn == null then M.None else M.Some(s.conn.id),
           if s.listening then M.Some(Ids(s.acceptQueue)) else M.None,
           s.sended.Contents(), s.nonBlock, s.sent, s.received)
  }

  ghost predicate Linked(all: seq<Socket>, s: Socket)
    reads s
  {
    (s.conn != null ==> Known(all, s.conn)) && (forall q :: q in s.acceptQueue ==> Known(all, q))
  }

  ghost predicate QueueOk(s: Socket)
    reads s.sended, s.sended.buffer
  {
    s.sended.Valid() && s.sended.buffer.Length == M.CAPACITY
  }

  /** Every socket has its own byte queue. */
  ghost predicate Separate(all: seq<Socket>)
  {
    && (forall i :: 0 <= i < |all| ==> all[i].id == i)
    && (forall i, j :: 0 <= i < j < |all| ==>
          all[i].sended != all[j].sended && all[i].sended.buffer != all[j].sended.buffer)
  }

  ghost function Queues(all: seq<Socket>): set<object> { set s | s in all :: s.sended }

  ghost function Buffers(all: seq<Socket>): set<object> { set s | s in all :: s.sended.buffer }

  ghost predicate Valid(all: seq<Socket>)
    reads all, Queues(all), Buffers(all)
  {
    Separate(all) && forall i :: 0 <= i < |all| ==> QueueOk(all[i]) && Linked(all, all[i])
  }

  ghost function Net(all: seq<Socket>): (net: M.Net)
    requires Valid(all)
    reads all, Queues(all), Buffers(all)
  {
    map i: nat | i < |all| :: View(all[i])
  }

  /** An operation that touches the socket `i` only updates the machine there. */
  lemma NetUpdated(all: seq<Socket>, net: M.Net, i: nat)
    requires Separate(all) && i < |all| && (forall k: nat :: k in net <==> k < |all|)
    requires forall k: nat :: k < |all| ==> QueueOk(all[k]) && Linked(all, all[k]) && (k != i ==> View(all[k]) == net[k])
    ensures Valid(all) && Net(all) == net[i := View(all[i])]
  {
  }

  lemma NetSplit(all: seq<Socket>, net: M.Net)
    requires Valid(all) && net == Net(all)
    ensures Separate(all) && (forall k: nat :: k in net <==> k < |all|)
    ensures forall k: nat :: k < |all| ==> QueueOk(all[k]) && Linked(all, all[k]) && View(all[k]) == net[k]
  {
  }

  lemma SocketAt(all: seq<Socket>, s: Socket)
    requires Valid(all) && Known(all, s)
    ensures QueueOk(s) && Linked(all, s) && s.sended in Queues(all) && s.sended.buffer in Buffers(all)
    ensures s.id in Net(all) && Net(all)[s.id] == View(s)
  {
    hide View, Queue.Valid, Queue.Contents;
    assert QueueOk(all[s.id]) && Linked(all, all[s.id]);
  }

  lemma NetGrown(all: seq<Socket>, s: Socket, net: M.Net)
    requires Separate(all) && s.id == |all| && QueueOk(s) && Linked(all, s) && (forall k: nat :: k in net <==> k < |all|)
    requires forall k: nat :: k < |all| ==> QueueOk(all[k]) && Linked(all, all[k]) && View(all[k]) == net[k]
    requires forall k: nat :: k < |all| ==> all[k].sended != s.sended && all[k].sended.buffer != s.sended.buffer
    ensures Valid(all + [s]) && Valid(all) && Net(all) == net && Net(all + [s]) == net[|all| := View(s)]
  {
    hide View, Queue.Valid, Queue.Contents;
    var all' := all + [s];
    assert forall x :: Known(all, x) ==> Known(all', x);
    assert Linked(all', s);
    forall k: nat | k < |all| ensures QueueOk(all'[k]) && Linked(all', all'[k]) && View(all'[k]) == net[k] {
      assert all'[k] == all[k];
    }
    NetUpdated(all', net[|all| := View(s)], |all|);
  }

  // ---------------------------------------------------------------------------
  // The operations, seen from outside: `net` before, `net'` after, `r` the answer

  ghost predicate Connected(net: M.Net, a: M.Id, l: M.Id, net': M.Net, r: Answer)
  {
    a in net &&
    if M.Enabled(net, M.Connect(a, l)) then
      net' == M.Step(net, M.Connect(a, l)) && r == (if net[a].nonBlock then Return(0) else Wait)
    else
      net' == net && r == Return(-1)
  }

  ghost predicate Sent(net: M.Net, a: M.Id, data: seq<Byte>, net': M.Net, r: Answer)
  {
    a in net &&
    if M.Enabled(net, M.Send(a, data)) then
      net' == M.Step(net, M.Send(a, data)) && r == Return(M.Min(M.CAPACITY - |net[a].queue|, |data|))
    else
      net' == net && r == (if data == [] then Return(-1) else if net[a].nonBlock then Return(0) else Wait)
  }

  /** `out` holds `got` at its front. */
  ghost predicate Received(net: M.Net, a: M.Id, len: nat, net': M.Net, r: Answer, got: seq<Byte>, discon: bool)
  {
    a in net &&
    if discon then net' == net && got == [] && r == Return(0)
    else if M.Enabled(net, M.Recv(a, len)) then
      && net' == M.Step(net, M.Recv(a, len)) && r == Return(|got|)
      && net'[a].received == net[a].received + got
    else
      net' == net && got == [] && (net[a].conn.Some? ==> net[a].conn.value in net)
      && r == (if net[a].conn.None? || net[net[a].conn.value].queue != [] then Return(-1)
               else if net[a].nonBlock then Return(0) else Wait)
  }

  ghost predicate Accepted(net: M.Net, l: M.Id, n: M.Id, net': M.Net, r: Answer)
  {
    l in net &&
    if M.Enabled(net, M.Accept(l, n)) then net' == M.Step(net, M.Accept(l, n)) && r == Return(0)
    else net' == net && r == (if net[l].nonBlock then Return(-1) else Wait)
  }

  // ---------------------------------------------------------------------------
  // Changing one socket

  method SetAccept(l: Socket, q: seq<Socket>, ghost all: seq<Socket>)
    requires Valid(all) && Known(all, l) && forall x :: x in q ==> Known(all, x)
    modifies l`acceptQueue, l`listening
    ensures Valid(all) && l.listening && l.acceptQueue == q && l.id in old(Net(all))
    ensures Net(all) == old(Net(all))[l.id := old(Net(all))[l.id].(accept := M.Some(Ids(q)))]
  {
    ghost var net := Net(all);
    hide Queue.Valid, Queue.Contents;
    SocketAt(all, l);
    l.acceptQueue, l.listening := q, true;
    NetUpdated(all, net, l.id);
  }

  method Point(other: Socket, s: Socket, ghost all: seq<Socket>)
    requires Valid(all) && Known(all, other) && Known(all, s)
    modifies other`conn
    ensures Valid(all) && other.id in old(Net(all)) && other.conn == s
    ensures Net(all) == old(Net(all))[other.id := old(Net(all))[other.id].(conn := M.Some(s.id))]
  {
    ghost var net := Net(all);
    hide Queue.Valid, Queue.Contents;
    SocketAt(all, other);
    other.conn := s;
    NetUpdated(all, net, other.id);
  }

  method GiveBytes(s: Socket, part: seq<Byte>, ghost all: seq<Socket>)
    requires Valid(all) && Known(all, s) && 0 < |part| <= M.CAPACITY - s.sended.size
    modifies s.sended, s.sended.buffer
    ensures Valid(all) && s.id in old(Net(all))
    ensures var was := old(Net(all))[s.id]; Net(all) == old(Net(all))[s.id := was.(queue := was.queue + part)]
  {
    ghost var net := Net(all);
    hide Queue.Valid, Queue.Contents;
    SocketAt(all, s);
    NetSplit(all, net);
    hide Net, Valid, Linked;
    var b := s.sended.Enqueue(part);
    NetUpdated(all, net, s.id);
  }

  ghost method LogSent(s: Socket, bytes: seq<Byte>, all: seq<Socket>)
    requires Valid(all) && Known(all, s)
    modifies s`sent
    ensures Valid(all) && s.id in old(Net(all))
    ensures var was := old(Net(all))[s.id]; Net(all) == old(Net(all))[s.id := was.(sent := was.sent + bytes)]
  {
    var net := Net(all);
    hide Queue.Valid, Queue.Contents;
    SocketAt(all, s);
    s.sent := s.sent + bytes;
    NetUpdated(all, net, s.id);
  }

  method TakeBytes(peer: Socket, sm: nat, out: array<Byte>, ghost all: seq<Socket>) returns (readed: nat)
    requires Valid(all) && Known(all, peer) && sm <= out.Length && out !in Buffers(all) && sm <= peer.sended.size
    modifies out, peer.sended
    ensures Valid(all) && peer.id in old(Net(all)) && sm <= |old(Net(all))[peer.id].queue| <= M.CAPACITY
    ensures readed == if sm == 0 then FAILED else sm
    ensures out[..sm] == old(Net(all))[peer.id].queue[..sm] && out[sm..] == old(out[sm..])
    ensures Net(all) == old(Net(all))[peer.id := old(Net(all))[peer.id].(queue := old(Net(all))[peer.id].queue[sm..])]
  {
    ghost var net := Net(all);
    SocketAt(all, peer);
    assert peer.sended.size <= M.CAPACITY;
    hide Queue.Valid, Queue.Contents;
    NetSplit(all, net);
    hide Net, Valid, QueueOk, Linked;
    readed := peer.sended.Dequeue(sm, out);
    NetUpdated(all, net, peer.id);
  }

  ghost method Log(s: Socket, bytes: seq<Byte>, all: seq<Socket>)
    requires Valid(all) && Known(all, s)
    modifies s`received
    ensures Valid(all) && s.id in old(Net(all))
    ensures var was := old(Net(all))[s.id]; Net(all) == old(Net(all))[s.id := was.(received := was.received + bytes)]
  {
    var net := Net(all);
    hide Queue.Valid, Queue.Contents;
    SocketAt(all, s);
    s.received := s.received + bytes;
    NetUpdated(all, net, s.id);
  }

  /** unix_create: a socket of its own among the others. */
  method Create(nonBlock: bool, ghost all: seq<Socket>) returns (s: Socket)
    requires Valid(all)
    ensures fresh(s) && Valid(all + [s]) && s.conn == null && !s.listening && s.nonBlock == nonBlock
    ensures var net, e := old(Net(all)), M.Open(|all|, nonBlock); M.Enabled(net, e) && Net(all + [s]) == M.Step(net, e)
  {
    ghost var net := Net(all);
    s := new Socket(nonBlock, |all|);
    hide Queue.Valid, Queue.Contents;
    NetGrown(all, s, net);
  }

  /** A new socket that points at `other`. */
  method Make(other: Socket, ghost all: seq<Socket>) returns (s: Socket)
    requires Valid(all) && Known(all, other)
    ensures fresh(s) && Valid(all + [s]) && s.id == |all| && |all| !in old(Net(all)) && s.conn == other
    ensures Net(all + [s]) == old(Net(all))[|all| := M.Fresh(false).(conn := M.Some(other.id))]
  {
    ghost var net := Net(all);
    s := new Socket(false, |all|);
    s.conn := other;
    hide Queue.Valid, Queue.Contents;
    NetGrown(all, s, net);
  }

  // ---------------------------------------------------------------------------
  // The operations

  method Listen(s: Socket, ghost all: seq<Socket>) returns (r: int)
    requires Valid(all) && Known(all, s)
    modifies s`acceptQueue, s`listening
    ensures r == 0 && Valid(all) && s.listening && s.acceptQueue == []
    ensures M.Enabled(old(Net(all)), M.Listen(s.id)) && Net(all) == M.Step(old(Net(all)), M.Listen(s.id))
  {
    hide Valid, Net, View, QueueOk, Linked;
    SetAccept(s, [], all);
    assert Ids([]) == [];
    r := 0;
  }

  /** unix_connect: `target` is the socket found under the address, if any. */
  method Connect(s: Socket, target: Socket?, ghost all: seq<Socket>) returns (r: Answer)
    requires Valid(all) && Known(all, s) && (target != null ==> Known(all, target))
    modifies if target == null then {} else {target}
    ensures Valid(all)
    ensures target == null ==> r == Return(-1)
    ensures target != null ==> Connected(old(Net(all)), s.id, target.id, Net(all), r)
    ensures r == Return(-1) <==> target == null || old(s.conn) != null || !old(target.listening)
    ensures r != Return(-1) ==> r == (if s.nonBlock then Return(0) else Wait) && target.acceptQueue == old(target.acceptQueue) + [s]
  {
    hide Valid, Net, Queue.Valid, Queue.Contents;
    SocketAt(all, s);
    if target == null {
      return Return(-1);
    }
    SocketAt(all, target);
    if s.conn != null || !target.listening {
      return Return(-1);
    }
    r := if s.nonBlock then Return(0) else Wait;
    assert Ids(target.acceptQueue + [s]) == Ids(target.acceptQueue) + [s.id];
    SetAccept(target, target.acceptQueue + [s], all);
  }

  method Send(s: Socket, data: seq<Byte>, ghost all: seq<Socket>) returns (r: Answer)
    requires Valid(all) && Known(all, s)
    modifies s`sent, s.sended, s.sended.buffer
    ensures Valid(all) && Sent(old(Net(all)), s.id, data, Net(all), r)
    ensures s.sended.Valid() && old(s.sended.Valid()) && (r == Return(-1) <==> data == [])
    ensures var was, now := old(s.sended.Contents()), s.sended.Contents();
      if r.Return? && r.value > 0 then r.value <= |data| && now == was + data[..r.value] && (r.value == |data| || |now| == 512000)
      else now == was && (data != [] ==> |was| == 512000 && r == (if s.nonBlock then Return(0) else Wait))
  {
    hide Valid, Net, Linked, Queue.Valid, Queue.Contents;
    SocketAt(all, s);
    if |data| == 0 {
      return Return(-1);
    }
    var free := s.sended.GetFree();
    if free == 0 {
      return if s.nonBlock then Return(0) else Wait;
    }
    var sm := M.Min(free, |data|);
    GiveBytes(s, data[..sm], all);
    LogSent(s, data[..sm], all);
    SocketAt(all, s);
    r := Return(sm);
  }

  method Recv(s: Socket, len: nat, out: array<Byte>, ghost all: seq<Socket>) returns (r: Answer, ghost got: seq<Byte>)
    requires Valid(all) && Known(all, s) && len <= out.Length && out !in Buffers(all)
    modifies s`received, out, if s.conn == null then {} else {s.conn.sended}
    ensures Valid(all) && Received(old(Net(all)), s.id, len, Net(all), r, got, s.discon)
    ensures |got| <= out.Length && out[..] == got + old(out[..])[|got|..]
    ensures s.discon ==> r == Return(0)
    ensures !s.discon && s.conn == null ==> r == Return(-1)
    ensures !s.discon && s.conn != null ==> s.conn.sended.Valid() && old(s.conn.sended.Valid())
    ensures !s.discon && s.conn != null && old(s.conn.sended.Contents()) == [] ==> r == if s.nonBlock then Return(0) else Wait
    ensures !s.discon && s.conn != null && old(s.conn.sended.Contents()) != [] ==> r == if len == 0 then Return(-1) else Return(|got|)
    ensures !s.discon && s.conn != null && old(s.conn.sended.Contents()) != [] && len > 0 ==> got != []
    ensures got != [] ==>
      (&& s.conn != null && s.conn.sended.Valid() && old(s.conn.sended.Valid()) && !s.discon
       && old(s.conn.sended.Contents()) == got + s.conn.sended.Contents()
       && (|got| == len || s.conn.sended.Contents() == []))
  {
    hide Valid, Net, Queue.Valid, Queue.Contents;
    SocketAt(all, s);
    got := [];
    if s.discon {
      return Return(0), got;
    }
    if s.conn == null {
      return Return(-1), got;
    }
    var peer := s.conn;
    SocketAt(all, peer);
    var size := peer.sended.GetSize();
    if size == 0 {
      return if s.nonBlock then Return(0) else Wait, got;
    }
    ghost var net := Net(all);
    r, got := Fetch(s, peer, M.Min(size, len), out, all);
    if len == 0 {
      assert net[s.id].received + [] == net[s.id].received && net[peer.id].queue[0..] == net[peer.id].queue;
      assert Net(all) == net;
    }
  }

  /** The oldest `sm` bytes queued at the peer go to the buffer. */
  method Fetch(s: Socket, peer: Socket, sm: nat, out: array<Byte>, ghost all: seq<Socket>) returns (r: Answer, ghost got: seq<Byte>)
    requires Valid(all) && Known(all, s) && Known(all, peer) && s.conn == peer && sm <= out.Length && out !in Buffers(all)
    requires peer.sended.Valid() && sm <= |peer.sended.Contents()|
    modifies s`received, out, peer.sended
    ensures Valid(all) && s.id in old(Net(all)) && peer.id in old(Net(all)) && r == (if sm == 0 then Return(-1) else Return(sm))
    ensures peer.sended.Valid() && got == old(peer.sended.Contents())[..sm] && peer.sended.Contents() == old(peer.sended.Contents())[sm..]
    ensures out[..] == got + old(out[..])[sm..]
    ensures var net := old(Net(all));
      var net1 := net[s.id := net[s.id].(received := net[s.id].received + got)];
      Net(all) == net1[peer.id := net1[peer.id].(queue := net[peer.id].queue[sm..])]
  {
    hide Valid, Net, Queue.Valid, Queue.Contents;
    SocketAt(all, s);
    SocketAt(all, peer);
    got := peer.sended.Contents()[..sm];
    Log(s, got, all);
    var readed := TakeBytes(peer, sm, out, all);
    SocketAt(all, peer);
    assert out[..] == out[..sm] + out[sm..];
    r := Return(Signed(readed));
  }

  /** unix_accept: the oldest request leaves the queue, and the socket made for it and the
      socket that asked point at each other. */
  method Accept(l: Socket, ghost all: seq<Socket>) returns (r: Answer, s: Socket?, ghost all': seq<Socket>)
    requires Valid(all) && Known(all, l) && l.listening
    modifies l, if l.acceptQueue == [] then {} else {l.acceptQueue[0]}
    ensures Valid(all') && Accepted(old(Net(all)), l.id, |all|, Net(all'), r)
    ensures all' == (if s == null then all else all + [s])
    ensures s == null <==> old(l.acceptQueue) == []
    ensures s == null ==> r == if l.nonBlock then Return(-1) else Wait
    ensures s != null ==> r == Return(0) && l.acceptQueue == old(l.acceptQueue)[1..]
    ensures s != null ==> s.conn == old(l.acceptQueue)[0] && old(l.acceptQueue)[0].conn == s
  {
    hide Valid, Net, Queue.Valid, Queue.Contents;
    SocketAt(all, l);
    s, all' := null, all;
    if l.acceptQueue == [] {
      r := if l.nonBlock then Return(-1) else Wait;
      return;
    }
    var other := l.acceptQueue[0];
    SocketAt(all, other);
    assert M.Waiting(Net(all), l.id, 0) && M.WaitingAt(Net(all), l.id, 0) == other.id;
    assert Ids(l.acceptQueue[1..]) == Ids(l.acceptQueue)[1..];
    SetAccept(l, l.acceptQueue[1..], all);
    s := Make(other, all);
    all' := all + [s];
    Point(other, s, all');
    r := Return(0);
  }
}
