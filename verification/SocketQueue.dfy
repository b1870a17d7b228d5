/**
  Connecting sockets: a client waits in the queue of a listening socket, a list through the clients,
  until it is accepted or one of the two is released.
 */
module SocketQueue {
  import opened Machine

  const EWOULDBLOCK := -326

  datatype State = Virgin | IsUnconnected | IsConnecting | IsConnected | IsDisconnecting | IsDisconnected

  ghost predicate Distinct(q: seq<Socket>) {
    forall i, j :: 0 <= i < j < |q| ==> q[i] != q[j]
  }

  lemma AppendedDistinct(q: seq<Socket>, c: Socket)
    requires Distinct(q) && c !in q
    ensures Distinct(q + [c])
  {
  }

  lemma RemovedDistinct(q: seq<Socket>, k: nat)
    requires Distinct(q) && k < |q|
    ensures Distinct(q[..k] + q[k + 1..]) && q[k] !in q[..k] + q[k + 1..]
    ensures k == 0 ==> q[..k] + q[k + 1..] == q[1..]
    ensures forall c :: c in q && c != q[k] ==> c in q[..k] + q[k + 1..]
  {
    var r := q[..k] + q[k + 1..];
    forall c | c in q && c != q[k]
      ensures c in r
    {
      var i :| 0 <= i < |q| && q[i] == c;
      assert r[if i < k then i else i - 1] == c;
    }
  }

  /** q with so taken out, all others in their order. */
  function Without(q: seq<Socket>, so: Socket): (r: seq<Socket>)
    ensures so !in r && |r| <= |q|
    ensures so !in q ==> r == q
  {
    if q == [] then [] else if q[0] == so then Without(q[1..], so) else [q[0]] + Without(q[1..], so)
  }

  lemma {:induction false} WithoutAt(q: seq<Socket>, k: nat)
    requires Distinct(q) && k < |q|
    ensures Without(q, q[k]) == q[..k] + q[k + 1..]
  {
    if k == 0 {
      assert q[k] !in q[1..];
    } else {
      assert q[0] != q[k];
      WithoutAt(q[1..], k - 1);
      assert q[..k] + q[k + 1..] == [q[0]] + (q[1..][..k - 1] + q[1..][k..]);
    }
  }

  lemma Absent(q: seq<Socket>, so: Socket)
    requires so !in q
    ensures Without(q, so) == q
  {
  }

  class Socket {
    const backlog: nat       // of a listening socket: how many clients may wait
    var state: State
    var acceptcon: bool      // SO_ACCEPTCON: the socket listens
    var closing: bool
    var conn: Socket?        // the server waited for, or the peer
    var next: Socket?        // behind this one in the queue of `conn`
    var iconn_q: Socket?     // the first client in the own queue
    ghost var q: seq<Socket> // the own queue, from iconn_q on

    constructor (backlog: nat, acceptcon: bool)
      ensures state == IsUnconnected && conn == null && iconn_q == null && q == []
      ensures this.backlog == backlog && this.acceptcon == acceptcon
    {
      this.backlog, this.acceptcon := backlog, acceptcon;
      state, closing, conn, next, iconn_q, q := IsUnconnected, false, null, null, null, [];
    }

    /** The clients in the queue are linked in its order, and there are not too many of them. */
    ghost predicate Linked()
      reads this`iconn_q, this`q, q`next
    {
      && iconn_q == (if q == [] then null else q[0])
      && (forall i :: 0 <= i < |q| ==> Placed(q, i))
      && Distinct(q) && |q| <= backlog
    }

    /** The i-th socket of q leads to the one behind it. */
    static ghost predicate Placed(q: seq<Socket>, i: int)
      requires 0 <= i < |q|
      reads q`next
    {
      q[i].next == if i + 1 < |q| then q[i + 1] else null
    }

    predicate Idle()
      reads this`state
    {
      state != IsConnecting && state != IsConnected
    }

    ghost predicate WaitsFor(s: Socket)
      reads this`state, this`conn
    {
      state == IsConnecting && conn == s
    }

    /** All sockets but this one keep their state and connection, and all but `but` their queues. */
    twostate predicate OnlyThis(all: set<Socket>, but: Socket)
      reads all
    {
      && (forall c :: c in all ==> c.acceptcon == old(c.acceptcon))
      && (forall c :: c in all && c != this ==> c.state == old(c.state) && c.conn == old(c.conn))
      && (forall s :: s in all && s != but ==> s.q == old(s.q))
    }

    /** This socket has come to the end of the queue it waits in. */
    twostate lemma InvJoined(all: set<Socket>)
      requires old(Inv(all)) && this in all && old(Idle()) && !acceptcon
      requires state == IsConnecting && conn != null && conn in all && conn.acceptcon
      requires forall s :: s in all ==> s.Linked()
      requires var server := conn; OnlyThis(all, server) && server.q == old(server.q) + [this]
      ensures Inv(all)
    {
      hide Socket.Linked;
      var server := conn;
      var q := old(server.q);
      assert server.q[|q|] == this && forall c :: c in q ==> c in server.q;
      assert forall c :: c in all && c.state == IsConnected ==> old(Paired(c, all));
    }

    /** This socket waits no longer, and has left the queue. */
    twostate lemma InvLeft(all: set<Socket>)
      requires old(Inv(all)) && this in all && old(state) == IsConnecting && state == IsDisconnecting
      requires forall s :: s in all ==> s.Linked()
      requires old(conn) != null && OnlyThis(all, old(conn))
      requires var server := old(conn); forall c :: c in server.q <==> c in old(server.q) && c != this
      ensures Inv(all)
    {
      hide Socket.Linked;
      var server := old(conn);
      assert forall i :: 0 <= i < |server.q| ==> server.q[i] in old(server.q);
      assert forall c :: c in all && c.state == IsConnected ==> old(Paired(c, all));
    }

    /** This socket is connected with the one that was the first in a queue, which has moved up. */
    twostate lemma InvMarried(all: set<Socket>)
      requires old(Inv(all)) && this in all && old(Idle()) && !acceptcon && state == IsConnected
      requires conn != null && conn in all && conn.state == IsConnected && conn.conn == this
      requires forall s :: s in all ==> s.Linked()
      requires var client := conn; old(client.state) == IsConnecting && old(client.conn) != null
      requires forall c :: c in all && c != this && c != conn ==> c.state == old(c.state) && c.conn == old(c.conn)
      requires var client := conn; forall c :: c in all ==>
        c.acceptcon == old(c.acceptcon) && (c != old(client.conn) ==> c.q == old(c.q))
      requires var client := conn; var server := old(client.conn);
        old(server.q) == [client] + server.q && client !in server.q
      ensures Inv(all)
    {
      hide Socket.Linked;
      var client := conn;
      var server := old(client.conn);
      assert forall i :: 0 <= i < |server.q| ==> server.q[i] == old(server.q)[i + 1];
      assert forall c :: c in all && c.state == IsConnected && c != client && c != this ==> old(Paired(c, all));
    }

    /** The list part of so_connect. */
    method Enqueue(client: Socket) returns (ok: bool)
      requires Linked() && client !in q
      modifies client`next, this`iconn_q, this`q, q`next
      ensures Linked() && ok == (|old(q)| < backlog) && q == if ok then old(q) + [client] else old(q)
    {
      ghost var q0 := q;
      client.next := null;
      forall i | 0 <= i < |q|
        ensures Placed(q, i)
      {
        assert old(Placed(q, i)) && q[i] in q;
      }
      var last := iconn_q;
      if last != null {
        var clients := 1;
        assert Placed(q, 0);
        while last.next != null
          invariant 1 <= clients <= |q| && last == q[clients - 1] && Placed(q, clients - 1)
          decreases |q| - clients
        {
          assert Placed(q, clients);
          last := last.next;
          clients := clients + 1;
        }
        if clients >= backlog {
          return false;
        }
        assert last in q;
        last.next := client;
      } else {
        if backlog == 0 {
          return false;
        }
        iconn_q := client;
      }
      AppendedDistinct(q, client);
      q := q + [client];
      forall i | 0 <= i < |q|
        ensures Placed(q, i)
      {
        assert i < |q0| ==> old(Placed(q0, i)) && q0[i] in q0;
      }
      return true;
    }

    /** The first client leaves the queue. */
    method Dequeue() returns (client: Socket)
      requires Linked() && q != []
      modifies this`iconn_q, this`q
      ensures Linked() && client == old(q)[0] && q == old(q)[1..] && client !in q
    {
      ghost var q0 := q;
      assert Placed(q, 0);
      client := iconn_q;
      iconn_q := client.next;
      RemovedDistinct(q, 0);
      q := q[1..];
      forall i | 0 <= i < |q|
        ensures Placed(q, i)
      {
        assert Placed(q0, i + 1);
      }
    }

    /** The client before so in the queue. */
    method FindBefore(so: Socket, ghost k: nat) returns (last: Socket?)
      requires Linked() && 0 < k < |q| && q[k] == so
      ensures last == q[k - 1]
    {
      last := iconn_q;
      ghost var j := 0;
      assert Placed(q, 0);
      while last != null && last.next != so
        invariant 0 <= j < k && last == q[j] && Placed(q, j)
        decreases k - j
      {
        assert Placed(q, j + 1);
        last := last.next;
        j := j + 1;
      }
    }

    /** The links after the k-th client was passed over. */
    twostate lemma Relinked(new k: nat) returns (w: seq<Socket>)
      requires old(Linked()) && q == old(q) && k < |q|
      requires forall i :: 0 <= i < |q| && i != k - 1 ==> q[i].next == old(q[i].next)
      requires 0 < k ==> q[k - 1].next == old(q[k].next)
      ensures w == q[..k] + q[k + 1..] && forall i :: 0 <= i < |w| ==> Placed(w, i)
    {
      w := RemovedAt(q, k);
      assert old(Placed(q, k));
      forall i | 0 <= i < |w|
        ensures Placed(w, i)
      {
        if i < k - 1 {
          assert old(Placed(q, i));
        } else if k <= i {
          assert old(Placed(q, i + 1));
        }
      }
    }

    /** A client leaves the queue, wherever it is in it. */
    method Unlink(so: Socket, ghost k: nat)
      requires Linked() && k < |q| && q[k] == so
      modifies this`iconn_q, this`q, q`next
      ensures Linked() && q == old(q)[..k] + old(q)[k + 1..] && so !in q
    {
      hide Placed;
      var last := iconn_q;
      if last == so {
        HeadOnly(q, k);
        PlacedAt(q, k);
        iconn_q := so.next;
      } else {
        last := FindBefore(so, k);
        assert last in q;
        if last != null {
          last.next := so.next;
        }
      }
      ghost var w := Relinked(k);
      RemovedDistinct(q, k);
      q := w;
    }

    static lemma HeadOnly(q: seq<Socket>, k: nat)
      requires Distinct(q) && k < |q| && q[0] == q[k]
      ensures k == 0
    {
    }

    static lemma PlacedAt(q: seq<Socket>, k: nat)
      requires k < |q| && Placed(q, k)
      ensures q[k].next == if k + 1 < |q| then q[k + 1] else null
    {
    }
  }

  // ---------------------------------------------------------------- the invariant

  ghost predicate Lists(all: set<Socket>)
    reads all
  {
    && (forall s :: s in all ==> forall i :: 0 <= i < |s.q| ==> s.q[i] in all)
    && (forall s :: s in all ==> s.Linked())
  }

  /** In a queue there are only sockets that are connecting to its owner ... */
  ghost predicate Members(all: set<Socket>)
    reads all
  {
    forall s :: s in all ==> forall i :: 0 <= i < |s.q| ==> s.q[i] in all && s.q[i].WaitsFor(s)
  }

  /** ... and all of those are. */
  ghost predicate Clients(all: set<Socket>)
    reads all
  {
    forall c :: c in all && c.state == IsConnecting ==> c.conn != null && c.conn in all && c in c.conn.q
  }

  ghost predicate Paired(c: Socket, all: set<Socket>)
    reads all
  {
    c in all && c.conn != null && c.conn in all && c.conn.state == IsConnected && c.conn.conn == c
  }

  /** Connected sockets are connected to each other. */
  ghost predicate Pairs(all: set<Socket>)
    reads all
  {
    forall c :: c in all && c.state == IsConnected ==> Paired(c, all)
  }

  /** Only listening sockets have a queue, and they do not connect to others themselves. */
  ghost predicate Listeners(all: set<Socket>)
    reads all
  {
    forall s :: s in all ==> if s.acceptcon then s.Idle() else s.q == []
  }

  ghost predicate Inv(all: set<Socket>)
    reads all
  {
    Lists(all) && Members(all) && Clients(all) && Pairs(all) && Listeners(all)
  }

  lemma QueueOf(all: set<Socket>, s: Socket)
    requires Inv(all) && s in all
    ensures s.Linked() && forall c :: c in s.q ==> c in all && c.WaitsFor(s)
    ensures forall t, c :: t in all && t != s && c in t.q ==> c !in s.q
  {
    forall t, c | t in all && t != s && c in t.q
      ensures c !in s.q
    {
      assert c.WaitsFor(t);
    }
  }

  lemma IdleOutside(all: set<Socket>, so: Socket)
    requires Inv(all) && so.Idle()
    ensures forall s :: s in all ==> so !in s.q
  {
  }

  // ---------------------------------------------------------------- the operations

  /** so_create: a new socket is connected to nothing. */
  method Create(backlog: nat, ghost all: set<Socket>) returns (so: Socket)
    requires Inv(all)
    ensures fresh(so) && so.state == IsUnconnected && !so.acceptcon && so.q == [] && so.backlog == backlog
    ensures Inv(all + {so})
  {
    hide Socket.Linked;
    so := new Socket(backlog, false);
    NewLinked(so);
    forall s | s in all + {so}
      ensures s.Linked()
    {
      assert s != so ==> old(s.Linked());
    }
    assert forall c :: c in all && c.state == IsConnected ==> old(Paired(c, all));
  }

  lemma NewLinked(so: Socket)
    requires so.iconn_q == null && so.q == []
    ensures so.Linked()
  {
  }

  /** What so_connect does to a listening socket and its client. */
  method Queue(server: Socket, client: Socket) returns (ok: bool)
    requires server.Linked() && client !in server.q
    modifies client`next, client`state, client`conn, server`iconn_q, server`q, server.q`next
    ensures server.Linked() && ok == (|old(server.q)| < server.backlog)
    ensures server.q == if ok then old(server.q) + [client] else old(server.q)
    ensures if ok then client.WaitsFor(server) else client.state == old(client.state) && client.conn == old(client.conn)
  {
    ok := server.Enqueue(client);
    if ok {
      client.state := IsConnecting;
      client.conn := server;
    }
  }

  /** so_connect up to the point where the client waits; E_OK if it would sleep there. */
  method Connect(server: Socket, client: Socket, nonblock: bool, ghost all: set<Socket>) returns (r: int)
    requires Inv(all) && server in all && client in all && client.Idle() && !client.acceptcon
    modifies client`next, client`state, client`conn, server`iconn_q, server`q, server.q`next
    ensures Inv(all)
    ensures !server.acceptcon ==> r == EINVAL
    ensures server.acceptcon && |old(server.q)| >= server.backlog ==> r == ETIMEDOUT
    ensures server.acceptcon && |old(server.q)| < server.backlog ==>
      && r == (if nonblock then EINPROGRESS else E_OK) && server.q == old(server.q) + [client]
      && client.WaitsFor(server)
    ensures r == EINVAL || r == ETIMEDOUT ==>
      server.q == old(server.q) && client.state == old(client.state) && client.conn == old(client.conn)
  {
    hide Socket.Linked;
    if !server.acceptcon {
      return EINVAL;
    }
    IdleOutside(all, client);
    QueueOf(all, server);
    ghost var q := server.q;
    var ok := Queue(server, client);
    forall s | s in all
      ensures s.Linked()
    {
      assert s != server ==> old(s.Linked());
    }
    if !ok {
      assert forall c :: c in all && c.state == IsConnected ==> old(Paired(c, all));
      return ETIMEDOUT;
    }
    client.InvJoined(all);
    return if nonblock then EINPROGRESS else E_OK;
  }

  /** What so_sockpair does, and so_accept with a client and the new socket. */
  method Marry(a: Socket, b: Socket)
    modifies a`conn, a`state, b`conn, b`state
    ensures a.state == b.state == IsConnected && a.conn == b && b.conn == a
  {
    a.conn := b;
    b.conn := a;
    a.state := IsConnected;
    b.state := IsConnected;
  }

  method Marriage(server: Socket, newso: Socket) returns (client: Socket)
    requires server.Linked() && server.q != []
    modifies server`iconn_q, server`q, server.q`next, server.q`conn, server.q`state, newso`conn, newso`state
    ensures server.Linked() && client == old(server.q)[0] && server.q == old(server.q)[1..] && client !in server.q
    ensures client.state == newso.state == IsConnected && client.conn == newso && newso.conn == client
    ensures client.next == null
    ensures forall c :: c in server.q && c != newso ==> c.state == old(c.state) && c.conn == old(c.conn)
  {
    hide Socket.Linked;
    client := server.Dequeue();
    client.next := null;
    Marry(newso, client);
  }

  /** so_accept without waiting: the client that came first is connected with the new socket. */
  method Accept(server: Socket, newso: Socket, ghost all: set<Socket>) returns (r: int)
    requires Inv(all) && server in all && newso in all && newso.Idle() && !newso.acceptcon
    modifies server`iconn_q, server`q, server.q`next, server.q`conn, server.q`state, newso`conn, newso`state
    ensures Inv(all)
    ensures old(server.q) == [] ==>
      r == EWOULDBLOCK && server.q == [] && newso.state == old(newso.state) && newso.conn == old(newso.conn)
    ensures old(server.q) != [] ==>
      var client := old(server.q)[0];
      && r == E_OK && server.q == old(server.q)[1..]
      && client.state == newso.state == IsConnected && client.conn == newso && newso.conn == client
      && client.next == null
    ensures forall c :: c in server.q ==> c.WaitsFor(server)
  {
    hide Socket.Linked;
    EmptyList(all, server);
    QueueOf(all, server);
    if server.iconn_q == null {
      return EWOULDBLOCK;
    }
    IdleOutside(all, newso);
    ghost var q := server.q;
    var client := Marriage(server, newso);
    assert q == [client] + server.q;
    forall s | s in all
      ensures s.Linked()
    {
      assert s != server ==> old(s.Linked());
    }
    newso.InvMarried(all);
    return E_OK;
  }

  lemma EmptyList(all: set<Socket>, s: Socket)
    requires Inv(all) && s in all
    ensures s.iconn_q == null <==> s.q == []
  {
    assert s.Linked();
  }

  /** so_sockpair */
  method SockPair(so1: Socket, so2: Socket, ghost all: set<Socket>)
    requires Inv(all) && so1 in all && so2 in all && so1.Idle() && so2.Idle()
    requires !so1.acceptcon && !so2.acceptcon
    modifies so1`conn, so1`state, so2`conn, so2`state
    ensures Inv(all) && so1.state == so2.state == IsConnected && so1.conn == so2 && so2.conn == so1
  {
    hide Socket.Linked;
    IdleOutside(all, so1);
    IdleOutside(all, so2);
    Marry(so1, so2);
    forall s | s in all
      ensures s.Linked()
    {
      assert old(s.Linked());
    }
    assert forall c :: c in all && c.state == IsConnected && c != so1 && c != so2 ==> old(Paired(c, all));
  }

  method Refuse(so: Socket) returns (peer: Socket)
    requires so.Linked() && so.q != []
    modifies so`iconn_q, so`q, so.q`state, so.q`conn
    ensures so.Linked() && peer == old(so.q)[0] && so.q == old(so.q)[1..] && peer !in so.q
    ensures peer.state == IsDisconnecting && peer.conn == null
    ensures forall c :: c in so.q ==> c.state == old(c.state) && c.conn == old(c.conn)
  {
    hide Socket.Linked;
    peer := so.Dequeue();
    peer.state := IsDisconnecting;
    peer.conn := null;
  }

  /** so_release, step 1: the clients that wait for the socket are refused. */
  method RefuseAll(so: Socket, ghost all: set<Socket>)
    requires Inv(all) && so in all
    modifies so`iconn_q, so`q, so.q`state, so.q`conn
    ensures Inv(all) && so.q == []
    ensures forall c :: c in old(so.q) ==> c.state == IsDisconnecting && c.conn == null
  {
    hide *;
    ghost var q0 := so.q;
    EmptyList(all, so);
    while so.iconn_q != null
      invariant Inv(all) && (so.iconn_q == null <==> so.q == []) && forall c :: c in so.q ==> c in q0
      invariant forall c :: c in q0 && c !in so.q ==> c.state == IsDisconnecting && c.conn == null
      decreases |so.q|
    {
      assert forall i :: 0 <= i < |so.q| ==> so.q[i] in q0;
      RefuseOne(so, all);
      EmptyList(all, so);
    }
  }

  method RefuseOne(so: Socket, ghost all: set<Socket>)
    requires Inv(all) && so in all && so.q != []
    modifies so`iconn_q, so`q, so.q`state, so.q`conn
    ensures Inv(all) && |so.q| == |old(so.q)| - 1
    ensures var peer := old(so.q)[0];
      peer.state == IsDisconnecting && peer.conn == null && forall c :: c in old(so.q) <==> c in so.q || c == peer
    ensures forall c :: c in so.q ==> c.state == old(c.state) && c.conn == old(c.conn)
  {
    hide Socket.Linked;
    QueueOf(all, so);
    ghost var q := so.q;
    var peer := Refuse(so);
    assert q == [peer] + so.q;
    forall s | s in all
      ensures s.Linked()
    {
      assert s != so ==> old(s.Linked());
    }
    peer.InvLeft(all);
  }

  /** sys_listen on an unconnected socket */
  method Listen(so: Socket, ghost all: set<Socket>)
    requires Inv(all) && so in all && so.state == IsUnconnected
    modifies so`acceptcon
    ensures Inv(all) && so.acceptcon
  {
    hide Socket.Linked;
    so.acceptcon := true;
    forall s | s in all
      ensures s.Linked()
    {
      assert old(s.Linked());
    }
    assert forall c :: c in all && c.state == IsConnected ==> old(Paired(c, all));
  }

  method Quit(so: Socket, server: Socket, ghost k: nat)
    requires server.Linked() && so.conn == server && k < |server.q| && server.q[k] == so && so != server
    modifies so`state, so`closing, so`conn, server`iconn_q, server`q, server.q`next
    ensures server.Linked() && so.state == IsDisconnecting && so.conn == null && so !in server.q && so.closing
    ensures server.q == old(server.q)[..k] + old(server.q)[k + 1..]
  {
    hide Socket.Linked;
    so.state := IsDisconnecting;
    so.closing := true;
    server.Unlink(so, k);
    so.conn := null;
  }

  /** so_release for a socket that waits in a queue: it leaves the queue. */
  method LeaveQueue(so: Socket, ghost all: set<Socket>)
    requires Inv(all) && so in all && so.state == IsConnecting
    modifies so`state, so`closing, so`conn, all`iconn_q, all`q, all`next
    ensures Inv(all) && so.state == IsDisconnecting && so.conn == null && so.closing
    ensures old(so.conn) != null && so in old(so.conn.q)
    ensures forall s :: s in all ==> s.q == Without(old(s.q), so)
  {
    hide Socket.Linked, Without;
    var server := so.conn;
    assert so in server.q;
    QueueOf(all, server);
    ghost var k :| 0 <= k < |server.q| && server.q[k] == so;
    ghost var q := server.q;
    Quit(so, server, k);
    QueueWithout(q, k);
    WithoutAt(q, k);
    forall s | s in all
      ensures s.Linked()
    {
      assert s != server ==> old(s.Linked());
    }
    so.InvLeft(all);
    forall s | s in all
      ensures s.q == Without(old(s.q), so)
    {
      if s != server {
        Absent(old(s.q), so);
      }
    }
  }

  lemma QueueWithout(q: seq<Socket>, k: nat)
    requires k < |q| && Distinct(q)
    ensures forall c :: c in q[..k] + q[k + 1..] ==> c in q && c != q[k]
    ensures forall c :: c in q && c != q[k] ==> c in q[..k] + q[k + 1..]
  {
    RemovedDistinct(q, k);
  }

  /** so_release for a connected socket: its peer is told. */
  method LeavePeer(so: Socket, ghost all: set<Socket>)
    requires Inv(all) && so in all && so.state == IsConnected
    modifies so`state, so`closing, so`conn, so.conn`state
    ensures Inv(all) && so.state == IsDisconnecting && so.conn == null && so.closing
    ensures old(so.conn) != null && old(so.conn).state == IsDisconnecting
  {
    hide Socket.Linked;
    assert Paired(so, all);
    PairOutside(all, so);
    var peer := so.conn;
    Part(so, peer);
    forall s | s in all
      ensures s.Linked()
    {
      assert old(s.Linked());
    }
    assert forall c :: c in all && c.state == IsConnected ==> old(Paired(c, all));
  }

  method Part(so: Socket, peer: Socket)
    requires so.conn == peer
    modifies so`state, so`closing, so`conn, peer`state
    ensures so.state == peer.state == IsDisconnecting && so.conn == null && so.closing
    ensures peer != so ==> peer.conn == old(peer.conn)
  {
    so.state := IsDisconnecting;
    so.closing := true;
    so.conn := null;
    peer.state := IsDisconnecting;
  }

  lemma PairOutside(all: set<Socket>, so: Socket)
    requires Inv(all) && Paired(so, all)
    ensures forall s :: s in all ==> so.conn !in s.q
  {
  }

  /** so_release: `detached` is what the protocol's detach answers. A listening socket refuses its
      clients, a waiting one leaves its queue, a connected one leaves its peer; all other queues keep
      their order, and nobody else's state or connection changes. */
  method Release(so: Socket, detached: int, ghost all: set<Socket>) returns (r: int)
    requires Inv(all) && so in all
    modifies so`closing, all`state, all`conn, all`next, all`iconn_q, all`q
    ensures Inv(all)
    ensures old(so.state) == Virgin || old(so.state) == IsDisconnected ==>
      && r == E_OK && so.closing == old(so.closing)
      && forall s :: s in all ==> s.q == old(s.q) && s.state == old(s.state) && s.conn == old(s.conn)
    ensures old(so.state) != Virgin && old(so.state) != IsDisconnected ==>
      && r == detached && so.state == (if r == 0 then IsDisconnected else IsDisconnecting) && so.q == [] && so.closing
      && (forall c :: c in old(so.q) ==> c.state == IsDisconnecting && c.conn == null)
      && (old(so.state) == IsConnected ==>
        old(so.conn) != null && (old(so.conn) != so ==> old(so.conn).state == IsDisconnecting))
    ensures forall s :: s in all && s != so ==> s.q == Without(old(s.q), so)
    ensures forall c ::
      c in all && c != so && c !in old(so.q) && (old(so.state) == IsConnected ==> c != old(so.conn)) ==>
        c.state == old(c.state) && c.conn == old(c.conn)
    ensures forall c :: c in all && c != so && old(so.state) == IsConnected ==> c.conn == old(c.conn)
  {
    hide Inv, Socket.Linked, Without;
    r := E_OK;
    var ostate := so.state;
    OwnQueue(all, so);
    if ostate != Virgin && ostate != IsDisconnected {
      if ostate == IsConnecting {
        LeaveQueue(so, all);
      } else if ostate == IsConnected {
        LeavePeer(so, all);
      } else {
        Shut(so, IsDisconnecting, all);
        if so.acceptcon {
          RefuseAll(so, all);
        }
      }
      OwnQueue(all, so);
      r := detached;
      if r == 0 {
        Shut(so, IsDisconnected, all);
      }
      OwnQueue(all, so);
    }
  }

  lemma OwnQueue(all: set<Socket>, so: Socket)
    requires Inv(all) && so in all
    ensures so.acceptcon ==> so.Idle()
    ensures !so.acceptcon ==> so.q == []
    ensures so.state != IsConnecting ==> forall s :: s in all ==> so !in s.q && Without(s.q, so) == s.q
    ensures forall i :: 0 <= i < |so.q| ==> so.q[i] in all
    ensures so.state == IsConnected ==> so.conn != null && so.conn in all
  {
  }

  /** An idle socket changes into another idle state. */
  method Shut(so: Socket, state: State, ghost all: set<Socket>)
    requires Inv(all) && so in all && so.Idle() && state != IsConnecting && state != IsConnected
    modifies so`state, so`closing
    ensures Inv(all) && so.state == state && so.closing
  {
    hide Socket.Linked;
    so.state, so.closing := state, true;
    forall s | s in all
      ensures s.Linked()
    {
      assert old(s.Linked());
    }
    assert forall c :: c in all && c.state == IsConnected ==> old(Paired(c, all));
  }

  // ---------------------------------------------------------------- whole runs

  /** What happens to the queue of a listening socket. */
  datatype Step = Arrives(c: Socket) | First | Leaves(c: Socket)

  /** The sockets accepted so far, those still waiting, and all that ever joined the queue. */
  datatype Line = Line(accepted: seq<Socket>, q: seq<Socket>, arrived: seq<Socket>)

  /** One step: a client joins the queue as in so_connect, the first is accepted as in so_accept, or a
      client leaves as in so_release. */
  function After(l: Line, s: Step): Line {
    match s
    case Arrives(c) => Line(l.accepted, l.q + [c], l.arrived + [c])
    case First => if l.q == [] then l else Line(l.accepted + [l.q[0]], l.q[1..], l.arrived)
    case Leaves(c) => l.(q := Without(l.q, c))
  }

  function Run(steps: seq<Step>): Line {
    if steps == [] then Line([], [], []) else After(Run(steps[..|steps| - 1]), steps[|steps| - 1])
  }

  /** a is b with some elements left out: f tells where its elements are in b. */
  ghost predicate Picks(f: seq<nat>, a: seq<Socket>, b: seq<Socket>) {
    && |f| == |a| && (forall i, j :: 0 <= i < j < |f| ==> f[i] < f[j])
    && forall i :: 0 <= i < |f| ==> f[i] < |b| && b[f[i]] == a[i]
  }

  lemma PicksRemoved(f: seq<nat>, a: seq<Socket>, b: seq<Socket>, k: nat) returns (g: seq<nat>)
    requires Picks(f, a, b) && k < |a|
    ensures Picks(g, a[..k] + a[k + 1..], b)
  {
    g := RemovedAt(f, k);
    var w := RemovedAt(a, k);
    assert forall i :: 0 <= i < |g| ==> g[i] == f[if i < k then i else i + 1] && w[i] == a[if i < k then i else i + 1];
  }

  lemma Shift(a: seq<Socket>, c: Socket, r: seq<Socket>)
    ensures a + ([c] + r) == (a + [c]) + r
    ensures (a + ([c] + r))[..|a|] + (a + ([c] + r))[|a| + 1..] == a + r
  {
  }

  lemma {:induction false} PicksWithout(f: seq<nat>, a: seq<Socket>, q: seq<Socket>, b: seq<Socket>, c: Socket)
    returns (g: seq<nat>)
    requires Picks(f, a + q, b)
    ensures Picks(g, a + Without(q, c), b)
    decreases |q|
  {
    hide Picks;
    g := f;
    if q != [] {
      assert q == [q[0]] + q[1..];
      Shift(a, q[0], q[1..]);
      if q[0] == c {
        g := PicksRemoved(f, a + q, b, |a|);
        g := PicksWithout(g, a, q[1..], b, c);
      } else {
        g := PicksWithout(f, a + [q[0]], q[1..], b, c);
        Shift(a, q[0], Without(q[1..], c));
      }
    }
  }

  /** In every run the clients accepted, and behind them those that wait, are in the order of their
      arrival: they are the arrivals with some left out. */
  lemma {:induction false} ArrivalOrder(steps: seq<Step>) returns (f: seq<nat>)
    ensures var l := Run(steps); Picks(f, l.accepted + l.q, l.arrived)
  {
    if steps == [] {
      f := [];
    } else {
      var l, s := Run(steps[..|steps| - 1]), steps[|steps| - 1];
      f := ArrivalOrder(steps[..|steps| - 1]);
      match s
      case Arrives(c) =>
        f := f + [|l.arrived|];
        assert l.accepted + (l.q + [c]) == (l.accepted + l.q) + [c];
      case First =>
        if l.q != [] {
          assert (l.accepted + [l.q[0]]) + l.q[1..] == l.accepted + l.q;
        }
      case Leaves(c) =>
        f := PicksWithout(f, l.accepted, l.q, l.arrived, c);
    }
  }
}
