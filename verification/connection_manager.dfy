/** The registry of open WebSocket connections kept by the backend: every open
    socket, the sockets watching each auction, and the socket of each signed-in
    user. Sockets are opaque ids; sending a message appends a delivery to the
    `sent` log instead of writing to the network. */
module Connections {
  import opened Domain
  import opened Seqs

  type Socket = int

  datatype Delivery = Delivery(socket: Socket, message: Event)

  /** One delivery of `m` to each socket of `sockets`, in that order. */
  function FanOut(sockets: seq<Socket>, m: Event): (d: seq<Delivery>)
    ensures |d| == |sockets|
    ensures forall k :: 0 <= k < |d| ==> d[k] == Delivery(sockets[k], m)
  {
    seq(|sockets|, k requires 0 <= k < |sockets| => Delivery(sockets[k], m))
  }

  /** The sockets `d` delivers to. */
  function Recipients(d: seq<Delivery>): set<Socket>
  {
    set k | 0 <= k < |d| :: d[k].socket
  }

  lemma HasMember(s: set<Socket>)
    requires s != {}
    ensures exists x :: x in s
  {
    assert (forall x :: x !in s) ==> s == {};
  }

  lemma RecipientsAppend(d: seq<Delivery>, x: Delivery)
    ensures Recipients(d + [x]) == Recipients(d) + {x.socket}
  {
    var d' := d + [x];
    forall s | s in Recipients(d') ensures s in Recipients(d) + {x.socket} {
      var k :| 0 <= k < |d'| && d'[k].socket == s;
      if k < |d| { assert d[k].socket == s; }
    }
    forall s | s in Recipients(d) + {x.socket} ensures s in Recipients(d') {
      if s == x.socket {
        assert d'[|d|].socket == s;
      } else {
        var k :| 0 <= k < |d| && d[k].socket == s;
        assert d'[k].socket == s;
      }
    }
  }

  /** `d` delivers `m` exactly once to each socket of `group` and to nothing
      else, in some order (a Python set has no fixed iteration order). */
  ghost predicate OncePerMember(d: seq<Delivery>, group: set<Socket>, m: Event)
  {
    && (forall k :: 0 <= k < |d| ==> d[k].message == m)
    && (forall j, k :: 0 <= j < k < |d| ==> d[j].socket != d[k].socket)
    && Recipients(d) == group
  }

  /** The sockets watching `auctionId`. */
  function Watchers(groups: map<int, set<Socket>>, auctionId: int): set<Socket>
  {
    if auctionId in groups then groups[auctionId] else {}
  }

  /** No auction id is mapped to an empty set of sockets. */
  ghost predicate NoEmptyGroups(groups: map<int, set<Socket>>)
  {
    forall id :: id in groups ==> groups[id] != {}
  }

  /** `auction_connections` after `connect(ws, auction_id)`. */
  function Join(groups: map<int, set<Socket>>, auctionId: int, ws: Socket): (g: map<int, set<Socket>>)
    ensures g.Keys == groups.Keys + {auctionId}
    ensures g[auctionId] == (if auctionId in groups then groups[auctionId] else {}) + {ws}
    ensures forall id :: id in groups && id != auctionId ==> g[id] == groups[id]
    ensures NoEmptyGroups(groups) ==> NoEmptyGroups(g)
  {
    if auctionId in groups then groups[auctionId := groups[auctionId] + {ws}]
    else groups[auctionId := {ws}]
  }

  /** `auction_connections` after `disconnect(ws, auction_id)`: the socket
      leaves the auction's set, and a set left empty is deleted. */
  function Leave(groups: map<int, set<Socket>>, auctionId: int, ws: Socket): (g: map<int, set<Socket>>)
    ensures auctionId in g ==> auctionId in groups && g[auctionId] == groups[auctionId] - {ws} && ws !in g[auctionId]
    ensures auctionId !in g ==> auctionId !in groups || groups[auctionId] <= {ws}
    ensures forall id :: id != auctionId ==> (id in g <==> id in groups)
    ensures forall id :: id in groups && id != auctionId ==> g[id] == groups[id]
    ensures NoEmptyGroups(groups) ==> NoEmptyGroups(g)
  {
    if auctionId !in groups then groups
    else
      var rest := groups[auctionId] - {ws};
      if rest == {} then groups - {auctionId} else groups[auctionId := rest]
  }

  /** Joining twice is joining once: the set does not grow. */
  lemma JoinIdempotent(groups: map<int, set<Socket>>, auctionId: int, ws: Socket)
    ensures Join(Join(groups, auctionId, ws), auctionId, ws) == Join(groups, auctionId, ws)
  {
  }

  /** Leaving right after joining, when the socket was not watching the
      auction before, restores the registry exactly. */
  lemma LeaveUndoesJoin(groups: map<int, set<Socket>>, auctionId: int, ws: Socket)
    requires NoEmptyGroups(groups)
    requires auctionId in groups ==> ws !in groups[auctionId]
    ensures Leave(Join(groups, auctionId, ws), auctionId, ws) == groups
  {
    var g := Leave(Join(groups, auctionId, ws), auctionId, ws);
    if auctionId in groups {
      assert groups[auctionId] + {ws} - {ws} == groups[auctionId];
      assert g[auctionId] == groups[auctionId];
    } else {
      assert g.Keys == groups.Keys;
    }
  }

  /** Where a socket's opening handshake stands, as the server's WebSocket
      object tracks it. */
  datatype Handshake = Connecting | Open

  /** `websocket.accept()`: opens a socket that is still connecting. On a
      socket already open the server raises instead, which `None` stands
      for. */
  function Accept(h: Handshake): (r: Option<Handshake>)
    ensures r == Some(Open) <==> h == Connecting
    ensures r.None? <==> h == Open
  {
    match h
    case Connecting => Some(Open)
    case Open => None
  }

  /** `connect` as written: it accepts the socket again and reaches the
      registry updates only when that accept returns. The result says whether
      a socket in handshake state `h` ends up registered. */
  function RegistersAsWritten(h: Handshake): (registered: bool)
    ensures registered <==> h == Connecting
  {
    Accept(h).Some?
  }

  /** Both endpoints accept a socket before they call `connect`, so as
      written `connect` registers no socket: the first accept succeeds and
      the second one raises. */
  lemma EndpointSocketsNeverRegister()
    ensures Accept(Connecting) == Some(Open)
    ensures !RegistersAsWritten(Accept(Connecting).value)
  {
  }

  class ConnectionManager {
    var activeConnections: seq<Socket>
    var auctionConnections: map<int, set<Socket>>
    var userConnections: map<int, Socket>
    var sent: seq<Delivery>

    ghost predicate Valid()
      reads this
    {
      NoEmptyGroups(auctionConnections)
    }

    constructor ()
      ensures Valid()
      ensures activeConnections == [] && auctionConnections == map[] && userConnections == map[]
      ensures sent == []
    {
      activeConnections := [];
      auctionConnections := map[];
      userConnections := map[];
      sent := [];
    }

    /** Registers an accepted socket, optionally for one auction and one user. */
    method Connect(ws: Socket, auctionId: Option<int>, userId: Option<int>)
      requires Valid()
      modifies this
      ensures Valid()
      ensures activeConnections == old(activeConnections) + [ws]
      ensures auctionConnections == if auctionId.Some?
        then Join(old(auctionConnections), auctionId.value, ws) else old(auctionConnections)
      ensures userConnections == if userId.Some?
        then old(userConnections)[userId.value := ws] else old(userConnections)
      ensures sent == old(sent)
    {
      activeConnections := activeConnections + [ws];
      if auctionId.Some? {
        var id := auctionId.value;
        if id !in auctionConnections {
          auctionConnections := auctionConnections[id := {}];
        }
        auctionConnections := auctionConnections[id := auctionConnections[id] + {ws}];
      }
      if userId.Some? {
        userConnections := userConnections[userId.value := ws];
      }
    }

    /** Forgets a socket. The user's entry is deleted whichever socket it
        points to. */
    method Disconnect(ws: Socket, auctionId: Option<int>, userId: Option<int>)
      requires Valid()
      modifies this
      ensures Valid()
      ensures activeConnections == RemoveFirst(old(activeConnections), ws)
      ensures auctionConnections == if auctionId.Some?
        then Leave(old(auctionConnections), auctionId.value, ws) else old(auctionConnections)
      ensures userConnections == if userId.Some?
        then old(userConnections) - {userId.value} else old(userConnections)
      ensures sent == old(sent)
    {
      if ws in activeConnections {
        activeConnections := RemoveFirst(activeConnections, ws);
      }
      if auctionId.Some? && auctionId.value in auctionConnections {
        var id := auctionId.value;
        if ws in auctionConnections[id] {
          auctionConnections := auctionConnections[id := auctionConnections[id] - {ws}];
        } else {
          assert auctionConnections[id] - {ws} == auctionConnections[id];
          assert auctionConnections[id := auctionConnections[id] - {ws}] == auctionConnections;
        }
        if auctionConnections[id] == {} {
          auctionConnections := auctionConnections - {id};
        }
      }
      if userId.Some? && userId.value in userConnections {
        userConnections := userConnections - {userId.value};
      }
    }

    /** Sends `m` to one socket. */
    method SendPersonalMessage(m: Event, ws: Socket)
      modifies this`sent
      ensures sent == old(sent) + [Delivery(ws, m)]
    {
      sent := sent + [Delivery(ws, m)];
    }

    /** Sends `m` to every open socket, once per entry of the list. */
    method Broadcast(m: Event)
      modifies this`sent
      ensures sent == old(sent) + FanOut(activeConnections, m)
    {
      var connections := activeConnections;
      for i := 0 to |connections|
        invariant sent == old(sent) + FanOut(connections[..i], m)
      {
        assert FanOut(connections[..i + 1], m) == FanOut(connections[..i], m) + [Delivery(connections[i], m)];
        sent := sent + [Delivery(connections[i], m)];
      }
      assert connections[..|connections|] == connections;
    }

    /** Sends `m` once to each socket watching `auctionId`; nothing when no
        socket watches it. */
    method BroadcastToAuction(auctionId: int, m: Event)
      modifies this`sent
      ensures |sent| >= |old(sent)| && sent[..|old(sent)|] == old(sent)
      ensures OncePerMember(sent[|old(sent)|..], Watchers(auctionConnections, auctionId), m)
    {
      if auctionId in auctionConnections {
        var remaining := auctionConnections[auctionId];
        ghost var done: set<Socket> := {};
        ghost var start := |sent|;
        while remaining != {}
          invariant remaining + done == auctionConnections[auctionId] && remaining !! done
          invariant |sent| >= start && sent[..start] == old(sent)
          invariant OncePerMember(sent[start..], done, m)
          decreases remaining
        {
          HasMember(remaining);
          var ws :| ws in remaining;
          ghost var before := sent[start..];
          sent := sent + [Delivery(ws, m)];
          assert sent[start..] == before + [Delivery(ws, m)];
          RecipientsAppend(before, Delivery(ws, m));
          remaining := remaining - {ws};
          done := done + {ws};
        }
      } else {
        assert sent[|old(sent)|..] == [];
      }
    }

    /** Sends `m` to the socket of `userId`, if that user has one. */
    method SendToUser(userId: int, m: Event)
      modifies this`sent
      ensures sent == old(sent) + (if userId in userConnections then [Delivery(userConnections[userId], m)] else [])
    {
      if userId in userConnections {
        sent := sent + [Delivery(userConnections[userId], m)];
      }
    }
  }
}
