/**
 * The supernode seen from one room: each request it handles is a step of the room's peer views,
 * so that what holds of those views in every run holds of the handler.
 */
module ServedRoom {
  import opened Common
  import opened Ipv4Net
  import opened Rooms
  import opened UniqueAddresses
  import P = AddressPool
  import S = Supernode
  import V = PeerView

  function KeysOf(nodes: map<NodeId, S.NodeInfo>): (keys: map<NodeId, PublicKey>) {
    map n | n in nodes :: nodes[n].key
  }

  /** The room and the registered keys are those of the supernode. */
  ghost predicate Sees(v: V.System, s: S.Server, id: RoomId) {
    && v.room == (if id in s.rooms then Some(s.rooms[id]) else None)
    && v.keys == KeysOf(s.nodes)
  }

  /** Every node has one address, from which it is known exactly when it is registered. */
  ghost predicate Located(s: S.Server, addr: NodeId -> SocketAddr) {
    forall n :: (addr(n) in s.addrToNode <==> n in s.nodes) && (n in s.nodes ==> s.addrToNode[addr(n)] == n)
  }

  /** A request of `node`, sent from its address. */
  ghost predicate From(req: S.Request, node: NodeId, addr: NodeId -> SocketAddr) {
    req.from == addr(node) && (req.Register? ==> req.node == node)
  }

  ghost predicate Injective(addr: NodeId -> SocketAddr) {
    forall m, n :: addr(m) == addr(n) ==> m == n
  }

  // ---------- The handler's decisions ----------

  function CreateTerms(s: S.Server, node: NodeId, req: S.Request): (t: V.Terms)
    requires req.CreateRoom?
  {
    var cidr := P.Allocate(s.pool, req.freshId, S.LocalNetworks(s.nodes, node)).1;
    V.Terms(cidr.Ok?, if cidr.Ok? then cidr.value else S.FALLBACK, req.freshToken, S.Nickname(s.nodes, node, "Owner"))
  }

  function JoinTerms(s: S.Server, node: NodeId, req: S.Request): (t: V.Terms)
    requires req.JoinRoom?
  {
    var room := RoomAt(s, node, req.room, req.token);
    var conflict := S.SubnetConflicts(room.cidr, S.LocalNetworks(s.nodes, node));
    V.Terms(room.token == S.TokenOf(req.token) && !conflict, S.RestoredSubnet(s.pool, req.room),
            S.TokenOf(req.token), S.Nickname(s.nodes, node, "Peer"))
  }

  /** Registrations and departures leave nothing to decide. */
  const NO_TERMS := V.Terms(true, S.FALLBACK, "", "")

  /** What the request does to the peer views of room `id`; one about another room does nothing. */
  function Seen(v: V.System, s: S.Server, id: RoomId, node: NodeId, req: S.Request): (w: V.System) {
    match req
    case Register(_, _, key, _, _) => V.ServeRequest(v, node, V.RegisterRequest(key), NO_TERMS)
    case CreateRoom(_, room, _) => if room == id then V.ServeCreate(v, node, CreateTerms(s, node, req)) else v
    case JoinRoom(_, room, _) =>
      if room == id then V.ServeRequest(v, node, V.JoinRequest, JoinTerms(s, node, req)) else v
    case LeaveRoom(_, room) => if room == id then V.ServeRequest(v, node, V.LeaveRequest, NO_TERMS) else v
  }

  /** The frames that go with a reply. */
  predicate Tells(reply: S.Reply, frames: seq<V.Frame>) {
    match reply
    case Accepted(_) => frames != [] && frames[0].JoinAccept?
    case Created(_) => frames == [V.RoomCreated]
    case Failed => frames == []
    case Silent => frames == []
    case _ => frames == [V.Other]
  }

  /** The node's channel has grown by the frames of the reply. */
  ghost predicate Told(reply: S.Reply, node: NodeId, v: V.System, w: V.System) {
    node in v.down ==>
      && node in w.down && v.down[node] <= w.down[node]
      && Tells(reply, w.down[node][|v.down[node]|..])
  }

  ghost predicate About(req: S.Request, id: RoomId) {
    match req
    case Register(_, _, _, _, _) => true
    case CreateRoom(_, room, _) => room == id
    case JoinRoom(_, room, _) => room == id
    case LeaveRoom(_, room) => room == id
  }

  // ---------- Each arm ----------

  lemma RegisterSeen(v: V.System, s: S.Server, id: RoomId, node: NodeId, req: S.Request)
    requires Sees(v, s, id) && req.Register? && req.node == node
    ensures Sees(Seen(v, s, id, node, req), S.Handle(s, req).0, id)
    ensures Told(S.Handle(s, req).1, node, v, Seen(v, s, id, node, req))
  {
  }

  lemma CreateSeen(v: V.System, s: S.Server, id: RoomId, node: NodeId, req: S.Request, addr: NodeId -> SocketAddr)
    requires Sees(v, s, id) && req.CreateRoom? && req.freshId == id && Located(s, addr) && From(req, node, addr)
    ensures Sees(Seen(v, s, id, node, req), S.Handle(s, req).0, id)
    ensures Told(S.Handle(s, req).1, node, v, Seen(v, s, id, node, req))
  {
    assert node in v.keys <==> req.from in s.addrToNode;
    if req.from in s.addrToNode {
      assert s.addrToNode[req.from] == node;
      FoundedSeen(v, s, id, node, req);
    }
  }

  lemma FoundedSeen(v: V.System, s: S.Server, id: RoomId, node: NodeId, req: S.Request)
    requires Sees(v, s, id) && req.CreateRoom? && req.freshId == id && node in v.keys
    requires req.from in s.addrToNode && s.addrToNode[req.from] == node
    ensures var w := V.ServeCreate(v, node, CreateTerms(s, node, req));
            Sees(w, S.HandleCreate(s, req).0, id) && Told(S.HandleCreate(s, req).1, node, v, w)
  {
  }

  /** The join proper, once the room is there. */
  lemma JoinHereSeen(v: V.System, q: S.Server, id: RoomId, node: NodeId, token: Option<string>, t: V.Terms)
    requires Sees(v, q, id) && id in q.rooms && node in q.nodes && t.nickname == S.Nickname(q.nodes, node, "Peer")
    requires t.accept <==> q.rooms[id].token == S.TokenOf(token)
                           && !S.SubnetConflicts(q.rooms[id].cidr, S.LocalNetworks(q.nodes, node))
    ensures Sees(V.ServeJoin(v, node, t), S.JoinExisting(q, node, id, token).0, id)
    ensures Told(S.JoinExisting(q, node, id, token).1, node, v, V.ServeJoin(v, node, t))
  {
    V.AdmitMembers(q.rooms[id], node, t.nickname);
  }

  /** Restoring the room first makes no difference to a join of a registered node. */
  lemma RestoredFirst(v: V.System, node: NodeId, t: V.Terms)
    requires node in v.keys
    ensures V.ServeJoin(v.(room := Some(V.RoomFor(v.room, node, t))), node, t) == V.ServeJoin(v, node, t)
  {
  }

  lemma JoinSeen(v: V.System, s: S.Server, id: RoomId, node: NodeId, req: S.Request, addr: NodeId -> SocketAddr)
    requires Sees(v, s, id) && req.JoinRoom? && req.room == id && Located(s, addr) && From(req, node, addr)
    ensures Sees(Seen(v, s, id, node, req), S.Handle(s, req).0, id)
    ensures Told(S.Handle(s, req).1, node, v, Seen(v, s, id, node, req))
  {
    if node in s.nodes {
      var q, t := S.Restore(s, node, id, req.token), JoinTerms(s, node, req);
      var room := RoomAt(s, node, id, req.token);
      assert V.RoomFor(v.room, node, t) == room == q.rooms[id];
      RestoredFirst(v, node, t);
      JoinHereSeen(v.(room := Some(room)), q, id, node, req.token, t);
    }
  }

  lemma LeaveSeen(v: V.System, s: S.Server, id: RoomId, node: NodeId, req: S.Request, addr: NodeId -> SocketAddr)
    requires Sees(v, s, id) && req.LeaveRoom? && req.room == id && Located(s, addr) && From(req, node, addr)
    ensures Sees(Seen(v, s, id, node, req), S.Handle(s, req).0, id)
    ensures Told(S.Handle(s, req).1, node, v, Seen(v, s, id, node, req))
  {
  }

  /** A request about another room leaves this one and the keys alone. */
  lemma OtherRoom(s: S.Server, id: RoomId, req: S.Request)
    requires !About(req, id)
    ensures var r := S.Handle(s, req).0;
            r.nodes == s.nodes && (id in r.rooms <==> id in s.rooms) && (id in s.rooms ==> r.rooms[id] == s.rooms[id])
  {
    if req.JoinRoom? && req.from in s.addrToNode {
      var node := s.addrToNode[req.from];
      OtherJoin(S.Restore(s, node, req.room, req.token), id, node, req.room, req.token);
    }
  }

  lemma OtherJoin(s: S.Server, id: RoomId, node: NodeId, other: RoomId, token: Option<string>)
    requires other in s.rooms && other != id
    ensures var r := S.JoinExisting(s, node, other, token).0;
            r.nodes == s.nodes && (id in r.rooms <==> id in s.rooms) && (id in s.rooms ==> r.rooms[id] == s.rooms[id])
  {
  }

  /**
   * The handler refines the room's steps: what it does to a room, and what it answers, is what
   * serving the request does to the room's peer views.
   */
  lemma HandleIsSeen(v: V.System, s: S.Server, id: RoomId, node: NodeId, req: S.Request, addr: NodeId -> SocketAddr)
    requires Sees(v, s, id) && Located(s, addr) && From(req, node, addr)
    ensures Sees(Seen(v, s, id, node, req), S.Handle(s, req).0, id)
    ensures About(req, id) ==> Told(S.Handle(s, req).1, node, v, Seen(v, s, id, node, req))
  {
    if !About(req, id) {
      OtherRoom(s, id, req);
    } else {
      match req
      case Register(_, _, _, _, _) => RegisterSeen(v, s, id, node, req);
      case CreateRoom(_, _, _) => CreateSeen(v, s, id, node, req, addr);
      case JoinRoom(_, _, _) => JoinSeen(v, s, id, node, req, addr);
      case LeaveRoom(_, _) => LeaveSeen(v, s, id, node, req, addr);
    }
  }

  lemma HandleLocated(s: S.Server, node: NodeId, req: S.Request, addr: NodeId -> SocketAddr)
    requires Injective(addr) && Located(s, addr) && From(req, node, addr)
    ensures Located(S.Handle(s, req).0, addr)
  {
  }

  // ---------- Runs ----------

  /** A request and the node it comes from. */
  datatype Call = Call(node: NodeId, req: S.Request)

  function Requests(calls: seq<Call>): (reqs: seq<S.Request>)
    ensures |reqs| == |calls| && forall i :: 0 <= i < |calls| ==> reqs[i] == calls[i].req
  {
    seq(|calls|, i requires 0 <= i < |calls| => calls[i].req)
  }

  /** The peer views of room `id` as the supernode handles the calls. */
  function Follow(v: V.System, s: S.Server, id: RoomId, calls: seq<Call>): (w: V.System)
    decreases |calls|
  {
    if calls == [] then v
    else
      var c := calls[0];
      Follow(Seen(v, s, id, c.node, c.req), S.Handle(s, c.req).0, id, calls[1..])
  }

  /** Over every run of requests sent from the nodes' own addresses, the room is the one seen. */
  lemma {:induction false} RunIsSeen(v: V.System, s: S.Server, id: RoomId, calls: seq<Call>, addr: NodeId -> SocketAddr)
    requires Sees(v, s, id) && Injective(addr) && Located(s, addr)
    requires forall i :: 0 <= i < |calls| ==> From(calls[i].req, calls[i].node, addr)
    ensures Sees(Follow(v, s, id, calls), S.Run(s, Requests(calls)), id)
    decreases |calls|
  {
    if calls != [] {
      var c := calls[0];
      HandleIsSeen(v, s, id, c.node, c.req, addr);
      HandleLocated(s, c.node, c.req, addr);
      RunIsSeen(Seen(v, s, id, c.node, c.req), S.Handle(s, c.req).0, id, calls[1..], addr);
      assert Requests(calls)[1..] == Requests(calls[1..]);
    }
  }
}
