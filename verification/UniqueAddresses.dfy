/** When the supernode's requests keep virtual addresses unique, over every run. */
module UniqueAddresses {
  import opened Bytes
  import opened Common
  import opened Ipv4Net
  import opened Rooms
  import opened Supernode
  import P = AddressPool

  /** What every run keeps, colliding or not: a sound pool, sound rooms and known senders. */
  ghost predicate Sane(s: Server) {
    && P.Inv(s.pool)
    && (forall a :: a in s.addrToNode ==> s.addrToNode[a] in s.nodes)
    && (forall id :: id in s.rooms ==> RoomSound(s.nodes, s.rooms[id]))
  }

  /** A node's place in a room. */
  datatype Seat = Seat(room: RoomId, node: NodeId, ip: u32)

  function SeatIn(room: Room, id: RoomId, node: NodeId, role: Role): (seat: Option<Seat>) {
    match AllocateIp(room, node, role)
    case None => None
    case Some(ip) => Some(Seat(id, node, ip))
  }

  /** The room that a join finds, or that is set up for it. */
  function RoomAt(s: Server, node: NodeId, id: RoomId, token: Option<string>): (room: Room) {
    if id in s.rooms then s.rooms[id] else NewRoom(node, RestoredSubnet(s.pool, id), TokenOf(token))
  }

  /**
   * The new place that a request asks for and can have: in a new room the first host, in a room
   * with the right token and no subnet conflict the node's lease or the lowest free host.
   */
  function Offer(s: Server, req: Request): (seat: Option<Seat>) {
    if !(req.CreateRoom? || req.JoinRoom?) || req.from !in s.addrToNode then None
    else
      var node := s.addrToNode[req.from];
      if req.CreateRoom? then
        var cidr := P.Allocate(s.pool, req.freshId, LocalNetworks(s.nodes, node)).1;
        if cidr.Ok? then SeatIn(NewRoom(node, cidr.value, req.freshToken), req.freshId, node, Owner) else None
      else
        JoinOffer(s.nodes, RoomAt(s, node, req.room, req.token), req.room, node, req.token)
  }

  function JoinOffer(nodes: map<NodeId, NodeInfo>, room: Room, id: RoomId, node: NodeId, token: Option<string>)
    : (seat: Option<Seat>)
  {
    if room.token != TokenOf(token) || SubnetConflicts(room.cidr, LocalNetworks(nodes, node)) then None
    else if node in room.members then None
    else SeatIn(room, id, node, Guest)
  }

  /** A membership of another room has the address. */
  predicate TakenElsewhere(s: Server, id: RoomId, ip: u32) {
    exists k, n :: k in s.rooms && k != id && n in s.rooms[k].members && s.rooms[k].members[n].ip == ip
  }

  /** The request would get an address that is in use in another room. */
  predicate Clashes(s: Server, req: Request) {
    Offer(s, req).Some? && TakenElsewhere(s, Offer(s, req).value.room, Offer(s, req).value.ip)
  }

  /** Every membership of `r` is one of `s`, with its address. */
  ghost predicate NoneNew(s: Server, r: Server) {
    forall id, n :: id in r.rooms && n in r.rooms[id].members ==>
      id in s.rooms && n in s.rooms[id].members && s.rooms[id].members[n].ip == r.rooms[id].members[n].ip
  }

  /** The seat is filled; other rooms are unchanged, and the room's other members were there before. */
  ghost predicate Filled(s: Server, r: Server, seat: Seat) {
    && seat.room in r.rooms && r.rooms == s.rooms[seat.room := r.rooms[seat.room]]
    && var room := r.rooms[seat.room];
       && Rooms.Inv(room) && seat.node in room.members && room.members[seat.node].ip == seat.ip
       && forall n :: n in room.members && n != seat.node ==>
            seat.room in s.rooms && n in s.rooms[seat.room].members
            && s.rooms[seat.room].members[n].ip == room.members[n].ip
  }

  lemma NoneNewUnique(s: Server, r: Server)
    requires UniqueIps(s) && NoneNew(s, r)
    ensures UniqueIps(r)
  {
  }

  lemma FilledUnique(s: Server, r: Server, seat: Seat)
    requires UniqueIps(s) && Filled(s, r, seat)
    ensures UniqueIps(r) <==> !TakenElsewhere(s, seat.room, seat.ip)
  {
    if TakenElsewhere(s, seat.room, seat.ip) {
      var k, n :| k in s.rooms && k != seat.room && n in s.rooms[k].members && s.rooms[k].members[n].ip == seat.ip;
      assert r.rooms[k].members[n].ip == r.rooms[seat.room].members[seat.node].ip;
    } else {
      forall a, b, m, n |
        a in r.rooms && b in r.rooms && m in r.rooms[a].members && n in r.rooms[b].members && (a, m) != (b, n)
        ensures r.rooms[a].members[m].ip != r.rooms[b].members[n].ip
      {
        if a != seat.room && b != seat.room {
          assert s.rooms[a].members[m].ip != s.rooms[b].members[n].ip;
        }
      }
    }
  }

  /** A seat taken by a node that had none in the room. */
  lemma AddFills(room: Room, id: RoomId, node: NodeId, nickname: string, role: Role)
    requires Rooms.Inv(room) && node !in room.members
    ensures var (r, ip) := AddOrReuse(room, node, nickname, role); var seat := SeatIn(room, id, node, role);
            && (seat.Some? <==> ip.Some?)
            && (seat.None? ==> r == room)
            && (seat.Some? ==>
                  && Rooms.Inv(r) && seat.value == Seat(id, node, ip.value)
                  && node in r.members && r.members[node].ip == ip.value
                  && forall n :: n in r.members && n != node ==> n in room.members && r.members[n] == room.members[n])
  {
    AddSound(room, node, nickname, role);
  }

  lemma CreateOffers(s: Server, req: Request)
    requires Sane(s) && req.CreateRoom?
    ensures var r := Handle(s, req).0; var seat := Offer(s, req);
            if seat.Some? then Filled(s, r, seat.value) else NoneNew(s, r)
  {
    if req.from in s.addrToNode {
      var node := s.addrToNode[req.from];
      var cidr := P.Allocate(s.pool, req.freshId, LocalNetworks(s.nodes, node)).1;
      if cidr.Ok? {
        var room := NewRoom(node, cidr.value, req.freshToken);
        AddFills(room, req.freshId, node, Nickname(s.nodes, node, "Owner"), Owner);
      }
    }
  }

  /** The join proper fills the seat on offer, or adds no one. */
  lemma JoinFills(s: Server, node: NodeId, id: RoomId, token: Option<string>)
    requires id in s.rooms && Rooms.Inv(s.rooms[id])
    ensures var r := JoinExisting(s, node, id, token).0; var seat := JoinOffer(s.nodes, s.rooms[id], id, node, token);
            if seat.Some? then seat.value.room == id && Filled(s, r, seat.value) else r.rooms == s.rooms
  {
    var room := s.rooms[id];
    assert s.rooms[id := room] == s.rooms;
    if node !in room.members {
      AddFills(room, id, node, Nickname(s.nodes, node, "Peer"), Guest);
    }
  }

  /** Filled after the room was restored is filled. */
  lemma FilledBefore(s: Server, q: Server, r: Server, seat: Seat)
    requires Filled(q, r, seat) && seat.room in q.rooms && q.rooms == s.rooms[seat.room := q.rooms[seat.room]]
    requires seat.room !in s.rooms ==> q.rooms[seat.room].members == map[]
    requires seat.room in s.rooms ==> q.rooms == s.rooms
    ensures Filled(s, r, seat)
  {
  }

  lemma JoinOffers(s: Server, req: Request)
    requires Sane(s) && req.JoinRoom?
    ensures var r := Handle(s, req).0; var seat := Offer(s, req);
            if seat.Some? then Filled(s, r, seat.value) else NoneNew(s, r)
  {
    if req.from in s.addrToNode {
      var node := s.addrToNode[req.from];
      var q := Restore(s, node, req.room, req.token);
      assert q.rooms == s.rooms[req.room := RoomAt(s, node, req.room, req.token)];
      JoinFills(q, node, req.room, req.token);
      var seat := Offer(s, req);
      if seat.Some? {
        FilledBefore(s, q, Handle(s, req).0, seat.value);
      }
    }
  }

  lemma OthersOfferNothing(s: Server, req: Request)
    requires req.Register? || req.LeaveRoom?
    ensures Offer(s, req).None? && NoneNew(s, Handle(s, req).0)
  {
  }

  /**
   * From unique addresses, one request keeps them unique precisely when the address it would get
   * is not in use in another room.
   */
  lemma UniqueUnlessClash(s: Server, req: Request)
    requires Sane(s) && UniqueIps(s)
    ensures UniqueIps(Handle(s, req).0) <==> !Clashes(s, req)
  {
    match req {
      case Register(_, _, _, _, _) => OthersOfferNothing(s, req);
      case CreateRoom(_, _, _) => CreateOffers(s, req);
      case JoinRoom(_, _, _) => JoinOffers(s, req);
      case LeaveRoom(_, _) => OthersOfferNothing(s, req);
    }
    if Offer(s, req).Some? {
      FilledUnique(s, Handle(s, req).0, Offer(s, req).value);
    } else {
      NoneNewUnique(s, Handle(s, req).0);
    }
  }

  /** Replacing or adding a sound room. */
  lemma InsertSane(s: Server, id: RoomId, room: Room, pool: P.Pool)
    requires Sane(s) && RoomSound(s.nodes, room) && P.Inv(pool)
    ensures Sane(s.(pool := pool, rooms := s.rooms[id := room]))
  {
  }

  lemma CreateSane(s: Server, req: Request)
    requires Sane(s) && req.CreateRoom?
    ensures Sane(HandleCreate(s, req).0)
  {
    if req.from in s.addrToNode {
      var node := s.addrToNode[req.from];
      P.AllocateSound(s.pool, req.freshId, LocalNetworks(s.nodes, node));
      var (pool, cidr) := P.Allocate(s.pool, req.freshId, LocalNetworks(s.nodes, node));
      if cidr.Ok? {
        var room := NewRoom(node, cidr.value, req.freshToken);
        AddSound(room, node, Nickname(s.nodes, node, "Owner"), Owner);
        InsertSane(s, req.freshId, AddOrReuse(room, node, Nickname(s.nodes, node, "Owner"), Owner).0, pool);
      }
    }
  }

  lemma RestoreSane(s: Server, node: NodeId, id: RoomId, token: Option<string>)
    requires Sane(s)
    ensures Sane(Restore(s, node, id, token))
  {
    if id !in s.rooms {
      P.AllocateSound(s.pool, id, []);
      InsertSane(s, id, RoomAt(s, node, id, token), P.Allocate(s.pool, id, []).0);
    }
  }

  lemma JoinExistingSane(s: Server, node: NodeId, id: RoomId, token: Option<string>)
    requires Sane(s) && id in s.rooms && node in s.nodes
    ensures Sane(JoinExisting(s, node, id, token).0)
  {
    var nickname := Nickname(s.nodes, node, "Peer");
    AdmitSound(s.nodes, s.rooms[id], node, nickname);
    InsertSane(s, id, Admit(s.rooms[id], node, nickname).0, s.pool);
  }

  lemma JoinSane(s: Server, req: Request)
    requires Sane(s) && req.JoinRoom?
    ensures Sane(HandleJoin(s, req).0)
  {
    if req.from in s.addrToNode {
      var node := s.addrToNode[req.from];
      RestoreSane(s, node, req.room, req.token);
      JoinExistingSane(Restore(s, node, req.room, req.token), node, req.room, req.token);
    }
  }

  lemma LeaveSane(s: Server, req: Request)
    requires Sane(s) && req.LeaveRoom?
    ensures Sane(HandleLeave(s, req).0)
  {
    if req.from in s.addrToNode && req.room in s.rooms {
      RemoveSound(s.nodes, s.rooms[req.room], s.addrToNode[req.from]);
    }
  }

  lemma StepSane(s: Server, req: Request)
    requires Sane(s)
    ensures Sane(Handle(s, req).0)
  {
    match req
    case Register(_, _, _, _, _) =>
    case CreateRoom(_, _, _) => CreateSane(s, req);
    case JoinRoom(_, _, _) => JoinSane(s, req);
    case LeaveRoom(_, _) => LeaveSane(s, req);
  }

  /** Addresses are unique at the start, at the end and between any two requests. */
  ghost predicate AlwaysUnique(s: Server, reqs: seq<Request>)
    decreases |reqs|
  {
    UniqueIps(s) && (reqs != [] ==> AlwaysUnique(Handle(s, reqs[0]).0, reqs[1..]))
  }

  predicate NeverClashes(s: Server, reqs: seq<Request>)
    decreases |reqs|
  {
    reqs != [] ==> !Clashes(s, reqs[0]) && NeverClashes(Handle(s, reqs[0]).0, reqs[1..])
  }

  lemma {:induction false} UniqueAlong(s: Server, reqs: seq<Request>)
    requires Sane(s) && UniqueIps(s)
    ensures AlwaysUnique(s, reqs) <==> NeverClashes(s, reqs)
    decreases |reqs|
  {
    if reqs != [] {
      UniqueUnlessClash(s, reqs[0]);
      if !Clashes(s, reqs[0]) {
        StepSane(s, reqs[0]);
        UniqueAlong(Handle(s, reqs[0]).0, reqs[1..]);
      }
    }
  }

  lemma {:induction false} RunSane(s: Server, reqs: seq<Request>)
    requires Sane(s)
    ensures Sane(Supernode.Run(s, reqs))
    decreases |reqs|
  {
    if reqs != [] {
      StepSane(s, reqs[0]);
      RunSane(Handle(s, reqs[0]).0, reqs[1..]);
    }
  }

  /**
   * From an empty supernode, whatever is requested and whether or not subnets overlap: no two
   * memberships ever share an address precisely when no request gets one that is in use in
   * another room; and every member is always a registered node.
   */
  lemma UniqueRuns(plan: P.Plan, reqs: seq<Request>)
    ensures AlwaysUnique(Start(plan), reqs) <==> NeverClashes(Start(plan), reqs)
    ensures var last := Supernode.Run(Start(plan), reqs);
            forall id :: id in last.rooms ==> last.rooms[id].members.Keys <= last.nodes.Keys
  {
    UniqueAlong(Start(plan), reqs);
    RunSane(Start(plan), reqs);
  }

  /** Runs that keep subnets disjoint are among those that keep addresses unique. */
  lemma {:induction false} DisjointNeverClashes(s: Server, reqs: seq<Request>)
    requires Good(s) && NeverCollides(s, reqs)
    ensures NeverClashes(s, reqs)
    decreases |reqs|
  {
    if reqs != [] {
      GoodIsUnique(s);
      StepGood(s, reqs[0]);
      GoodIsUnique(Handle(s, reqs[0]).0);
      UniqueUnlessClash(s, reqs[0]);
      DisjointNeverClashes(Handle(s, reqs[0]).0, reqs[1..]);
    }
  }
}
