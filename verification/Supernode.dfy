/** The supernode's membership state and its control handler (`r2n-supernode-lib`). */
module Supernode {
  import opened Bytes
  import opened Common
  import opened Ipv4Net
  import opened Rooms
  import P = AddressPool

  datatype NodeInfo = NodeInfo(addr: SocketAddr, key: PublicKey, nickname: string, localNetworks: seq<Cidr>)

  datatype Server = Server(
    nodes: map<NodeId, NodeInfo>, addrToNode: map<SocketAddr, NodeId>,
    rooms: map<RoomId, Room>, pool: P.Pool)

  /** A control frame with the address it came from. A new room's random id is part of the request. */
  datatype Request =
    | Register(from: SocketAddr, node: NodeId, key: PublicKey, nickname: string, localNetworks: seq<Cidr>)
    | CreateRoom(from: SocketAddr, freshId: RoomId, freshToken: string)
    | JoinRoom(from: SocketAddr, room: RoomId, token: Option<string>)
    | LeaveRoom(from: SocketAddr, room: RoomId)

  datatype Reply = Registered | NotRegistered | Created(ip: u32) | Accepted(ip: u32) | Rejected | Failed | Silent

  // ---------- The handler's arms ----------

  function HandleRegister(s: Server, req: Request): (r: (Server, Reply))
    requires req.Register?
  {
    (s.(nodes := s.nodes[req.node := NodeInfo(req.from, req.key, req.nickname, req.localNetworks)],
        addrToNode := s.addrToNode[req.from := req.node]), Registered)
  }

  function LocalNetworks(nodes: map<NodeId, NodeInfo>, node: NodeId): (nets: seq<Cidr>) {
    if node in nodes then nodes[node].localNetworks else []
  }

  /** The default is never used for a sender that the supernode knows. */
  function Nickname(nodes: map<NodeId, NodeInfo>, node: NodeId, default: string): (name: string) {
    if node in nodes then nodes[node].nickname else default
  }

  function HandleCreate(s: Server, req: Request): (r: (Server, Reply))
    requires req.CreateRoom?
  {
    if req.from !in s.addrToNode then (s, NotRegistered)
    else
      var node := s.addrToNode[req.from];
      var (pool, cidr) := P.Allocate(s.pool, req.freshId, LocalNetworks(s.nodes, node));
      if !cidr.Ok? then (s.(pool := pool), Failed)
      else
        var room := NewRoom(node, cidr.value, req.freshToken);
        var (room', ip) := AddOrReuse(room, node, Nickname(s.nodes, node, "Owner"), Owner);
        if ip.None? then (s.(pool := pool), Failed)
        else (s.(pool := pool, rooms := s.rooms[req.freshId := room']), Created(ip.value))
  }

  /** 192.168.255.0/24, given to a restored room when the pool is exhausted. */
  const FALLBACK: Cidr := Net(0xC0A8_FF00, 24)

  function TokenOf(token: Option<string>): (t: string) {
    if token.Some? then token.value else ""
  }

  /** `rooms.entry(room_id).or_insert_with(...)`: an unknown room is created again on demand. */
  function Restore(s: Server, node: NodeId, room: RoomId, token: Option<string>): (r: Server)
    ensures room in r.rooms
  {
    if room in s.rooms then s
    else
      s.(pool := P.Allocate(s.pool, room, []).0,
         rooms := s.rooms[room := NewRoom(node, RestoredSubnet(s.pool, room), TokenOf(token))])
  }

  function RestoredSubnet(pool: P.Pool, room: RoomId): (c: Cidr) {
    var cidr := P.Allocate(pool, room, []).1;
    if cidr.Ok? then cidr.value else FALLBACK
  }

  predicate SubnetConflicts(cidr: Cidr, nets: seq<Cidr>) {
    exists n :: n in nets && Overlap(cidr, n)
  }

  /** Joining keeps an existing membership as it is. */
  function Admit(room: Room, node: NodeId, nickname: string): (r: (Room, Option<u32>)) {
    if node in room.members then (room, Some(room.members[node].ip))
    else AddOrReuse(room, node, nickname, Guest)
  }

  function HandleJoin(s: Server, req: Request): (r: (Server, Reply))
    requires req.JoinRoom?
  {
    if req.from !in s.addrToNode then (s, NotRegistered)
    else
      var node := s.addrToNode[req.from];
      JoinExisting(Restore(s, node, req.room, req.token), node, req.room, req.token)
  }

  /** The join proper, once the room is there. */
  function JoinExisting(s: Server, node: NodeId, id: RoomId, token: Option<string>): (r: (Server, Reply))
    requires id in s.rooms
  {
    var room := s.rooms[id];
    if room.token != TokenOf(token) || SubnetConflicts(room.cidr, LocalNetworks(s.nodes, node)) then (s, Rejected)
    else
      var (room', ip) := Admit(room, node, Nickname(s.nodes, node, "Peer"));
      if ip.None? then (s, Failed) else (s.(rooms := s.rooms[id := room']), Accepted(ip.value))
  }

  /** The last member's departure removes the room and releases its subnet. */
  function HandleLeave(s: Server, req: Request): (r: (Server, Reply))
    requires req.LeaveRoom?
  {
    if req.from !in s.addrToNode || req.room !in s.rooms then (s, Silent)
    else
      var room := Remove(s.rooms[req.room], s.addrToNode[req.from]);
      if room.members == map[]
      then (s.(rooms := s.rooms - {req.room}, pool := P.Release(s.pool, req.room)), Silent)
      else (s.(rooms := s.rooms[req.room := room]), Silent)
  }

  function Handle(s: Server, req: Request): (r: (Server, Reply)) {
    match req
    case Register(_, _, _, _, _) => HandleRegister(s, req)
    case CreateRoom(_, _, _) => HandleCreate(s, req)
    case JoinRoom(_, _, _) => HandleJoin(s, req)
    case LeaveRoom(_, _) => HandleLeave(s, req)
  }

  // ---------- The invariant ----------

  function Subnets(s: Server): (m: map<RoomId, Cidr>) {
    map id | id in s.rooms :: s.rooms[id].cidr
  }

  ghost predicate Disjoint(m: map<RoomId, Cidr>) {
    forall a, b :: a in m && b in m && a != b ==> !Overlap(m[a], m[b])
  }

  /** No subnet of the pool shares an address with the fallback subnet. */
  ghost predicate FallbackApart(plan: P.Plan) {
    forall c :: P.IsCandidate(plan, c) ==> !Overlap(FALLBACK, c)
  }

  /** Besides the allocations, room `id` has the fallback subnet. */
  predicate Stray(m: map<RoomId, Cidr>, allocations: map<RoomId, Cidr>, id: RoomId) {
    id !in allocations && m == allocations[id := FALLBACK]
  }

  /** The subnets `m` are those allocated, apart from one stray room if `apart` allows it. */
  ghost predicate Matches(m: map<RoomId, Cidr>, allocations: map<RoomId, Cidr>, apart: bool) {
    m == allocations || (apart && exists id :: Stray(m, allocations, id))
  }

  /** Live rooms have their allocated subnets; a stray room lives only beside a pool apart from it. */
  ghost predicate Backed(m: map<RoomId, Cidr>, pool: P.Pool) {
    P.Inv(pool) && Matches(m, pool.allocations, FallbackApart(pool.plan))
  }

  /** The room's own invariant, and every member is a registered node. */
  ghost predicate RoomSound(nodes: map<NodeId, NodeInfo>, room: Room) {
    Rooms.Inv(room) && room.members.Keys <= nodes.Keys
  }

  ghost predicate Good(s: Server) {
    && Backed(Subnets(s), s.pool)
    && (forall a :: a in s.addrToNode ==> s.addrToNode[a] in s.nodes)
    && (forall id :: id in s.rooms ==> RoomSound(s.nodes, s.rooms[id]))
  }

  ghost predicate DisjointSubnets(s: Server) {
    Disjoint(Subnets(s))
  }

  /** No two memberships, in one room or in two, have the same virtual address. */
  ghost predicate UniqueIps(s: Server) {
    forall a, b, m, n ::
      a in s.rooms && b in s.rooms && m in s.rooms[a].members && n in s.rooms[b].members && (a, m) != (b, n) ==>
        s.rooms[a].members[m].ip != s.rooms[b].members[n].ip
  }

  lemma BackedIsDisjoint(m: map<RoomId, Cidr>, pool: P.Pool, a: RoomId, b: RoomId)
    requires Backed(m, pool) && a in m && b in m && a != b
    ensures !Overlap(m[a], m[b])
  {
    if a in pool.allocations && b in pool.allocations {
      P.AllocationsDisjoint(pool, a, b);
    } else {
      var id :| Stray(m, pool.allocations, id);
      var other := if a == id then b else a;
      assert P.IsCandidate(pool.plan, pool.allocations[other]);
    }
  }

  lemma GoodIsDisjoint(s: Server)
    requires Good(s)
    ensures DisjointSubnets(s)
  {
    var m := Subnets(s);
    forall a, b | a in m && b in m && a != b ensures !Overlap(m[a], m[b]) {
      BackedIsDisjoint(m, s.pool, a, b);
    }
  }

  lemma GoodIsUnique(s: Server)
    requires Good(s)
    ensures UniqueIps(s)
  {
    GoodIsDisjoint(s);
    forall a, b, m, n |
      a in s.rooms && b in s.rooms && m in s.rooms[a].members && n in s.rooms[b].members && (a, m) != (b, n)
      ensures s.rooms[a].members[m].ip != s.rooms[b].members[n].ip
    {
      assert RoomSound(s.nodes, s.rooms[a]) && RoomSound(s.nodes, s.rooms[b]);
      if a != b {
        assert !Overlap(Subnets(s)[a], Subnets(s)[b]);
      }
    }
  }

  // ---------- Each arm keeps it ----------

  lemma SubnetHasHosts(p: P.Plan, c: Cidr)
    requires P.IsCandidate(p, c)
    ensures Network(c) + 2 < Broadcast(c)
  {
    Pow2Add(2, 30 - c.prefix);
    assert Pow2(2) == 4;
    MulMonotone(4, 1, Pow2(30 - c.prefix));
  }

  /** The first member of a new room gets the first host address of its role; nothing can fail. */
  lemma FirstMember(node: NodeId, c: Cidr, token: string, nickname: string, role: Role)
    requires Network(c) + 2 < Broadcast(c)
    ensures var (room, ip) := AddOrReuse(NewRoom(node, c, token), node, nickname, role);
            && ip == Some(Network(c) + PreferredHost(role)) && Rooms.Inv(room) && room.cidr == c
            && room.members == map[node := Member(Network(c) + PreferredHost(role), nickname, role)]
  {
    var r := NewRoom(node, c, token);
    AddSound(r, node, nickname, role);
    assert Used(r.members, r.leases) == {};
  }

  /** Recording a subnet together with its allocation. */
  lemma MatchesInsert(m: map<RoomId, Cidr>, allocations: map<RoomId, Cidr>, apart: bool, id: RoomId, c: Cidr)
    requires Matches(m, allocations, apart)
    ensures Matches(m[id := c], allocations[id := c], apart)
  {
    if m != allocations {
      var k :| Stray(m, allocations, k);
      if k == id {
        assert m[id := c] == allocations[id := c];
      } else {
        assert m[id := c] == allocations[id := c][k := FALLBACK];
        assert Stray(m[id := c], allocations[id := c], k);
      }
    }
  }

  /** Dropping a room together with its allocation, if it has one. */
  lemma MatchesRemove(m: map<RoomId, Cidr>, allocations: map<RoomId, Cidr>, apart: bool, id: RoomId)
    requires Matches(m, allocations, apart)
    ensures Matches(m - {id}, allocations - {id}, apart)
  {
    if m != allocations {
      var k :| Stray(m, allocations, k);
      if k == id {
        assert m - {id} == allocations - {id};
      } else {
        assert m - {id} == (allocations - {id})[k := FALLBACK];
        assert Stray(m - {id}, allocations - {id}, k);
      }
    }
  }

  /** The fallback subnet shares addresses with one of `m`. */
  predicate Obstructed(m: map<RoomId, Cidr>) {
    exists id :: id in m && Overlap(FALLBACK, m[id])
  }

  /** Recording the fallback subnet when the pool is exhausted and no room is in the way. */
  lemma StrayBacked(m: map<RoomId, Cidr>, pool: P.Pool, id: RoomId)
    requires Backed(m, pool) && id !in m && !Obstructed(m) && P.Allocate(pool, id, []).1.Exhausted?
    ensures Backed(m[id := FALLBACK], pool)
  {
    ExhaustedApart(m, pool, id);
    StrayObstructs(m, pool.allocations, true);
    assert Stray(m[id := FALLBACK], pool.allocations, id);
  }

  lemma StrayObstructs(m: map<RoomId, Cidr>, allocations: map<RoomId, Cidr>, apart: bool)
    requires Matches(m, allocations, apart)
    ensures m == allocations || Obstructed(m)
  {
    if m != allocations {
      var k :| Stray(m, allocations, k);
      assert k in m && Overlap(FALLBACK, m[k]);
    }
  }

  /** The subnets of an exhausted pool are live rooms', so they lie where no room is in the way. */
  lemma ExhaustedApart(m: map<RoomId, Cidr>, pool: P.Pool, id: RoomId)
    requires Backed(m, pool) && !Obstructed(m) && P.Allocate(pool, id, []).1.Exhausted?
    ensures FallbackApart(pool.plan)
  {
    P.AllocateComplete(pool, id, []);
    forall c | P.IsCandidate(pool.plan, c) ensures !Overlap(FALLBACK, c) {
      assert !P.Usable(pool, [], c);
      var k :| k in pool.allocations && pool.allocations[k] == c;
      assert m[k] == c;
    }
  }

  lemma SubnetsInsert(s: Server, id: RoomId, room: Room)
    ensures Subnets(s.(rooms := s.rooms[id := room])) == Subnets(s)[id := room.cidr]
  {
  }

  /** Recording a sound room whose subnet is accounted for. */
  lemma InsertGood(s: Server, id: RoomId, room: Room, pool: P.Pool)
    requires Good(s) && RoomSound(s.nodes, room) && Backed(Subnets(s)[id := room.cidr], pool)
    ensures Good(s.(pool := pool, rooms := s.rooms[id := room]))
  {
    SubnetsInsert(s.(pool := pool), id, room);
  }

  lemma CreateGood(s: Server, req: Request)
    requires Good(s) && req.CreateRoom?
    ensures Good(HandleCreate(s, req).0)
  {
    if req.from in s.addrToNode {
      var node := s.addrToNode[req.from];
      P.AllocateSound(s.pool, req.freshId, LocalNetworks(s.nodes, node));
      var (pool, cidr) := P.Allocate(s.pool, req.freshId, LocalNetworks(s.nodes, node));
      if cidr.Ok? {
        SubnetHasHosts(s.pool.plan, cidr.value);
        var nickname := Nickname(s.nodes, node, "Owner");
        FirstMember(node, cidr.value, req.freshToken, nickname, Owner);
        var room := AddOrReuse(NewRoom(node, cidr.value, req.freshToken), node, nickname, Owner).0;
        MatchesInsert(Subnets(s), s.pool.allocations, FallbackApart(pool.plan), req.freshId, cidr.value);
        InsertGood(s, req.freshId, room, pool);
      }
    }
  }

  /** Creating a room for a registered node fails only when the pool has no subnet to give. */
  lemma CreateSucceeds(s: Server, req: Request)
    requires Good(s) && req.CreateRoom? && req.from in s.addrToNode
    ensures var avoid := LocalNetworks(s.nodes, s.addrToNode[req.from]);
            var cidr := P.Allocate(s.pool, req.freshId, avoid).1;
            HandleCreate(s, req).1 == if cidr.Ok? then Created(Network(cidr.value) + 1) else Failed
  {
    var node := s.addrToNode[req.from];
    P.AllocateSound(s.pool, req.freshId, LocalNetworks(s.nodes, node));
    var cidr := P.Allocate(s.pool, req.freshId, LocalNetworks(s.nodes, node)).1;
    if cidr.Ok? {
      SubnetHasHosts(s.pool.plan, cidr.value);
      FirstMember(node, cidr.value, req.freshToken, Nickname(s.nodes, node, "Owner"), Owner);
    }
  }

  /** The fallback subnet shares addresses with a live room. */
  predicate FallbackCollides(s: Server) {
    Obstructed(Subnets(s))
  }

  /** The join puts its room on the fallback subnet while a live room is in the way. */
  predicate Collides(s: Server, req: Request) {
    RestoreFails(s, req) && FallbackCollides(s)
  }

  /** The join has to restore its room, and the pool has no subnet left for it. */
  predicate RestoreFails(s: Server, req: Request) {
    && req.JoinRoom? && req.from in s.addrToNode && req.room !in s.rooms
    && !P.Allocate(s.pool, req.room, []).1.Ok?
  }

  lemma RestoreGood(s: Server, node: NodeId, room: RoomId, token: Option<string>)
    requires Good(s) && (room in s.rooms || P.Allocate(s.pool, room, []).1.Ok? || !FallbackCollides(s))
    ensures Good(Restore(s, node, room, token))
  {
    if room !in s.rooms {
      var pool, subnet := P.Allocate(s.pool, room, []).0, RestoredSubnet(s.pool, room);
      RestoreBacked(Subnets(s), s.pool, room);
      InsertGood(s, room, NewRoom(node, subnet, TokenOf(token)), pool);
    }
  }

  lemma RestoreBacked(m: map<RoomId, Cidr>, pool: P.Pool, id: RoomId)
    requires Backed(m, pool) && id !in m && (P.Allocate(pool, id, []).1.Ok? || !Obstructed(m))
    ensures Backed(m[id := RestoredSubnet(pool, id)], P.Allocate(pool, id, []).0)
  {
    P.AllocateSound(pool, id, []);
    var (pool', c) := P.Allocate(pool, id, []);
    if c.Ok? {
      MatchesInsert(m, pool.allocations, FallbackApart(pool.plan), id, c.value);
    } else {
      StrayBacked(m, pool, id);
    }
  }

  /** Replacing a live room by a sound one with the same subnet. */
  lemma UpdateGood(s: Server, id: RoomId, room: Room)
    requires Good(s) && id in s.rooms && room.cidr == s.rooms[id].cidr && RoomSound(s.nodes, room)
    ensures Good(s.(rooms := s.rooms[id := room]))
  {
    assert Subnets(s)[id := room.cidr] == Subnets(s);
    InsertGood(s, id, room, s.pool);
  }

  lemma AdmitSound(nodes: map<NodeId, NodeInfo>, room: Room, node: NodeId, nickname: string)
    requires RoomSound(nodes, room) && node in nodes
    ensures RoomSound(nodes, Admit(room, node, nickname).0) && Admit(room, node, nickname).0.cidr == room.cidr
  {
    AddSound(room, node, nickname, Guest);
  }

  lemma JoinExistingGood(s: Server, node: NodeId, id: RoomId, token: Option<string>)
    requires Good(s) && id in s.rooms && node in s.nodes
    ensures Good(JoinExisting(s, node, id, token).0)
  {
    var nickname := Nickname(s.nodes, node, "Peer");
    assert RoomSound(s.nodes, s.rooms[id]);
    AdmitSound(s.nodes, s.rooms[id], node, nickname);
    UpdateGood(s, id, Admit(s.rooms[id], node, nickname).0);
  }

  lemma JoinGood(s: Server, req: Request)
    requires Good(s) && req.JoinRoom? && !Collides(s, req)
    ensures Good(HandleJoin(s, req).0)
  {
    if req.from in s.addrToNode {
      var node := s.addrToNode[req.from];
      RestoreGood(s, node, req.room, req.token);
      JoinExistingGood(Restore(s, node, req.room, req.token), node, req.room, req.token);
    }
  }

  /** Dropping a room together with its allocation. */
  lemma DropGood(s: Server, id: RoomId)
    requires Good(s)
    ensures Good(s.(rooms := s.rooms - {id}, pool := P.Release(s.pool, id)))
  {
    var m, pool := Subnets(s), P.Release(s.pool, id);
    assert Subnets(s.(rooms := s.rooms - {id}, pool := pool)) == m - {id};
    MatchesRemove(m, s.pool.allocations, FallbackApart(pool.plan), id);
    assert P.Inv(pool);
  }

  lemma RemoveSound(nodes: map<NodeId, NodeInfo>, room: Room, node: NodeId)
    requires RoomSound(nodes, room)
    ensures RoomSound(nodes, Remove(room, node))
  {
  }

  lemma LeaveGood(s: Server, req: Request)
    requires Good(s) && req.LeaveRoom?
    ensures Good(HandleLeave(s, req).0)
  {
    if req.from in s.addrToNode && req.room in s.rooms {
      var room := Remove(s.rooms[req.room], s.addrToNode[req.from]);
      RemoveSound(s.nodes, s.rooms[req.room], s.addrToNode[req.from]);
      if room.members == map[] {
        DropGood(s, req.room);
      } else {
        UpdateGood(s, req.room, room);
      }
    }
  }

  lemma StepGood(s: Server, req: Request)
    requires Good(s) && !Collides(s, req)
    ensures Good(Handle(s, req).0)
  {
    match req
    case Register(_, _, _, _, _) =>
      assert Subnets(Handle(s, req).0) == Subnets(s);
    case CreateRoom(_, _, _) => CreateGood(s, req);
    case JoinRoom(_, _, _) => JoinGood(s, req);
    case LeaveRoom(_, _) => LeaveGood(s, req);
  }

  /**
   * From a good state, one request leaves subnets disjoint unless it is a join that restores a
   * room from an exhausted pool while 192.168.255.0/24 overlaps a live room; then it never does.
   */
  lemma DisjointUnlessFallback(s: Server, req: Request)
    requires Good(s)
    ensures DisjointSubnets(Handle(s, req).0) <==> !Collides(s, req)
  {
    if Collides(s, req) {
      var node := s.addrToNode[req.from];
      GoodIsDisjoint(s);
      FallbackSubnets(s, node, req.room, req.token);
    } else {
      StepGood(s, req);
      GoodIsDisjoint(Handle(s, req).0);
    }
  }

  /** The restored room takes the fallback subnet, whether or not the join then goes through. */
  lemma FallbackSubnets(s: Server, node: NodeId, id: RoomId, token: Option<string>)
    requires DisjointSubnets(s) && id !in s.rooms && !P.Allocate(s.pool, id, []).1.Ok?
    ensures DisjointSubnets(JoinExisting(Restore(s, node, id, token), node, id, token).0) <==> !FallbackCollides(s)
  {
    var restored := Restore(s, node, id, token);
    JoinKeepsSubnets(restored, node, id, token);
    FallbackTaken(s, node, id, token);
    DisjointInsert(Subnets(s), id, FALLBACK);
  }

  lemma FallbackTaken(s: Server, node: NodeId, id: RoomId, token: Option<string>)
    requires id !in s.rooms && !P.Allocate(s.pool, id, []).1.Ok?
    ensures Subnets(Restore(s, node, id, token)) == Subnets(s)[id := FALLBACK]
  {
  }

  lemma JoinKeepsSubnets(s: Server, node: NodeId, id: RoomId, token: Option<string>)
    requires id in s.rooms
    ensures Subnets(JoinExisting(s, node, id, token).0) == Subnets(s)
  {
  }

  lemma DisjointInsert(m: map<RoomId, Cidr>, id: RoomId, c: Cidr)
    requires Disjoint(m) && id !in m
    ensures Disjoint(m[id := c]) <==> forall k :: k in m ==> !Overlap(c, m[k])
  {
    var n := m[id := c];
    if Disjoint(n) {
      forall k | k in m ensures !Overlap(c, m[k]) {
        assert n[id] == c && n[k] == m[k];
      }
    }
  }

  /** Some membership has the address. */
  predicate AddressTaken(s: Server, ip: u32) {
    exists id, n :: id in s.rooms && n in s.rooms[id].members && s.rooms[id].members[n].ip == ip
  }

  /** The first guest address of the fallback subnet, 192.168.255.2. */
  const FALLBACK_GUEST: u32 := 0xC0A8_FF02

  /** The join restores its room on the fallback subnet, and the joiner's own networks allow it. */
  predicate JoinsFallback(s: Server, req: Request) {
    RestoreFails(s, req) && !SubnetConflicts(FALLBACK, LocalNetworks(s.nodes, s.addrToNode[req.from]))
  }

  /**
   * From a good state, one request leaves addresses unique unless it is a join admitted to the
   * fallback subnet while someone has 192.168.255.2; then it never does.
   */
  lemma UniqueUnlessFallback(s: Server, req: Request)
    requires Good(s)
    ensures UniqueIps(Handle(s, req).0) <==> !(JoinsFallback(s, req) && AddressTaken(s, FALLBACK_GUEST))
  {
    if RestoreFails(s, req) {
      FallbackRoom(s, req);
      GoodIsUnique(s);
      var node := s.addrToNode[req.from];
      if JoinsFallback(s, req) {
        UniqueInsert(s, Handle(s, req).0, req.room, node);
      } else {
        UniqueEmpty(s, Handle(s, req).0, req.room);
      }
    } else {
      StepGood(s, req);
      GoodIsUnique(Handle(s, req).0);
    }
  }

  /** What a join does that restores its room on the fallback subnet. */
  lemma FallbackRoom(s: Server, req: Request)
    requires RestoreFails(s, req)
    ensures var r := Handle(s, req).0; var node := s.addrToNode[req.from];
            && req.room in r.rooms && r.rooms == s.rooms[req.room := r.rooms[req.room]]
            && (if JoinsFallback(s, req)
                then r.rooms[req.room].members.Keys == {node} && r.rooms[req.room].members[node].ip == FALLBACK_GUEST
                else r.rooms[req.room].members == map[])
  {
    var node := s.addrToNode[req.from];
    OneSubnetFacts(FALLBACK);
    JoinFresh(Restore(s, node, req.room, req.token), node, req.room, FALLBACK, req.token);
  }

  /** The join proper of a node to the room just restored for it. */
  lemma JoinFresh(s: Server, node: NodeId, id: RoomId, c: Cidr, token: Option<string>)
    requires id in s.rooms && s.rooms[id] == NewRoom(node, c, TokenOf(token)) && Network(c) + 2 < Broadcast(c)
    ensures var r := JoinExisting(s, node, id, token).0;
            && id in r.rooms && r == s.(rooms := s.rooms[id := r.rooms[id]])
            && (if SubnetConflicts(c, LocalNetworks(s.nodes, node)) then r == s
                else r.rooms[id].members.Keys == {node} && r.rooms[id].members[node].ip == Network(c) + 2)
  {
    assert s.rooms[id := s.rooms[id]] == s.rooms;
    FirstMember(node, c, TokenOf(token), Nickname(s.nodes, node, "Peer"), Guest);
  }

  /** A new room with one member keeps addresses unique exactly when nobody has that address. */
  lemma UniqueInsert(s: Server, r: Server, id: RoomId, node: NodeId)
    requires UniqueIps(s) && id !in s.rooms && id in r.rooms && r.rooms == s.rooms[id := r.rooms[id]]
    requires r.rooms[id].members.Keys == {node}
    ensures UniqueIps(r) <==> !AddressTaken(s, r.rooms[id].members[node].ip)
  {
    var ip := r.rooms[id].members[node].ip;
    if AddressTaken(s, ip) {
      var a, m :| a in s.rooms && m in s.rooms[a].members && s.rooms[a].members[m].ip == ip;
      assert r.rooms[a].members[m].ip == r.rooms[id].members[node].ip && (a, m) != (id, node);
    }
  }

  lemma UniqueEmpty(s: Server, r: Server, id: RoomId)
    requires UniqueIps(s) && id !in s.rooms && id in r.rooms && r.rooms == s.rooms[id := r.rooms[id]]
    requires r.rooms[id].members == map[]
    ensures UniqueIps(r)
  {
  }

  // ---------- Runs ----------

  function Start(plan: P.Plan): (s: Server) {
    Server(map[], map[], map[], P.Pool(plan, map[]))
  }

  function Run(s: Server, reqs: seq<Request>): (r: Server)
    decreases |reqs|
  {
    if reqs == [] then s else Run(Handle(s, reqs[0]).0, reqs[1..])
  }

  /** Subnets are disjoint at the start, at the end and between any two requests. */
  ghost predicate AlwaysDisjoint(s: Server, reqs: seq<Request>)
    decreases |reqs|
  {
    DisjointSubnets(s) && (reqs != [] ==> AlwaysDisjoint(Handle(s, reqs[0]).0, reqs[1..]))
  }

  /** No request of the run collides in the state in which it is handled. */
  predicate NeverCollides(s: Server, reqs: seq<Request>)
    decreases |reqs|
  {
    reqs != [] ==> !Collides(s, reqs[0]) && NeverCollides(Handle(s, reqs[0]).0, reqs[1..])
  }

  lemma {:induction false} RunGood(s: Server, reqs: seq<Request>)
    requires Good(s)
    ensures AlwaysDisjoint(s, reqs) <==> NeverCollides(s, reqs)
    ensures NeverCollides(s, reqs) ==> Good(Run(s, reqs))
    decreases |reqs|
  {
    GoodIsDisjoint(s);
    if reqs != [] {
      DisjointUnlessFallback(s, reqs[0]);
      if !Collides(s, reqs[0]) {
        StepGood(s, reqs[0]);
        RunGood(Handle(s, reqs[0]).0, reqs[1..]);
      }
    }
  }

  /**
   * From an empty supernode, whatever is requested: live rooms have disjoint subnets at every
   * point precisely when no join restores its room from an exhausted pool while the fallback
   * subnet overlaps a live room.
   */
  lemma DisjointRuns(plan: P.Plan, reqs: seq<Request>)
    ensures AlwaysDisjoint(Start(plan), reqs) <==> NeverCollides(Start(plan), reqs)
  {
    RunGood(Start(plan), reqs);
  }

  /** In those runs no two memberships share an address, and every member is a registered node. */
  lemma AddressesUnique(plan: P.Plan, reqs: seq<Request>)
    requires NeverCollides(Start(plan), reqs)
    ensures var last := Run(Start(plan), reqs);
            && DisjointSubnets(last) && UniqueIps(last)
            && forall id :: id in last.rooms ==> last.rooms[id].members.Keys <= last.nodes.Keys
  {
    RunGood(Start(plan), reqs);
    GoodIsDisjoint(Run(Start(plan), reqs));
    GoodIsUnique(Run(Start(plan), reqs));
  }

  // ---------- A run that breaks it ----------

  /** A pool with a single subnet, which is also the fallback. */
  function OneSubnet(): (p: P.Plan) {
    P.Plan(FALLBACK, 24)
  }

  lemma OneSubnetFacts(c: Cidr)
    ensures P.IsCandidate(OneSubnet(), c) <==> c == FALLBACK
    ensures Network(FALLBACK) == 0xC0A8_FF00 && Broadcast(FALLBACK) == 0xC0A8_FFFF
  {
    assert Pow2(8) == 256;
    assert P.RoomCount(OneSubnet()) == 1;
    assert P.Candidate(OneSubnet(), 0) == FALLBACK;
  }

  lemma OneSubnetAllocation(p: P.Pool, room: RoomId)
    requires p.plan == OneSubnet() && room !in p.allocations && P.Inv(p)
    ensures P.Allocate(p, room, []).1 == if FALLBACK in p.allocations.Values then P.Exhausted else P.Ok(FALLBACK)
  {
    forall c: Cidr ensures P.IsCandidate(OneSubnet(), c) <==> c == FALLBACK { OneSubnetFacts(c); }
    P.AllocateComplete(p, room, []);
    P.AllocateSound(p, room, []);
    assert P.Usable(p, [], FALLBACK) <==> FALLBACK !in p.allocations.Values;
  }

  lemma RestoreNewRoom(s: Server, node: NodeId, id: RoomId)
    requires P.Inv(s.pool) && s.pool.plan == OneSubnet() && id !in s.rooms && id !in s.pool.allocations
    ensures var r := Restore(s, node, id, None);
            && r.rooms == s.rooms[id := NewRoom(node, FALLBACK, "")]
            && r.pool == P.Allocate(s.pool, id, []).0 && r.nodes == s.nodes && r.addrToNode == s.addrToNode
  {
    OneSubnetAllocation(s.pool, id);
  }

  lemma JoinNewRoom(s: Server, from: SocketAddr, id: RoomId)
    requires P.Inv(s.pool) && s.pool.plan == OneSubnet() && id !in s.rooms && id !in s.pool.allocations
    requires from in s.addrToNode && LocalNetworks(s.nodes, s.addrToNode[from]) == []
    ensures var r := Handle(s, JoinRoom(from, id, None)).0; var node := s.addrToNode[from];
            && r.nodes == s.nodes && r.addrToNode == s.addrToNode
            && r.pool == P.Allocate(s.pool, id, []).0
            && id in r.rooms && r.rooms == s.rooms[id := r.rooms[id]]
            && node in r.rooms[id].members && r.rooms[id].members[node].ip == FALLBACK_GUEST
  {
    var node := s.addrToNode[from];
    RestoreNewRoom(s, node, id);
    OneSubnetFacts(FALLBACK);
    JoinFresh(Restore(s, node, id, None), node, id, FALLBACK, None);
  }

  /** With the pool exhausted, a second restored room hands out an address already in use. */
  lemma SecondRestoreShares(s: Server, from: SocketAddr, a: RoomId, b: RoomId)
    requires s.pool == P.Pool(OneSubnet(), map[]) && s.rooms == map[] && a != b
    requires from in s.addrToNode && LocalNetworks(s.nodes, s.addrToNode[from]) == []
    ensures var r := Handle(Handle(s, JoinRoom(from, a, None)).0, JoinRoom(from, b, None)).0;
            var node := s.addrToNode[from];
            && a in r.rooms && b in r.rooms && node in r.rooms[a].members && node in r.rooms[b].members
            && r.rooms[a].members[node].ip == r.rooms[b].members[node].ip
  {
    var s2 := Handle(s, JoinRoom(from, a, None)).0;
    JoinNewRoom(s, from, a);
    P.AllocateSound(s.pool, a, []);
    OneSubnetAllocation(s.pool, a);
    JoinNewRoom(s2, from, b);
  }

  /** A run of three requests after which one node has the same address in two rooms. */
  lemma SharedAddress()
    ensures var node: NodeId := seq(32, _ => 0); var a: RoomId := seq(16, _ => 0); var b: RoomId := seq(16, _ => 1);
            var s1 := Handle(Start(OneSubnet()), Register(7, node, node, "n", [])).0;
            !UniqueIps(Handle(Handle(s1, JoinRoom(7, a, None)).0, JoinRoom(7, b, None)).0)
  {
    var node: NodeId := seq(32, _ => 0);
    var a: RoomId, b: RoomId := seq(16, _ => 0), seq(16, _ => 1);
    assert a[0] != b[0];
    var s1 := Handle(Start(OneSubnet()), Register(7, node, node, "n", [])).0;
    SecondRestoreShares(s1, 7, a, b);
  }

  // ---------- The supernode, updated in place ----------

  class SupernodeObject {
    var nodes: map<NodeId, NodeInfo>
    var addrToNode: map<SocketAddr, NodeId>
    var rooms: map<RoomId, RoomObject>
    const pool: P.RoomAddressPool

    /** No two ids share a room object. */
    ghost predicate Valid()
      reads this
    {
      forall a, b :: a in rooms && b in rooms && a != b ==> rooms[a] != rooms[b]
    }

    ghost function RoomViews(): (m: map<RoomId, Room>)
      reads this`rooms, rooms.Values
    {
      map id | id in rooms :: rooms[id].View()
    }

    ghost function View(): (s: Server)
      reads this, pool, rooms.Values
    {
      Server(nodes, addrToNode, RoomViews(), pool.View())
    }

    constructor (plan: P.Plan)
      ensures Valid() && View() == Start(plan) && fresh(pool) && rooms == map[]
    {
      nodes, addrToNode, rooms := map[], map[], map[];
      pool := new P.RoomAddressPool(plan);
    }

    // ----- The table of rooms -----

    method PutRoom(id: RoomId, room: RoomObject)
      requires Valid() && room !in rooms.Values
      modifies this`rooms
      ensures Valid() && rooms == old(rooms)[id := room]
      ensures RoomViews() == old(RoomViews())[id := room.View()]
    {
      assert forall k :: k in rooms ==> rooms[k] in rooms.Values;
      rooms := rooms[id := room];
    }

    /** Adds an empty room. */
    method OpenRoom(id: RoomId, node: NodeId, cidr: Cidr, token: string)
      requires Valid()
      modifies this`rooms
      ensures Valid() && id in rooms && fresh(rooms.Values - old(rooms.Values))
      ensures RoomViews() == old(RoomViews())[id := NewRoom(node, cidr, token)]
    {
      var room := new RoomObject(node, cidr, token);
      PutRoom(id, room);
    }

    /** Adds a room with its owner in it, if the owner gets an address. */
    method FoundRoom(id: RoomId, node: NodeId, cidr: Cidr, token: string, nickname: string) returns (ip: Option<u32>)
      requires Valid()
      modifies this`rooms
      ensures Valid() && fresh(rooms.Values - old(rooms.Values))
      ensures var (room, r) := AddOrReuse(NewRoom(node, cidr, token), node, nickname, Owner);
              ip == r && RoomViews() == if ip.Some? then old(RoomViews())[id := room] else old(RoomViews())
    {
      var room := new RoomObject(node, cidr, token);
      ip := room.AddOrReuseMember(node, nickname, Owner);
      if ip.Some? {
        PutRoom(id, room);
      }
    }

    method DropRoom(id: RoomId)
      requires Valid()
      modifies this`rooms
      ensures Valid() && rooms == old(rooms) - {id}
      ensures RoomViews() == old(RoomViews()) - {id}
    {
      rooms := rooms - {id};
    }

    method AddTo(id: RoomId, node: NodeId, nickname: string, role: Role) returns (ip: Option<u32>)
      requires Valid() && id in rooms
      modifies rooms[id]
      ensures var (room, r) := AddOrReuse(old(rooms[id].View()), node, nickname, role);
              RoomViews() == old(RoomViews())[id := room] && ip == r
    {
      ip := rooms[id].AddOrReuseMember(node, nickname, role);
    }

    method RemoveFrom(id: RoomId, node: NodeId)
      requires Valid() && id in rooms
      modifies rooms[id]
      ensures RoomViews() == old(RoomViews())[id := Remove(old(rooms[id].View()), node)]
    {
      rooms[id].RemoveMember(node);
    }

    // ----- The handler -----

    /** `handle_control` for the four membership frames. */
    method HandleControl(req: Request) returns (reply: Reply)
      requires Valid()
      modifies this, pool, rooms.Values
      ensures Valid() && fresh(rooms.Values - old(rooms.Values))
      ensures (View(), reply) == Handle(old(View()), req)
    {
      match req {
        case Register(from, node, key, nickname, localNetworks) =>
          nodes := nodes[node := NodeInfo(from, key, nickname, localNetworks)];
          addrToNode := addrToNode[from := node];
          return Registered;
        case CreateRoom(from, freshId, freshToken) =>
          reply := Create(from, freshId, freshToken);
        case JoinRoom(from, id, token) =>
          reply := Join(from, id, token);
        case LeaveRoom(from, id) =>
          reply := Leave(from, id);
      }
    }

    method Create(from: SocketAddr, freshId: RoomId, freshToken: string) returns (reply: Reply)
      requires Valid()
      modifies this, pool
      ensures Valid() && fresh(rooms.Values - old(rooms.Values))
      ensures (View(), reply) == HandleCreate(old(View()), CreateRoom(from, freshId, freshToken))
    {
      if from !in addrToNode { return NotRegistered; }
      var node := addrToNode[from];
      var cidr := pool.AllocateWithAvoidance(freshId, LocalNetworks(nodes, node));
      if !cidr.Ok? { return Failed; }
      var ip := FoundRoom(freshId, node, cidr.value, freshToken, Nickname(nodes, node, "Owner"));
      return if ip.None? then Failed else Created(ip.value);
    }

    /** The room for the id, created again if it is not there. */
    method RestoreRoom(node: NodeId, id: RoomId, token: Option<string>)
      requires Valid()
      modifies this`rooms, pool
      ensures Valid() && fresh(rooms.Values - old(rooms.Values)) && id in rooms
      ensures View() == Restore(old(View()), node, id, token)
    {
      if id !in rooms {
        var cidr := pool.AllocateWithAvoidance(id, []);
        var subnet := if cidr.Ok? then cidr.value else FALLBACK;
        OpenRoom(id, node, subnet, TokenOf(token));
      }
    }

    method Join(from: SocketAddr, id: RoomId, token: Option<string>) returns (reply: Reply)
      requires Valid()
      modifies this, pool, rooms.Values
      ensures Valid() && fresh(rooms.Values - old(rooms.Values))
      ensures (View(), reply) == HandleJoin(old(View()), JoinRoom(from, id, token))
    {
      if from !in addrToNode { return NotRegistered; }
      var node := addrToNode[from];
      RestoreRoom(node, id, token);
      reply := JoinHere(node, id, token);
    }

    /** The join proper. */
    method JoinHere(node: NodeId, id: RoomId, token: Option<string>) returns (reply: Reply)
      requires Valid() && id in rooms
      modifies rooms[id]
      ensures (View(), reply) == JoinExisting(old(View()), node, id, token)
    {
      ghost var s := View();
      var room := rooms[id];
      if room.token != TokenOf(token) { return Rejected; }
      if SubnetConflicts(room.cidr, LocalNetworks(nodes, node)) { return Rejected; }
      if node in room.members {
        assert s.rooms[id := s.rooms[id]] == s.rooms;
        return Accepted(room.members[node].ip);
      }
      var ip := AddTo(id, node, Nickname(nodes, node, "Peer"), Guest);
      if ip.None? {
        assert s.rooms[id := s.rooms[id]] == s.rooms;
        return Failed;
      }
      return Accepted(ip.value);
    }

    method Leave(from: SocketAddr, id: RoomId) returns (reply: Reply)
      requires Valid()
      modifies this`rooms, pool, rooms.Values
      ensures Valid() && rooms.Values <= old(rooms.Values)
      ensures (View(), reply) == HandleLeave(old(View()), LeaveRoom(from, id))
    {
      if from !in addrToNode || id !in rooms { return Silent; }
      ghost var before := RoomViews();
      RemoveFrom(id, addrToNode[from]);
      if rooms[id].members == map[] {
        assert RoomViews() - {id} == before - {id};
        DropRoom(id);
        pool.ReleaseRoom(id);
      }
      return Silent;
    }
  }
}
