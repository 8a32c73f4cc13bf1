/**
 * Peer views of one room: the supernode's membership on one side, the edges' peer tables on
 * the other (`r2n-edge-lib`), and reliable first-in first-out channels between them.
 */
module PeerView {
  import opened Bytes
  import opened Common
  import opened Ipv4Net
  import opened Rooms
  import Supernode

  /** What peers learn of a member: its virtual address, nickname and public key. */
  datatype PeerInfo = PeerInfo(ip: u32, nickname: string, key: PublicKey)

  type View = map<NodeId, PeerInfo>

  /** Frames to the supernode. Outside a room the edge leaves room zero, which does not exist. */
  datatype Request = RegisterRequest(key: PublicKey) | JoinRequest | LeaveRequest | LeaveZero

  /** Frames to an edge; `Other` stands for those that leave the peer table alone. */
  datatype Frame =
    | RoomCreated
    | JoinAccept
    | PeerList(peers: View)
    | PeerAdd(node: NodeId, info: PeerInfo)
    | PeerRemove(node: NodeId)
    | Other

  datatype Edge = Edge(peers: View, inRoom: bool)

  const OUTSIDE: Edge := Edge(map[], false)

  // ---------- The edge ----------

  /** How the edge's frame handlers change its peer table. */
  function Receive(self: NodeId, e: Edge, f: Frame): (r: Edge) {
    match f
    case RoomCreated => e.(inRoom := true)
    case JoinAccept => e.(inRoom := true)
    case PeerList(peers) => e.(peers := peers - {self})
    case PeerAdd(node, info) => if node == self then e else e.(peers := e.peers[node := info])
    case PeerRemove(node) => e.(peers := e.peers - {node})
    case Other => e
  }

  /** The leave command: the table is cleared and the room left, whatever is still on its way. */
  function LeaveCommand(e: Edge): (r: (Edge, Request)) {
    (OUTSIDE, if e.inRoom then LeaveRequest else LeaveZero)
  }

  /** The edge after all of `frames` have arrived. */
  function Settle(self: NodeId, e: Edge, frames: seq<Frame>): (r: Edge)
    decreases |frames|
  {
    if frames == [] then e else Settle(self, Receive(self, e, frames[0]), frames[1..])
  }

  // ---------- The supernode's side of the room ----------

  /** The registered key of a node, zero before it registers. */
  function KeyOf(keys: map<NodeId, PublicKey>, n: NodeId): (k: PublicKey) {
    if n in keys then keys[n] else seq(32, _ => 0)
  }

  function InfoOf(m: Member, key: PublicKey): (i: PeerInfo) {
    PeerInfo(m.ip, m.nickname, key)
  }

  function Infos(members: map<NodeId, Member>, keys: map<NodeId, PublicKey>): (v: View) {
    map n | n in members :: InfoOf(members[n], KeyOf(keys, n))
  }

  function Members(room: Option<Room>): (m: map<NodeId, Member>) {
    if room.Some? then room.value.members else map[]
  }

  /** What an accepted join sends to node `to`, where `infos` describes the members. */
  function JoinFrames(infos: View, joiner: NodeId, to: NodeId): (fs: seq<Frame>)
    requires joiner in infos
  {
    if to == joiner then [JoinAccept, PeerList(infos), Other]
    else if to in infos then [PeerAdd(joiner, infos[joiner]), Other]
    else []
  }

  /** What a departure sends to node `to`. */
  function LeaveFrames(before: map<NodeId, Member>, leaver: NodeId, to: NodeId): (fs: seq<Frame>) {
    if leaver in before && to in before && to != leaver then [PeerRemove(leaver)] else []
  }

  // ---------- The system ----------

  /** `known`: the room's id is in circulation, so that nodes can ask to join. */
  datatype System = System(
    room: Option<Room>, known: bool, keys: map<NodeId, PublicKey>, edges: map<NodeId, Edge>,
    up: map<NodeId, seq<Request>>, down: map<NodeId, seq<Frame>>)

  /** The same nodes throughout, the members are among them, and are registered. */
  ghost predicate Shape(s: System) {
    && s.edges.Keys == s.up.Keys == s.down.Keys
    && Members(s.room).Keys <= s.edges.Keys && Members(s.room).Keys <= s.keys.Keys
  }

  /**
   * What the rest of the supernode decides about a request: whether it is granted, the subnet and
   * token of a room that has to be set up for it, and the nickname of a new member.
   */
  datatype Terms = Terms(accept: bool, cidr: Cidr, token: string, nickname: string)

  /**
   * A node may have the room created, as long as its random id is not in circulation; until that
   * is served nobody else can refer to the room, so asking and serving are one step. Commands and
   * the watchdog may ask to register, join or leave at any time. The supernode handles the oldest
   * request of a node; an edge handles its oldest frame.
   */
  datatype Step =
    | Create(node: NodeId, terms: Terms)
    | AskRegister(node: NodeId, key: PublicKey)
    | AskJoin(node: NodeId)
    | AskLeave(node: NodeId)
    | Serve(node: NodeId, terms: Terms)
    | Deliver(node: NodeId)

  predicate Enabled(s: System, step: Step) {
    && step.node in s.edges && step.node in s.up && step.node in s.down
    && (step.Create? ==> !s.known)
    && (step.Serve? ==> s.up[step.node] != [])
    && (step.Deliver? ==> s.down[step.node] != [])
  }

  function Send(s: System, node: NodeId, req: Request): (r: System)
    requires node in s.up
  {
    s.(up := s.up[node := s.up[node] + [req]])
  }

  /** An answer to one node that leaves its peer table alone. */
  function Answer(s: System, node: NodeId): (r: System) {
    s.(down := map n | n in s.down :: s.down[n] + (if n == node then [Other] else []))
  }

  /** Creation: the owner is the first member and is told so, without a peer list. */
  function ServeCreate(s: System, node: NodeId, terms: Terms): (r: System) {
    var (room, ip) := AddOrReuse(NewRoom(node, terms.cidr, terms.token), node, terms.nickname, Owner);
    if node !in s.keys then Answer(s, node)
    else if !terms.accept || ip.None? then s
    else
      s.(room := Some(room), known := true,
         down := map n | n in s.down :: s.down[n] + (if n == node then [RoomCreated] else []))
  }

  function RoomFor(room: Option<Room>, node: NodeId, terms: Terms): (r: Room) {
    if room.Some? then room.value else NewRoom(node, terms.cidr, terms.token)
  }

  /**
   * A join of a registered node: the room is restored if need be, and the member admitted unless
   * it is refused or the room is full.
   */
  function ServeJoin(s: System, node: NodeId, terms: Terms): (r: System) {
    var room := RoomFor(s.room, node, terms);
    var (room', ip) := Supernode.Admit(room, node, terms.nickname);
    if node !in s.keys then Answer(s, node)
    else if !terms.accept then Answer(s.(room := Some(room)), node)
    else if ip.None? then s.(room := Some(room))
    else
      AdmitMembers(room, node, terms.nickname);
      Joined(s, room', node)
  }

  /** The frames of an accepted join: acceptance and peer list to the joiner, the joiner to the others. */
  function Joined(s: System, room: Room, node: NodeId): (r: System)
    requires node in room.members
  {
    var infos := Infos(room.members, s.keys);
    s.(room := Some(room), down := map n | n in s.down :: s.down[n] + JoinFrames(infos, node, n))
  }

  function ServeLeave(s: System, node: NodeId): (r: System) {
    if s.room.None? || node !in s.keys then s
    else
      var room := Remove(s.room.value, node);
      s.(room := if room.members == map[] then None else Some(room),
         down := map n | n in s.down :: s.down[n] + LeaveFrames(s.room.value.members, node, n))
  }

  /** A registration: the key is recorded; the other members are told to punch, but not the key. */
  function ServeRegister(s: System, node: NodeId, key: PublicKey): (r: System) {
    s.(keys := s.keys[node := key],
       down := map n | n in s.down :: s.down[n] + (if n == node || n in Members(s.room) then [Other] else []))
  }

  /** The node's oldest request is taken off its channel. */
  function Taken(s: System, node: NodeId): (r: System)
    requires node in s.up && s.up[node] != []
  {
    s.(up := s.up[node := s.up[node][1..]])
  }

  function ServeRequest(s: System, node: NodeId, req: Request, terms: Terms): (r: System) {
    match req
    case RegisterRequest(key) => ServeRegister(s, node, key)
    case JoinRequest => ServeJoin(s, node, terms)
    case LeaveRequest => ServeLeave(s, node)
    case LeaveZero => s
  }

  function Apply(s: System, step: Step): (r: System)
    requires Enabled(s, step)
  {
    match step
    case Create(node, terms) => ServeCreate(s, node, terms)
    case AskRegister(node, key) => Send(s, node, RegisterRequest(key))
    case AskJoin(node) => Send(s.(known := true), node, JoinRequest)
    case AskLeave(node) =>
      var (e, req) := LeaveCommand(s.edges[node]);
      Send(s.(edges := s.edges[node := e]), node, req)
    case Serve(node, terms) => ServeRequest(Taken(s, node), node, s.up[node][0], terms)
    case Deliver(node) =>
      s.(edges := s.edges[node := Receive(node, s.edges[node], s.down[node][0])],
         down := s.down[node := s.down[node][1..]])
  }

  // ---------- Convergence ----------

  /** The node is a member and has no departure on its way. */
  ghost predicate Staying(s: System, n: NodeId) {
    n in Members(s.room) && n in s.up && LeaveRequest !in s.up[n]
  }

  /** The same peers with the same addresses and nicknames and, if `exact`, the same keys. */
  ghost predicate Alike(v: View, w: View, exact: bool) {
    && v.Keys == w.Keys
    && forall n :: n in v ==> v[n].ip == w[n].ip && v[n].nickname == w[n].nickname && (exact ==> v[n].key == w[n].key)
  }

  /** The table the node will have once its frames have arrived is the room without itself. */
  ghost predicate Converges(s: System, n: NodeId, exact: bool) {
    && n in s.edges && n in s.down
    && Alike(Settle(n, s.edges[n], s.down[n]).peers, Infos(Members(s.room), s.keys) - {n}, exact)
  }

  /** An acceptance followed by a peer list is on its way. */
  ghost predicate Activating(frames: seq<Frame>) {
    exists i, j :: 0 <= i < j < |frames| && frames[i].JoinAccept? && frames[j].PeerList?
  }

  /** The news of the creation is on its way to an edge that is still outside, ahead of any peer. */
  ghost predicate Founding(e: Edge, frames: seq<Frame>) {
    && e == OUTSIDE
    && exists i :: 0 <= i < |frames| && frames[i].RoomCreated? && forall k :: 0 <= k < i ==> frames[k].Other?
  }

  ghost predicate Entered(e: Edge, frames: seq<Frame>) {
    e.inRoom || Activating(frames) || Founding(e, frames)
  }

  /** What holds of a staying node. */
  ghost predicate Agrees(s: System, n: NodeId, exact: bool) {
    Converges(s, n, exact) && Entered(s.edges[n], s.down[n])
  }

  /** Before the room's id is in circulation nobody is in it or on the way into or out of it. */
  ghost predicate Quiet(s: System) {
    && s.room.None?
    && (forall n :: n in s.edges ==> s.edges[n] == OUTSIDE)
    && (forall n :: n in s.down ==> forall k :: 0 <= k < |s.down[n]| ==> s.down[n][k].Other?)
    && (forall n :: n in s.up ==> JoinRequest !in s.up[n] && LeaveRequest !in s.up[n])
  }

  ghost predicate Inv(s: System, exact: bool) {
    && Shape(s) && (!s.known ==> Quiet(s))
    && forall n :: Staying(s, n) ==> Agrees(s, n, exact)
  }

  lemma {:induction false} SettleAppend(self: NodeId, e: Edge, a: seq<Frame>, b: seq<Frame>)
    ensures Settle(self, e, a + b) == Settle(self, Settle(self, e, a), b)
    decreases |a|
  {
    if a == [] {
      assert a + b == b;
    } else {
      assert (a + b)[1..] == a[1..] + b;
      SettleAppend(self, Receive(self, e, a[0]), a[1..], b);
    }
  }

  /** A peer list makes whatever the table held before irrelevant. */
  lemma {:induction false} ListForgets(self: NodeId, e: Edge, e': Edge, frames: seq<Frame>, j: nat)
    requires j < |frames| && frames[j].PeerList?
    ensures Settle(self, e, frames).peers == Settle(self, e', frames).peers
  {
    var a, b := frames[..j + 1], frames[j + 1..];
    assert frames == a + b && a == frames[..j] + [frames[j]];
    SettleAppend(self, e, frames[..j], [frames[j]]);
    SettleAppend(self, e', frames[..j], [frames[j]]);
    SettleAppend(self, e, a, b);
    SettleAppend(self, e', a, b);
    PeersOnly(self, Settle(self, e, a), Settle(self, e', a), b);
  }

  /** The table depends only on the table before. */
  lemma {:induction false} PeersOnly(self: NodeId, e: Edge, e': Edge, frames: seq<Frame>)
    requires e.peers == e'.peers
    ensures Settle(self, e, frames).peers == Settle(self, e', frames).peers
    decreases |frames|
  {
    if frames != [] {
      PeersOnly(self, Receive(self, e, frames[0]), Receive(self, e', frames[0]), frames[1..]);
    }
  }

  lemma EnteredAppend(e: Edge, a: seq<Frame>, b: seq<Frame>)
    requires Entered(e, a)
    ensures Entered(e, a + b)
  {
    if Activating(a) {
      var i, j :| 0 <= i < j < |a| && a[i].JoinAccept? && a[j].PeerList?;
      assert (a + b)[i].JoinAccept? && (a + b)[j].PeerList?;
    } else if Founding(e, a) {
      var i :| 0 <= i < |a| && a[i].RoomCreated? && forall k :: 0 <= k < i ==> a[k].Other?;
      assert (a + b)[i].RoomCreated?;
    }
  }

  // ---------- Each step keeps it, node by node ----------

  lemma SettleOne(self: NodeId, e: Edge, f: Frame)
    ensures Settle(self, e, [f]) == Receive(self, e, f)
  {
    assert [f][1..] == [];
  }

  lemma SettleTwo(self: NodeId, e: Edge, f: Frame, g: Frame)
    ensures Settle(self, e, [f, g]) == Receive(self, Receive(self, e, f), g)
  {
    assert [f, g][1..] == [g];
    SettleOne(self, Receive(self, e, f), g);
  }

  lemma {:induction false} SettleOthers(self: NodeId, e: Edge, frames: seq<Frame>)
    requires forall k :: 0 <= k < |frames| ==> frames[k].Other?
    ensures Settle(self, e, frames) == e
    decreases |frames|
  {
    if frames != [] {
      SettleOthers(self, e, frames[1..]);
    }
  }

  lemma JoinerAgrees(n: NodeId, e: Edge, a: seq<Frame>, infos: View)
    requires n in infos
    ensures var frames := a + JoinFrames(infos, n, n);
            Settle(n, e, frames).peers == infos - {n} && Entered(e, frames)
  {
    var b := JoinFrames(infos, n, n);
    SettleAppend(n, e, a, b);
    var e' := Settle(n, e, a);
    assert b[1..] == [PeerList(infos), Other];
    SettleTwo(n, Receive(n, e', JoinAccept), PeerList(infos), Other);
    assert (a + b)[|a|].JoinAccept? && (a + b)[|a| + 1].PeerList?;
  }

  /** Another member's table after a join: the joiner is added to what it would have been. */
  lemma OtherAgreesOnJoin(n: NodeId, e: Edge, a: seq<Frame>, before: View, node: NodeId, info: PeerInfo, exact: bool)
    requires n in before && n != node && Alike(Settle(n, e, a).peers, before - {n}, exact) && Entered(e, a)
    ensures var infos := before[node := info]; var frames := a + JoinFrames(infos, node, n);
            Alike(Settle(n, e, frames).peers, infos - {n}, exact) && Entered(e, frames)
  {
    var b := [PeerAdd(node, info), Other];
    assert JoinFrames(before[node := info], node, n) == b;
    SettleAppend(n, e, a, b);
    SettleTwo(n, Settle(n, e, a), PeerAdd(node, info), Other);
    EnteredAppend(e, a, b);
  }

  lemma OtherAgreesOnLeave(n: NodeId, e: Edge, a: seq<Frame>, before: View, node: NodeId, exact: bool)
    requires n != node && Alike(Settle(n, e, a).peers, before - {n}, exact) && Entered(e, a)
    ensures var frames := a + if node in before then [PeerRemove(node)] else [];
            Alike(Settle(n, e, frames).peers, before - {node} - {n}, exact) && Entered(e, frames)
  {
    var b := if node in before then [PeerRemove(node)] else [];
    SettleAppend(n, e, a, b);
    if node in before {
      SettleOne(n, Settle(n, e, a), PeerRemove(node));
    }
    EnteredAppend(e, a, b);
  }

  /** Frames that leave the table alone change nothing. */
  lemma OthersAgree(n: NodeId, e: Edge, a: seq<Frame>, b: seq<Frame>)
    requires Entered(e, a) && forall k :: 0 <= k < |b| ==> b[k].Other?
    ensures Settle(n, e, a + b) == Settle(n, e, a) && Entered(e, a + b)
  {
    SettleAppend(n, e, a, b);
    SettleOthers(n, Settle(n, e, a), b);
    EnteredAppend(e, a, b);
  }

  lemma AdmitMembers(room: Room, node: NodeId, nickname: string)
    ensures var (r, ip) := Supernode.Admit(room, node, nickname);
            ip.Some? ==> node in r.members && r.members == room.members[node := r.members[node]]
  {
  }

  lemma InfosAdd(members: map<NodeId, Member>, keys: map<NodeId, PublicKey>, node: NodeId, m: Member)
    ensures Infos(members[node := m], keys) == Infos(members, keys)[node := InfoOf(m, KeyOf(keys, node))]
  {
  }

  lemma InfosRemove(members: map<NodeId, Member>, keys: map<NodeId, PublicKey>, node: NodeId)
    ensures Infos(members - {node}, keys) == Infos(members, keys) - {node}
  {
  }

  lemma JoinedAgrees(s: System, room: Room, node: NodeId, n: NodeId, exact: bool)
    requires Shape(s) && node in s.edges && (Staying(s, n) ==> Agrees(s, n, exact))
    requires node in room.members && room.members == Members(s.room)[node := room.members[node]]
    requires Staying(Joined(s, room, node), n)
    ensures Agrees(Joined(s, room, node), n, exact)
  {
    InfosAdd(Members(s.room), s.keys, node, room.members[node]);
    if n == node {
      JoinerAgrees(n, s.edges[n], s.down[n], Infos(room.members, s.keys));
    } else {
      var info := InfoOf(room.members[node], KeyOf(s.keys, node));
      OtherAgreesOnJoin(n, s.edges[n], s.down[n], Infos(Members(s.room), s.keys), node, info, exact);
    }
  }

  lemma AnswerAgrees(s: System, node: NodeId, n: NodeId, exact: bool)
    requires Shape(s) && n in s.edges && Agrees(s, n, exact)
    ensures Agrees(Answer(s, node), n, exact)
  {
    OthersAgree(n, s.edges[n], s.down[n], if n == node then [Other] else []);
  }

  lemma ServeJoinAgrees(s: System, node: NodeId, terms: Terms, n: NodeId, exact: bool)
    requires Shape(s) && node in s.edges && (Staying(s, n) ==> Agrees(s, n, exact))
    requires Staying(ServeJoin(s, node, terms), n)
    ensures Agrees(ServeJoin(s, node, terms), n, exact)
  {
    var room := RoomFor(s.room, node, terms);
    var (room', ip) := Supernode.Admit(room, node, terms.nickname);
    AdmitMembers(room, node, terms.nickname);
    assert Members(Some(room)) == Members(s.room);
    if node !in s.keys {
      AnswerAgrees(s, node, n, exact);
    } else if !terms.accept {
      AnswerAgrees(s.(room := Some(room)), node, n, exact);
    } else if ip.Some? {
      JoinedAgrees(s, room', node, n, exact);
    }
  }

  lemma ServeLeaveAgrees(s: System, node: NodeId, n: NodeId, exact: bool)
    requires Shape(s) && node in s.edges && (n != node && Staying(s, n) ==> Agrees(s, n, exact))
    requires Staying(ServeLeave(s, node), n)
    ensures Agrees(ServeLeave(s, node), n, exact)
  {
    if s.room.Some? {
      assert Members(ServeLeave(s, node).room) == Members(s.room) - {node};
      InfosRemove(Members(s.room), s.keys, node);
      OtherAgreesOnLeave(n, s.edges[n], s.down[n], Infos(Members(s.room), s.keys), node, exact);
    }
  }

  lemma DeliverAgrees(s: System, n: NodeId, exact: bool)
    requires Shape(s) && n in s.edges && s.down[n] != [] && Agrees(s, n, exact)
    ensures Agrees(Apply(s, Deliver(n)), n, exact)
  {
    DeliverEntered(n, s.edges[n], s.down[n]);
  }

  lemma DeliverEntered(n: NodeId, e: Edge, frames: seq<Frame>)
    requires frames != [] && Entered(e, frames)
    ensures Entered(Receive(n, e, frames[0]), frames[1..])
  {
    var e', rest := Receive(n, e, frames[0]), frames[1..];
    if !e'.inRoom {
      if Activating(frames) {
        var i, j :| 0 <= i < j < |frames| && frames[i].JoinAccept? && frames[j].PeerList?;
        assert rest[i - 1].JoinAccept? && rest[j - 1].PeerList?;
      } else {
        var i :| 0 <= i < |frames| && frames[i].RoomCreated? && forall k :: 0 <= k < i ==> frames[k].Other?;
        assert rest[i - 1].RoomCreated? && frames[0].Other?;
        assert forall k :: 0 <= k < i - 1 ==> rest[k] == frames[k + 1];
      }
    }
  }

  /** A leave command of an edge not in the room yet is overtaken by its entry. */
  lemma AskLeaveAgrees(s: System, n: NodeId, exact: bool)
    requires Shape(s) && n in s.edges && Agrees(s, n, exact) && !s.edges[n].inRoom
    ensures Agrees(Apply(s, AskLeave(n)), n, exact)
  {
    if Activating(s.down[n]) {
      var i, j :| 0 <= i < j < |s.down[n]| && s.down[n][i].JoinAccept? && s.down[n][j].PeerList?;
      ListForgets(n, s.edges[n], OUTSIDE, s.down[n], j);
    }
  }

  lemma CreateAgrees(s: System, node: NodeId, terms: Terms, n: NodeId, exact: bool)
    requires Shape(s) && Quiet(s) && node in s.edges && Staying(ServeCreate(s, node, terms), n)
    ensures Agrees(ServeCreate(s, node, terms), n, exact)
  {
    var r, a := ServeCreate(s, node, terms), s.down[node];
    assert Members(r.room).Keys == {node};
    SettleAppend(n, OUTSIDE, a, [RoomCreated]);
    SettleOthers(n, OUTSIDE, a);
    SettleOne(n, OUTSIDE, RoomCreated);
    assert Infos(Members(r.room), r.keys) - {n} == map[];
    assert (a + [RoomCreated])[|a|].RoomCreated?;
  }

  /** A registration changes the key of a member that another staying member knows by the old one. */
  ghost predicate Rekeys(s: System, step: Step) {
    && step.Serve? && step.node in s.up && s.up[step.node] != [] && s.up[step.node][0].RegisterRequest?
    && s.up[step.node][0].key != KeyOf(s.keys, step.node)
    && step.node in Members(s.room) && exists n :: n != step.node && Staying(s, n)
  }

  lemma ServeRegisterAgrees(s: System, node: NodeId, key: PublicKey, n: NodeId, exact: bool)
    requires Shape(s) && node in s.edges && n in Members(s.room) && Agrees(s, n, exact)
    requires exact ==> key == KeyOf(s.keys, node) || node !in Members(s.room) || n == node
    ensures Agrees(ServeRegister(s, node, key), n, exact)
  {
    OthersAgree(n, s.edges[n], s.down[n], [Other]);
    InfosRekey(Members(s.room), s.keys, node, key, n, exact);
    AlikeTransitive(Settle(n, s.edges[n], s.down[n]).peers, Infos(Members(s.room), s.keys) - {n},
                    Infos(Members(s.room), s.keys[node := key]) - {n}, exact);
  }

  lemma InfosRekey(members: map<NodeId, Member>, keys: map<NodeId, PublicKey>, node: NodeId, key: PublicKey,
                   n: NodeId, exact: bool)
    requires exact ==> key == KeyOf(keys, node) || node !in members || n == node
    ensures Alike(Infos(members, keys) - {n}, Infos(members, keys[node := key]) - {n}, exact)
  {
  }

  lemma AlikeTransitive(u: View, v: View, w: View, exact: bool)
    requires Alike(u, v, exact) && Alike(v, w, exact)
    ensures Alike(u, w, exact)
  {
  }

  lemma StepAgrees(s: System, step: Step, n: NodeId, exact: bool)
    requires Inv(s, exact) && Enabled(s, step) && Staying(Apply(s, step), n) && (exact ==> !Rekeys(s, step))
    ensures Agrees(Apply(s, step), n, exact)
  {
    match step
    case Create(node, terms) => CreateAgrees(s, node, terms, n, exact);
    case AskRegister(node, key) =>
      assert Staying(s, n);
    case AskJoin(node) =>
      assert Staying(s, n);
    case AskLeave(node) =>
      assert Staying(s, n) by {
        assert forall q :: q in s.up[n] ==> q in Apply(s, step).up[n];
      }
      if n == node {
        assert LeaveCommand(s.edges[n]).1 in Apply(s, step).up[n];
        AskLeaveAgrees(s, n, exact);
      }
    case Serve(node, terms) => ServeAgrees(s, node, terms, n, exact);
    case Deliver(node) =>
      assert Staying(s, n);
      if n == node {
        DeliverAgrees(s, n, exact);
      }
  }

  lemma ServeAgrees(s: System, node: NodeId, terms: Terms, n: NodeId, exact: bool)
    requires Inv(s, exact) && Enabled(s, Serve(node, terms)) && (exact ==> !Rekeys(s, Serve(node, terms)))
    requires Staying(Apply(s, Serve(node, terms)), n)
    ensures Agrees(Apply(s, Serve(node, terms)), n, exact)
  {
    var s', req := Taken(s, node), s.up[node][0];
    TakenAgrees(s, node, n, exact);
    match req {
      case RegisterRequest(key) => ServeRegisterAgrees(s', node, key, n, exact);
      case JoinRequest => ServeJoinAgrees(s', node, terms, n, exact);
      case LeaveRequest => ServeLeaveAgrees(s', node, n, exact);
      case LeaveZero =>
    }
  }

  /** Taking a request off its channel makes no node stay, except that a departure may be over. */
  lemma TakenAgrees(s: System, node: NodeId, n: NodeId, exact: bool)
    requires Inv(s, exact) && node in s.up && s.up[node] != []
    ensures Shape(Taken(s, node))
    ensures Staying(Taken(s, node), n) && (n != node || s.up[node][0] != LeaveRequest) ==>
              Staying(s, n) && Agrees(Taken(s, node), n, exact)
  {
    assert s.up[node] == [s.up[node][0]] + s.up[node][1..];
    if Staying(Taken(s, node), n) && (n != node || s.up[node][0] != LeaveRequest) {
      assert Staying(s, n);
      assert Agrees(s, n, exact) <==> Agrees(Taken(s, node), n, exact);
    }
  }

  /** Until the id is in circulation, nothing but creation brings anyone into the room. */
  lemma StepQuiet(s: System, step: Step)
    requires Shape(s) && Quiet(s) && Enabled(s, step) && !Apply(s, step).known
    ensures Quiet(Apply(s, step))
  {
    if step.Serve? {
      assert s.up[step.node][0] in s.up[step.node];
    }
  }

  lemma ServeShape(s: System, node: NodeId, req: Request, terms: Terms)
    requires Shape(s) && node in s.edges
    ensures var r := ServeRequest(s, node, req, terms); Shape(r) && r.known == s.known
  {
    if req.JoinRequest? {
      JoinShape(s, node, terms);
    }
  }

  lemma JoinShape(s: System, node: NodeId, terms: Terms)
    requires Shape(s) && node in s.edges
    ensures var r := ServeJoin(s, node, terms); Shape(r) && r.known == s.known
  {
    var room := RoomFor(s.room, node, terms);
    AdmitMembers(room, node, terms.nickname);
    assert Members(Some(room)) == Members(s.room);
  }

  lemma StepShape(s: System, step: Step)
    requires Shape(s) && Enabled(s, step)
    ensures Shape(Apply(s, step)) && (s.known ==> Apply(s, step).known)
  {
    if step.Serve? {
      ServeShape(Taken(s, step.node), step.node, s.up[step.node][0], step.terms);
    }
  }

  lemma StepInv(s: System, step: Step, exact: bool)
    requires Inv(s, exact) && Enabled(s, step) && (exact ==> !Rekeys(s, step))
    ensures Inv(Apply(s, step), exact)
  {
    StepShape(s, step);
    var r := Apply(s, step);
    if !r.known {
      StepQuiet(s, step);
    }
    forall n | Staying(r, n) ensures Agrees(r, n, exact) {
      StepAgrees(s, step, n, exact);
    }
  }

  // ---------- Runs ----------

  ghost predicate Leads(first: System, steps: seq<Step>, last: System)
    decreases |steps|
  {
    if steps == [] then last == first
    else Enabled(first, steps[0]) && Leads(Apply(first, steps[0]), steps[1..], last)
  }

  function Start(nodes: set<NodeId>): (s: System) {
    System(None, false, map[], map n | n in nodes :: OUTSIDE, map n | n in nodes :: [], map n | n in nodes :: [])
  }

  lemma {:induction false} RunInv(first: System, steps: seq<Step>, last: System)
    requires Inv(first, false) && Leads(first, steps, last)
    ensures Inv(last, false)
    decreases |steps|
  {
    if steps != [] {
      StepInv(first, steps[0], false);
      RunInv(Apply(first, steps[0]), steps[1..], last);
    }
  }

  /**
   * In every interleaving, a member with no departure on its way will see, once the frames
   * already sent to it have arrived, exactly the room's members except itself, each with its
   * address and nickname; with no frame left it sees them now.
   */
  lemma ViewsConverge(nodes: set<NodeId>, steps: seq<Step>, last: System, n: NodeId)
    requires Leads(Start(nodes), steps, last) && Staying(last, n)
    ensures Converges(last, n, false)
    ensures last.down[n] == [] ==>
              && Alike(last.edges[n].peers, Infos(Members(last.room), last.keys) - {n}, false)
              && last.edges[n].inRoom
  {
    RunInv(Start(nodes), steps, last);
  }

  // ---------- Keys ----------

  /** Every staying member will have the room's members with their registered keys. */
  ghost predicate KeysAgree(s: System) {
    forall n :: Staying(s, n) ==> Converges(s, n, true)
  }

  /** From an exact state, a step keeps the keys right unless it changes one that another member has. */
  lemma KeysUnlessRekeyed(s: System, step: Step)
    requires Inv(s, true) && Enabled(s, step)
    ensures KeysAgree(Apply(s, step)) <==> !Rekeys(s, step)
  {
    if Rekeys(s, step) {
      var n :| n != step.node && Staying(s, n);
      StaleKey(s, step, n);
    } else {
      StepInv(s, step, true);
    }
  }

  lemma StaleKey(s: System, step: Step, n: NodeId)
    requires Inv(s, true) && Enabled(s, step) && Rekeys(s, step) && n != step.node && Staying(s, n)
    ensures var r := Apply(s, step); Staying(r, n) && !Converges(r, n, true)
  {
    TakenAgrees(s, step.node, n, true);
    StaleTable(Taken(s, step.node), step.node, s.up[step.node][0].key, n);
  }

  lemma StaleTable(s: System, node: NodeId, key: PublicKey, n: NodeId)
    requires Shape(s) && n != node && n in Members(s.room) && node in Members(s.room)
    requires Agrees(s, n, true) && key != KeyOf(s.keys, node)
    ensures !Converges(ServeRegister(s, node, key), n, true)
  {
    OthersAgree(n, s.edges[n], s.down[n], [Other]);
    var seen := Settle(n, s.edges[n], s.down[n]).peers;
    assert node in seen && seen[node].key == KeyOf(s.keys, node);
    assert (Infos(Members(s.room), s.keys[node := key]) - {n})[node].key == key;
  }

  /** The steps of a run are possible one after the other. */
  predicate Possible(s: System, steps: seq<Step>)
    decreases |steps|
  {
    steps != [] ==> Enabled(s, steps[0]) && Possible(Apply(s, steps[0]), steps[1..])
  }

  ghost predicate AlwaysKeysAgree(s: System, steps: seq<Step>)
    requires Possible(s, steps)
    decreases |steps|
  {
    KeysAgree(s) && (steps != [] ==> AlwaysKeysAgree(Apply(s, steps[0]), steps[1..]))
  }

  ghost predicate NeverRekeys(s: System, steps: seq<Step>)
    requires Possible(s, steps)
    decreases |steps|
  {
    steps != [] ==> !Rekeys(s, steps[0]) && NeverRekeys(Apply(s, steps[0]), steps[1..])
  }

  lemma {:induction false} KeysAlong(s: System, steps: seq<Step>)
    requires Inv(s, true) && Possible(s, steps)
    ensures AlwaysKeysAgree(s, steps) <==> NeverRekeys(s, steps)
    decreases |steps|
  {
    if steps != [] {
      KeysUnlessRekeyed(s, steps[0]);
      if !Rekeys(s, steps[0]) {
        StepInv(s, steps[0], true);
        KeysAlong(Apply(s, steps[0]), steps[1..]);
      }
    }
  }

  /**
   * The staying members' tables, keys included, are right at every point of a run precisely when
   * no member registers another key while another member stays.
   */
  lemma KeyRuns(nodes: set<NodeId>, steps: seq<Step>)
    requires Possible(Start(nodes), steps)
    ensures AlwaysKeysAgree(Start(nodes), steps) <==> NeverRekeys(Start(nodes), steps)
  {
    KeysAlong(Start(nodes), steps);
  }

  // ---------- A run in which a key goes stale ----------

  /** `a` creates the room, `b` joins it and then registers a key. */
  function AfterRegistration(a: NodeId, b: NodeId, key: PublicKey, t: Terms): (steps: seq<Step>) {
    [Create(a, t)] + ([AskJoin(b)] + ([Serve(b, t)] + ([AskRegister(b, key)] + [Serve(b, t)])))
  }

  /** Before that, both register. */
  function StaleRun(a: NodeId, b: NodeId, ka: PublicKey, kb: PublicKey, key: PublicKey, t: Terms): (steps: seq<Step>) {
    var rest := AfterRegistration(a, b, key, t);
    [AskRegister(a, ka)] + ([Serve(a, t)] + ([AskRegister(b, kb)] + ([Serve(b, t)] + rest)))
  }

  /** Nodes `a` and `b`, with nothing under way to the supernode. */
  ghost predicate Idle(s: System, a: NodeId, b: NodeId) {
    a != b && s.edges.Keys == s.up.Keys == s.down.Keys == {a, b} && s.up[a] == s.up[b] == []
  }

  lemma RegisterRound(s: System, a: NodeId, b: NodeId, node: NodeId, key: PublicKey, t: Terms)
    requires Idle(s, a, b) && node in {a, b}
    ensures var asked := Apply(s, AskRegister(node, key));
            && Enabled(s, AskRegister(node, key)) && Enabled(asked, Serve(node, t))
            && asked.up[node] == [RegisterRequest(key)]
            && Apply(asked, Serve(node, t)) == ServeRegister(s, node, key)
            && Idle(ServeRegister(s, node, key), a, b)
  {
    var asked := Apply(s, AskRegister(node, key));
    assert asked.up[node] == [RegisterRequest(key)];
    assert Taken(asked, node).up == s.up;
  }

  lemma JoinRound(s: System, a: NodeId, b: NodeId, t: Terms)
    requires Idle(s, a, b) && s.known
    ensures var asked := Apply(s, AskJoin(b));
            && Enabled(s, AskJoin(b)) && Enabled(asked, Serve(b, t))
            && Apply(asked, Serve(b, t)) == ServeJoin(s, b, t) && Idle(ServeJoin(s, b, t), a, b)
  {
    var asked := Apply(s, AskJoin(b));
    assert asked.up[b] == [JoinRequest];
    assert Taken(asked, b).up == s.up;
  }

  /** A room with a free host admits a guest. */
  lemma RoomForGuest(room: Room, node: NodeId, nickname: string)
    requires Rooms.Inv(room) && node !in room.members && node !in room.leases
    requires Network(room.cidr) + 2 < Broadcast(room.cidr) && Network(room.cidr) + 2 !in room.leases.Values
    ensures var (r, ip) := Supernode.Admit(room, node, nickname);
            ip.Some? && r.members.Keys == room.members.Keys + {node}
  {
    AddSound(room, node, nickname, Guest);
    AdmitMembers(room, node, nickname);
    assert !Full(room, Guest);
  }

  /** Once both are registered, `a` can create the room and `b` join it. */
  lemma CreatedAndJoined(s: System, a: NodeId, b: NodeId, t: Terms)
    requires Idle(s, a, b) && a in s.keys && b in s.keys
    requires t.accept && Network(t.cidr) + 2 < Broadcast(t.cidr)
    ensures var s1 := ServeCreate(s, a, t); var s2 := ServeJoin(s1, b, t);
            s1.known && Idle(s1, a, b) && Members(s2.room).Keys == {a, b} && s2.keys == s.keys
  {
    FoundedRoom(a, t);
    var room := AddOrReuse(NewRoom(a, t.cidr, t.token), a, t.nickname, Owner).0;
    assert ServeCreate(s, a, t).room == Some(room);
    RoomForGuest(room, b, t.nickname);
  }

  lemma FoundedRoom(a: NodeId, t: Terms)
    requires Network(t.cidr) + 2 < Broadcast(t.cidr)
    ensures var (room, ip) := AddOrReuse(NewRoom(a, t.cidr, t.token), a, t.nickname, Owner);
            && ip.Some? && Rooms.Inv(room) && room.cidr == t.cidr
            && room.members.Keys == {a} && room.leases == map[a := Network(t.cidr) + 1]
  {
    Supernode.FirstMember(a, t.cidr, t.token, t.nickname, Owner);
  }

  lemma RekeysNow(s: System, step: Step)
    requires Enabled(s, step) && Rekeys(s, step)
    ensures Possible(s, [step]) && !NeverRekeys(s, [step])
  {
    assert [step][1..] == [];
  }

  lemma RekeysLater(s: System, step: Step, rest: seq<Step>)
    requires Enabled(s, step) && Possible(Apply(s, step), rest) && !NeverRekeys(Apply(s, step), rest)
    ensures Possible(s, [step] + rest) && !NeverRekeys(s, [step] + rest)
  {
    assert ([step] + rest)[1..] == rest;
  }

  lemma RoundLater(s: System, ask: Step, asked: System, serve: Step, r: System, rest: seq<Step>)
    requires Enabled(s, ask) && asked == Apply(s, ask) && Enabled(asked, serve) && r == Apply(asked, serve)
    requires Possible(r, rest) && !NeverRekeys(r, rest)
    ensures Possible(s, [ask] + ([serve] + rest)) && !NeverRekeys(s, [ask] + ([serve] + rest))
  {
    RekeysLater(asked, serve, rest);
    RekeysLater(s, ask, [serve] + rest);
  }

  /** The last two steps: a member registers another key while the other one stays. */
  lemma RekeyRound(s: System, a: NodeId, b: NodeId, key: PublicKey, t: Terms)
    requires Idle(s, a, b) && Members(s.room).Keys == {a, b} && key != KeyOf(s.keys, b)
    ensures var steps := [AskRegister(b, key)] + [Serve(b, t)]; Possible(s, steps) && !NeverRekeys(s, steps)
  {
    RegisterRound(s, a, b, b, key, t);
    var asked := Apply(s, AskRegister(b, key));
    assert Staying(asked, a);
    RekeysNow(asked, Serve(b, t));
    RekeysLater(s, AskRegister(b, key), [Serve(b, t)]);
  }

  lemma CreatedRun(s: System, a: NodeId, b: NodeId, key: PublicKey, t: Terms)
    requires Idle(s, a, b) && !s.known && a in s.keys && b in s.keys && key != s.keys[b]
    requires t.accept && Network(t.cidr) + 2 < Broadcast(t.cidr)
    ensures var steps := AfterRegistration(a, b, key, t);
            Possible(s, steps) && !NeverRekeys(s, steps)
  {
    var s1 := ServeCreate(s, a, t);
    CreatedAndJoined(s, a, b, t);
    JoinRound(s1, a, b, t);
    var s2 := ServeJoin(s1, b, t);
    var rest := [AskRegister(b, key)] + [Serve(b, t)];
    RekeyRound(s2, a, b, key, t);
    RoundLater(s1, AskJoin(b), Apply(s1, AskJoin(b)), Serve(b, t), s2, rest);
    RekeysLater(s, Create(a, t), [AskJoin(b)] + ([Serve(b, t)] + rest));
  }

  /** A member that registers another key after joining: the creator of the room keeps the old one. */
  lemma KeysGoStale(a: NodeId, b: NodeId, ka: PublicKey, kb: PublicKey, key: PublicKey, t: Terms)
    requires a != b && key != kb && t.accept && Network(t.cidr) + 2 < Broadcast(t.cidr)
    ensures var steps := StaleRun(a, b, ka, kb, key, t);
            Possible(Start({a, b}), steps) && !AlwaysKeysAgree(Start({a, b}), steps)
  {
    var s := Start({a, b});
    RegisterRound(s, a, b, a, ka, t);
    var s1 := ServeRegister(s, a, ka);
    RegisterRound(s1, a, b, b, kb, t);
    var s2 := ServeRegister(s1, b, kb);
    CreatedRun(s2, a, b, key, t);
    var rest := AfterRegistration(a, b, key, t);
    RoundLater(s1, AskRegister(b, kb), Apply(s1, AskRegister(b, kb)), Serve(b, t), s2, rest);
    var rest' := [AskRegister(b, kb)] + ([Serve(b, t)] + rest);
    RoundLater(s, AskRegister(a, ka), Apply(s, AskRegister(a, ka)), Serve(a, t), s1, rest');
    KeyRuns({a, b}, StaleRun(a, b, ka, kb, key, t));
  }

  // ---------- The edge's table, updated in place ----------

  /** The peers named by a list; a later entry for a node replaces an earlier one. */
  function AsView(list: seq<(NodeId, PeerInfo)>): (v: View) {
    if list == [] then map[] else AsView(list[..|list| - 1])[list[|list| - 1].0 := list[|list| - 1].1]
  }

  class EdgeObject {
    const self: NodeId
    var peers: View
    var inRoom: bool

    function State(): (e: Edge)
      reads this
    {
      Edge(peers, inRoom)
    }

    constructor (self: NodeId)
      ensures State() == OUTSIDE && this.self == self
    {
      this.self := self;
      peers, inRoom := map[], false;
    }

    /** The `PeerList` handler: upsert every listed peer but oneself, then prune the rest. */
    method HandlePeerList(list: seq<(NodeId, PeerInfo)>)
      modifies this
      ensures State() == Receive(self, old(State()), PeerList(AsView(list)))
    {
      var active: set<NodeId> := {};
      for i := 0 to |list|
        invariant active == AsView(list[..i]).Keys - {self}
        invariant active <= peers.Keys && forall n :: n in active ==> peers[n] == AsView(list[..i])[n]
        invariant inRoom == old(inRoom)
      {
        assert list[..i + 1][..i] == list[..i];
        var (node, info) := list[i];
        if node != self {
          active := active + {node};
          peers := peers[node := info];
        }
      }
      assert list[..|list|] == list;
      var stale := peers.Keys - active;
      peers := peers - stale;
    }

    /** The `PeerUpdate` handlers. */
    method HandlePeerUpdate(node: NodeId, info: Option<PeerInfo>)
      modifies this
      ensures State() == Receive(self, old(State()), if info.Some? then PeerAdd(node, info.value) else PeerRemove(node))
    {
      if info.None? {
        peers := peers - {node};
      } else if node != self {
        peers := peers[node := info.value];
      }
    }

    /** The effect of a successful `activate_room`, after a creation or a join. */
    method HandleActivation()
      modifies this
      ensures State() == Receive(self, old(State()), JoinAccept) == Receive(self, old(State()), RoomCreated)
    {
      inRoom := true;
    }

    /** The leave command with `deactivate_room`. */
    method Leave() returns (req: Request)
      modifies this
      ensures (State(), req) == LeaveCommand(old(State()))
    {
      req := if inRoom then LeaveRequest else LeaveZero;
      peers := map[];
      inRoom := false;
    }
  }
}
