/** A room's members and address leases (`Room` in `r2n-room`). */
module Rooms {
  import opened Bytes
  import opened Common
  import opened Ipv4Net

  datatype Role = Owner | Admin | Guest

  datatype Member = Member(ip: u32, nickname: string, role: Role)

  datatype Room = Room(owner: NodeId, cidr: Cidr, token: string, members: map<NodeId, Member>, leases: map<NodeId, u32>)

  function NewRoom(owner: NodeId, cidr: Cidr, token: string): (r: Room) {
    Room(owner, cidr, token, map[], map[])
  }

  // ---------- Choosing an address ----------

  function SaturatingAdd(a: u32, b: nat): (c: u32) {
    if a + b < 0x1_0000_0000 then a + b else 0xFFFF_FFFF
  }

  function PreferredHost(role: Role): (h: nat) {
    if role == Owner then 1 else 2
  }

  /** The addresses of members and of everyone who ever had one. */
  function Used(members: map<NodeId, Member>, leases: map<NodeId, u32>): (s: set<u32>) {
    (set n | n in members :: members[n].ip) + leases.Values
  }

  /** The search for the first unused host address from `host` on. */
  function FirstFree(cidr: Cidr, used: set<u32>, host: nat): (r: Option<u32>)
    decreases Broadcast(cidr) - Network(cidr) - host
  {
    var candidate := SaturatingAdd(Network(cidr), host);
    if candidate >= Broadcast(cidr) then None
    else if candidate !in used then Some(candidate)
    else FirstFree(cidr, used, host + 1)
  }

  /** It yields the lowest unused address before the broadcast address, or there is none. */
  lemma {:induction false} FirstFreeIsLowest(cidr: Cidr, used: set<u32>, host: nat)
    ensures var r := FirstFree(cidr, used, host); var end: int := if r.Some? then r.value else Broadcast(cidr);
            && (r.Some? ==> Network(cidr) + host <= r.value < Broadcast(cidr) && r.value !in used)
            && (forall x :: Network(cidr) + host <= x < end ==> x in used)
    decreases Broadcast(cidr) - Network(cidr) - host
  {
    var candidate := SaturatingAdd(Network(cidr), host);
    if candidate < Broadcast(cidr) && candidate in used {
      FirstFreeIsLowest(cidr, used, host + 1);
    }
  }

  /** Someone else is using the address. */
  predicate Conflict(members: map<NodeId, Member>, node: NodeId, ip: u32) {
    exists other :: other in members && other != node && members[other].ip == ip
  }

  /** `allocate_ip`: an earlier lease is reused unless another member holds its address. */
  function AllocateIp(r: Room, node: NodeId, role: Role): (ip: Option<u32>) {
    if node in r.leases && !Conflict(r.members, node, r.leases[node]) then Some(r.leases[node])
    else FirstFree(r.cidr, Used(r.members, r.leases), PreferredHost(role))
  }

  /** `add_or_reuse_member`: the room afterwards, and the address unless none was left. */
  function AddOrReuse(r: Room, node: NodeId, nickname: string, role: Role): (v: (Room, Option<u32>)) {
    match AllocateIp(r, node, role)
    case None => (r, None)
    case Some(ip) =>
      (r.(members := r.members[node := Member(ip, nickname, role)], leases := r.leases[node := ip]), Some(ip))
  }

  function Remove(r: Room, node: NodeId): (v: Room) {
    r.(members := r.members - {node})
  }

  // ---------- The invariant ----------

  /** Leases are injective host addresses of the room's network, and members hold their leases. */
  ghost predicate Inv(r: Room) {
    && (forall n :: n in r.leases ==> Network(r.cidr) < r.leases[n] < Broadcast(r.cidr))
    && (forall a, b :: a in r.leases && b in r.leases && a != b ==> r.leases[a] != r.leases[b])
    && (forall n :: n in r.members ==> n in r.leases && r.members[n].ip == r.leases[n])
  }

  lemma UsedIsLeased(r: Room)
    requires Inv(r)
    ensures Used(r.members, r.leases) == r.leases.Values
  {
  }

  /** A node that has a lease gets it again: the fallback search is never needed for it. */
  lemma LeaseIsReused(r: Room, node: NodeId, role: Role)
    requires Inv(r) && node in r.leases
    ensures AllocateIp(r, node, role) == Some(r.leases[node])
  {
  }

  /** Any address that is a free host, or the node's own lease, can be given to it. */
  lemma RecordLease(r: Room, node: NodeId, m: Member)
    requires Inv(r) && Network(r.cidr) < m.ip < Broadcast(r.cidr)
    requires if node in r.leases then m.ip == r.leases[node] else m.ip !in r.leases.Values
    ensures Inv(r.(members := r.members[node := m], leases := r.leases[node := m.ip]))
  {
    assert forall n :: n in r.leases && n != node ==> r.leases[n] in r.leases.Values && r.leases[n] != m.ip;
  }

  /** The address that `allocate_ip` finds, or why it finds none. */
  lemma AllocateIpSound(r: Room, node: NodeId, role: Role)
    requires Inv(r)
    ensures var ip := AllocateIp(r, node, role);
            && (ip.Some? ==>
                  && Network(r.cidr) < ip.value < Broadcast(r.cidr)
                  && (if node in r.leases then ip.value == r.leases[node] else ip.value !in r.leases.Values))
            && (ip.None? <==> node !in r.leases && Full(r, role))
  {
    UsedIsLeased(r);
    if node in r.leases {
      LeaseIsReused(r, node, role);
    } else {
      FirstFreeIsLowest(r.cidr, r.leases.Values, PreferredHost(role));
    }
  }

  /** Every host address from the role's first one on is leased. */
  ghost predicate Full(r: Room, role: Role) {
    forall x :: Network(r.cidr) + PreferredHost(role) <= x < Broadcast(r.cidr) ==> x in r.leases.Values
  }

  /**
   * Adding keeps the invariant and every earlier lease. It fails only for a node without a
   * lease, and only when every host from the role's first one on is leased.
   */
  lemma AddSound(r: Room, node: NodeId, nickname: string, role: Role)
    requires Inv(r)
    ensures var (q, ip) := AddOrReuse(r, node, nickname, role);
            && Inv(q)
            && (forall n :: n in r.leases ==> n in q.leases && q.leases[n] == r.leases[n])
            && (ip.None? <==> node !in r.leases && Full(r, role))
  {
    AllocateIpSound(r, node, role);
    var ip := AllocateIp(r, node, role);
    if ip.Some? {
      RecordLease(r, node, Member(ip.value, nickname, role));
    }
  }

  // ---------- Runs ----------

  datatype Op = Add(node: NodeId, nickname: string, role: Role) | Leave(node: NodeId)

  function Apply(r: Room, op: Op): (q: Room) {
    match op
    case Add(node, nickname, role) => AddOrReuse(r, node, nickname, role).0
    case Leave(node) => Remove(r, node)
  }

  function Run(r: Room, ops: seq<Op>): (q: Room)
    decreases |ops|
  {
    if ops == [] then r else Run(Apply(r, ops[0]), ops[1..])
  }

  /** Over any joins and departures the invariant holds and no lease ever changes. */
  lemma {:induction false} LeasesStable(r: Room, ops: seq<Op>)
    requires Inv(r)
    ensures var q := Run(r, ops);
            && Inv(q) && q.cidr == r.cidr
            && (forall n :: n in r.leases ==> n in q.leases && q.leases[n] == r.leases[n])
    decreases |ops|
  {
    if ops != [] {
      match ops[0] {
        case Add(node, nickname, role) => AddSound(r, node, nickname, role);
        case Leave(node) =>
      }
      LeasesStable(Apply(r, ops[0]), ops[1..]);
    }
  }

  /** A member who leaves and returns, whatever happens in between, gets the same address. */
  lemma ReturningMember(r: Room, node: NodeId, ops: seq<Op>, nickname: string, role: Role)
    requires Inv(r) && node in r.members
    ensures AddOrReuse(Run(Remove(r, node), ops), node, nickname, role).1 == Some(r.members[node].ip)
  {
    LeasesStable(Remove(r, node), ops);
    LeaseIsReused(Run(Remove(r, node), ops), node, role);
  }

  // ---------- The room, updated in place ----------

  class RoomObject {
    const owner: NodeId
    const cidr: Cidr
    const token: string
    var members: map<NodeId, Member>
    var leases: map<NodeId, u32>

    function View(): (r: Room)
      reads this
    {
      Room(owner, cidr, token, members, leases)
    }

    constructor (owner: NodeId, cidr: Cidr, token: string)
      ensures View() == NewRoom(owner, cidr, token)
    {
      this.owner, this.cidr, this.token := owner, cidr, token;
      members, leases := map[], map[];
    }

    method Allocate(node: NodeId, role: Role) returns (ip: Option<u32>)
      modifies this`leases
      ensures ip == AllocateIp(old(View()), node, role)
      ensures leases == if ip.Some? then old(leases)[node := ip.value] else old(leases)
    {
      if node in leases && !Conflict(members, node, leases[node]) {
        return Some(leases[node]);
      }
      var used := Used(members, leases);
      var host := PreferredHost(role);
      while SaturatingAdd(Network(cidr), host) < Broadcast(cidr)
        invariant FirstFree(cidr, used, host) == FirstFree(cidr, used, PreferredHost(role))
        invariant leases == old(leases)
        decreases Broadcast(cidr) - Network(cidr) - host
      {
        var candidate := SaturatingAdd(Network(cidr), host);
        if candidate !in used {
          leases := leases[node := candidate];
          return Some(candidate);
        }
        host := host + 1;
      }
      return None;
    }

    method AddOrReuseMember(node: NodeId, nickname: string, role: Role) returns (ip: Option<u32>)
      modifies this
      ensures (View(), ip) == AddOrReuse(old(View()), node, nickname, role)
    {
      ip := Allocate(node, role);
      if ip.Some? {
        assert leases[node := ip.value] == old(leases)[node := ip.value];
        leases := leases[node := ip.value];
        members := members[node := Member(ip.value, nickname, role)];
      }
    }

    method RemoveMember(node: NodeId)
      modifies this
      ensures View() == Remove(old(View()), node)
    {
      members := members - {node};
    }
  }
}
