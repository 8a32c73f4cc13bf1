/** The supernode's pool of room subnets (`RoomAddressPool` in `r2n-room`). */
module AddressPool {
  import opened Finite
  import opened Common
  import opened Ipv4Net

  datatype Result<T> = Ok(value: T) | Exhausted | InvalidPool

  /** A pool and the prefix length of the subnets it is cut into. */
  datatype RawPlan = Plan(net: Cidr, roomPrefix: nat)

  type Plan = p: RawPlan | p.net.prefix <= p.roomPrefix <= 30 witness Plan(Net(0, 0), 0)

  datatype Pool = Pool(plan: Plan, allocations: map<RoomId, Cidr>)

  /** `RoomAddressPool::new`. */
  function NewPool(net: Cidr, roomPrefix: nat): (r: Result<Pool>) {
    if roomPrefix < net.prefix || roomPrefix > 30 then InvalidPool else Ok(Pool(Plan(net, roomPrefix), map[]))
  }

  function RoomCount(p: Plan): (n: nat) {
    Pow2(p.roomPrefix - p.net.prefix)
  }

  /** `checked_shl(32 - room_prefix)`: a shift by the full width yields zero. */
  function SubnetStep(p: Plan): (n: nat) {
    if p.roomPrefix == 0 then 0 else Size(p.roomPrefix)
  }

  // ---------- The candidates ----------

  lemma PoolLayout(p: Plan)
    ensures Size(p.net.prefix) == Size(p.roomPrefix) * RoomCount(p)
  {
    Pow2Add(32 - p.roomPrefix, p.roomPrefix - p.net.prefix);
  }

  lemma StepIsSize(p: Plan, index: nat)
    requires index < RoomCount(p)
    ensures index * SubnetStep(p) == Size(p.roomPrefix) * index
  {
  }

  /** The address arithmetic of the search stays inside the pool, hence inside 32 bits. */
  lemma CandidateFits(p: Plan, index: nat)
    requires index < RoomCount(p)
    ensures Network(p.net) + index * SubnetStep(p) + Size(p.roomPrefix) <= Network(p.net) + Size(p.net.prefix)
    ensures Network(p.net) + Size(p.net.prefix) <= 0x1_0000_0000
    ensures 0 <= Network(p.net) + index * SubnetStep(p) < 0x1_0000_0000
  {
    StepIsSize(p, index);
    PoolLayout(p);
    BlockInside(Size(p.roomPrefix), RoomCount(p), index);
    NetworkFits(p.net);
  }

  /** The `index`-th subnet of the pool. */
  function Candidate(p: Plan, index: nat): (c: Cidr)
    requires index < RoomCount(p)
  {
    CandidateFits(p, index);
    Net(Network(p.net) + index * SubnetStep(p), p.roomPrefix)
  }

  lemma MulAssoc(size: nat, count: nat, q: nat, index: nat)
    ensures (size * count) * q + size * index == size * (count * q + index)
  {
  }

  /** Candidates are aligned: their address is the first of their network. */
  lemma CandidateAligned(p: Plan, index: nat)
    requires index < RoomCount(p)
    ensures Network(Candidate(p, index)) == Network(p.net) + Size(p.roomPrefix) * index
  {
    var size, count, q := Size(p.roomPrefix), RoomCount(p), p.net.addr / Size(p.net.prefix);
    CandidateFits(p, index);
    StepIsSize(p, index);
    PoolLayout(p);
    MulAssoc(size, count, q, index);
    AlignedNetwork(count * q + index, p.roomPrefix);
  }

  /** Candidates lie inside the pool. */
  lemma CandidateInside(p: Plan, index: nat)
    requires index < RoomCount(p)
    ensures var c := Candidate(p, index);
            Network(p.net) <= Network(c) == c.addr && Broadcast(c) <= Broadcast(p.net)
  {
    CandidateAligned(p, index);
    CandidateFits(p, index);
    StepIsSize(p, index);
  }

  /** Different candidates share no address. */
  lemma CandidatesDisjoint(p: Plan, i: nat, j: nat)
    requires i < j < RoomCount(p)
    ensures !Overlap(Candidate(p, i), Candidate(p, j)) && !Overlap(Candidate(p, j), Candidate(p, i))
  {
    CandidateAligned(p, i);
    CandidateAligned(p, j);
    BlockInside(Size(p.roomPrefix), j, i);
  }

  // ---------- The order of the search ----------

  function Span(from: nat, to: nat): (s: seq<nat>)
    requires from <= to
    ensures |s| == to - from && forall i :: 0 <= i < |s| ==> s[i] == from + i
  {
    seq(to - from, i => from + i)
  }

  /** `candidate_indices`: the default pool is searched in a preferred order. */
  function CandidateIndices(p: Plan): (s: seq<nat>) {
    if Network(p.net) == 0xC0A8_0000 && p.net.prefix == 16 && p.roomPrefix == 24 && RoomCount(p) == 256
    then Span(200, 256) + Span(4, 31) + Span(32, 200) + [0, 1, 2, 3, 31]
    else Span(0, RoomCount(p))
  }

  /** Whatever the order, it is a permutation of all the pool's subnets. */
  lemma IndicesArePermutation(p: Plan)
    ensures var s := CandidateIndices(p);
            |s| == RoomCount(p) && Distinct(s) && forall k: nat :: k in s <==> k < RoomCount(p)
  {
    var s := CandidateIndices(p);
    if s != Span(0, RoomCount(p)) {
      forall i | 0 <= i < 256
        ensures s[i] == if i < 56 then 200 + i else if i < 83 then i - 52 else if i < 251 then i - 51
                        else if i < 255 then i - 251 else 31
      {
      }
    }
    DistinctBelow(s, RoomCount(p));
  }

  // ---------- Allocation ----------

  predicate Blocked(avoid: seq<Cidr>, c: Cidr) {
    exists n :: n in avoid && Overlap(n, c)
  }

  /** Neither given to a room nor overlapping a network to be avoided. */
  predicate Usable(p: Pool, avoid: seq<Cidr>, c: Cidr) {
    c !in p.allocations.Values && !Blocked(avoid, c)
  }

  /** The first usable network of a list. */
  function Search(p: Pool, avoid: seq<Cidr>, cs: seq<Cidr>): (r: Option<Cidr>)
    ensures r.Some? ==> r.value in cs && Usable(p, avoid, r.value)
    ensures r.None? ==> forall c :: c in cs ==> !Usable(p, avoid, c)
  {
    if cs == [] then None
    else if Usable(p, avoid, cs[0]) then Some(cs[0])
    else Search(p, avoid, cs[1..])
  }

  lemma IndexInRange(p: Plan, i: nat)
    requires i < |CandidateIndices(p)|
    ensures CandidateIndices(p)[i] < RoomCount(p)
  {
    IndicesArePermutation(p);
    assert CandidateIndices(p)[i] in CandidateIndices(p);
  }

  function NthCandidate(p: Plan, i: nat): (c: Cidr)
    requires i < |CandidateIndices(p)|
  {
    IndexInRange(p, i);
    Candidate(p, CandidateIndices(p)[i])
  }

  /** The pool's subnets in the order in which they are tried. */
  function Candidates(p: Plan): (cs: seq<Cidr>)
    ensures |cs| == |CandidateIndices(p)|
    ensures forall i :: 0 <= i < |cs| ==> cs[i] == NthCandidate(p, i)
  {
    seq(|CandidateIndices(p)|, i requires 0 <= i < |CandidateIndices(p)| => NthCandidate(p, i))
  }

  /** No subnet of the pool is left out of the search, and nothing else is in it. */
  lemma CandidateListed(p: Plan, c: Cidr)
    ensures c in Candidates(p) <==> IsCandidate(p, c)
  {
    if c in Candidates(p) {
      var i :| 0 <= i < |Candidates(p)| && Candidates(p)[i] == c;
      IndexInRange(p, i);
      assert c == Candidate(p, CandidateIndices(p)[i]);
    }
    if IsCandidate(p, c) {
      var k: nat :| k < RoomCount(p) && c == Candidate(p, k);
      IndicesArePermutation(p);
      assert k in CandidateIndices(p);
      var i :| 0 <= i < |CandidateIndices(p)| && CandidateIndices(p)[i] == k;
      assert Candidates(p)[i] == NthCandidate(p, i) == c;
    }
  }

  /** `allocate_with_avoidance`: a room that already has a subnet keeps it. */
  function Allocate(p: Pool, room: RoomId, avoid: seq<Cidr>): (r: (Pool, Result<Cidr>))
    ensures r.0.plan == p.plan
  {
    if room in p.allocations then (p, Ok(p.allocations[room]))
    else
      match Search(p, avoid, Candidates(p.plan))
      case None => (p, Exhausted)
      case Some(c) => (p.(allocations := p.allocations[room := c]), Ok(c))
  }

  function Release(p: Pool, room: RoomId): (r: Pool) {
    p.(allocations := p.allocations - {room})
  }

  ghost predicate IsCandidate(p: Plan, c: Cidr) {
    exists i: nat :: i < RoomCount(p) && c == Candidate(p, i)
  }

  /** Every allocation is one of the pool's subnets, and no two rooms have the same one. */
  ghost predicate Inv(p: Pool) {
    && (forall r :: r in p.allocations ==> IsCandidate(p.plan, p.allocations[r]))
    && (forall a, b :: a in p.allocations && b in p.allocations && a != b ==> p.allocations[a] != p.allocations[b])
  }

  /** Rooms with different allocations have disjoint subnets. */
  lemma AllocationsDisjoint(p: Pool, a: RoomId, b: RoomId)
    requires Inv(p) && a in p.allocations && b in p.allocations && a != b
    ensures !Overlap(p.allocations[a], p.allocations[b])
  {
    var i: nat :| i < RoomCount(p.plan) && p.allocations[a] == Candidate(p.plan, i);
    var j: nat :| j < RoomCount(p.plan) && p.allocations[b] == Candidate(p.plan, j);
    if i < j {
      CandidatesDisjoint(p.plan, i, j);
    } else {
      CandidatesDisjoint(p.plan, j, i);
    }
  }

  /** Recording a new candidate keeps the pool sound. */
  lemma RecordSound(p: Pool, room: RoomId, c: Cidr)
    requires Inv(p) && IsCandidate(p.plan, c) && c !in p.allocations.Values
    ensures Inv(p.(allocations := p.allocations[room := c]))
  {
  }

  /** A new allocation is fresh, avoids every network it was asked to avoid, and keeps the pool sound. */
  lemma AllocateSound(p: Pool, room: RoomId, avoid: seq<Cidr>)
    requires Inv(p)
    ensures var (q, r) := Allocate(p, room, avoid);
            && Inv(q)
            && (r.Ok? ==> q.allocations == p.allocations[room := r.value] && IsCandidate(p.plan, r.value))
            && (r.Ok? && room !in p.allocations ==> Usable(p, avoid, r.value))
            && (!r.Ok? ==> r == Exhausted && q == p)
  {
    var (q, r) := Allocate(p, room, avoid);
    if room in p.allocations {
      assert p.allocations[room := r.value] == p.allocations;
    } else if r.Ok? {
      CandidateListed(p.plan, r.value);
      RecordSound(p, room, r.value);
    }
  }

  /** Exhaustion is reported exactly when every subnet of the pool is taken or blocked. */
  lemma AllocateComplete(p: Pool, room: RoomId, avoid: seq<Cidr>)
    ensures Allocate(p, room, avoid).1.Exhausted? <==>
            room !in p.allocations && forall c :: IsCandidate(p.plan, c) ==> !Usable(p, avoid, c)
  {
    forall c: Cidr ensures c in Candidates(p.plan) <==> IsCandidate(p.plan, c) {
      CandidateListed(p.plan, c);
    }
  }

  // ---------- Runs ----------

  datatype Op = AllocateOp(room: RoomId, avoid: seq<Cidr>) | ReleaseOp(room: RoomId)

  function Apply(p: Pool, op: Op): (q: Pool) {
    match op
    case AllocateOp(room, avoid) => Allocate(p, room, avoid).0
    case ReleaseOp(room) => Release(p, room)
  }

  function Run(p: Pool, ops: seq<Op>): (q: Pool)
    decreases |ops|
  {
    if ops == [] then p else Run(Apply(p, ops[0]), ops[1..])
  }

  lemma {:induction false} RunSound(p: Pool, ops: seq<Op>)
    requires Inv(p)
    ensures Inv(Run(p, ops)) && Run(p, ops).plan == p.plan
    decreases |ops|
  {
    if ops != [] {
      match ops[0] {
        case AllocateOp(room, avoid) => AllocateSound(p, room, avoid);
        case ReleaseOp(room) =>
      }
      RunSound(Apply(p, ops[0]), ops[1..]);
    }
  }

  /** After any operations on a new pool, allocated subnets are aligned, inside it and disjoint. */
  lemma PoolRuns(net: Cidr, roomPrefix: nat, ops: seq<Op>, a: RoomId)
    requires NewPool(net, roomPrefix).Ok?
    ensures var q := Run(NewPool(net, roomPrefix).value, ops);
            a in q.allocations ==>
              var c := q.allocations[a];
              && Network(net) <= Network(c) == c.addr && Broadcast(c) <= Broadcast(net)
              && (forall b :: b in q.allocations && b != a ==> !Overlap(c, q.allocations[b]))
  {
    var p := NewPool(net, roomPrefix).value;
    var q := Run(p, ops);
    RunSound(p, ops);
    if a in q.allocations {
      var i: nat :| i < RoomCount(q.plan) && q.allocations[a] == Candidate(q.plan, i);
      CandidateInside(q.plan, i);
      forall b | b in q.allocations && b != a ensures !Overlap(q.allocations[a], q.allocations[b]) {
        AllocationsDisjoint(q, a, b);
      }
    }
  }

  // ---------- The pool, updated in place ----------

  class RoomAddressPool {
    const plan: Plan
    var allocations: map<RoomId, Cidr>

    function View(): (p: Pool)
      reads this
    {
      Pool(plan, allocations)
    }

    constructor (plan: Plan)
      ensures View() == Pool(plan, map[])
    {
      this.plan := plan;
      allocations := map[];
    }

    method AllocateWithAvoidance(room: RoomId, avoid: seq<Cidr>) returns (r: Result<Cidr>)
      modifies this
      ensures (View(), r) == Allocate(old(View()), room, avoid)
    {
      if room in allocations {
        return Ok(allocations[room]);
      }
      var candidates := Candidates(plan);
      ghost var p := View();
      var i := 0;
      while i < |candidates|
        invariant 0 <= i <= |candidates|
        invariant Search(p, avoid, candidates) == Search(p, avoid, candidates[i..])
        invariant allocations == old(allocations)
      {
        assert candidates[i..][1..] == candidates[i + 1..];
        var candidate := candidates[i];
        if candidate !in allocations.Values && !Blocked(avoid, candidate) {
          allocations := allocations[room := candidate];
          return Ok(candidate);
        }
        i := i + 1;
      }
      return Exhausted;
    }

    method ReleaseRoom(room: RoomId)
      modifies this
      ensures View() == Release(old(View()), room)
    {
      allocations := allocations - {room};
    }
  }
}
