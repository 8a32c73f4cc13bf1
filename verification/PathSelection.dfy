/** Path scoring and selection (`path.rs` in `r2n-dataplane`), with real arithmetic for `f32`. */
module PathSelection {
  import opened Common

  /** 5 seconds, in nanoseconds. */
  const RECENT: nat := 5_000_000_000

  datatype PathInfo = PathInfo(addr: SocketAddr, isRelay: bool, rtt: real, jitter: real, loss: real, lastSuccess: nat)

  /** The round trip assumed of a path before any sample. */
  function StartRtt(isRelay: bool): (rtt: real) {
    if isRelay then 100.0 else 200.0
  }

  function NewPath(addr: SocketAddr, isRelay: bool, now: nat): (p: PathInfo) {
    PathInfo(addr, isRelay, StartRtt(isRelay), 0.0, 0.0, now)
  }

  function Score(p: PathInfo): (s: real) {
    p.rtt + p.jitter * 2.0 + p.loss * 1000.0 + (if p.isRelay then 80.0 else 0.0)
  }

  function Abs(x: real): (r: real) {
    if x < 0.0 then -x else x
  }

  function UpdateRtt(p: PathInfo, sample: real, now: nat): (r: PathInfo) {
    var diff := sample - p.rtt;
    p.(rtt := p.rtt + 0.125 * diff, jitter := p.jitter + 0.125 * (Abs(diff) - p.jitter), lastSuccess := now)
  }

  function Succeeded(p: PathInfo, sample: real, now: nat): (r: PathInfo) {
    var q := UpdateRtt(p, sample, now);
    q.(loss := q.loss * 0.9 + 0.1 * 0.0)
  }

  function Failed(p: PathInfo): (r: PathInfo) {
    p.(loss := p.loss * 0.9 + 0.1 * 1.0)
  }

  /** The last success was less than 5 s ago. */
  predicate IsRecent(p: PathInfo, now: nat) {
    now < p.lastSuccess + RECENT
  }

  datatype Manager = Manager(paths: seq<PathInfo>, active: nat)

  function NewManager(relay: SocketAddr, now: nat): (m: Manager) {
    Manager([NewPath(relay, true, now)], 0)
  }

  /** The position of the first path with the address. */
  function Find(paths: seq<PathInfo>, addr: SocketAddr): (i: Option<nat>)
    ensures i.Some? ==> i.value < |paths| && paths[i.value].addr == addr
    ensures i.None? ==> forall k :: 0 <= k < |paths| ==> paths[k].addr != addr
  {
    if paths == [] then None
    else if paths[0].addr == addr then Some(0)
    else
      match Find(paths[1..], addr)
      case None => assert forall k :: 1 <= k < |paths| ==> paths[k] == paths[1..][k - 1]; None
      case Some(k) => Some(k + 1)
  }

  /** The best path: the lowest position among the recent paths of minimal score, or the first. */
  ghost predicate IsBest(paths: seq<PathInfo>, now: nat, best: nat) {
    if exists k :: 0 <= k < |paths| && IsRecent(paths[k], now) then
      && best < |paths| && IsRecent(paths[best], now)
      && (forall k :: 0 <= k < |paths| && IsRecent(paths[k], now) ==>
            Score(paths[best]) <= Score(paths[k]) && (k < best ==> Score(paths[best]) < Score(paths[k])))
    else best == 0
  }

  /** There is only one best path. */
  lemma BestIsUnique(paths: seq<PathInfo>, now: nat, a: nat, b: nat)
    requires IsBest(paths, now, a) && IsBest(paths, now, b)
    ensures a == b
  {
  }

  // ---------- Runs ----------

  datatype Op =
    | AddPath(addr: SocketAddr, isRelay: bool, now: nat)
    | RecordSuccess(addr: SocketAddr, sample: real, now: nat)
    | RecordFailure(addr: SocketAddr, now: nat)

  function Record(paths: seq<PathInfo>, op: Op): (r: seq<PathInfo>) {
    match Find(paths, op.addr)
    case None => if op.AddPath? then paths + [NewPath(op.addr, op.isRelay, op.now)] else paths
    case Some(i) =>
      match op
      case AddPath(_, _, _) => paths
      case RecordSuccess(_, sample, now) => paths[i := Succeeded(paths[i], sample, now)]
      case RecordFailure(_, _) => paths[i := Failed(paths[i])]
  }

  /** Adding a path leaves the choice alone; recording a result makes it anew (if there is a path). */
  ghost predicate Next(m: Manager, op: Op, r: Manager) {
    && r.paths == Record(m.paths, op)
    && (if op.AddPath? || m.paths == [] then r.active == m.active else IsBest(r.paths, op.now, r.active))
  }

  /** What is recorded determines the paths and the choice. */
  lemma NextIsUnique(m: Manager, op: Op, a: Manager, b: Manager)
    requires Next(m, op, a) && Next(m, op, b)
    ensures a == b
  {
    if !op.AddPath? && m.paths != [] {
      BestIsUnique(a.paths, op.now, a.active, b.active);
    }
  }

  ghost predicate Leads(states: seq<Manager>, ops: seq<Op>) {
    && |states| == |ops| + 1
    && forall i :: 0 <= i < |ops| ==> Next(states[i], ops[i], states[i + 1])
  }

  /** Hence two managers that start alike and see the same operations make the same choices. */
  lemma {:induction false} RunIsUnique(a: seq<Manager>, b: seq<Manager>, ops: seq<Op>)
    requires Leads(a, ops) && Leads(b, ops) && a[0] == b[0]
    ensures a == b
    decreases |ops|
  {
    if ops != [] {
      var n := |ops| - 1;
      RunIsUnique(a[..n + 1], b[..n + 1], ops[..n]);
      assert a[n] == a[..n + 1][n] == b[..n + 1][n] == b[n];
      NextIsUnique(a[n], ops[n], a[n + 1], b[n + 1]);
      assert a == a[..n + 1] + [a[n + 1]] && b == b[..n + 1] + [b[n + 1]];
    }
  }

  /**
   * The active position is valid, entry 0 is the relay, addresses differ, loss is a ratio and
   * jitter is not negative.
   */
  ghost predicate Inv(m: Manager, relay: SocketAddr) {
    && m.active < |m.paths|
    && m.paths[0].addr == relay && m.paths[0].isRelay
    && (forall i, j :: 0 <= i < j < |m.paths| ==> m.paths[i].addr != m.paths[j].addr)
    && (forall i :: 0 <= i < |m.paths| ==> 0.0 <= m.paths[i].loss <= 1.0 && 0.0 <= m.paths[i].jitter)
  }

  lemma StepInv(m: Manager, op: Op, r: Manager, relay: SocketAddr)
    requires Inv(m, relay) && Next(m, op, r)
    ensures Inv(r, relay)
  {
  }

  /** Over any operations on a new manager the invariant holds. */
  lemma {:induction false} RunInv(relay: SocketAddr, start: nat, states: seq<Manager>, ops: seq<Op>)
    requires Leads(states, ops) && states[0] == NewManager(relay, start)
    ensures Inv(states[|ops|], relay)
    decreases |ops|
  {
    if ops != [] {
      var n := |ops| - 1;
      RunInv(relay, start, states[..n + 1], ops[..n]);
      StepInv(states[n], ops[n], states[n + 1], relay);
    }
  }

  // ---------- The range of the estimates ----------

  /** An interval with the path's start value holds its round trip and is at least as wide as its jitter. */
  ghost predicate Within(p: PathInfo, lo: real, hi: real) {
    lo <= StartRtt(p.isRelay) <= hi ==> lo <= p.rtt <= hi && 0.0 <= p.jitter <= hi - lo
  }

  ghost predicate WithinAt(m: Manager, addr: SocketAddr, lo: real, hi: real) {
    forall i :: 0 <= i < |m.paths| && m.paths[i].addr == addr ==> Within(m.paths[i], lo, hi)
  }

  /** If the operation records a sample of the path with that address, it is in the interval. */
  ghost predicate SampleIn(m: Manager, op: Op, addr: SocketAddr, lo: real, hi: real) {
    op.RecordSuccess? && op.addr == addr && Find(m.paths, addr).Some? ==> lo <= op.sample <= hi
  }

  /** A moving average stays between its old value and the sample, which are no farther apart than the ends. */
  lemma AverageBetween(before: real, sample: real, lo: real, hi: real)
    requires lo <= before <= hi && lo <= sample <= hi
    ensures lo <= before + 0.125 * (sample - before) <= hi
    ensures 0.0 <= Abs(sample - before) <= hi - lo
  {
  }

  lemma SucceededWithin(p: PathInfo, sample: real, now: nat, lo: real, hi: real)
    requires Within(p, lo, hi) && lo <= sample <= hi
    ensures Within(Succeeded(p, sample, now), lo, hi)
  {
    if lo <= StartRtt(p.isRelay) <= hi {
      AverageBetween(p.rtt, sample, lo, hi);
      AverageBetween(p.jitter, Abs(sample - p.rtt), 0.0, hi - lo);
    }
  }

  lemma StepWithin(m: Manager, op: Op, r: Manager, addr: SocketAddr, lo: real, hi: real)
    requires WithinAt(m, addr, lo, hi) && Next(m, op, r) && SampleIn(m, op, addr, lo, hi)
    ensures WithinAt(r, addr, lo, hi)
  {
    var found := Find(m.paths, op.addr);
    if found.Some? && op.RecordSuccess? && op.addr == addr {
      SucceededWithin(m.paths[found.value], op.sample, op.now, lo, hi);
    }
  }

  /**
   * Over any operations, the round trip of a path stays in every interval that holds its own
   * start value and the samples recorded for it, and its jitter never exceeds the interval's width.
   */
  lemma {:induction false} RunWithin(relay: SocketAddr, start: nat, states: seq<Manager>, ops: seq<Op>,
                                     addr: SocketAddr, lo: real, hi: real)
    requires Leads(states, ops) && states[0] == NewManager(relay, start)
    requires forall i :: 0 <= i < |ops| ==> SampleIn(states[i], ops[i], addr, lo, hi)
    ensures WithinAt(states[|ops|], addr, lo, hi)
    decreases |ops|
  {
    if ops != [] {
      var n := |ops| - 1;
      RunWithin(relay, start, states[..n + 1], ops[..n], addr, lo, hi);
      StepWithin(states[n], ops[n], states[n + 1], addr, lo, hi);
    }
  }

  // ---------- The manager, updated in place ----------

  class PathManager {
    var paths: seq<PathInfo>
    var activeIndex: nat

    function View(): (m: Manager)
      reads this
    {
      Manager(paths, activeIndex)
    }

    constructor (relay: SocketAddr, now: nat)
      ensures View() == NewManager(relay, now)
    {
      paths, activeIndex := [NewPath(relay, true, now)], 0;
    }

    method Position(addr: SocketAddr) returns (i: Option<nat>)
      ensures i == Find(paths, addr)
    {
      var k := 0;
      while k < |paths|
        invariant 0 <= k <= |paths|
        invariant Find(paths, addr) == var f := Find(paths[k..], addr); if f.Some? then Some(k + f.value) else None
      {
        if paths[k].addr == addr {
          return Some(k);
        }
        assert paths[k..][1..] == paths[k + 1..];
        k := k + 1;
      }
      return None;
    }

    method AddOrUpdatePath(addr: SocketAddr, isRelay: bool, now: nat) returns (pos: nat)
      modifies this
      ensures Next(old(View()), AddPath(addr, isRelay, now), View())
      ensures pos < |paths| && paths[pos].addr == addr
    {
      var found := Position(addr);
      if found.Some? {
        return found.value;
      }
      paths := paths + [NewPath(addr, isRelay, now)];
      return |paths| - 1;
    }

    method RecordSuccessOn(addr: SocketAddr, sample: real, now: nat)
      modifies this
      ensures Next(old(View()), RecordSuccess(addr, sample, now), View())
    {
      var found := Position(addr);
      if found.Some? {
        paths := paths[found.value := Succeeded(paths[found.value], sample, now)];
      }
      Reevaluate(now);
    }

    method RecordFailureOn(addr: SocketAddr, now: nat)
      modifies this
      ensures Next(old(View()), RecordFailure(addr, now), View())
    {
      var found := Position(addr);
      if found.Some? {
        paths := paths[found.value := Failed(paths[found.value])];
      }
      Reevaluate(now);
    }

    /** One pass that keeps the first strictly smaller score; `None` stands for `f32::MAX`. */
    method Reevaluate(now: nat)
      modifies this`activeIndex
      ensures IsBest(paths, now, activeIndex) || paths == []
      ensures paths == [] ==> activeIndex == old(activeIndex)
    {
      if paths == [] {
        return;
      }
      var best, bestScore := 0, None;
      var i := 0;
      while i < |paths|
        invariant 0 <= i <= |paths|
        invariant IsBest(paths[..i], now, best)
        invariant bestScore.None? <==> !exists k :: 0 <= k < i && IsRecent(paths[k], now)
        invariant bestScore.Some? ==> best < i && IsRecent(paths[best], now) && bestScore.value == Score(paths[best])
      {
        ghost var before := paths[..i];
        assert forall k :: 0 <= k < i ==> paths[..i + 1][k] == before[k] == paths[k];
        if IsRecent(paths[i], now) {
          var score := Score(paths[i]);
          if bestScore.None? || score < bestScore.value {
            best, bestScore := i, Some(score);
          }
        }
        i := i + 1;
      }
      assert paths[..i] == paths;
      activeIndex := best;
    }
  }
}
