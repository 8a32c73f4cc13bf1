/** The layer-2 learning switch of the dataplane (`r2n-dataplane`). */
module Switch {
  import opened Bytes
  import opened Common
  import opened Finite

  type Mac = m: seq<u8> | |m| == 6 witness [0, 0, 0, 0, 0, 0]

  const MAX_ENTRIES: nat := 4096
  /** 300 seconds, in nanoseconds. */
  const MAX_AGE: nat := 300_000_000_000

  datatype Entry = Entry(node: NodeId, learnedAt: nat, lastSeen: nat)

  datatype State = State(peers: set<NodeId>, table: map<Mac, Entry>)

  predicate Live(e: Entry, now: nat) {
    now <= e.lastSeen + MAX_AGE
  }

  function Prune(table: map<Mac, Entry>, now: nat): (r: map<Mac, Entry>) {
    map m | m in table && Live(table[m], now) :: table[m]
  }

  /** The entry for a MAC is moved to the node it was last seen behind. */
  function Note(table: map<Mac, Entry>, mac: Mac, node: NodeId, now: nat): (r: map<Mac, Entry>) {
    table[mac := if mac in table then table[mac].(node := node, lastSeen := now) else Entry(node, now, now)]
  }

  predicate IsOldest(table: map<Mac, Entry>, mac: Mac) {
    mac in table && forall m :: m in table ==> table[mac].lastSeen <= table[m].lastSeen
  }

  /** `learn_mac`: prune, note, and above capacity evict a `victim` that was seen least recently. */
  ghost predicate Learned(table: map<Mac, Entry>, mac: Mac, node: NodeId, now: nat, victim: Option<Mac>,
                          r: map<Mac, Entry>)
  {
    var noted := Note(Prune(table, now), mac, node, now);
    if |noted| <= MAX_ENTRIES then victim.None? && r == noted
    else victim.Some? && IsOldest(noted, victim.value) && r == noted - {victim.value}
  }

  datatype Step =
    | Learn(mac: Mac, node: NodeId, now: nat, victim: Option<Mac>)
    | Age(now: nat)
    | Upsert(node: NodeId)
    | RemovePeer(node: NodeId)
    | ClearPeers

  ghost predicate Next(s: State, step: Step, r: State) {
    match step
    case Learn(mac, node, now, victim) => r.peers == s.peers && Learned(s.table, mac, node, now, victim, r.table)
    case Age(now) => r == s.(table := Prune(s.table, now))
    case Upsert(node) => r == s.(peers := s.peers + {node})
    case RemovePeer(node) => r == State(s.peers - {node}, map m | m in s.table && s.table[m].node != node :: s.table[m])
    case ClearPeers => r == State({}, map[])
  }

  // ---------- The table within its capacity ----------

  lemma SubmapCount(a: map<Mac, Entry>, b: map<Mac, Entry>)
    requires a.Keys <= b.Keys
    ensures |a| <= |b|
  {
    SubsetCount(a.Keys, b.Keys);
    assert |a| == |a.Keys| && |b| == |b.Keys|;
  }

  lemma NoteCount(table: map<Mac, Entry>, mac: Mac, node: NodeId, now: nat)
    ensures |Note(table, mac, node, now)| <= |table| + 1
  {
    var r := Note(table, mac, node, now);
    assert r.Keys == table.Keys + {mac};
    assert |r| == |r.Keys| && |table| == |table.Keys|;
  }

  lemma LearnBounded(table: map<Mac, Entry>, mac: Mac, node: NodeId, now: nat, victim: Option<Mac>, r: map<Mac, Entry>)
    requires |table| <= MAX_ENTRIES && Learned(table, mac, node, now, victim, r)
    ensures |r| <= MAX_ENTRIES
  {
    var pruned := Prune(table, now);
    SubmapCount(pruned, table);
    NoteCount(pruned, mac, node, now);
    var noted := Note(pruned, mac, node, now);
    if |noted| > MAX_ENTRIES {
      assert r.Keys == noted.Keys - {victim.value};
      assert |r| == |r.Keys| && |noted| == |noted.Keys|;
    }
  }

  lemma StepBounded(s: State, step: Step, r: State)
    requires |s.table| <= MAX_ENTRIES && Next(s, step, r)
    ensures |r.table| <= MAX_ENTRIES
  {
    match step
    case Learn(mac, node, now, victim) => LearnBounded(s.table, mac, node, now, victim, r.table);
    case Age(now) => SubmapCount(r.table, s.table);
    case Upsert(node) =>
    case RemovePeer(node) => SubmapCount(r.table, s.table);
    case ClearPeers =>
  }

  // ---------- Entries and peers ----------

  /** Every entry names a current peer. */
  ghost predicate Current(s: State) {
    forall m :: m in s.table ==> s.table[m].node in s.peers
  }

  /** A MAC is learned for a node that is no longer a peer (and is not evicted at once). */
  ghost predicate Late(s: State, step: Step) {
    step.Learn? && step.node !in s.peers && step.victim != Some(step.mac)
  }

  /** A step keeps the table current unless it learns late; then it never does. */
  lemma CurrentUnlessLate(s: State, step: Step, r: State)
    requires Current(s) && Next(s, step, r)
    ensures Current(r) <==> !Late(s, step)
  {
    if step.Learn? {
      var noted := Note(Prune(s.table, step.now), step.mac, step.node, step.now);
      assert step.mac in noted && noted[step.mac].node == step.node;
      if Late(s, step) {
        assert step.mac in r.table && r.table[step.mac].node == step.node;
      }
    }
  }

  // ---------- Runs ----------

  /**
   * `looked` are the nodes whose frames have passed the peer lookup and are not learned from yet;
   * other tasks may change the peers in between.
   */
  datatype System = System(switch: State, looked: multiset<NodeId>)

  datatype Event =
    | Lookup(node: NodeId)
    | Drop(node: NodeId)
    | Act(step: Step)

  /** Learning needs a lookup before it; a frame may also be dropped after the lookup. */
  ghost predicate Happens(s: System, e: Event, r: System) {
    match e
    case Lookup(node) => node in s.switch.peers && r == s.(looked := s.looked + multiset{node})
    case Drop(node) => node in s.looked && r == s.(looked := s.looked - multiset{node})
    case Act(step) =>
      && Next(s.switch, step, r.switch)
      && (step.Learn? ==> step.node in s.looked)
      && r.looked == if step.Learn? then s.looked - multiset{step.node} else s.looked
  }

  ghost predicate Leads(states: seq<System>, events: seq<Event>) {
    && |states| == |events| + 1 && states[0] == System(State({}, map[]), multiset{})
    && forall i :: 0 <= i < |events| ==> Happens(states[i], events[i], states[i + 1])
  }

  /** The table never exceeds its capacity. */
  lemma {:induction false} RunBounded(states: seq<System>, events: seq<Event>)
    requires Leads(states, events)
    ensures |states[|events|].switch.table| <= MAX_ENTRIES
    decreases |events|
  {
    if events != [] {
      var n := |events| - 1;
      RunBounded(states[..n + 1], events[..n]);
      if events[n].Act? {
        StepBounded(states[n].switch, events[n].step, states[n + 1].switch);
      }
    }
  }

  ghost predicate NeverLate(states: seq<System>, events: seq<Event>)
    requires |states| == |events| + 1
  {
    forall i :: 0 <= i < |events| && events[i].Act? ==> !Late(states[i].switch, events[i].step)
  }

  ghost predicate AlwaysCurrent(states: seq<System>) {
    forall i :: 0 <= i < |states| ==> Current(states[i].switch)
  }

  /** In every run, entries name current peers at every point precisely when nothing is learned late. */
  lemma {:induction false} CurrentRuns(states: seq<System>, events: seq<Event>)
    requires Leads(states, events)
    ensures AlwaysCurrent(states) <==> NeverLate(states, events)
    decreases |events|
  {
    if events == [] {
      assert states == [states[0]];
    } else {
      var n := |events| - 1;
      var before := states[..n + 1];
      CurrentRuns(before, events[..n]);
      assert states == before + [states[n + 1]];
      assert before[n] == states[n];
      if events[n].Act? && Current(states[n].switch) {
        CurrentUnlessLate(states[n].switch, events[n].step, states[n + 1].switch);
      }
      AlwaysAppend(states, n + 1);
      LateAppend(states, events, n);
    }
  }

  lemma AlwaysAppend(states: seq<System>, n: nat)
    requires |states| == n + 1
    ensures AlwaysCurrent(states) <==> AlwaysCurrent(states[..n]) && Current(states[n].switch)
  {
  }

  lemma LateAppend(states: seq<System>, events: seq<Event>, n: nat)
    requires |states| == |events| + 1 && |events| == n + 1
    ensures NeverLate(states, events) <==>
            NeverLate(states[..n + 1], events[..n]) && (events[n].Act? ==> !Late(states[n].switch, events[n].step))
  {
  }

  /** The event removes a peer that has a frame between lookup and learning. */
  ghost predicate Overtakes(s: System, e: Event) {
    e.Act? && ((e.step.RemovePeer? && e.step.node in s.looked) || (e.step.ClearPeers? && s.looked != multiset{}))
  }

  /** Unless a removal overtakes a frame, nothing is learned late. */
  lemma {:induction false} NotOvertaken(states: seq<System>, events: seq<Event>)
    requires Leads(states, events)
    requires forall i :: 0 <= i < |events| ==> !Overtakes(states[i], events[i])
    ensures NeverLate(states, events)
    ensures forall n :: n in states[|events|].looked ==> n in states[|events|].switch.peers
    decreases |events|
  {
    if events != [] {
      var n := |events| - 1;
      NotOvertaken(states[..n + 1], events[..n]);
      assert states[..n + 1][n] == states[n] && Happens(states[n], events[n], states[n + 1]);
      assert events[n].Act? ==> !Late(states[n].switch, events[n].step);
      LateAppend(states, events, n);
    }
  }

  /** A run that leaves a stale entry: the peers are cleared between lookup and learning. */
  lemma StaleEntry(n: NodeId, mac: Mac, now: nat)
    ensures var known, looked := State({n}, map[]), multiset{n};
            var events := [Act(Upsert(n)), Lookup(n), Act(ClearPeers), Act(Learn(mac, n, now, None))];
            var start := System(State({}, map[]), multiset{});
            var end := System(State({}, map[mac := Entry(n, now, now)]), multiset{});
            var cleared := System(State({}, map[]), looked);
            var states := [start, System(known, multiset{}), System(known, looked), cleared, end];
            Leads(states, events) && !Current(end.switch)
  {
    var noted := Note(Prune(map[], now), mac, n, now);
    assert Prune(map[], now) == map[] && noted == map[mac := Entry(n, now, now)];
    assert |noted| == 1;
    var end := State({}, noted);
    assert mac in end.table && end.table[mac].node !in end.peers;
  }

  // ---------- Choosing targets ----------

  datatype Target = Target(peer: NodeId, flood: bool)

  predicate IsGroupMac(mac: Mac) {
    mac == [0xff, 0xff, 0xff, 0xff, 0xff, 0xff] || mac[0] % 2 == 1
  }

  /** Every peer exactly once, flagged as a flood. */
  ghost predicate IsFlood(targets: seq<Target>, peers: set<NodeId>) {
    && Distinct(targets)
    && (forall t :: t in targets <==> t.flood && t.peer in peers)
  }

  /** The frame goes to a unicast MAC that has a live entry. */
  predicate LiveUnicast(s: State, frame: seq<u8>, now: nat)
    requires |frame| >= 14
  {
    !IsGroupMac(frame[0..6]) && frame[0..6] in s.table && Live(s.table[frame[0..6]], now)
  }

  /** The frame's destination is known: such an entry names a current peer. */
  predicate Known(s: State, frame: seq<u8>, now: nat)
    requires |frame| >= 14
  {
    LiveUnicast(s, frame, now) && s.table[frame[0..6]].node in s.peers
  }

  /** As long as nothing was learned late, a live unicast entry sends the frame to one peer alone. */
  lemma LiveIsKnown(states: seq<System>, events: seq<Event>, frame: seq<u8>, now: nat)
    requires Leads(states, events) && NeverLate(states, events) && |frame| >= 14
    ensures var s := states[|events|].switch; Known(s, frame, now) <==> LiveUnicast(s, frame, now)
  {
    CurrentRuns(states, events);
  }

  // ---------- The switch, updated in place ----------

  class Dataplane {
    var peers: set<NodeId>
    var table: map<Mac, Entry>

    function View(): (s: State)
      reads this
    {
      State(peers, table)
    }

    constructor ()
      ensures View() == State({}, map[])
    {
      peers, table := {}, map[];
    }

    method PruneMacTable(now: nat)
      modifies this`table
      ensures Next(old(View()), Age(now), View())
    {
      table := map m | m in table && Live(table[m], now) :: table[m];
    }

    /** `evict_oldest_mac`: one pass for an entry with the smallest last-seen time. */
    method EvictOldestMac() returns (ghost victim: Option<Mac>)
      modifies this`table
      ensures old(table) == map[] ==> victim.None? && table == map[]
      ensures old(table) != map[] ==>
                victim.Some? && IsOldest(old(table), victim.value) && table == old(table) - {victim.value}
    {
      if table == map[] {
        return None;
      }
      var oldest: Mac :| oldest in table;
      var rest := table.Keys - {oldest};
      while rest != {}
        invariant oldest in table && rest <= table.Keys && oldest !in rest
        invariant forall m :: m in table && m !in rest ==> table[oldest].lastSeen <= table[m].lastSeen
        decreases |rest|
      {
        var m: Mac :| m in rest;
        if table[m].lastSeen < table[oldest].lastSeen {
          oldest := m;
        }
        rest := rest - {m};
      }
      victim := Some(oldest);
      table := table - {oldest};
    }

    method LearnMac(mac: Mac, node: NodeId, now: nat) returns (ghost victim: Option<Mac>)
      modifies this`table
      ensures Next(old(View()), Learn(mac, node, now, victim), View())
    {
      PruneMacTable(now);
      if mac in table {
        table := table[mac := table[mac].(node := node, lastSeen := now)];
      } else {
        table := table[mac := Entry(node, now, now)];
      }
      victim := None;
      if |table| > MAX_ENTRIES {
        victim := EvictOldestMac();
      }
    }

    method UpsertPeer(node: NodeId)
      modifies this`peers
      ensures Next(old(View()), Upsert(node), View())
    {
      peers := peers + {node};
    }

    method RemovePeerAndMacs(node: NodeId)
      modifies this
      ensures Next(old(View()), RemovePeer(node), View())
    {
      peers := peers - {node};
      table := map m | m in table && table[m].node != node :: table[m];
    }

    method ClearAllPeers()
      modifies this
      ensures Next(old(View()), ClearPeers, View())
    {
      peers, table := {}, map[];
    }

    /**
     * `select_l2_targets`: a known unicast destination gets the frame alone; anything else that
     * is a frame at all is flooded to every peer.
     */
    method SelectL2Targets(frame: seq<u8>, now: nat) returns (targets: seq<Target>)
      modifies this`table
      ensures Next(old(View()), Age(now), View())
      ensures |frame| < 14 ==> targets == []
      ensures |frame| >= 14 ==>
                if Known(old(View()), frame, now) then targets == [Target(old(table)[frame[0..6]].node, false)]
                else IsFlood(targets, peers)
    {
      PruneMacTable(now);
      if |frame| < 14 {
        return [];
      }
      var dst: Mac := frame[0..6];
      if !IsGroupMac(dst) && dst in table && table[dst].node in peers {
        return [Target(table[dst].node, false)];
      }
      targets := FloodTargets();
    }

    method FloodTargets() returns (targets: seq<Target>)
      ensures IsFlood(targets, peers)
    {
      targets := [];
      var rest := peers;
      while rest != {}
        invariant rest <= peers && IsFlood(targets, peers - rest)
        decreases |rest|
      {
        var p: NodeId :| p in rest;
        targets := targets + [Target(p, true)];
        rest := rest - {p};
      }
    }
  }
}
