/** The packet slab (`r2n-slab`) and the supernode's relay loop that runs on it. */
module Relay {
  import opened Bytes
  import opened Header
  import opened Common
  import opened Finite

  const FRAME_CAP: nat := 1600

  type Slot = s: seq<u8> | |s| == FRAME_CAP witness seq(FRAME_CAP, _ => 0)

  /** The slots and the queue of free slot numbers. */
  datatype Slab = Slab(slots: seq<Slot>, free: seq<nat>)

  function NewSlab(capacity: nat): (s: Slab) {
    Slab(seq(capacity, _ => seq(FRAME_CAP, _ => 0)), seq(capacity, i => i))
  }

  function Acquire(s: Slab): (r: (Slab, Option<nat>)) {
    if s.free == [] then (s, None) else (s.(free := s.free[1..]), Some(s.free[0]))
  }

  /** The queue holds at most as many numbers as there are slots; a push beyond that is lost. */
  function Release(s: Slab, slot: nat): (r: Slab) {
    if |s.free| < |s.slots| then s.(free := s.free + [slot]) else s
  }

  function Fill(s: Slab, slot: nat, bytes: seq<u8>): (r: Slab)
    requires slot < |s.slots| && |bytes| <= FRAME_CAP
  {
    s.(slots := s.slots[slot := bytes + s.slots[slot][|bytes|..]])
  }

  // ---------- The relay as interleaved steps ----------

  /** A frame is first given a slot, then copied into it, then sent, then its slot released. */
  datatype Phase = Acquired | Filled | Sent

  datatype Task = Task(slot: nat, frame: seq<u8>, target: SocketAddr, phase: Phase)

  datatype Datagram = Datagram(id: nat, bytes: seq<u8>, target: SocketAddr)

  /** `received` is the log of the datagrams taken up, by task number; `sent` that of the sends. */
  datatype State = State(slab: Slab, tasks: map<nat, Task>, received: map<nat, Datagram>, sent: seq<Datagram>)

  function Init(capacity: nat): (s: State) {
    State(NewSlab(capacity), map[], map[], [])
  }

  /** `route` is the registered address of the frame's destination, if it has one. */
  datatype Step =
    | Receive(id: nat, datagram: seq<u8>, route: Option<SocketAddr>)
    | Copy(id: nat)
    | Send(id: nat, delivered: bool)
    | Finish(id: nat)

  predicate IsData(datagram: seq<u8>) {
    RecvPacket(datagram).Ok? && RecvPacket(datagram).value.Data?
  }

  /** The frame length announced by the header fits a slot. */
  predicate Fits(datagram: seq<u8>)
    requires IsData(datagram)
    ensures Fits(datagram) <==> |datagram| <= FRAME_CAP
  {
    FrameLen(RecvPacket(datagram).value.header) <= FRAME_CAP
  }

  predicate Enabled(s: State, step: Step) {
    match step
    case Receive(id, _, _) => id !in s.received
    case Copy(id) => id in s.tasks && s.tasks[id].phase.Acquired?
    case Send(id, _) => id in s.tasks && s.tasks[id].phase.Filled?
    case Finish(id) => id in s.tasks && s.tasks[id].phase.Sent?
  }

  function Apply(s: State, step: Step): (r: State)
    requires Enabled(s, step) && Inv(s)
    ensures |r.slab.slots| == |s.slab.slots|
  {
    match step
    case Receive(id, datagram, route) => ApplyReceive(s, id, datagram, route)
    case Copy(id) => ApplyCopy(s, id)
    case Send(id, delivered) => ApplySend(s, id, delivered)
    case Finish(id) => ApplyFinish(s, id)
  }

  function ApplyReceive(s: State, id: nat, datagram: seq<u8>, route: Option<SocketAddr>): (r: State)
    ensures |r.slab.slots| == |s.slab.slots|
  {
    if route.None? || !IsData(datagram) then s
    else Admit(s, id, datagram, route.value, Fits(datagram))
  }

  /** An oversized frame takes a slot and gives it straight back, to the end of the queue. */
  function Admit(s: State, id: nat, datagram: seq<u8>, target: SocketAddr, fits: bool): (r: State)
    ensures |r.slab.slots| == |s.slab.slots|
  {
    var (slab, slot) := Acquire(s.slab);
    if slot.None? then s
    else if !fits then s.(slab := Release(slab, slot.value))
    else
      s.(slab := slab,
         tasks := s.tasks[id := Task(slot.value, datagram, target, Acquired)],
         received := s.received[id := Datagram(id, datagram, target)])
  }

  function ApplyCopy(s: State, id: nat): (r: State)
    requires id in s.tasks && s.tasks[id].slot < |s.slab.slots| && |s.tasks[id].frame| <= FRAME_CAP
    ensures |r.slab.slots| == |s.slab.slots|
  {
    var t := s.tasks[id];
    s.(slab := Fill(s.slab, t.slot, t.frame), tasks := s.tasks[id := t.(phase := Filled)])
  }

  function ApplySend(s: State, id: nat, delivered: bool): (r: State)
    requires id in s.tasks && s.tasks[id].slot < |s.slab.slots| && |s.tasks[id].frame| <= FRAME_CAP
    ensures |r.slab.slots| == |s.slab.slots|
  {
    var t := s.tasks[id];
    var bytes := s.slab.slots[t.slot][..|t.frame|];
    s.(tasks := s.tasks[id := t.(phase := Sent)],
       sent := if delivered then s.sent + [Datagram(id, bytes, t.target)] else s.sent)
  }

  function ApplyFinish(s: State, id: nat): (r: State)
    requires id in s.tasks
    ensures |r.slab.slots| == |s.slab.slots|
  {
    s.(slab := Release(s.slab, s.tasks[id].slot), tasks := s.tasks - {id})
  }

  /**
   * The state after any interleaving of steps (`None` if a step was not possible). In each such
   * state slots are partitioned, and every datagram sent is the one received for it.
   */
  function Run(capacity: nat, steps: seq<Step>): (r: Option<State>)
    ensures r.Some? ==> Inv(r.value) && |r.value.slab.slots| == capacity
  {
    if steps == [] then
      InitInv(capacity);
      Some(Init(capacity))
    else
      var before := Run(capacity, steps[..|steps| - 1]);
      var step := steps[|steps| - 1];
      if before.None? || !Enabled(before.value, step) then None
      else
        StepInv(before.value, step);
        Some(Apply(before.value, step))
  }

  // ---------- The invariant ----------

  /** Free and held slots partition the slab: each slot is free once or held by one task. */
  ghost predicate Partition(slab: Slab, tasks: map<nat, Task>) {
    && (forall i :: 0 <= i < |slab.free| ==> slab.free[i] < |slab.slots|)
    && Distinct(slab.free)
    && (forall id :: id in tasks ==> tasks[id].slot < |slab.slots| && tasks[id].slot !in slab.free)
    && (forall a, b :: a in tasks && b in tasks && a != b ==> tasks[a].slot != tasks[b].slot)
    && (forall k :: 0 <= k < |slab.slots| ==> k in slab.free || Held(tasks, k))
  }

  ghost predicate Held(tasks: map<nat, Task>, slot: nat) {
    exists id :: id in tasks && tasks[id].slot == slot
  }

  ghost predicate Contents(s: State) {
    forall id :: id in s.tasks ==>
      var t := s.tasks[id];
      && |t.frame| <= FRAME_CAP
      && id in s.received && s.received[id] == Datagram(id, t.frame, t.target)
      && (t.phase.Filled? ==> t.slot < |s.slab.slots| && s.slab.slots[t.slot][..|t.frame|] == t.frame)
  }

  /** Every datagram sent is, byte for byte, the one received for it, and is sent once. */
  ghost predicate Faithful(s: State) {
    && (forall i :: 0 <= i < |s.sent| ==> s.sent[i].id in s.received && s.received[s.sent[i].id] == s.sent[i])
    && (forall i :: 0 <= i < |s.sent| ==> s.sent[i].id in s.tasks ==> s.tasks[s.sent[i].id].phase.Sent?)
    && (forall i, j :: 0 <= i < j < |s.sent| ==> s.sent[i].id != s.sent[j].id)
  }

  ghost predicate Inv(s: State) {
    Partition(s.slab, s.tasks) && Contents(s) && Faithful(s)
  }

  lemma InitInv(capacity: nat)
    ensures Inv(Init(capacity))
  {
    var free := Init(capacity).slab.free;
    forall k | 0 <= k < capacity ensures k in free {
      assert free[k] == k;
    }
  }

  /** A slot taken from the queue can be handed to a new task. */
  lemma PartitionAcquire(slab: Slab, tasks: map<nat, Task>, id: nat, t: Task)
    requires Partition(slab, tasks) && id !in tasks && slab.free != [] && t.slot == slab.free[0]
    ensures Partition(Acquire(slab).0, tasks[id := t])
  {
    var free, rest, tasks' := slab.free, slab.free[1..], tasks[id := t];
    assert forall k :: k in free <==> k == free[0] || k in rest;
    forall k | 0 <= k < |slab.slots| ensures k in rest || Held(tasks', k) {
      if k == t.slot {
        assert tasks'[id].slot == k;
      } else if k !in free {
        var other :| other in tasks && tasks[other].slot == k;
        assert tasks'[other].slot == k;
      }
    }
  }

  /** Giving back a held slot: the queue has room for it. */
  lemma PartitionRelease(slab: Slab, tasks: map<nat, Task>, id: nat)
    requires Partition(slab, tasks) && id in tasks
    ensures Release(slab, tasks[id].slot).free == slab.free + [tasks[id].slot]
    ensures Partition(Release(slab, tasks[id].slot), tasks - {id})
  {
    var slot, tasks' := tasks[id].slot, tasks - {id};
    DistinctBelow(slab.free, |slab.slots|);
    var free := slab.free + [slot];
    forall k | 0 <= k < |slab.slots| ensures k in free || Held(tasks', k) {
      if k != slot && k !in slab.free {
        var other :| other in tasks && tasks[other].slot == k;
        assert tasks'[other].slot == k;
      }
    }
    assert slot in free && forall k :: k in slab.free ==> k in free;
  }

  /** Changing contents and phases moves no slot. */
  lemma PartitionSame(slab: Slab, slab': Slab, tasks: map<nat, Task>, tasks': map<nat, Task>)
    requires Partition(slab, tasks) && slab'.free == slab.free && |slab'.slots| == |slab.slots|
    requires tasks'.Keys == tasks.Keys && forall id :: id in tasks ==> tasks'[id].slot == tasks[id].slot
    ensures Partition(slab', tasks')
  {
    forall k | 0 <= k < |slab.slots| && k !in slab.free ensures Held(tasks', k) {
      var id :| id in tasks && tasks[id].slot == k;
      assert tasks'[id].slot == k;
    }
  }

  lemma AdmitInv(s: State, id: nat, datagram: seq<u8>, target: SocketAddr, fits: bool)
    requires Inv(s) && id !in s.received && (fits ==> |datagram| <= FRAME_CAP)
    ensures Inv(Admit(s, id, datagram, target, fits))
  {
    if s.slab.free != [] {
      var t := Task(s.slab.free[0], datagram, target, Acquired);
      PartitionAcquire(s.slab, s.tasks, id, t);
      if !fits {
        PartitionRelease(Acquire(s.slab).0, s.tasks[id := t], id);
        assert s.tasks[id := t] - {id} == s.tasks;
      }
    }
  }

  lemma CopyInv(s: State, id: nat)
    requires Inv(s) && id in s.tasks && s.tasks[id].phase.Acquired?
    ensures Inv(ApplyCopy(s, id))
  {
    var r := ApplyCopy(s, id);
    PartitionSame(s.slab, r.slab, s.tasks, r.tasks);
  }

  lemma SendFaithful(s: State, id: nat, delivered: bool)
    requires Inv(s) && id in s.tasks && s.tasks[id].phase.Filled?
    ensures Faithful(ApplySend(s, id, delivered))
  {
    var t := s.tasks[id];
    assert s.received[id] == Datagram(id, s.slab.slots[t.slot][..|t.frame|], t.target);
    assert forall i :: 0 <= i < |s.sent| ==> s.sent[i].id != id;
  }

  lemma SendInv(s: State, id: nat, delivered: bool)
    requires Inv(s) && id in s.tasks && s.tasks[id].phase.Filled?
    ensures Inv(ApplySend(s, id, delivered))
  {
    var r := ApplySend(s, id, delivered);
    PartitionSame(s.slab, r.slab, s.tasks, r.tasks);
    SendFaithful(s, id, delivered);
  }

  lemma FinishInv(s: State, id: nat)
    requires Inv(s) && id in s.tasks && s.tasks[id].phase.Sent?
    ensures Inv(ApplyFinish(s, id))
  {
    PartitionRelease(s.slab, s.tasks, id);
  }

  lemma StepInv(s: State, step: Step)
    requires Inv(s) && Enabled(s, step)
    ensures Inv(Apply(s, step))
  {
    match step
    case Receive(id, datagram, route) =>
      if route.Some? && IsData(datagram) {
        AdmitInv(s, id, datagram, route.value, Fits(datagram));
      }
    case Copy(id) => CopyInv(s, id);
    case Send(id, delivered) => SendInv(s, id, delivered);
    case Finish(id) => FinishInv(s, id);
  }

  // ---------- Over every run ----------

  /** Once no task is left, every slot is back in the queue, once. */
  lemma RelayDrains(capacity: nat, steps: seq<Step>)
    requires Run(capacity, steps).Some? && Run(capacity, steps).value.tasks == map[]
    ensures var free := Run(capacity, steps).value.slab.free;
            |free| == capacity && forall k :: 0 <= k < capacity ==> k in free
  {
    var s := Run(capacity, steps).value;
    DistinctBelow(s.slab.free, capacity);
  }

  // ---------- The slab, updated in place ----------

  class PacketSlab {
    var slots: seq<Slot>
    var free: seq<nat>

    function View(): (s: Slab)
      reads this
    {
      Slab(slots, free)
    }

    constructor (capacity: nat)
      requires capacity > 0
      ensures View() == NewSlab(capacity)
    {
      var cells: seq<Slot>, numbers := [], [];
      for i := 0 to capacity
        invariant |cells| == |numbers| == i
        invariant forall k :: 0 <= k < i ==> cells[k] == seq(FRAME_CAP, _ => 0) && numbers[k] == k
      {
        cells := cells + [seq(FRAME_CAP, _ => 0)];
        numbers := numbers + [i];
      }
      slots, free := cells, numbers;
    }

    method AcquireSlot() returns (slot: Option<nat>)
      modifies this
      ensures (View(), slot) == Acquire(old(View()))
    {
      if free == [] {
        return None;
      }
      slot := Some(free[0]);
      free := free[1..];
    }

    method ReleaseSlot(slot: nat)
      modifies this
      ensures View() == Release(old(View()), slot)
    {
      if |free| < |slots| {
        free := free + [slot];
      }
    }

    /** `with_slot_mut` with the closure of the relay: the frame is copied to the front. */
    method CopyIntoSlot(slot: nat, bytes: seq<u8>)
      requires slot < |slots| && |bytes| <= FRAME_CAP
      modifies this
      ensures View() == Fill(old(View()), slot, bytes)
    {
      var cell: seq<u8> := slots[slot];
      for i := 0 to |bytes|
        invariant |cell| == FRAME_CAP && cell == bytes[..i] + slots[slot][i..]
      {
        cell := cell[i := bytes[i]];
      }
      assert cell == bytes + slots[slot][|bytes|..];
      slots := slots[slot := cell];
    }
  }
}
