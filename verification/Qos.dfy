/** The strict-priority packet scheduler (`r2n-qos`). */
module Qos {
  import opened Common

  datatype Class = Control | Realtime | Interactive | Bulk

  datatype Queues<T> = Queues(control: seq<T>, realtime: seq<T>, interactive: seq<T>, bulk: seq<T>, bulkCapacity: nat)

  function QueueOf<T>(q: Queues<T>, c: Class): (s: seq<T>) {
    match c
    case Control => q.control
    case Realtime => q.realtime
    case Interactive => q.interactive
    case Bulk => q.bulk
  }

  /** The queues after a push, and the bulk item dropped to make room, if any. */
  function Push<T>(q: Queues<T>, c: Class, item: T): (r: (Queues<T>, Option<T>)) {
    match c
    case Control => (q.(control := q.control + [item]), None)
    case Realtime => (q.(realtime := q.realtime + [item]), None)
    case Interactive => (q.(interactive := q.interactive + [item]), None)
    case Bulk =>
      if |q.bulk| >= q.bulkCapacity && q.bulk != []
      then (q.(bulk := q.bulk[1..] + [item]), Some(q.bulk[0]))
      else (q.(bulk := q.bulk + [item]), None)
  }

  /** The queues after a pop, and the item with the class it came from. */
  function Pop<T>(q: Queues<T>): (r: (Queues<T>, Option<(Class, T)>)) {
    if q.control != [] then (q.(control := q.control[1..]), Some((Control, q.control[0])))
    else if q.realtime != [] then (q.(realtime := q.realtime[1..]), Some((Realtime, q.realtime[0])))
    else if q.interactive != [] then (q.(interactive := q.interactive[1..]), Some((Interactive, q.interactive[0])))
    else if q.bulk != [] then (q.(bulk := q.bulk[1..]), Some((Bulk, q.bulk[0])))
    else (q, None)
  }

  function Rank(c: Class): (n: nat) {
    match c
    case Control => 0
    case Realtime => 1
    case Interactive => 2
    case Bulk => 3
  }

  /** A pop takes the head of a queue above which all are empty, and nothing else changes. */
  lemma PopIsHighest<T>(q: Queues<T>)
    ensures var (r, item) := Pop(q);
            && (item.None? <==> forall c :: QueueOf(q, c) == [])
            && (item.Some? ==>
                  var (c, x) := item.value;
                  && QueueOf(q, c) == [x] + QueueOf(r, c)
                  && (forall d :: d != c ==> QueueOf(r, d) == QueueOf(q, d))
                  && (forall d :: Rank(d) < Rank(c) ==> QueueOf(q, d) == []))
  {
    var (r, item) := Pop(q);
    if item.None? {
      assert QueueOf(q, Control) == [] && QueueOf(q, Realtime) == [];
      assert QueueOf(q, Interactive) == [] && QueueOf(q, Bulk) == [];
    } else {
      var (c, x) := item.value;
      assert QueueOf(q, c) != [] && x == QueueOf(q, c)[0] && QueueOf(r, c) == QueueOf(q, c)[1..];
    }
  }

  // ---------- Runs ----------

  datatype Op<T> = PushOp(class': Class, item: T) | PopOp

  /** What went in, and what came out in order: popped items and dropped ones. */
  datatype Log<T> = Log(pushed: seq<(Class, T)>, out: seq<(Class, T)>, popped: seq<(Class, T)>, dropped: seq<T>)

  datatype State<T> = State(queues: Queues<T>, log: Log<T>)

  function Step<T>(s: State<T>, op: Op<T>): (r: State<T>) {
    match op
    case PushOp(c, item) =>
      var (q, lost) := Push(s.queues, c, item);
      var log := s.log.(pushed := s.log.pushed + [(c, item)]);
      State(q, if lost.None? then log
               else log.(out := log.out + [(Bulk, lost.value)], dropped := log.dropped + [lost.value]))
    case PopOp =>
      var (q, item) := Pop(s.queues);
      State(q, if item.None? then s.log
               else s.log.(out := s.log.out + [item.value], popped := s.log.popped + [item.value]))
  }

  function Run<T>(capacity: nat, ops: seq<Op<T>>): (s: State<T>) {
    if ops == [] then State(Queues([], [], [], [], capacity), Log([], [], [], []))
    else Step(Run(capacity, ops[..|ops| - 1]), ops[|ops| - 1])
  }

  /** The items of one class, in order. */
  function Of<T>(log: seq<(Class, T)>, c: Class): (s: seq<T>) {
    if log == [] then []
    else Of(log[..|log| - 1], c) + (if log[|log| - 1].0 == c then [log[|log| - 1].1] else [])
  }

  lemma OfAppend<T>(log: seq<(Class, T)>, e: (Class, T), c: Class)
    ensures Of(log + [e], c) == Of(log, c) + (if e.0 == c then [e.1] else [])
  {
    assert (log + [e])[..|log|] == log;
  }

  /** What went in is what came out followed by what is queued; popped is what came out unless items drop. */
  ghost predicate Balanced<T>(pushed: seq<T>, out: seq<T>, popped: seq<T>, queue: seq<T>, drops: bool) {
    pushed == out + queue && (!drops ==> popped == out)
  }

  lemma BalancedPut<T>(pushed: seq<T>, out: seq<T>, popped: seq<T>, queue: seq<T>, drops: bool, put: seq<T>)
    requires Balanced(pushed, out, popped, queue, drops)
    ensures Balanced(pushed + put, out, popped, queue + put, drops)
  {
    assert out + queue + put == out + (queue + put);
  }

  lemma BalancedTake<T>(pushed: seq<T>, out: seq<T>, popped: seq<T>, taken: seq<T>, rest: seq<T>, drops: bool)
    requires Balanced(pushed, out, popped, taken + rest, drops)
    ensures Balanced(pushed, out + taken, popped + taken, rest, drops)
    ensures drops ==> Balanced(pushed, out + taken, popped, rest, drops)
  {
    assert out + (taken + rest) == out + taken + rest;
  }

  /**
   * Class by class: first in, first out, nothing lost or invented. Only bulk items are dropped,
   * and those leave from the same end as popped ones, oldest first.
   */
  ghost predicate Conserved<T>(s: State<T>, c: Class) {
    Balanced(Of(s.log.pushed, c), Of(s.log.out, c), Of(s.log.popped, c), QueueOf(s.queues, c), c == Bulk)
  }

  /** What a push drops from the queue of class `d`, and what it adds there. */
  lemma PushShifts<T>(q: Queues<T>, c: Class, item: T, d: Class) returns (lost: seq<T>, rest: seq<T>)
    ensures lost == if d == Bulk && Push(q, c, item).1.Some? then [Push(q, c, item).1.value] else []
    ensures QueueOf(q, d) == lost + rest
    ensures QueueOf(Push(q, c, item).0, d) == rest + (if c == d then [item] else [])
  {
    lost := if d == Bulk && Push(q, c, item).1.Some? then [Push(q, c, item).1.value] else [];
    rest := QueueOf(q, d)[|lost|..];
  }

  lemma PushConserves<T>(s: State<T>, c: Class, item: T, d: Class)
    requires Conserved(s, d)
    ensures Conserved(Step(s, PushOp(c, item)), d)
  {
    var pushed, out, popped := Of(s.log.pushed, d), Of(s.log.out, d), Of(s.log.popped, d);
    var lost, rest := PushShifts(s.queues, c, item, d);
    var put := if c == d then [item] else [];
    BalancedTake(pushed, out, popped, lost, rest, d == Bulk);
    BalancedPut(pushed, out + lost, popped, rest, d == Bulk, put);
    OfAppend(s.log.pushed, (c, item), d);
    var dropped := Push(s.queues, c, item).1;
    if dropped.Some? {
      OfAppend(s.log.out, (Bulk, dropped.value), d);
    }
    assert out + [] == out && popped + [] == popped;
  }

  /** What a pop takes out of the queue of class `d`: its head, or nothing. */
  lemma PopTakesHead<T>(q: Queues<T>, d: Class)
    ensures var (r, item) := Pop(q);
            QueueOf(q, d) == (if item.Some? && item.value.0 == d then [item.value.1] else []) + QueueOf(r, d)
  {
  }

  lemma PopConserves<T>(s: State<T>, d: Class)
    requires Conserved(s, d)
    ensures Conserved(Step(s, PopOp), d)
  {
    var (r, item) := Pop(s.queues);
    if item.Some? {
      PopTakesHead(s.queues, d);
      var taken := if item.value.0 == d then [item.value.1] else [];
      BalancedTake(Of(s.log.pushed, d), Of(s.log.out, d), Of(s.log.popped, d), taken, QueueOf(r, d), d == Bulk);
      OfAppend(s.log.out, item.value, d);
      OfAppend(s.log.popped, item.value, d);
    }
  }

  /** The bulk queue never exceeds its capacity (a capacity of zero still holds one item). */
  predicate BulkBounded<T>(q: Queues<T>) {
    |q.bulk| <= if q.bulkCapacity == 0 then 1 else q.bulkCapacity
  }

  lemma StepBounded<T>(s: State<T>, op: Op<T>)
    requires BulkBounded(s.queues)
    ensures BulkBounded(Step(s, op).queues) && Step(s, op).queues.bulkCapacity == s.queues.bulkCapacity
  {
  }

  lemma {:induction false} FifoPerClass<T>(capacity: nat, ops: seq<Op<T>>, c: Class)
    ensures var s := Run(capacity, ops);
            Conserved(s, c) && BulkBounded(s.queues) && s.queues.bulkCapacity == capacity
  {
    if ops != [] {
      var s, op := Run(capacity, ops[..|ops| - 1]), ops[|ops| - 1];
      FifoPerClass(capacity, ops[..|ops| - 1], c);
      StepBounded(s, op);
      if op.PushOp? {
        PushConserves(s, op.class', op.item, c);
      } else {
        PopConserves(s, c);
      }
    }
  }

  /** As multisets, what went out is what was popped and what was dropped. */
  lemma {:induction false} OutIsPoppedOrDropped<T>(capacity: nat, ops: seq<Op<T>>)
    ensures var log := Run(capacity, ops).log;
            multiset(Of(log.out, Bulk)) == multiset(Of(log.popped, Bulk)) + multiset(log.dropped)
  {
    if ops != [] {
      OutIsPoppedOrDropped(capacity, ops[..|ops| - 1]);
      LogStep(Run(capacity, ops[..|ops| - 1]), ops[|ops| - 1]);
    }
  }

  lemma LogStep<T>(s: State<T>, op: Op<T>)
    requires multiset(Of(s.log.out, Bulk)) == multiset(Of(s.log.popped, Bulk)) + multiset(s.log.dropped)
    ensures var log := Step(s, op).log;
            multiset(Of(log.out, Bulk)) == multiset(Of(log.popped, Bulk)) + multiset(log.dropped)
  {
    if op.PushOp? {
      var lost := Push(s.queues, op.class', op.item).1;
      if lost.Some? {
        OfAppend(s.log.out, (Bulk, lost.value), Bulk);
      }
    } else {
      var item := Pop(s.queues).1;
      if item.Some? {
        OfAppend(s.log.out, item.value, Bulk);
        OfAppend(s.log.popped, item.value, Bulk);
      }
    }
  }

  /** Hence every bulk item pushed was popped, dropped, or is still queued. */
  lemma BulkConservation<T>(capacity: nat, ops: seq<Op<T>>)
    ensures var s := Run(capacity, ops);
            multiset(Of(s.log.pushed, Bulk)) ==
            multiset(Of(s.log.popped, Bulk)) + multiset(s.log.dropped) + multiset(s.queues.bulk)
  {
    FifoPerClass(capacity, ops, Bulk);
    OutIsPoppedOrDropped(capacity, ops);
  }

  // ---------- The scheduler, updated in place ----------

  class QosScheduler<T> {
    var control: seq<T>
    var realtime: seq<T>
    var interactive: seq<T>
    var bulk: seq<T>
    const bulkCapacity: nat

    function View(): (q: Queues<T>)
      reads this
    {
      Queues(control, realtime, interactive, bulk, bulkCapacity)
    }

    constructor (bulkCapacity: nat)
      ensures View() == Queues([], [], [], [], bulkCapacity)
    {
      control, realtime, interactive, bulk := [], [], [], [];
      this.bulkCapacity := bulkCapacity;
    }

    method PushItem(c: Class, item: T)
      modifies this
      ensures View() == Push(old(View()), c, item).0
    {
      match c {
        case Control => control := control + [item];
        case Realtime => realtime := realtime + [item];
        case Interactive => interactive := interactive + [item];
        case Bulk =>
          if |bulk| >= bulkCapacity && bulk != [] {
            bulk := bulk[1..];
          }
          bulk := bulk + [item];
      }
    }

    method PopItem() returns (item: Option<T>)
      modifies this
      ensures View() == Pop(old(View())).0
      ensures item == var r := Pop(old(View())).1; if r.Some? then Some(r.value.1) else None
    {
      if control != [] {
        item, control := Some(control[0]), control[1..];
      } else if realtime != [] {
        item, realtime := Some(realtime[0]), realtime[1..];
      } else if interactive != [] {
        item, interactive := Some(interactive[0]), interactive[1..];
      } else if bulk != [] {
        item, bulk := Some(bulk[0]), bulk[1..];
      } else {
        item := None;
      }
    }
  }
}
