/** The duplicate cache for flooded packets (`SeenFloodPackets` in `r2n-dataplane`). */
module FloodCache {
  import opened Bytes
  import opened Common

  /** 30 seconds, in nanoseconds. */
  const WINDOW: nat := 30_000_000_000
  const CAPACITY: nat := 4096

  type Key = (NodeId, u64)

  datatype Entry = Entry(key: Key, at: nat)

  function Keys(order: seq<Entry>): (ks: set<Key>) {
    set i | 0 <= i < |order| :: order[i].key
  }

  function DropExcess(order: seq<Entry>): (r: seq<Entry>) {
    if |order| > CAPACITY then order[|order| - CAPACITY..] else order
  }

  function DropExpired(order: seq<Entry>, now: nat): (r: seq<Entry>) {
    if order != [] && now > order[0].at + WINDOW then DropExpired(order[1..], now) else order
  }

  function Prune(order: seq<Entry>, now: nat): (r: seq<Entry>) {
    DropExpired(DropExcess(order), now)
  }

  /** `insert_if_new` on the queue: the new queue, and whether the key was new. */
  function Insert(order: seq<Entry>, key: Key, now: nat): (r: (seq<Entry>, bool)) {
    var live := Prune(order, now);
    if key in Keys(live) then (live, false)
    else (Prune(live + [Entry(key, now)], now), true)
  }

  // ---------- Runs against the history of acceptances ----------

  datatype Call = Call(key: Key, now: nat)

  /** The queue, and every acceptance so far, oldest first. */
  datatype State = State(order: seq<Entry>, history: seq<Entry>)

  function Step(s: State, c: Call): (r: State) {
    var (order, isNew) := Insert(s.order, c.key, c.now);
    State(order, if isNew then s.history + [Entry(c.key, c.now)] else s.history)
  }

  function Run(calls: seq<Call>): (s: State) {
    if calls == [] then State([], []) else Step(Run(calls[..|calls| - 1]), calls[|calls| - 1])
  }

  function Latest(calls: seq<Call>): (t: nat) {
    if calls == [] then 0 else calls[|calls| - 1].now
  }

  /** The clock never runs backwards. */
  ghost predicate Monotone(calls: seq<Call>) {
    calls != [] ==> Latest(calls[..|calls| - 1]) <= Latest(calls) && Monotone(calls[..|calls| - 1])
  }

  /** Acceptance `i` still counts at time `now`: at most 30 s old, fewer than 4096 acceptances since. */
  ghost predicate Counts(history: seq<Entry>, i: int, now: nat) {
    0 <= i < |history| && now <= history[i].at + WINDOW && |history| - 1 - i < CAPACITY
  }

  ghost predicate DistinctKeys(order: seq<Entry>) {
    forall i, j :: 0 <= i < j < |order| ==> order[i].key != order[j].key
  }

  ghost predicate Sorted(history: seq<Entry>) {
    forall i, j :: 0 <= i < j < |history| ==> history[i].at <= history[j].at
  }

  /**
   * The queue is a suffix of the history without duplicates, at most 4096 long, and whatever
   * the history holds before that suffix no longer counts.
   */
  ghost predicate Represents(s: State, now: nat) {
    && |s.order| <= |s.history| && s.order == s.history[|s.history| - |s.order|..]
    && |s.order| <= CAPACITY && DistinctKeys(s.order)
    && Sorted(s.history) && (forall i :: 0 <= i < |s.history| ==> s.history[i].at <= now)
    && (forall i :: 0 <= i < |s.history| - |s.order| ==> !Counts(s.history, i, now))
  }

  /** Two acceptances of one key are more than 30 s or at least 4096 acceptances apart. */
  ghost predicate SpacedOut(history: seq<Entry>) {
    forall i, j :: 0 <= i < j < |history| && history[i].key == history[j].key ==>
      history[j].at > history[i].at + WINDOW || j - i >= CAPACITY
  }

  /** On a sorted queue, dropping expired entries from the front drops exactly the expired ones. */
  lemma {:induction false} DropExpiredSuffix(order: seq<Entry>, now: nat) returns (k: nat)
    requires Sorted(order)
    ensures k <= |order| && DropExpired(order, now) == order[k..]
    ensures forall i :: 0 <= i < |order| ==> (i < k <==> now > order[i].at + WINDOW)
  {
    if order != [] && now > order[0].at + WINDOW {
      var k' := DropExpiredSuffix(order[1..], now);
      k := k' + 1;
      assert order[1..][k'..] == order[k..];
      forall i | 0 <= i < |order|
        ensures i < k <==> now > order[i].at + WINDOW
      {
        if i > 0 {
          assert order[i] == order[1..][i - 1];
        }
      }
    } else {
      k := 0;
    }
  }

  /** Pruning keeps exactly the suffix of entries that are neither expired nor in excess. */
  lemma PruneSuffix(order: seq<Entry>, now: nat) returns (n: nat)
    requires Sorted(order)
    ensures n <= |order| && Prune(order, now) == order[n..]
    ensures forall i :: 0 <= i < |order| ==> (i >= n <==> now <= order[i].at + WINDOW && |order| - i <= CAPACITY)
  {
    var kept := DropExcess(order);
    var drop := |order| - |kept|;
    assert forall i :: 0 <= i < |kept| ==> kept[i] == order[drop + i];
    var k := DropExpiredSuffix(kept, now);
    n := drop + k;
    assert kept[k..] == order[n..];
    forall i | 0 <= i < |order|
      ensures i >= n <==> now <= order[i].at + WINDOW && |order| - i <= CAPACITY
    {
      if i >= drop {
        assert kept[i - drop] == order[i];
      }
    }
  }

  /** Pruning a suffix of the history leaves exactly the acceptances that count. */
  lemma PruneCounts(order: seq<Entry>, history: seq<Entry>, before: nat, now: nat)
    requires |order| <= |history| && order == history[|history| - |order|..]
    requires Sorted(order) && before <= now
    requires forall i :: 0 <= i < |history| - |order| ==> !Counts(history, i, before)
    ensures var live := Prune(order, now);
            && |live| <= |history| && live == history[|history| - |live|..]
            && (forall i :: 0 <= i < |history| ==> (Counts(history, i, now) <==> i >= |history| - |live|))
  {
    var drop := |history| - |order|;
    var n := PruneSuffix(order, now);
    assert order[n..] == history[drop + n..];
    forall i | 0 <= i < |history|
      ensures Counts(history, i, now) <==> i >= drop + n
    {
      if i >= drop {
        assert order[i - drop] == history[i];
      } else {
        assert !Counts(history, i, before);
      }
    }
  }

  lemma PruneDistinct(order: seq<Entry>, now: nat)
    requires Sorted(order) && DistinctKeys(order)
    ensures DistinctKeys(Prune(order, now)) && |Prune(order, now)| <= CAPACITY
  {
    var n := PruneSuffix(order, now);
    if n < |order| {
      assert |order| - n <= CAPACITY;
    }
  }

  /** Pruning keeps the representation. */
  lemma PruneRepresents(order: seq<Entry>, history: seq<Entry>, before: nat, now: nat)
    requires |order| <= |history| && order == history[|history| - |order|..]
    requires DistinctKeys(order) && Sorted(history) && before <= now
    requires forall i :: 0 <= i < |history| ==> history[i].at <= now
    requires forall i :: 0 <= i < |history| - |order| ==> !Counts(history, i, before)
    ensures var s := State(Prune(order, now), history);
            && Represents(s, now)
            && (forall i :: |history| - |s.order| <= i < |history| ==> Counts(history, i, now))
  {
    assert Sorted(order);
    PruneCounts(order, history, before, now);
    PruneDistinct(order, now);
  }

  lemma KeyInSuffix(order: seq<Entry>, history: seq<Entry>, key: Key)
    requires |order| <= |history| && order == history[|history| - |order|..]
    ensures key in Keys(order) <==> exists i :: |history| - |order| <= i < |history| && history[i].key == key
  {
    var n := |history| - |order|;
    if key in Keys(order) {
      var i :| 0 <= i < |order| && order[i].key == key;
      assert history[n + i].key == key;
    }
    if i :| n <= i < |history| && history[i].key == key {
      assert order[i - n].key == key;
    }
  }

  /**
   * One call from a state that represents its history: it is refused exactly when some
   * acceptance of the key still counts, and the new state represents the new history.
   */
  lemma InsertRefines(s: State, c: Call, before: nat)
    requires Represents(s, before) && before <= c.now
    ensures Represents(Step(s, c), c.now)
    ensures !Insert(s.order, c.key, c.now).1 <==>
            exists i :: Counts(s.history, i, c.now) && s.history[i].key == c.key
  {
    PruneRepresents(s.order, s.history, before, c.now);
    KeyInSuffix(Prune(s.order, c.now), s.history, c.key);
    if Insert(s.order, c.key, c.now).1 {
      AcceptRepresents(Prune(s.order, c.now), s.history, Entry(c.key, c.now));
    }
  }

  /** Recording a new acceptance keeps the representation. */
  lemma AcceptRepresents(live: seq<Entry>, history: seq<Entry>, e: Entry)
    requires Represents(State(live, history), e.at) && e.key !in Keys(live)
    ensures Represents(State(Prune(live + [e], e.at), history + [e]), e.at)
  {
    KeysAppend(live, e);
    HistoryAppend(history, e, |history| - |live|);
    assert live + [e] == (history + [e])[|history| - |live|..];
    PruneRepresents(live + [e], history + [e], e.at, e.at);
  }

  /** A new acceptance keeps the history sorted and makes no earlier one count again. */
  lemma HistoryAppend(history: seq<Entry>, e: Entry, n: nat)
    requires Sorted(history) && forall i :: 0 <= i < |history| ==> history[i].at <= e.at
    requires n <= |history| && forall i :: 0 <= i < n ==> !Counts(history, i, e.at)
    ensures var h := history + [e];
            && Sorted(h) && (forall i :: 0 <= i < |h| ==> h[i].at <= e.at)
            && (forall i :: 0 <= i < n ==> !Counts(h, i, e.at))
  {
    forall i | 0 <= i < n ensures !Counts(history + [e], i, e.at) {
      assert !Counts(history, i, e.at);
    }
  }

  lemma KeysAppend(order: seq<Entry>, e: Entry)
    ensures Keys(order + [e]) == Keys(order) + {e.key}
    ensures DistinctKeys(order) && e.key !in Keys(order) ==> DistinctKeys(order + [e])
  {
    assert forall i :: 0 <= i < |order| ==> (order + [e])[i] == order[i];
    assert (order + [e])[|order|] == e;
  }

  /** The refinement over every run with a monotone clock. */
  lemma {:induction false} RunRepresents(calls: seq<Call>)
    requires Monotone(calls)
    ensures Represents(Run(calls), Latest(calls))
  {
    if calls != [] {
      var before := calls[..|calls| - 1];
      RunRepresents(before);
      InsertRefines(Run(before), calls[|calls| - 1], Latest(before));
    }
  }

  /** Hence a key is accepted at most once in any span of 30 s and 4096 acceptances. */
  lemma {:induction false} RunSpacedOut(calls: seq<Call>)
    requires Monotone(calls)
    ensures SpacedOut(Run(calls).history)
  {
    if calls != [] {
      var before, c := calls[..|calls| - 1], calls[|calls| - 1];
      RunSpacedOut(before);
      RunRepresents(before);
      var s, r := Run(before), Run(calls);
      InsertRefines(s, c, Latest(before));
      if r.history != s.history {
        forall i, j | 0 <= i < j < |r.history| && r.history[i].key == r.history[j].key
          ensures r.history[j].at > r.history[i].at + WINDOW || j - i >= CAPACITY
        {
          if j == |s.history| {
            assert !Counts(s.history, i, c.now);
          }
        }
      }
    }
  }

  // ---------- The cache, updated in place ----------

  class SeenFloodPackets {
    var order: seq<Entry>
    var seen: set<Key>

    /** The queue and the set hold the same keys, each once. */
    ghost predicate Valid()
      reads this
    {
      seen == Keys(order) && DistinctKeys(order)
    }

    constructor ()
      ensures Valid() && order == []
    {
      order, seen := [], {};
    }

    method PopFront()
      requires Valid() && order != []
      modifies this
      ensures Valid() && order == old(order)[1..]
    {
      assert Keys(order) == {order[0].key} + Keys(order[1..]) by {
        forall i | 0 < i < |order| ensures order[i].key in Keys(order[1..]) {
          assert order[i] == order[1..][i - 1];
        }
      }
      seen := seen - {order[0].key};
      order := order[1..];
    }

    method PruneQueue(now: nat)
      requires Valid()
      modifies this
      ensures Valid() && order == Prune(old(order), now)
    {
      while |order| > CAPACITY
        invariant Valid() && DropExcess(order) == DropExcess(old(order))
        decreases |order|
      {
        PopFront();
      }
      while order != [] && now > order[0].at + WINDOW
        invariant Valid() && DropExpired(order, now) == Prune(old(order), now)
        decreases |order|
      {
        PopFront();
      }
    }

    method InsertIfNew(key: Key, now: nat) returns (isNew: bool)
      requires Valid()
      modifies this
      ensures Valid() && (order, isNew) == Insert(old(order), key, now)
    {
      PruneQueue(now);
      if key in seen {
        return false;
      }
      KeysAppend(order, Entry(key, now));
      seen := seen + {key};
      order := order + [Entry(key, now)];
      PruneQueue(now);
      return true;
    }
  }
}
