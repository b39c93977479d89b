/** The admission controller as the object it is: counters and queues updated in place. */
module Admission {
  import opened AdmissionLane
  import opened AdmissionRuns

  datatype AcquireResult =
    | Settled(outcome: Outcome)
    | UnknownClass
    | InvalidWeight

  const RESOURCE_CLASSES: set<string> := {"lightweight_fetch", "browser", "llm"}

  /** What an arrival of positive weight is told: over budget, admitted at once, refused by a full queue, or queued. */
  predicate Fits(l: Lane, weight: int, told: Outcome) {
    var over := 0 < l.limit < weight;
    var atOnce := l.limit == 0 || (!over && l.queue == [] && l.active + weight <= l.limit);
    && (told.OverBudget? <==> over)
    && (told.Admitted? <==> atOnce)
    && (told.QueueFull? <==> !over && !atOnce && |l.queue| >= l.capacity)
    && (told.Enqueued? <==> !over && !atOnce && |l.queue| < l.capacity)
  }

  /** `deque.remove`, by ticket. */
  method Removed(q: seq<Waiter>, ticket: nat) returns (r: seq<Waiter>)
    ensures r == Without(q, ticket)
  {
    var i := 0;
    while i < |q| && q[i].ticket != ticket
      invariant 0 <= i <= |q|
      invariant forall j :: 0 <= j < i ==> q[j].ticket != ticket
    {
      i := i + 1;
    }
    WithoutFirst(q, ticket, i);
    return if i < |q| then q[..i] + q[i + 1..] else q;
  }

  lemma {:induction false} WithoutFirst(q: seq<Waiter>, ticket: nat, i: nat)
    requires i <= |q| && (forall j :: 0 <= j < i ==> q[j].ticket != ticket) && (i < |q| ==> q[i].ticket == ticket)
    ensures Without(q, ticket) == if i < |q| then q[..i] + q[i + 1..] else q
  {
    if i > 0 {
      WithoutFirst(q[1..], ticket, i - 1);
      assert [q[0]] + q[1..] == q;
      if i < |q| {
        assert [q[0]] + q[1..][..i - 1] == q[..i] && q[1..][i..] == q[i + 1..];
      }
    }
  }

  class AdmissionController {
    const limits: map<string, nat>
    const capacity: int
    var active: map<string, int>
    var queues: map<string, seq<Waiter>>
    /** The futures awaited by each class's callers, by ticket. */
    var futures: map<string, map<nat, Future>>

    ghost predicate Valid()
      reads this
    {
      limits.Keys == active.Keys == queues.Keys == futures.Keys == RESOURCE_CLASSES
    }

    ghost function LaneOf(c: string): Lane
      requires Valid() && c in RESOURCE_CLASSES
      reads this
    {
      Lane(limits[c], capacity, active[c], queues[c], futures[c])
    }

    /** Every class starts idle; a missing or negative limit counts as zero, i.e. unlimited. */
    constructor (limits: map<string, int>, capacity: int)
      ensures Valid()
      ensures forall c :: c in RESOURCE_CLASSES ==>
        LaneOf(c) == Start(if c in limits && limits[c] > 0 then limits[c] else 0, capacity).lane
    {
      this.limits := map c | c in RESOURCE_CLASSES :: if c in limits && limits[c] > 0 then limits[c] else 0;
      this.capacity := capacity;
      active := map c | c in RESOURCE_CLASSES :: 0;
      queues := map c | c in RESOURCE_CLASSES :: [];
      futures := map c | c in RESOURCE_CLASSES :: map[];
    }

    /** No class but `c` is touched. */
    twostate predicate OthersSame(c: string)
      requires old(Valid()) && Valid()
      reads this
    {
      forall d :: d in RESOURCE_CLASSES && d != c ==> LaneOf(d) == old(LaneOf(d))
    }

    /** The synchronous part of `acquire`, up to its first await. `ticket` identifies the new future. */
    method Acquire(c: string, weight: int, ticket: nat) returns (r: AcquireResult)
      requires Valid()
      modifies this
      ensures Valid() && OthersSame(c)
      ensures r.UnknownClass? <==> c !in RESOURCE_CLASSES
      ensures r.InvalidWeight? <==> c in RESOURCE_CLASSES && weight <= 0
      ensures c in RESOURCE_CLASSES ==>
        LaneOf(c) == if weight <= 0 then old(LaneOf(c)) else AdmissionLane.Acquire(old(LaneOf(c)), weight, ticket)
      ensures c in RESOURCE_CLASSES && weight > 0 ==>
        && active[c] == old(active[c]) + (if r == Settled(Admitted) then weight else 0)
        && queues[c] == old(queues[c]) + (if r == Settled(Enqueued) then [Waiter(ticket, weight)] else [])
      ensures c in RESOURCE_CLASSES && weight > 0 ==> r.Settled? && Fits(old(LaneOf(c)), weight, r.outcome)
    {
      if c !in RESOURCE_CLASSES {
        return UnknownClass;
      }
      if weight <= 0 {
        return InvalidWeight;
      }
      var limit := limits[c];
      if limit == 0 {
        active := active[c := active[c] + weight];
        return Settled(Admitted);
      }
      if weight > limit {
        return Settled(OverBudget);
      }
      if queues[c] == [] && active[c] + weight <= limit {
        active := active[c := active[c] + weight];
        return Settled(Admitted);
      }
      if |queues[c]| >= capacity {
        return Settled(QueueFull);
      }
      queues := queues[c := queues[c] + [Waiter(ticket, weight)]];
      var settled: map<nat, Future> := futures[c][ticket := Pending];
      futures := futures[c := settled];
      return Settled(Enqueued);
    }

    /** Takes the head off the queue, discarding it. */
    method PopFront(c: string)
      requires Valid() && c in RESOURCE_CLASSES && queues[c] != []
      modifies this`queues
      ensures Valid() && OthersSame(c)
      ensures LaneOf(c) == PopHead(old(LaneOf(c)))
    {
      queues := queues[c := queues[c][1..]];
    }

    /** Takes the head off the queue, charges its weight and resolves its future. */
    method GrantFront(c: string)
      requires Valid() && c in RESOURCE_CLASSES && queues[c] != []
      modifies this
      ensures Valid() && OthersSame(c)
      ensures LaneOf(c) == GrantHead(old(LaneOf(c)))
    {
      var waiter := queues[c][0];
      queues := queues[c := queues[c][1..]];
      active := active[c := active[c] + waiter.weight];
      var settled: map<nat, Future> := futures[c][waiter.ticket := Resolved];
      futures := futures[c := settled];
    }

    method DrainQueue(c: string)
      requires Valid() && c in RESOURCE_CLASSES
      modifies this
      ensures Valid() && OthersSame(c)
      ensures LaneOf(c) == Drain(old(LaneOf(c)))
    {
      while queues[c] != []
        invariant Valid() && OthersSame(c)
        invariant Drain(LaneOf(c)) == Drain(old(LaneOf(c)))
        decreases |LaneOf(c).queue|
      {
        var waiter := queues[c][0];
        if waiter.ticket in futures[c] && !futures[c][waiter.ticket].Pending? {
          PopFront(c);
        } else if active[c] + waiter.weight > limits[c] {
          break;
        } else {
          GrantFront(c);
        }
      }
    }

    method Release(c: string, weight: int)
      requires Valid()
      modifies this
      ensures Valid() && OthersSame(c)
      ensures c in RESOURCE_CLASSES ==>
        LaneOf(c) == if weight <= 0 then old(LaneOf(c)) else AdmissionLane.Release(old(LaneOf(c)), weight)
    {
      hide Drain;
      if c !in RESOURCE_CLASSES || weight <= 0 {
        return;
      }
      active := active[c := if active[c] - weight < 0 then 0 else active[c] - weight];
      DrainQueue(c);
    }

    method DropWaiter(c: string, ticket: nat)
      requires Valid() && c in RESOURCE_CLASSES
      modifies this`queues
      ensures Valid() && OthersSame(c)
      ensures LaneOf(c) == Drop(old(LaneOf(c)), ticket)
    {
      hide Without;
      var q := Removed(queues[c], ticket);
      queues := queues[c := q];
    }

    /** The `except CancelledError` branch of `acquire`, for the waiter it had queued. */
    method HandleCancel(c: string, waiter: Waiter)
      requires Valid() && c in RESOURCE_CLASSES
      modifies this
      ensures Valid() && OthersSame(c)
      ensures LaneOf(c) == OnCancel(old(LaneOf(c)), waiter)
    {
      if waiter.ticket in futures[c] && futures[c][waiter.ticket].Resolved? {
        active := active[c := active[c] - waiter.weight];
      }
      DropWaiter(c, waiter.ticket);
    }

    /** The `except TimeoutError` branch of `acquire`. */
    method HandleTimeout(c: string, waiter: Waiter)
      requires Valid() && c in RESOURCE_CLASSES
      modifies this
      ensures Valid() && OthersSame(c)
      ensures LaneOf(c) == OnTimeout(old(LaneOf(c)), waiter)
    {
      DropWaiter(c, waiter.ticket);
    }

    /** The object simulates the run model: one event on class `c` moves its lane as `Next` does.
        `own` is the request the event is about. */
    method Step(c: string, e: Event, own: Waiter, ghost w: World)
      requires Valid() && c in RESOURCE_CLASSES && LaneOf(c) == w.lane && Enabled(w, e)
      requires e.Arrive? ==> own == Waiter(|w.tasks|, e.weight)
      requires !e.Arrive? ==> own.ticket == e.t && own.weight == w.tasks[e.t].weight && own.weight > 0
      modifies this
      ensures Valid() && OthersSame(c)
      ensures LaneOf(c) == Next(w, e).lane
    {
      match e
      case Arrive(weight) =>
        var _ := Acquire(c, weight, own.ticket);
      case Finish(t) =>
        Release(c, own.weight);
      case FutureCancelled(t) =>
        var settled: map<nat, Future> := futures[c][t := Cancelled];
        futures := futures[c := settled];
      case Resume(t) =>
      case CancelDelivered(t) =>
        HandleCancel(c, own);
      case TimeoutDelivered(t) =>
        HandleTimeout(c, own);
    }
  }
}
