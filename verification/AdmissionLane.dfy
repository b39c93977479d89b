/** One resource class of the admission controller, as a value.

    `Lane` is what `common/admission.py` keeps per class (budget, active units, FIFO queue)
    together with the futures its queued callers await. The functions below are the
    synchronous pieces of the controller; the class in Admission.dfy is proved against them. */
module AdmissionLane {

  /** An asyncio future as the controller sees it. `Resolved` is "done and not cancelled". */
  datatype Future = Pending | Resolved | Cancelled

  /** A queued request. The ticket is its arrival number; waiters are compared by identity. */
  datatype Waiter = Waiter(ticket: nat, weight: int)

  /** `limit == 0` means that the class has no budget and is unlimited. */
  datatype Lane = Lane(limit: nat, capacity: int, active: int, queue: seq<Waiter>, futures: map<nat, Future>)

  datatype Outcome = Admitted | Enqueued | OverBudget | QueueFull

  predicate Done(l: Lane, t: nat) {
    t in l.futures && !l.futures[t].Pending?
  }

  predicate Granted(l: Lane, t: nat) {
    t in l.futures && l.futures[t].Resolved?
  }

  /** Which branch `acquire` takes, in the order in which it tests. */
  function Decide(l: Lane, weight: int): Outcome {
    if l.limit == 0 then Admitted
    else if weight > l.limit then OverBudget
    else if l.queue == [] && l.active + weight <= l.limit then Admitted
    else if |l.queue| >= l.capacity then QueueFull
    else Enqueued
  }

  function Acquire(l: Lane, weight: int, ticket: nat): Lane {
    match Decide(l, weight)
    case Admitted => l.(active := l.active + weight)
    case Enqueued => l.(queue := l.queue + [Waiter(ticket, weight)], futures := l.futures[ticket := Pending])
    case _ => l
  }

  function PopHead(l: Lane): Lane
    requires l.queue != []
  {
    l.(queue := l.queue[1..])
  }

  function GrantHead(l: Lane): Lane
    requires l.queue != []
  {
    l.(queue := l.queue[1..],
       active := l.active + l.queue[0].weight,
       futures := l.futures[l.queue[0].ticket := Resolved])
  }

  /** Grants queued waiters in FIFO order while they fit, discarding finished ones. */
  function Drain(l: Lane): Lane
    decreases |l.queue|
  {
    if l.queue == [] then l
    else if Done(l, l.queue[0].ticket) then Drain(PopHead(l))
    else if l.active + l.queue[0].weight > l.limit then l
    else Drain(GrantHead(l))
  }

  /** The tickets that `Drain` grants, in grant order. */
  function Grants(l: Lane): seq<nat>
    decreases |l.queue|
  {
    if l.queue == [] then []
    else if Done(l, l.queue[0].ticket) then Grants(PopHead(l))
    else if l.active + l.queue[0].weight > l.limit then []
    else [l.queue[0].ticket] + Grants(GrantHead(l))
  }

  function Return(l: Lane, weight: int): Lane {
    l.(active := if l.active - weight < 0 then 0 else l.active - weight)
  }

  function Release(l: Lane, weight: int): Lane {
    Drain(Return(l, weight))
  }

  /** The queue without its first waiter that holds `ticket`. */
  function Without(q: seq<Waiter>, ticket: nat): seq<Waiter> {
    if q == [] then []
    else if q[0].ticket == ticket then q[1..]
    else [q[0]] + Without(q[1..], ticket)
  }

  function Drop(l: Lane, ticket: nat): Lane {
    l.(queue := Without(l.queue, ticket))
  }

  /** The `except CancelledError` branch: refund a grant that was never used, then drop. */
  function OnCancel(l: Lane, w: Waiter): Lane {
    Drop(if Granted(l, w.ticket) then l.(active := l.active - w.weight) else l, w.ticket)
  }

  /** The `except TimeoutError` branch: drop, with no refund. */
  function OnTimeout(l: Lane, w: Waiter): Lane {
    Drop(l, w.ticket)
  }

  /** The queue is empty or its head does not fit in the remaining budget. */
  predicate HeadBlocked(l: Lane) {
    l.queue == [] || l.active + l.queue[0].weight > l.limit
  }

  /** From any lane whatever, draining stops only at an empty queue or a live head that does not fit. */
  lemma {:induction false} DrainBlocks(l: Lane)
    ensures HeadBlocked(Drain(l))
    ensures Drain(l).queue != [] ==> !Done(l, Drain(l).queue[0].ticket)
    ensures Drain(l).limit == l.limit && Drain(l).capacity == l.capacity
    ensures |Drain(l).queue| <= |l.queue| && Drain(l).queue == l.queue[|l.queue| - |Drain(l).queue|..]
    decreases |l.queue|
  {
    if l.queue != [] {
      if Done(l, l.queue[0].ticket) {
        DrainBlocks(PopHead(l));
      } else if l.active + l.queue[0].weight <= l.limit {
        DrainBlocks(GrantHead(l));
        var rest := Drain(GrantHead(l)).queue;
        if rest != [] && Done(l, rest[0].ticket) {
          assert Done(GrantHead(l), rest[0].ticket);
          assert false;
        }
      }
    }
  }

  predicate DistinctTickets(q: seq<Waiter>) {
    forall i, j :: 0 <= i < j < |q| ==> q[i].ticket != q[j].ticket
  }

  /** The weight of the waiters of `q` that are still pending. */
  function LiveWeight(l: Lane, q: seq<Waiter>): int {
    if q == [] then 0 else (if Done(l, q[0].ticket) then 0 else q[0].weight) + LiveWeight(l, q[1..])
  }

  lemma {:induction false} LiveWeightSame(l: Lane, l': Lane, q: seq<Waiter>)
    requires forall i :: 0 <= i < |q| ==> Done(l, q[i].ticket) == Done(l', q[i].ticket)
    ensures LiveWeight(l, q) == LiveWeight(l', q)
  {
    if q != [] {
      LiveWeightSame(l, l', q[1..]);
    }
  }

  /** The part of the queue that draining takes off. */
  function Taken(l: Lane): seq<Waiter> {
    DrainBlocks(l);
    l.queue[..|l.queue| - |Drain(l).queue|]
  }

  lemma TakenUnfolds(l: Lane, l1: Lane)
    requires l.queue != [] && l1.queue == l.queue[1..] && Drain(l) == Drain(l1)
    ensures Taken(l) == [l.queue[0]] + Taken(l1)
  {
    hide Drain;
    DrainBlocks(l);
    DrainBlocks(l1);
  }

  predicate InLine(q: seq<Waiter>, t: nat) {
    q != [] && (q[0].ticket == t || InLine(q[1..], t))
  }

  /** `t` was granted before, or is a pending waiter of `q`. */
  predicate GrantedWith(l: Lane, q: seq<Waiter>, t: nat) {
    Granted(l, t) || (!Done(l, t) && InLine(q, t))
  }

  lemma NothingTaken(l: Lane, t: nat)
    ensures LiveWeight(l, []) == 0 && (GrantedWith(l, [], t) <==> Granted(l, t))
  {
  }

  /** Taking the head off, discarded or granted, keeps the account of the rest. */
  lemma TakenStep(l: Lane, rest: seq<Waiter>, t: nat)
    requires l.queue != [] && forall i :: 0 <= i < |rest| ==> rest[i].ticket != l.queue[0].ticket
    ensures var h := l.queue[0];
      var l1 := if Done(l, h.ticket) then PopHead(l) else GrantHead(l);
      && l.active + LiveWeight(l, [h] + rest) == l1.active + LiveWeight(l1, rest)
      && (GrantedWith(l, [h] + rest, t) <==> GrantedWith(l1, rest, t))
  {
    var h := l.queue[0];
    var l1 := if Done(l, h.ticket) then PopHead(l) else GrantHead(l);
    assert ([h] + rest)[1..] == rest;
    LiveWeightSame(l, l1, rest);
  }

  lemma TakenIsTail(l: Lane, l1: Lane)
    requires l.queue != [] && DistinctTickets(l.queue) && l1.queue == l.queue[1..] && Drain(l) == Drain(l1)
    ensures Taken(l) == [l.queue[0]] + Taken(l1) && DistinctTickets(l1.queue)
    ensures forall i :: 0 <= i < |Taken(l1)| ==> Taken(l1)[i].ticket != l.queue[0].ticket
  {
    hide Drain;
    TakenUnfolds(l, l1);
    DrainBlocks(l1);
    assert forall i :: 0 <= i < |l1.queue| ==> l1.queue[i] == l.queue[i + 1];
  }

  /** Draining charges exactly the pending waiters it takes off and resolves their futures, and nobody else's. */
  lemma {:induction false} DrainExactly(l: Lane, t: nat)
    requires DistinctTickets(l.queue)
    ensures Drain(l).active == l.active + LiveWeight(l, Taken(l))
    ensures Granted(Drain(l), t) <==> GrantedWith(l, Taken(l), t)
    decreases |l.queue|
  {
    hide LiveWeight, GrantedWith, Taken, DistinctTickets;
    if l.queue != [] && (Done(l, l.queue[0].ticket) || l.active + l.queue[0].weight <= l.limit) {
      var l1 := if Done(l, l.queue[0].ticket) then PopHead(l) else GrantHead(l);
      TakenIsTail(l, l1);
      DrainExactly(l1, t);
      TakenStep(l, Taken(l1), t);
    } else {
      TakesNothing(l);
      NothingTaken(l, t);
    }
  }

  lemma TakesNothing(l: Lane)
    requires Drain(l) == l
    ensures Taken(l) == []
  {
  }

  /** A release frees its weight, down to zero and no further, and then charges whom it grants. */
  lemma ReleaseExactly(l: Lane, weight: int)
    requires DistinctTickets(l.queue)
    ensures Release(l, weight).active ==
      (if l.active < weight then 0 else l.active - weight) + LiveWeight(l, Taken(Return(l, weight)))
  {
    hide Drain, LiveWeight;
    DrainExactly(Return(l, weight), 0);
    LiveWeightSame(l, Return(l, weight), Taken(Return(l, weight)));
  }
}
