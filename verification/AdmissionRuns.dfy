/** Every interleaving of callers, grants, cancellations and timeouts on one resource class.

    A ticket is the index of a request in arrival order. "Future resolved" (the controller granted
    the waiter) and "task resumed" (the caller runs again) are separate steps, because a cancellation
    or a timeout can be delivered between them. */
module AdmissionRuns {
  import opened AdmissionLane

  /** Where a request's caller is. `Refunded`: granted, then cancelled before resuming.
      `Lost`: granted, then reported as timed out. `Dropped`: cancelled or timed out ungranted. */
  datatype Phase = Waiting | Holding | Released | Refused | Dropped | Refunded | Lost

  datatype Task = Task(weight: int, phase: Phase)

  /** `log` is the sequence of granted tickets, by either path, in grant order. */
  datatype World = World(lane: Lane, tasks: seq<Task>, log: seq<nat>)

  datatype Event =
    | Arrive(weight: int)
    | Finish(t: nat)
    | FutureCancelled(t: nat)
    | Resume(t: nat)
    | CancelDelivered(t: nat)
    | TimeoutDelivered(t: nat)

  function Start(limit: nat, capacity: int): World {
    World(Lane(limit, capacity, 0, [], map[]), [], [])
  }

  predicate InPhase(w: World, t: nat, p: Phase) {
    t < |w.tasks| && w.tasks[t].phase == p
  }

  /** Callers release exactly what they were admitted for, once; handlers run for suspended callers only. */
  predicate Enabled(w: World, e: Event) {
    match e
    case Arrive(_) => true
    case Finish(t) => InPhase(w, t, Holding)
    case FutureCancelled(t) => InPhase(w, t, Waiting) && !Done(w.lane, t)
    case Resume(t) => InPhase(w, t, Waiting) && Granted(w.lane, t)
    case CancelDelivered(t) => InPhase(w, t, Waiting)
    case TimeoutDelivered(t) => InPhase(w, t, Waiting)
  }

  function Goto(w: World, t: nat, p: Phase): World
    requires t < |w.tasks|
  {
    w.(tasks := w.tasks[t := w.tasks[t].(phase := p)])
  }

  function Arrived(w: World, weight: int): World {
    var t := |w.tasks|;
    if weight <= 0 then w.(tasks := w.tasks + [Task(weight, Refused)])
    else
      var w' := w.(lane := Acquire(w.lane, weight, t));
      match Decide(w.lane, weight)
      case Admitted => w'.(tasks := w.tasks + [Task(weight, Holding)], log := w.log + [t])
      case Enqueued => w'.(tasks := w.tasks + [Task(weight, Waiting)])
      case _ => w'.(tasks := w.tasks + [Task(weight, Refused)])
  }

  function Drained(w: World): World {
    w.(lane := Drain(w.lane), log := w.log + Grants(w.lane))
  }

  function Returned(w: World, t: nat): World
    requires t < |w.tasks|
  {
    Goto(w, t, Released).(lane := Return(w.lane, w.tasks[t].weight))
  }

  function Next(w: World, e: Event): World
    requires Enabled(w, e)
  {
    match e
    case Arrive(weight) => Arrived(w, weight)
    case Finish(t) => Drained(Returned(w, t))
    case FutureCancelled(t) => w.(lane := w.lane.(futures := w.lane.futures[t := Cancelled]))
    case Resume(t) => Goto(w, t, Holding)
    case CancelDelivered(t) =>
      Goto(w, t, if Granted(w.lane, t) then Refunded else Dropped)
        .(lane := OnCancel(w.lane, Waiter(t, w.tasks[t].weight)))
    case TimeoutDelivered(t) =>
      Goto(w, t, if Granted(w.lane, t) then Lost else Dropped)
        .(lane := OnTimeout(w.lane, Waiter(t, w.tasks[t].weight)))
  }

  predicate IsRun(w: World, es: seq<Event>)
    decreases |es|
  {
    es == [] || (Enabled(w, es[0]) && IsRun(Next(w, es[0]), es[1..]))
  }

  function After(w: World, es: seq<Event>): World
    requires IsRun(w, es)
    decreases |es|
  {
    if es == [] then w else After(Next(w, es[0]), es[1..])
  }

  // ---- Accounting ----

  /** Why a request's weight counts as active, if it does. */
  datatype Charge = Held | InFlight | Leaked | Free

  function ChargeOf(w: World, t: nat): Charge
    requires t < |w.tasks|
  {
    match w.tasks[t].phase
    case Holding => Held
    case Waiting => if Granted(w.lane, t) then InFlight else Free
    case Lost => Leaked
    case _ => Free
  }

  /** Total weight of the first `n` requests that are charged for one of the reasons in `why`. */
  function Weigh(w: World, why: set<Charge>, n: nat): int
    requires n <= |w.tasks|
  {
    if n == 0 then 0
    else Weigh(w, why, n - 1) + if ChargeOf(w, n - 1) in why then w.tasks[n - 1].weight else 0
  }

  function WeightOf(w: World, c: Charge): int {
    Weigh(w, {c}, |w.tasks|)
  }

  const CHARGED: set<Charge> := {Held, InFlight, Leaked}

  predicate Queued(w: World, t: nat) {
    exists i :: 0 <= i < |w.lane.queue| && w.lane.queue[i].ticket == t
  }

  predicate Ordered(q: seq<Waiter>) {
    forall i, j :: 0 <= i < j < |q| ==> q[i].ticket < q[j].ticket
  }

  predicate Ascending(log: seq<nat>) {
    forall i, j :: 0 <= i < j < |log| ==> log[i] < log[j]
  }

  /** A granted request: it has been, or may still be, admitted. */
  predicate EverGranted(w: World, t: nat)
    requires t < |w.tasks|
  {
    match w.tasks[t].phase
    case Holding | Released | Refunded | Lost => true
    case Waiting => Granted(w.lane, t)
    case _ => false
  }

  /** Queue entries are live requests in arrival order; nobody pending is missing from the queue. */
  predicate QueueOk(w: World) {
    && Ordered(w.lane.queue)
    && (forall i :: 0 <= i < |w.lane.queue| ==> EntryOk(w, w.lane.queue[i]))
    && (forall t :: t in w.lane.futures ==> t < |w.tasks|)
    && (forall t :: 0 <= t < |w.tasks| && w.tasks[t].phase.Waiting? ==>
          t in w.lane.futures && (w.lane.futures[t].Pending? ==> Queued(w, t)))
  }

  predicate EntryOk(w: World, q: Waiter) {
    && InPhase(w, q.ticket, Waiting)
    && w.tasks[q.ticket].weight == q.weight
    && 0 < q.weight <= w.lane.limit
    && !Granted(w.lane, q.ticket)
  }

  /** The grant log is strictly increasing, lists exactly the granted requests, and is behind the queue. */
  predicate LogOk(w: World) {
    && Ascending(w.log)
    && (forall t :: t in w.log ==> t < |w.tasks|)
    && (forall t :: 0 <= t < |w.tasks| ==> (t in w.log <==> EverGranted(w, t)))
    && (forall t, i :: t in w.log && 0 <= i < |w.lane.queue| ==> t < w.lane.queue[i].ticket)
  }

  predicate BudgetOk(w: World) {
    && w.lane.active == Weigh(w, CHARGED, |w.tasks|)
    && (w.lane.limit > 0 ==> w.lane.active <= w.lane.limit)
    && (w.lane.limit == 0 ==> w.lane.queue == [])
    && (|w.lane.queue| == 0 || |w.lane.queue| <= w.lane.capacity)
    && (forall t :: 0 <= t < |w.tasks| && !w.tasks[t].phase.Refused? ==> w.tasks[t].weight > 0)
  }

  predicate Inv(w: World) {
    QueueOk(w) && LogOk(w) && BudgetOk(w)
  }

  /** Changing one request's charge changes the total by that request's weight. */
  lemma {:induction false} WeighChange(w: World, w': World, why: set<Charge>, n: nat, k: nat)
    requires n <= |w.tasks| && n <= |w'.tasks|
    requires forall i :: 0 <= i < n && i != k ==> ChargeOf(w, i) == ChargeOf(w', i)
    requires forall i :: 0 <= i < n ==> w.tasks[i].weight == w'.tasks[i].weight
    ensures k >= n ==> Weigh(w', why, n) == Weigh(w, why, n)
    ensures k < n ==>
      Weigh(w', why, n) == Weigh(w, why, n)
        - (if ChargeOf(w, k) in why then w.tasks[k].weight else 0)
        + (if ChargeOf(w', k) in why then w.tasks[k].weight else 0)
  {
    if n > 0 {
      WeighChange(w, w', why, n - 1, k);
    }
  }

  lemma {:induction false} WeighNonNegative(w: World, why: set<Charge>, n: nat)
    requires n <= |w.tasks| && BudgetOk(w) && Free !in why
    ensures Weigh(w, why, n) >= 0
  {
    if n > 0 {
      WeighNonNegative(w, why, n - 1);
    }
  }

  lemma {:induction false} WeighAtLeast(w: World, why: set<Charge>, n: nat, k: nat)
    requires k < n <= |w.tasks| && BudgetOk(w) && Free !in why && ChargeOf(w, k) in why
    ensures Weigh(w, why, n) >= w.tasks[k].weight
  {
    if n - 1 > k {
      WeighAtLeast(w, why, n - 1, k);
    } else {
      WeighNonNegative(w, why, n - 1);
    }
  }

  lemma {:induction false} WeighSplits(w: World, n: nat)
    requires n <= |w.tasks|
    ensures Weigh(w, CHARGED, n) == Weigh(w, {Held}, n) + Weigh(w, {InFlight}, n) + Weigh(w, {Leaked}, n)
  {
    if n > 0 {
      WeighSplits(w, n - 1);
    }
  }

  // ---- Every step keeps the invariant ----

  lemma StartInv(limit: nat, capacity: int)
    ensures Inv(Start(limit, capacity))
  {
  }

  lemma RefuseKeeps(w: World, weight: int)
    requires Inv(w)
    ensures Inv(w.(tasks := w.tasks + [Task(weight, Refused)]))
  {
    var w' := w.(tasks := w.tasks + [Task(weight, Refused)]);
    WeighChange(w, w', CHARGED, |w.tasks|, |w.tasks|);
    KeepQueued(w, w');
    assert forall i :: 0 <= i < |w.lane.queue| ==> EntryOk(w, w.lane.queue[i]) && EntryOk(w', w.lane.queue[i]);
    assert forall i :: 0 <= i < |w.tasks| ==> EverGranted(w', i) == EverGranted(w, i);
  }

  lemma AscendingAppend(log: seq<nat>, t: nat)
    requires Ascending(log) && forall x :: x in log ==> x < t
    ensures Ascending(log + [t])
  {
    forall i, j | 0 <= i < j < |log| + 1
      ensures (log + [t])[i] < (log + [t])[j]
    {
      assert log[i] in log;
    }
  }

  lemma AdmitKeeps(w: World, weight: int)
    requires Inv(w) && weight > 0 && Decide(w.lane, weight).Admitted?
    ensures Inv(Arrived(w, weight))
  {
    var w', n := Arrived(w, weight), |w.tasks|;
    AscendingAppend(w.log, n);
    WeighChange(w, w', CHARGED, n, n);
    assert forall i :: 0 <= i < n ==> EverGranted(w', i) == EverGranted(w, i);
    assert forall t :: 0 <= t <= n ==> (t in w'.log <==> t in w.log || t == n);
  }

  lemma EnqueueKeepsQueue(w: World, weight: int)
    requires Inv(w) && weight > 0 && Decide(w.lane, weight).Enqueued?
    ensures QueueOk(Arrived(w, weight))
  {
    var w', n := Arrived(w, weight), |w.tasks|;
    var q, q' := w.lane.queue, w'.lane.queue;
    assert q'[|q|].ticket == n;
    assert forall i :: 0 <= i < |q| ==> q'[i] == q[i] && EntryOk(w, q[i]) && EntryOk(w', q'[i]);
    forall t | Queued(w, t)
      ensures Queued(w', t)
    {
      var i :| 0 <= i < |q| && q[i].ticket == t;
      assert q'[i].ticket == t;
    }
  }

  lemma EnqueueKeeps(w: World, weight: int)
    requires Inv(w) && weight > 0 && Decide(w.lane, weight).Enqueued?
    ensures Inv(Arrived(w, weight))
  {
    var w', n := Arrived(w, weight), |w.tasks|;
    EnqueueKeepsQueue(w, weight);
    assert n !in w.lane.futures;
    assert forall i :: 0 <= i < n ==> ChargeOf(w', i) == ChargeOf(w, i);
    WeighChange(w, w', CHARGED, n, n);
    assert BudgetOk(w');
    assert forall i :: 0 <= i < n ==> EverGranted(w', i) == EverGranted(w, i);
    assert LogOk(w');
  }

  lemma ArriveKeeps(w: World, weight: int)
    requires Inv(w)
    ensures Inv(Arrived(w, weight))
  {
    if weight > 0 && Decide(w.lane, weight).Admitted? {
      AdmitKeeps(w, weight);
    } else if weight > 0 && Decide(w.lane, weight).Enqueued? {
      EnqueueKeeps(w, weight);
    } else {
      RefuseKeeps(w, weight);
    }
  }

  /** Everybody in the tail of the queue is still in it after its head is taken off. */
  lemma TailQueued(w: World, w': World, t: nat)
    requires w.lane.queue != [] && w'.lane.queue == w.lane.queue[1..]
    requires Queued(w, t) && t != w.lane.queue[0].ticket
    ensures Queued(w', t)
  {
    var i :| 0 <= i < |w.lane.queue| && w.lane.queue[i].ticket == t;
    assert w'.lane.queue[i - 1].ticket == t;
  }

  lemma PopKeeps(w: World)
    requires Inv(w) && w.lane.queue != [] && Done(w.lane, w.lane.queue[0].ticket)
    ensures Inv(w.(lane := PopHead(w.lane)))
  {
    var w' := w.(lane := PopHead(w.lane));
    WeighChange(w, w', CHARGED, |w.tasks|, |w.tasks|);
    forall t | 0 <= t < |w.tasks| && w.tasks[t].phase.Waiting? && w.lane.futures[t].Pending?
      ensures Queued(w', t)
    {
      TailQueued(w, w', t);
    }
    forall i | 0 <= i < |w'.lane.queue|
      ensures EntryOk(w', w'.lane.queue[i])
    {
      assert EntryOk(w, w.lane.queue[i + 1]);
    }
  }

  function Granting(w: World): World
    requires w.lane.queue != []
  {
    w.(lane := GrantHead(w.lane), log := w.log + [w.lane.queue[0].ticket])
  }

  lemma GrantKeepsQueue(w: World)
    requires QueueOk(w) && w.lane.queue != []
    ensures QueueOk(Granting(w))
  {
    var w' := Granting(w);
    forall t | 0 <= t < |w.tasks| && w.tasks[t].phase.Waiting? && w'.lane.futures[t].Pending?
      ensures Queued(w', t)
    {
      TailQueued(w, w', t);
    }
    assert EntryOk(w, w.lane.queue[0]);
    forall i | 0 <= i < |w'.lane.queue|
      ensures EntryOk(w', w'.lane.queue[i])
    {
      assert EntryOk(w, w.lane.queue[i + 1]);
    }
  }

  lemma GrantKeepsLog(w: World)
    requires QueueOk(w) && LogOk(w) && w.lane.queue != []
    ensures LogOk(Granting(w))
  {
    var w', h := Granting(w), w.lane.queue[0].ticket;
    assert EntryOk(w, w.lane.queue[0]);
    assert forall t :: t in w'.log <==> t in w.log || t == h;
    AscendingAppend(w.log, h);
    forall t | 0 <= t < |w.tasks| && t != h
      ensures EverGranted(w', t) == EverGranted(w, t)
    {
    }
    assert forall i :: 0 <= i < |w'.lane.queue| ==> w'.lane.queue[i] == w.lane.queue[i + 1];
  }

  lemma GrantKeeps(w: World)
    requires Inv(w) && w.lane.queue != [] && w.lane.active + w.lane.queue[0].weight <= w.lane.limit
    ensures Inv(Granting(w))
  {
    var w', h := Granting(w), w.lane.queue[0];
    assert EntryOk(w, h);
    assert ChargeOf(w, h.ticket) == Free && ChargeOf(w', h.ticket) == InFlight;
    WeighChange(w, w', CHARGED, |w.tasks|, h.ticket);
    assert BudgetOk(w');
    GrantKeepsQueue(w);
    GrantKeepsLog(w);
  }

  lemma {:induction false} DrainKeeps(w: World)
    requires Inv(w)
    ensures Inv(Drained(w))
    decreases |w.lane.queue|
  {
    if w.lane.queue == [] {
      assert Drained(w) == w;
    } else if Done(w.lane, w.lane.queue[0].ticket) {
      PopKeeps(w);
      DrainKeeps(w.(lane := PopHead(w.lane)));
    } else if w.lane.active + w.lane.queue[0].weight > w.lane.limit {
      assert Drained(w) == w;
    } else {
      GrantKeeps(w);
      var w' := Granting(w);
      DrainKeeps(w');
      assert w'.log + Grants(w'.lane) == w.log + Grants(w.lane);
    }
  }

  lemma ReturnKeeps(w: World, t: nat)
    requires Inv(w) && InPhase(w, t, Holding)
    ensures Inv(Returned(w, t))
    ensures Returned(w, t).lane.active == w.lane.active - w.tasks[t].weight
  {
    var w' := Returned(w, t);
    WeighAtLeast(w, CHARGED, |w.tasks|, t);
    WeighChange(w, w', CHARGED, |w.tasks|, t);
    assert forall i :: 0 <= i < |w.lane.queue| ==> EntryOk(w, w.lane.queue[i]) && EntryOk(w', w.lane.queue[i]);
    KeepQueued(w, w');
  }

  lemma KeepQueued(w: World, w': World)
    requires w.lane.queue == w'.lane.queue
    ensures forall t :: Queued(w, t) == Queued(w', t)
  {
  }

  lemma ResumeKeeps(w: World, t: nat)
    requires Inv(w) && Enabled(w, Resume(t))
    ensures Inv(Next(w, Resume(t)))
  {
    var w' := Next(w, Resume(t));
    WeighChange(w, w', CHARGED, |w.tasks|, t);
    assert forall i :: 0 <= i < |w.lane.queue| ==> EntryOk(w, w.lane.queue[i]) && EntryOk(w', w.lane.queue[i]);
    KeepQueued(w, w');
  }

  lemma FutureCancelledKeeps(w: World, t: nat)
    requires Inv(w) && Enabled(w, FutureCancelled(t))
    ensures Inv(Next(w, FutureCancelled(t)))
  {
    var w' := Next(w, FutureCancelled(t));
    assert forall i :: 0 <= i < |w.tasks| ==> ChargeOf(w, i) == ChargeOf(w', i);
    WeighChange(w, w', CHARGED, |w.tasks|, |w.tasks|);
    assert forall i :: 0 <= i < |w.lane.queue| ==> EntryOk(w, w.lane.queue[i]) && EntryOk(w', w.lane.queue[i]);
    KeepQueued(w, w');
    assert forall i :: 0 <= i < |w.tasks| ==> EverGranted(w', i) == EverGranted(w, i);
  }

  lemma OrderedCons(x: Waiter, q: seq<Waiter>)
    requires Ordered(q) && forall y :: y in q ==> x.ticket < y.ticket
    ensures Ordered([x] + q)
  {
    forall i, j | 0 <= i < j < |q| + 1
      ensures ([x] + q)[i].ticket < ([x] + q)[j].ticket
    {
      assert q[j - 1] in q;
    }
  }

  lemma OrderedTail(q: seq<Waiter>)
    requires Ordered(q) && q != []
    ensures Ordered(q[1..]) && forall y :: y in q[1..] ==> q[0].ticket < y.ticket
    ensures forall y :: y in q <==> y == q[0] || y in q[1..]
  {
  }

  /** Dropping a ticket keeps the order and every other entry. */
  lemma {:induction false} WithoutKeeps(q: seq<Waiter>, t: nat)
    requires Ordered(q)
    ensures Ordered(Without(q, t)) && |Without(q, t)| <= |q|
    ensures forall x :: x in Without(q, t) <==> x in q && x.ticket != t
  {
    hide Ordered;
    if q != [] {
      OrderedTail(q);
      if q[0].ticket != t {
        WithoutKeeps(q[1..], t);
        OrderedCons(q[0], Without(q[1..], t));
      }
    }
  }

  predicate IsHandler(e: Event, t: nat) {
    e == CancelDelivered(t) || e == TimeoutDelivered(t)
  }

  lemma HandlerKeepsEntries(w: World, t: nat, e: Event)
    requires QueueOk(w) && InPhase(w, t, Waiting) && IsHandler(e, t)
    ensures var q, w' := w.lane.queue, Next(w, e);
      && w'.lane.queue == Without(q, t) && Ordered(w'.lane.queue) && |w'.lane.queue| <= |q|
      && (forall x :: x in w'.lane.queue <==> x in q && x.ticket != t)
      && forall i :: 0 <= i < |w'.lane.queue| ==> EntryOk(w', w'.lane.queue[i])
  {
    var w' := Next(w, e);
    var q, q' := w.lane.queue, w'.lane.queue;
    WithoutKeeps(q, t);
    forall i | 0 <= i < |q'|
      ensures EntryOk(w', q'[i])
    {
      assert q'[i] in q' && q'[i] in q;
      assert EntryOk(w, q'[i]);
    }
  }

  /** Whoever else is queued stays queued when only the entry of `t` is taken out. */
  lemma OthersQueued(w: World, w': World, t: nat, s: nat)
    requires Queued(w, s) && s != t
    requires forall x :: x in w.lane.queue && x.ticket != t ==> x in w'.lane.queue
    ensures Queued(w', s)
  {
    var i :| 0 <= i < |w.lane.queue| && w.lane.queue[i].ticket == s;
    assert w.lane.queue[i] in w'.lane.queue;
    var j :| 0 <= j < |w'.lane.queue| && w'.lane.queue[j] == w.lane.queue[i];
    assert w'.lane.queue[j].ticket == s;
  }

  lemma HandlerKeepsQueue(w: World, t: nat, e: Event)
    requires QueueOk(w) && InPhase(w, t, Waiting) && IsHandler(e, t)
    ensures QueueOk(Next(w, e))
    ensures forall x :: x in Next(w, e).lane.queue ==> x in w.lane.queue
    ensures |Next(w, e).lane.queue| <= |w.lane.queue|
  {
    hide EntryOk, Queued, Ordered, Without;
    var w' := Next(w, e);
    HandlerKeepsEntries(w, t, e);
    assert |w'.tasks| == |w.tasks| && w'.lane.futures == w.lane.futures;
    forall s | 0 <= s < |w'.tasks| && w'.tasks[s].phase.Waiting?
      ensures s in w'.lane.futures && (w'.lane.futures[s].Pending? ==> Queued(w', s))
    {
      assert s != t && w.tasks[s].phase.Waiting?;
      if w'.lane.futures[s].Pending? {
        OthersQueued(w, w', t, s);
      }
    }
  }

  lemma HandlerKeepsLog(w: World, t: nat, e: Event)
    requires QueueOk(w) && LogOk(w) && InPhase(w, t, Waiting) && IsHandler(e, t)
    ensures LogOk(Next(w, e))
  {
    var w' := Next(w, e);
    HandlerKeepsQueue(w, t, e);
    forall s | 0 <= s < |w.tasks|
      ensures EverGranted(w', s) == EverGranted(w, s)
    {
    }
    forall s, i | s in w'.log && 0 <= i < |w'.lane.queue|
      ensures s < w'.lane.queue[i].ticket
    {
      assert w'.lane.queue[i] in w.lane.queue;
    }
  }

  lemma HandlerKeepsBudget(w: World, t: nat, e: Event)
    requires BudgetOk(w) && InPhase(w, t, Waiting) && IsHandler(e, t)
    requires |Next(w, e).lane.queue| <= |w.lane.queue|
    ensures BudgetOk(Next(w, e))
    ensures Next(w, e).lane.active ==
      w.lane.active - if e.CancelDelivered? && Granted(w.lane, t) then w.tasks[t].weight else 0
  {
    WeighChange(w, Next(w, e), CHARGED, |w.tasks|, t);
  }

  /** A handler takes its own request out of the queue; only the cancel handler settles its charge. */
  lemma HandlerKeeps(w: World, t: nat, e: Event)
    requires Inv(w) && InPhase(w, t, Waiting) && IsHandler(e, t)
    ensures Inv(Next(w, e))
    ensures forall x :: x in Next(w, e).lane.queue <==> x in w.lane.queue && x.ticket != t
    ensures Next(w, e).lane.active ==
      w.lane.active - if e.CancelDelivered? && Granted(w.lane, t) then w.tasks[t].weight else 0
  {
    hide Next, QueueOk, LogOk, BudgetOk, Granted, EntryOk;
    HandlerKeepsEntries(w, t, e);
    HandlerKeepsQueue(w, t, e);
    HandlerKeepsLog(w, t, e);
    HandlerKeepsBudget(w, t, e);
  }

  lemma NextKeeps(w: World, e: Event)
    requires Inv(w) && Enabled(w, e)
    ensures Inv(Next(w, e))
  {
    match e
    case Arrive(weight) => ArriveKeeps(w, weight);
    case Finish(t) => ReturnKeeps(w, t); DrainKeeps(Returned(w, t));
    case FutureCancelled(t) => FutureCancelledKeeps(w, t);
    case Resume(t) => ResumeKeeps(w, t);
    case CancelDelivered(t) => HandlerKeeps(w, t, e);
    case TimeoutDelivered(t) => HandlerKeeps(w, t, e);
  }

  lemma {:induction false} RunKeeps(w: World, es: seq<Event>)
    requires Inv(w) && IsRun(w, es)
    ensures Inv(After(w, es))
    decreases |es|
  {
    if es != [] {
      NextKeeps(w, es[0]);
      RunKeeps(Next(w, es[0]), es[1..]);
    }
  }
}
