/** What holds of every run of one resource class, from its empty start or from any reachable state. */
module AdmissionTheorems {
  import opened AdmissionLane
  import opened AdmissionRuns

  // ---- Conservation and order ----

  /** Active units are exactly held + granted-but-not-resumed + leaked units, and stay within the budget. */
  lemma Conservation(limit: nat, capacity: int, es: seq<Event>)
    requires IsRun(Start(limit, capacity), es)
    ensures var w := After(Start(limit, capacity), es);
      && w.lane.active == WeightOf(w, Held) + WeightOf(w, InFlight) + WeightOf(w, Leaked)
      && 0 <= w.lane.active
      && (limit > 0 ==> w.lane.active <= limit)
      && (w.lane.queue == [] || |w.lane.queue| <= capacity)
  {
    StartInv(limit, capacity);
    RunKeeps(Start(limit, capacity), es);
    RunKeepsShape(Start(limit, capacity), es);
    var w := After(Start(limit, capacity), es);
    WeighSplits(w, |w.tasks|);
    WeighNonNegative(w, CHARGED, |w.tasks|);
  }

  lemma {:induction false} RunKeepsShape(w: World, es: seq<Event>)
    requires IsRun(w, es)
    ensures var w' := After(w, es);
      w'.lane.limit == w.lane.limit && w'.lane.capacity == w.lane.capacity && |w.tasks| <= |w'.tasks|
    decreases |es|
  {
    if es != [] {
      if es[0].Finish? {
        DrainBlocks(Returned(w, es[0].t).lane);
      }
      RunKeepsShape(Next(w, es[0]), es[1..]);
    }
  }

  /** Grants happen in arrival order, and nobody who arrived before a granted request is still pending. */
  lemma NoOvertaking(limit: nat, capacity: int, es: seq<Event>)
    requires IsRun(Start(limit, capacity), es)
    ensures var w := After(Start(limit, capacity), es);
      && Ascending(w.log)
      && (forall t :: 0 <= t < |w.tasks| ==> (t in w.log <==> EverGranted(w, t)))
      && (forall s, t :: t in w.log && 0 <= s < t && InPhase(w, s, Waiting) ==> Done(w.lane, s))
  {
    StartInv(limit, capacity);
    RunKeeps(Start(limit, capacity), es);
    var w := After(Start(limit, capacity), es);
    forall s, t | t in w.log && 0 <= s < t && InPhase(w, s, Waiting)
      ensures Done(w.lane, s)
    {
      LogBehindQueue(w, t);
    }
  }

  lemma LogBehindQueue(w: World, t: nat)
    requires Inv(w) && t in w.log
    ensures forall s :: Queued(w, s) ==> t < s
  {
  }

  /** An arrival goes through at once exactly when the class is unlimited, or nobody queues and the weight fits. */
  predicate AtOnce(w: World, weight: int) {
    weight > 0 && (w.lane.limit == 0 || (w.lane.queue == [] && w.lane.active + weight <= w.lane.limit))
  }

  /** What an arrival meets after any run: it holds its weight at once, or is refused because its weight is not positive
      or above the budget or because the queue is full, or else waits at the end of the queue; nobody else is touched. */
  lemma ArrivalExactly(limit: nat, capacity: int, es: seq<Event>, weight: int)
    requires IsRun(Start(limit, capacity), es)
    ensures var w := After(Start(limit, capacity), es);
      var t, w' := |w.tasks|, Next(w, Arrive(weight));
      && |w'.tasks| == t + 1 && w'.tasks[..t] == w.tasks && w'.tasks[t].weight == weight
      && (w'.tasks[t].phase.Holding? <==> AtOnce(w, weight))
      && (w'.tasks[t].phase.Refused? <==>
            weight <= 0 || (limit > 0 && (weight > limit || (!AtOnce(w, weight) && |w.lane.queue| >= capacity))))
      && (w'.tasks[t].phase.Holding? || w'.tasks[t].phase.Refused? || w'.tasks[t].phase.Waiting?)
      && w'.lane.active == w.lane.active + (if AtOnce(w, weight) then weight else 0)
      && w'.lane.queue == w.lane.queue + (if w'.tasks[t].phase.Waiting? then [Waiter(t, weight)] else [])
      && w'.lane.futures == (if w'.tasks[t].phase.Waiting? then w.lane.futures[t := Pending] else w.lane.futures)
      && w'.log == w.log + (if AtOnce(w, weight) then [t] else [])
  {
    Conservation(limit, capacity, es);
    RunKeepsShape(Start(limit, capacity), es);
  }

  const BROWSER_SLOTS_PER_REPLICA := 16
  const BROWSER_ADMISSION_WEIGHT := 8

  /** How many of the first `n` requests are in flight, each weighing `weight`. */
  function InFlightCount(w: World, weight: int, n: nat): nat
    requires n <= |w.tasks|
  {
    if n == 0 then 0
    else
      var here := if w.tasks[n - 1].phase.Holding? && w.tasks[n - 1].weight == weight then 1 else 0;
      InFlightCount(w, weight, n - 1) + here
  }

  lemma {:induction false} CountBelowWeight(w: World, weight: int, n: nat)
    requires n <= |w.tasks| && BudgetOk(w) && weight > 0
    ensures InFlightCount(w, weight, n) * weight <= Weigh(w, CHARGED, n)
  {
    if n > 0 {
      CountBelowWeight(w, weight, n - 1);
      var c := InFlightCount(w, weight, n - 1);
      assert (c + 1) * weight == c * weight + weight;
    }
  }

  /** The scale-out budget admits at most 16 browser operations per replica at any moment of any run. */
  lemma BrowserOperationsBounded(replicas: nat, capacity: int, es: seq<Event>)
    requires 1 <= replicas
    requires IsRun(Start(replicas * BROWSER_SLOTS_PER_REPLICA * BROWSER_ADMISSION_WEIGHT, capacity), es)
    ensures var w := After(Start(replicas * BROWSER_SLOTS_PER_REPLICA * BROWSER_ADMISSION_WEIGHT, capacity), es);
      InFlightCount(w, BROWSER_ADMISSION_WEIGHT, |w.tasks|) <= BROWSER_SLOTS_PER_REPLICA * replicas
  {
    var limit := replicas * BROWSER_SLOTS_PER_REPLICA * BROWSER_ADMISSION_WEIGHT;
    StartInv(limit, capacity);
    RunKeeps(Start(limit, capacity), es);
    Conservation(limit, capacity, es);
    var w := After(Start(limit, capacity), es);
    CountBelowWeight(w, BROWSER_ADMISSION_WEIGHT, |w.tasks|);
  }

  // ---- The head of the queue ----

  /** Every step but a handler keeps the head blocked; releasing establishes it from any state. */
  lemma BlockedKept(w: World, e: Event)
    requires Enabled(w, e)
    requires e.Finish? || (HeadBlocked(w.lane) && !e.CancelDelivered? && !e.TimeoutDelivered?)
    requires Inv(w)
    ensures HeadBlocked(Next(w, e).lane)
  {
    if e.Finish? {
      DrainBlocks(Returned(w, e.t).lane);
    }
  }

  /** What a handler for `t` would leave at the head, judged before it runs. */
  predicate HandlerSafe(w: World, e: Event)
    requires Enabled(w, e) && (e.CancelDelivered? || e.TimeoutDelivered?)
  {
    var q := w.lane.queue;
    if Granted(w.lane, e.t) then
      e.TimeoutDelivered? || q == [] || w.lane.active + q[0].weight > w.lane.limit + w.tasks[e.t].weight
    else
      q == [] || q[0].ticket != e.t || |q| == 1 || w.lane.active + q[1].weight > w.lane.limit
  }

  /** A handler leaves the head blocked exactly when it is safe: neither handler drains. */
  lemma HandlerBlocksExactly(w: World, e: Event)
    requires Inv(w) && HeadBlocked(w.lane) && Enabled(w, e)
    requires e.CancelDelivered? || e.TimeoutDelivered?
    ensures HeadBlocked(Next(w, e).lane) <==> HandlerSafe(w, e)
  {
    var q := w.lane.queue;
    if q != [] {
      assert EntryOk(w, q[0]);
      if Granted(w.lane, e.t) {
        WithoutKeeps(q, e.t);
        NotQueued(q, e.t);
      } else if q[0].ticket != e.t {
        assert Without(q, e.t)[0] == q[0];
      }
    }
  }

  lemma {:induction false} NotQueued(q: seq<Waiter>, t: nat)
    requires forall i :: 0 <= i < |q| ==> q[i].ticket != t
    ensures Without(q, t) == q
  {
    if q != [] {
      NotQueued(q[1..], t);
    }
  }

  predicate NoHandlers(es: seq<Event>) {
    forall i :: 0 <= i < |es| ==> !es[i].CancelDelivered? && !es[i].TimeoutDelivered?
  }

  /** In runs in which no cancellation or timeout is delivered, somebody waiting means somebody active. */
  lemma {:induction false} QueueImpliesActive(w: World, es: seq<Event>)
    requires Inv(w) && HeadBlocked(w.lane) && IsRun(w, es) && NoHandlers(es)
    ensures var w' := After(w, es);
      HeadBlocked(w'.lane) && (w'.lane.queue != [] ==> w'.lane.active > 0)
    decreases |es|
  {
    if es != [] {
      NextKeeps(w, es[0]);
      BlockedKept(w, es[0]);
      QueueImpliesActive(Next(w, es[0]), es[1..]);
    } else if w.lane.queue != [] {
      assert EntryOk(w, w.lane.queue[0]);
    }
  }

  predicate BlockedThroughout(w: World, es: seq<Event>)
    requires IsRun(w, es)
    decreases |es|
  {
    HeadBlocked(w.lane) && (es == [] || BlockedThroughout(Next(w, es[0]), es[1..]))
  }

  /** Every handler of the run is safe at the moment it runs. */
  predicate HandlersSafe(w: World, es: seq<Event>)
    requires IsRun(w, es)
    decreases |es|
  {
    es == [] ||
      ((es[0].CancelDelivered? || es[0].TimeoutDelivered? ==> HandlerSafe(w, es[0]))
       && HandlersSafe(Next(w, es[0]), es[1..]))
  }

  /** Over a whole run the head stays blocked, so that nobody who fits is left waiting, if and only if every
      handler was safe when it ran. */
  lemma {:induction false} BlockedThroughoutExactly(w: World, es: seq<Event>)
    requires Inv(w) && HeadBlocked(w.lane) && IsRun(w, es)
    ensures BlockedThroughout(w, es) <==> HandlersSafe(w, es)
    decreases |es|
  {
    hide HandlerSafe, HeadBlocked;
    if es != [] {
      var e := es[0];
      NextKeeps(w, e);
      if e.CancelDelivered? || e.TimeoutDelivered? {
        HandlerBlocksExactly(w, e);
      } else {
        BlockedKept(w, e);
      }
      if HeadBlocked(Next(w, e).lane) {
        BlockedThroughoutExactly(Next(w, e), es[1..]);
      } else {
        assert !BlockedThroughout(Next(w, e), es[1..]);
      }
    }
  }

  // ---- Winding down ----

  /** How far a request is from being finished with the controller. */
  function Distance(w: World, t: nat): nat
    requires t < |w.tasks|
  {
    match w.tasks[t].phase
    case Holding => 1
    case Waiting => if Granted(w.lane, t) then 2 else 3
    case _ => 0
  }

  function Remaining(w: World, n: nat): nat
    requires n <= |w.tasks|
  {
    if n == 0 then 0 else Remaining(w, n - 1) + Distance(w, n - 1)
  }

  lemma {:induction false} RemainingLess(w: World, w': World, n: nat, k: nat)
    requires n <= |w.tasks| && n <= |w'.tasks|
    requires forall i :: 0 <= i < n ==> Distance(w', i) <= Distance(w, i)
    requires k < |w.tasks| && k < |w'.tasks| && Distance(w', k) < Distance(w, k)
    ensures Remaining(w', n) + (if k < n then 1 else 0) <= Remaining(w, n)
  {
    if n > 0 {
      RemainingLess(w, w', n - 1, k);
    }
  }

  /** Draining only ever resolves pending futures. */
  lemma {:induction false} DrainResolves(l: Lane)
    ensures forall t :: t in l.futures ==> t in Drain(l).futures
    ensures forall t :: Granted(l, t) ==> Granted(Drain(l), t)
    decreases |l.queue|
  {
    if l.queue != [] {
      if Done(l, l.queue[0].ticket) {
        DrainResolves(PopHead(l));
      } else if l.active + l.queue[0].weight <= l.limit {
        DrainResolves(GrantHead(l));
        assert forall t :: Granted(l, t) ==> Granted(GrantHead(l), t);
      }
    }
  }

  predicate WindDown(es: seq<Event>) {
    forall i :: 0 <= i < |es| ==> es[i].Resume? || es[i].Finish?
  }

  /** No caller can resume and no caller holds anything to release. */
  predicate Quiet(w: World) {
    forall t :: 0 <= t < |w.tasks| ==> !Enabled(w, Resume(t)) && !Enabled(w, Finish(t))
  }

  /** A quiet, blocked lane has served everybody, unless leaked units alone block its head. */
  lemma QuietMeansServed(w: World)
    requires Inv(w) && HeadBlocked(w.lane) && Quiet(w)
    ensures w.lane.active == WeightOf(w, Leaked)
    ensures w.lane.queue != [] ==> WeightOf(w, Leaked) + w.lane.queue[0].weight > w.lane.limit
    ensures WeightOf(w, Leaked) == 0 ==>
      w.lane.queue == [] && forall t :: InPhase(w, t, Waiting) ==> w.lane.futures[t].Cancelled?
  {
    NothingCharged(w, |w.tasks|);
    WeighSplits(w, |w.tasks|);
    if w.lane.queue != [] {
      assert EntryOk(w, w.lane.queue[0]);
    }
    if WeightOf(w, Leaked) == 0 {
      forall t | InPhase(w, t, Waiting)
        ensures w.lane.futures[t].Cancelled?
      {
        assert !Enabled(w, Resume(t));
        assert !Queued(w, t);
      }
    }
  }

  lemma {:induction false} NothingCharged(w: World, n: nat)
    requires n <= |w.tasks| && Quiet(w)
    ensures Weigh(w, {Held}, n) == 0 && Weigh(w, {InFlight}, n) == 0
  {
    if n > 0 {
      NothingCharged(w, n - 1);
      assert !Enabled(w, Resume(n - 1)) && !Enabled(w, Finish(n - 1));
    }
  }

  lemma {:induction false} WeighPhases(w: World, w': World, n: nat)
    requires n <= |w.tasks| && n <= |w'.tasks|
    requires forall i :: 0 <= i < n ==> w.tasks[i].weight == w'.tasks[i].weight
    requires forall i :: 0 <= i < n ==> w.tasks[i].phase.Lost? == w'.tasks[i].phase.Lost?
    ensures Weigh(w, {Leaked}, n) == Weigh(w', {Leaked}, n)
  {
    if n > 0 {
      WeighPhases(w, w', n - 1);
    }
  }

  lemma WindDownStep(w: World, e: Event)
    requires Inv(w) && Enabled(w, e) && (e.Resume? || e.Finish?)
    ensures var w' := Next(w, e);
      && |w'.tasks| == |w.tasks|
      && Remaining(w', |w'.tasks|) < Remaining(w, |w.tasks|)
      && WeightOf(w', Leaked) == WeightOf(w, Leaked)
  {
    if e.Finish? {
      DrainResolves(Returned(w, e.t).lane);
    }
    RemainingLess(w, Next(w, e), |w.tasks|, e.t);
    WeighPhases(w, Next(w, e), |w.tasks|);
  }

  /** However the admitted callers resume and release, they run out of steps, and when they do
      the lane is blocked and quiet; `QuietMeansServed` says what that leaves behind. */
  lemma {:induction false} WindDownTerminates(w: World, es: seq<Event>)
    requires Inv(w) && HeadBlocked(w.lane) && IsRun(w, es) && WindDown(es)
    ensures var w' := After(w, es);
      && Inv(w') && HeadBlocked(w'.lane)
      && |w'.tasks| == |w.tasks|
      && |es| + Remaining(w', |w'.tasks|) <= Remaining(w, |w.tasks|)
      && WeightOf(w', Leaked) == WeightOf(w, Leaked)
    decreases |es|
  {
    hide Inv, Next, Enabled, HeadBlocked;
    if es != [] {
      assert es[0].Resume? || es[0].Finish?;
      NextKeeps(w, es[0]);
      BlockedKept(w, es[0]);
      WindDownStep(w, es[0]);
      WindDownTerminates(Next(w, es[0]), es[1..]);
    }
  }

  /** Letting every admitted caller resume and release does reach a quiet class. */
  lemma {:induction false} WindDownReachesQuiet(w: World) returns (es: seq<Event>)
    requires Inv(w) && HeadBlocked(w.lane)
    ensures IsRun(w, es) && WindDown(es) && Quiet(After(w, es))
    decreases Remaining(w, |w.tasks|)
  {
    hide Inv, Next, HeadBlocked;
    es := [];
    if !Quiet(w) {
      var t :| 0 <= t < |w.tasks| && (Enabled(w, Resume(t)) || Enabled(w, Finish(t)));
      var e := if Enabled(w, Resume(t)) then Resume(t) else Finish(t);
      NextKeeps(w, e);
      BlockedKept(w, e);
      WindDownStep(w, e);
      var rest := WindDownReachesQuiet(Next(w, e));
      es := [e] + rest;
      assert es[1..] == rest;
    }
  }

  // ---- Where liveness fails ----

  /** Somebody is queued although nobody holds, or is about to hold, anything. */
  predicate Wedged(w: World) {
    w.lane.queue != [] && Quiet(w)
  }

  predicate IdleWedge(w: World) {
    Wedged(w) && w.lane.active == 0
  }

  /** One request holds the whole budget. */
  function Full(limit: nat, capacity: int): World {
    World(Lane(limit, capacity, limit, [], map[]), [Task(limit, Holding)], [0])
  }

  /** Another one that needs all of it waits. */
  function Behind(limit: nat, capacity: int): World {
    World(Lane(limit, capacity, limit, [Waiter(1, limit)], map[1 := Pending]),
          [Task(limit, Holding), Task(limit, Waiting)], [0])
  }

  /** The first has released; the second has been granted and not resumed. */
  function Handover(limit: nat, capacity: int): World {
    World(Lane(limit, capacity, limit, [], map[1 := Resolved]),
          [Task(limit, Released), Task(limit, Waiting)], [0, 1])
  }

  /** A small one waits behind the grant. */
  function Backlog(limit: nat, capacity: int): World {
    World(Lane(limit, capacity, limit, [Waiter(2, 1)], map[1 := Resolved, 2 := Pending]),
          [Task(limit, Released), Task(limit, Waiting), Task(1, Waiting)], [0, 1])
  }

  lemma FullReached(limit: nat, capacity: int)
    requires limit >= 1
    ensures Next(Start(limit, capacity), Arrive(limit)) == Full(limit, capacity)
  {
  }

  lemma BehindReached(limit: nat, capacity: int)
    requires limit >= 1 && capacity >= 1
    ensures Next(Full(limit, capacity), Arrive(limit)) == Behind(limit, capacity)
  {
  }

  lemma HandoverReached(limit: nat, capacity: int)
    requires limit >= 1
    ensures Enabled(Behind(limit, capacity), Finish(0))
    ensures Next(Behind(limit, capacity), Finish(0)) == Handover(limit, capacity)
  {
    var r := Returned(Behind(limit, capacity), 0).lane;
    assert r.queue[1..] == [];
    assert Drain(r) == Drain(GrantHead(r)) == GrantHead(r);
    assert Grants(GrantHead(r)) == [];
    assert Grants(r) == [1];
  }

  lemma BacklogReached(limit: nat, capacity: int)
    requires limit >= 1 && capacity >= 1
    ensures Next(Handover(limit, capacity), Arrive(1)) == Backlog(limit, capacity)
  {
  }

  lemma Unroll(w: World, es: seq<Event>)
    requires es != [] && Enabled(w, es[0])
    ensures IsRun(w, es) <==> IsRun(Next(w, es[0]), es[1..])
    ensures IsRun(w, es) ==> After(w, es) == After(Next(w, es[0]), es[1..])
    ensures |es| > 1 ==> es[1..][1..] == es[2..]
  {
  }

  lemma RunOfOne(w: World, e: Event)
    requires Enabled(w, e)
    ensures IsRun(w, [e]) && After(w, [e]) == Next(w, e)
  {
    assert [e][1..] == [];
    Unroll(w, [e]);
  }

  /** Three arrivals and a release lead from the idle class to the backlog, whatever the budget. */
  lemma BacklogRun(limit: nat, capacity: int, last: Event)
    requires limit >= 1 && capacity >= 1 && Enabled(Backlog(limit, capacity), last)
    ensures var es := [Arrive(limit), Arrive(limit), Finish(0), Arrive(1), last];
      && IsRun(Start(limit, capacity), es)
      && After(Start(limit, capacity), es) == Next(Backlog(limit, capacity), last)
  {
    hide Next, Full, Behind, Backlog, Handover;
    FullReached(limit, capacity);
    BehindReached(limit, capacity);
    HandoverReached(limit, capacity);
    BacklogReached(limit, capacity);
    var es := [Arrive(limit), Arrive(limit), Finish(0), Arrive(1), last];
    RunOfOne(Backlog(limit, capacity), last);
    Unroll(Handover(limit, capacity), es[3..]);
    Unroll(Behind(limit, capacity), es[2..]);
    Unroll(Full(limit, capacity), es[1..]);
    Unroll(Start(limit, capacity), es);
  }

  lemma BacklogWedges(limit: nat, capacity: int)
    requires limit >= 1
    ensures Enabled(Backlog(limit, capacity), CancelDelivered(1))
    ensures IdleWedge(Next(Backlog(limit, capacity), CancelDelivered(1)))
  {
    var w := Next(Backlog(limit, capacity), CancelDelivered(1));
    assert Without([Waiter(2, 1)], 1) == [Waiter(2, 1)];
    assert w.tasks == [Task(limit, Released), Task(limit, Refunded), Task(1, Waiting)];
  }

  /** Some run from the idle class ends in an idle wedge if and only if the class can queue at all. The run: a grant is
      cancelled before its caller resumes, its refund does not drain, and whoever queued behind it waits on. */
  lemma RefundWedgesExactly(limit: nat, capacity: int)
    ensures (exists es :: IsRun(Start(limit, capacity), es) && IdleWedge(After(Start(limit, capacity), es)))
      <==> limit >= 1 && capacity >= 1
  {
    if limit >= 1 && capacity >= 1 {
      BacklogWedges(limit, capacity);
      BacklogRun(limit, capacity, CancelDelivered(1));
    } else {
      StartInv(limit, capacity);
      forall es | IsRun(Start(limit, capacity), es)
        ensures !IdleWedge(After(Start(limit, capacity), es))
      {
        RunKeeps(Start(limit, capacity), es);
        RunKeepsShape(Start(limit, capacity), es);
      }
    }
  }

  /** Nothing that happens to a wedged class grants anybody; only a handler can take a waiter out. */
  lemma WedgeStep(w: World, e: Event)
    requires Inv(w) && Wedged(w) && Enabled(w, e)
    ensures Next(w, e).log == w.log && Quiet(Next(w, e))
    ensures !e.CancelDelivered? && !e.TimeoutDelivered? ==> Next(w, e).lane.queue != []
  {
    var w1 := Next(w, e);
    forall t | 0 <= t < |w1.tasks|
      ensures !Enabled(w1, Resume(t)) && !Enabled(w1, Finish(t))
    {
      if t < |w.tasks| {
        assert !Enabled(w, Resume(t)) && !Enabled(w, Finish(t));
      }
    }
  }

  /** Somebody is queued at every moment of the run. */
  predicate QueuedThroughout(w: World, es: seq<Event>)
    requires IsRun(w, es)
    decreases |es|
  {
    w.lane.queue != [] && (es == [] || QueuedThroughout(Next(w, es[0]), es[1..]))
  }

  /** A wedged class admits nobody in any continuation, cancellations and timeouts included, until its queue has
      been emptied. */
  lemma {:induction false} WedgeLasts(w: World, es: seq<Event>)
    requires Inv(w) && Wedged(w) && IsRun(w, es) && QueuedThroughout(w, es)
    ensures Wedged(After(w, es)) && After(w, es).log == w.log
    decreases |es|
  {
    hide Inv, Quiet, Next;
    if es != [] {
      NextKeeps(w, es[0]);
      WedgeStep(w, es[0]);
      assert QueuedThroughout(Next(w, es[0]), es[1..]);
      WedgeLasts(Next(w, es[0]), es[1..]);
    }
  }

  /** Without handlers the queue of a wedged class is never emptied: the wedge is for good. */
  lemma {:induction false} WedgeNeedsHandler(w: World, es: seq<Event>)
    requires Inv(w) && Wedged(w) && IsRun(w, es) && NoHandlers(es)
    ensures QueuedThroughout(w, es)
    decreases |es|
  {
    hide Inv, Quiet, Next;
    if es != [] {
      assert !es[0].CancelDelivered? && !es[0].TimeoutDelivered?;
      NextKeeps(w, es[0]);
      WedgeStep(w, es[0]);
      WedgeNeedsHandler(Next(w, es[0]), es[1..]);
    }
  }

  // ---- Leaked budget ----

  /** The weight that an event loses: that of a granted waiter which is reported as timed out. */
  function LostBy(w: World, e: Event): int
    requires Enabled(w, e)
  {
    if e.TimeoutDelivered? && Granted(w.lane, e.t) then w.tasks[e.t].weight else 0
  }

  function LostIn(w: World, es: seq<Event>): int
    requires IsRun(w, es)
    decreases |es|
  {
    if es == [] then 0 else LostBy(w, es[0]) + LostIn(Next(w, es[0]), es[1..])
  }

  /** Some event of the run is a timeout delivered to a request that has been granted. */
  predicate TimesOutGranted(w: World, es: seq<Event>)
    requires IsRun(w, es)
    decreases |es|
  {
    es != [] &&
      (|| (es[0].TimeoutDelivered? && Granted(w.lane, es[0].t))
       || TimesOutGranted(Next(w, es[0]), es[1..]))
  }

  lemma LeakStepExactly(w: World, e: Event)
    requires Inv(w) && Enabled(w, e)
    ensures WeightOf(Next(w, e), Leaked) == WeightOf(w, Leaked) + LostBy(w, e)
    ensures LostBy(w, e) >= 0 && (e.TimeoutDelivered? && Granted(w.lane, e.t) <==> LostBy(w, e) > 0)
  {
    var w' := Next(w, e);
    if e.TimeoutDelivered? {
      WeighChangeLost(w, w', |w.tasks|, e.t);
    } else {
      WeighPhases(w, w', |w.tasks|);
    }
  }

  /** Only the phase of `k` changes, and it may become lost. */
  lemma {:induction false} WeighChangeLost(w: World, w': World, n: nat, k: nat)
    requires n <= |w.tasks| == |w'.tasks| && k < |w.tasks| && !w.tasks[k].phase.Lost?
    requires forall i :: 0 <= i < |w.tasks| ==> w.tasks[i].weight == w'.tasks[i].weight
    requires forall i :: 0 <= i < |w.tasks| && i != k ==> w.tasks[i].phase == w'.tasks[i].phase
    ensures Weigh(w', {Leaked}, n) == Weigh(w, {Leaked}, n)
      + if k < n && w'.tasks[k].phase.Lost? then w.tasks[k].weight else 0
  {
    if n > 0 {
      WeighChangeLost(w, w', n - 1, k);
    }
  }

  /** A run leaks exactly the weight of the granted requests it reports as timed out; it leaks if and only if
      there is one. */
  lemma {:induction false} LeaksExactly(w: World, es: seq<Event>)
    requires Inv(w) && IsRun(w, es)
    ensures WeightOf(After(w, es), Leaked) == WeightOf(w, Leaked) + LostIn(w, es)
    ensures LostIn(w, es) >= 0
    ensures WeightOf(After(w, es), Leaked) > WeightOf(w, Leaked) <==> TimesOutGranted(w, es)
    decreases |es|
  {
    hide Next, Inv, LostBy, Granted, Enabled;
    if es != [] {
      NextKeeps(w, es[0]);
      LeakStepExactly(w, es[0]);
      LeaksExactly(Next(w, es[0]), es[1..]);
    }
  }

  lemma {:induction false} BlockedAtLast(w: World, es: seq<Event>)
    requires IsRun(w, es) && BlockedThroughout(w, es)
    ensures HeadBlocked(After(w, es).lane)
    decreases |es|
  {
    hide HeadBlocked;
    if es != [] {
      BlockedAtLast(Next(w, es[0]), es[1..]);
    }
  }

  /** Every run whose handlers are safe when they run, and that reports no granted request as timed out, serves
      everybody: after any resuming and releasing until nobody can do either, nothing is active, nobody is queued and
      nobody is pending. */
  lemma SafeRunsServeAll(limit: nat, capacity: int, es: seq<Event>, down: seq<Event>)
    requires IsRun(Start(limit, capacity), es)
    requires HandlersSafe(Start(limit, capacity), es) && !TimesOutGranted(Start(limit, capacity), es)
    requires IsRun(After(Start(limit, capacity), es), down) && WindDown(down)
    requires Quiet(After(After(Start(limit, capacity), es), down))
    ensures var w := After(After(Start(limit, capacity), es), down);
      && w.lane.active == 0 && w.lane.queue == []
      && forall t :: InPhase(w, t, Waiting) ==> t in w.lane.futures && w.lane.futures[t].Cancelled?
  {
    hide Quiet, WindDown;
    var start := Start(limit, capacity);
    StartInv(limit, capacity);
    RunKeeps(start, es);
    BlockedThroughoutExactly(start, es);
    BlockedAtLast(start, es);
    LeaksExactly(start, es);
    WindDownTerminates(After(start, es), down);
    QuietMeansServed(After(After(start, es), down));
  }

  lemma {:induction false} NoHandlersSafe(w: World, es: seq<Event>)
    requires IsRun(w, es) && NoHandlers(es)
    ensures HandlersSafe(w, es) && !TimesOutGranted(w, es)
    decreases |es|
  {
    if es != [] {
      NoHandlersSafe(Next(w, es[0]), es[1..]);
    }
  }

  /** In particular every run without delivered cancellations or timeouts. */
  lemma HandlerFreeServesAll(limit: nat, capacity: int, es: seq<Event>, down: seq<Event>)
    requires IsRun(Start(limit, capacity), es) && NoHandlers(es)
    requires IsRun(After(Start(limit, capacity), es), down) && WindDown(down)
    requires Quiet(After(After(Start(limit, capacity), es), down))
    ensures var w := After(After(Start(limit, capacity), es), down);
      && w.lane.active == 0 && w.lane.queue == []
      && forall t :: InPhase(w, t, Waiting) ==> t in w.lane.futures && w.lane.futures[t].Cancelled?
  {
    NoHandlersSafe(Start(limit, capacity), es);
    SafeRunsServeAll(limit, capacity, es, down);
  }

  /** Nobody waits, and nobody has been lost waiting. */
  predicate NobodyWaits(w: World) {
    && w.lane.queue == []
    && forall t :: 0 <= t < |w.tasks| ==> !w.tasks[t].phase.Waiting? && !w.tasks[t].phase.Lost?
  }

  /** A class without a budget or without room in its queue never makes anybody wait. */
  lemma {:induction false} NobodyEverWaits(w: World, es: seq<Event>)
    requires NobodyWaits(w) && IsRun(w, es) && (w.lane.limit == 0 || w.lane.capacity <= 0)
    ensures NobodyWaits(After(w, es))
    decreases |es|
  {
    if es != [] {
      NobodyEverWaits(Next(w, es[0]), es[1..]);
    }
  }

  lemma {:induction false} NothingLeaked(w: World, n: nat)
    requires NobodyWaits(w) && n <= |w.tasks|
    ensures Weigh(w, {Leaked}, n) == 0
  {
    if n > 0 {
      NothingLeaked(w, n - 1);
    }
  }

  lemma BacklogLeaks(limit: nat, capacity: int)
    requires limit >= 1
    ensures Enabled(Backlog(limit, capacity), TimeoutDelivered(1))
    ensures WeightOf(Next(Backlog(limit, capacity), TimeoutDelivered(1)), Leaked) == limit
  {
    var w := Next(Backlog(limit, capacity), TimeoutDelivered(1));
    assert w.tasks == [Task(limit, Released), Task(limit, Lost), Task(1, Waiting)];
    assert Weigh(w, {Leaked}, 1) == 0 && Weigh(w, {Leaked}, 2) == limit && Weigh(w, {Leaked}, 3) == limit;
  }

  /** Some run from the idle class leaks if and only if the class can queue at all, and then some run leaks the whole
      budget. */
  lemma LeakReachedExactly(limit: nat, capacity: int)
    ensures (exists es :: IsRun(Start(limit, capacity), es) && WeightOf(After(Start(limit, capacity), es), Leaked) > 0)
      <==> limit >= 1 && capacity >= 1
    ensures limit >= 1 && capacity >= 1 ==>
      exists es :: IsRun(Start(limit, capacity), es) && WeightOf(After(Start(limit, capacity), es), Leaked) == limit
  {
    if limit >= 1 && capacity >= 1 {
      BacklogLeaks(limit, capacity);
      BacklogRun(limit, capacity, TimeoutDelivered(1));
    } else {
      forall es | IsRun(Start(limit, capacity), es)
        ensures WeightOf(After(Start(limit, capacity), es), Leaked) == 0
      {
        NobodyEverWaits(Start(limit, capacity), es);
        NothingLeaked(After(Start(limit, capacity), es), |After(Start(limit, capacity), es).tasks|);
      }
    }
  }

  lemma {:induction false} LeakGrows(w: World, w': World, n: nat)
    requires n <= |w.tasks| && n <= |w'.tasks| && BudgetOk(w')
    requires forall i :: 0 <= i < n ==> w.tasks[i].weight == w'.tasks[i].weight
    requires forall i :: 0 <= i < n && w.tasks[i].phase.Lost? ==> w'.tasks[i].phase.Lost?
    ensures Weigh(w, {Leaked}, n) <= Weigh(w', {Leaked}, n)
  {
    if n > 0 {
      LeakGrows(w, w', n - 1);
    }
  }

  lemma {:induction false} LeakCoversMore(w: World, m: nat, n: nat)
    requires m <= n <= |w.tasks| && BudgetOk(w)
    ensures Weigh(w, {Leaked}, m) <= Weigh(w, {Leaked}, n)
  {
    if m < n {
      LeakCoversMore(w, m, n - 1);
    }
  }

  /** Whatever drain grants fitted beside what was already active. */
  lemma {:induction false} GrantsFit(l: Lane, t: nat)
    requires t in Grants(l)
    requires forall i :: 0 <= i < |l.queue| ==> l.queue[i].weight > 0
    ensures exists i :: 0 <= i < |l.queue| && l.queue[i].ticket == t && l.active + l.queue[i].weight <= l.limit
    decreases |l.queue|
  {
    var h := l.queue[0];
    if Done(l, h.ticket) {
      GrantsFit(PopHead(l), t);
      var i :| 0 <= i < |l.queue[1..]| && l.queue[1..][i].ticket == t && l.active + l.queue[1..][i].weight <= l.limit;
      assert l.queue[i + 1].ticket == t;
    } else if t != h.ticket {
      GrantsFit(GrantHead(l), t);
      var i :| 0 <= i < |l.queue[1..]| && l.queue[1..][i].ticket == t
        && GrantHead(l).active + l.queue[1..][i].weight <= l.limit;
      assert l.queue[i + 1].ticket == t;
    }
  }

  /** Nothing that weighs at least `weight` has been granted since the first `n` grants. */
  predicate NoneSince(w: World, n: nat, weight: int) {
    n <= |w.log| && forall i :: n <= i < |w.log| && w.log[i] < |w.tasks| ==> w.tasks[w.log[i]].weight < weight
  }

  lemma LeakStepArrive(w: World, arriving: int, n: nat, weight: int)
    requires Inv(w) && NoneSince(w, n, weight)
    requires w.lane.limit > 0 && WeightOf(w, Leaked) + weight > w.lane.limit
    ensures NoneSince(Arrived(w, arriving), n, weight)
  {
    LeakWithin(w);
    var w' := Arrived(w, arriving);
    forall i | n <= i < |w.log| && w'.log[i] < |w'.tasks|
      ensures w'.tasks[w'.log[i]].weight < weight
    {
      assert w.log[i] in w.log;
    }
  }

  lemma LeakStepFinish(w: World, t: nat, n: nat, weight: int)
    requires Inv(w) && InPhase(w, t, Holding) && NoneSince(w, n, weight)
    requires w.lane.limit > 0 && WeightOf(w, Leaked) + weight > w.lane.limit
    ensures NoneSince(Drained(Returned(w, t)), n, weight)
  {
    var r := Returned(w, t);
    var w' := Drained(r);
    ReturnKeeps(w, t);
    LeakWithin(r);
    WeighPhases(w, r, |w.tasks|);
    forall i | n <= i < |w'.log| && w'.log[i] < |w'.tasks|
      ensures w'.tasks[w'.log[i]].weight < weight
    {
      if i >= |w.log| {
        GrantedIsLight(r, w'.log[i]);
      }
    }
  }

  lemma GrantedIsLight(r: World, t: nat)
    requires Inv(r) && t in Grants(r.lane)
    ensures t < |r.tasks| && r.lane.active + r.tasks[t].weight <= r.lane.limit
  {
    assert forall j :: 0 <= j < |r.lane.queue| ==> EntryOk(r, r.lane.queue[j]);
    GrantsFit(r.lane, t);
  }

  lemma LeakStep(w: World, e: Event, n: nat, weight: int)
    requires Inv(w) && Enabled(w, e) && NoneSince(w, n, weight)
    requires w.lane.limit > 0 && WeightOf(w, Leaked) + weight > w.lane.limit
    ensures NoneSince(Next(w, e), n, weight)
    ensures WeightOf(Next(w, e), Leaked) >= WeightOf(w, Leaked)
  {
    var w' := Next(w, e);
    if e.Arrive? {
      LeakStepArrive(w, e.weight, n, weight);
    } else if e.Finish? {
      LeakStepFinish(w, e.t, n, weight);
    }
    NextKeeps(w, e);
    LeakGrows(w, w', |w.tasks|);
    LeakCoversMore(w', |w.tasks|, |w'.tasks|);
  }

  lemma LeakWithin(w: World)
    requires Inv(w)
    ensures w.lane.active >= WeightOf(w, Leaked)
  {
    WeighSplits(w, |w.tasks|);
    WeighNonNegative(w, {Held}, |w.tasks|);
    WeighNonNegative(w, {InFlight}, |w.tasks|);
  }

  /** Units leaked by the timeout branch never come back: once they leave no room for `weight`,
      no continuation ever grants a request that heavy. */
  lemma {:induction false} LeakIsForever(w: World, es: seq<Event>, n: nat, weight: int)
    requires Inv(w) && IsRun(w, es) && NoneSince(w, n, weight)
    requires w.lane.limit > 0 && WeightOf(w, Leaked) + weight > w.lane.limit
    ensures NoneSince(After(w, es), n, weight)
    ensures WeightOf(After(w, es), Leaked) >= WeightOf(w, Leaked)
    decreases |es|
  {
    if es != [] {
      LeakStep(w, es[0], n, weight);
      NextKeeps(w, es[0]);
      RunKeepsShape(w, [es[0]]);
      LeakIsForever(Next(w, es[0]), es[1..], n, weight);
    }
  }

  lemma GrantHasWeight(w: World, n: nat)
    requires Inv(w) && n < |w.log|
    ensures !NoneSince(w, n, 1)
  {
    assert w.log[n] in w.log;
  }

  /** After such a run, no continuation ever admits anybody: the class is locked out for good. */
  lemma LeakLocksOut(limit: nat, capacity: int, es: seq<Event>, more: seq<Event>)
    requires limit >= 1 && IsRun(Start(limit, capacity), es)
    requires WeightOf(After(Start(limit, capacity), es), Leaked) == limit
    requires IsRun(After(Start(limit, capacity), es), more)
    ensures |After(After(Start(limit, capacity), es), more).log| == |After(Start(limit, capacity), es).log|
  {
    var w := After(Start(limit, capacity), es);
    StartInv(limit, capacity);
    RunKeeps(Start(limit, capacity), es);
    RunKeepsShape(Start(limit, capacity), es);
    RunKeeps(w, more);
    if |w.log| < |After(w, more).log| {
      GrantHasWeight(After(w, more), |w.log|);
    }
    LeakIsForever(w, more, |w.log|, 1);
  }
}
