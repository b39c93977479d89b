/** The TTL session store, and why its sweeper cannot be observed. */
module SessionStore {
  import opened Options

  type Data = map<string, string>

  datatype Session = Session(createdAt: int, expiresAt: int, data: Data)

  type Sessions = map<string, Session>

  /** One critical section. `at` is the clock when the lock is held; `now` was read before waiting for it. */
  datatype Op =
    | Create(at: int, now: int, sid: string, ttl: int, data: Data)
    | Get(at: int, sid: string)
    | Update(at: int, sid: string, data: Data)
    | Destroy(at: int, sid: string)
    | Sweep(at: int, now: int)

  function Kept(s: Sessions, now: int): Sessions {
    map sid | sid in s && now <= s[sid].expiresAt :: s[sid]
  }

  function Expired(s: Sessions, now: int): set<string> {
    set sid | sid in s && now > s[sid].expiresAt
  }

  /** Every session is either kept or expired. */
  lemma KeptOrExpired(s: Sessions, now: int)
    ensures Kept(s, now) == s - Expired(s, now)
    ensures |s| == |Kept(s, now)| + |Expired(s, now)|
  {
    var k, e := Kept(s, now).Keys, Expired(s, now);
    assert k + e == s.Keys && k !! e;
    assert |k + e| == |k| + |e|;
  }

  function Apply(s: Sessions, op: Op): Sessions {
    match op
    case Create(_, now, sid, ttl, data) => s[sid := Session(now, now + ttl, data)]
    case Get(_, _) => s
    case Update(_, sid, data) => if sid in s then s[sid := s[sid].(data := s[sid].data + data)] else s
    case Destroy(_, sid) => s - {sid}
    case Sweep(_, now) => Kept(s, now)
  }

  /** What `get` returns at time `at`. */
  function Lookup(s: Sessions, sid: string, at: int): Option<Data> {
    if sid in s && at <= s[sid].expiresAt then Some(s[sid].data) else None
  }

  class Store {
    const ttl: int
    var sessions: Sessions

    constructor (ttl: int)
      ensures this.ttl == ttl && sessions == map[]
    {
      this.ttl := ttl;
      sessions := map[];
    }

    /** `generated` is the UUID drawn when the caller gives no identifier, or an empty one. */
    method CreateSession(at: int, now: int, given: Option<string>, generated: string, ttl: Option<int>, data: Data)
        returns (sid: string)
      modifies this
      ensures sid == if given.Some? && given.value != "" then given.value else generated
      ensures sessions == Apply(old(sessions), Create(at, now, sid, if ttl.Some? then ttl.value else this.ttl, data))
    {
      sid := if given.Some? && given.value != "" then given.value else generated;
      var effective := if ttl.Some? then ttl.value else this.ttl;
      sessions := sessions[sid := Session(now, now + effective, data)];
    }

    method GetSession(at: int, sid: string) returns (r: Option<Data>)
      ensures r == Lookup(sessions, sid, at)
    {
      if sid !in sessions {
        return None;
      }
      if at > sessions[sid].expiresAt {
        return None;
      }
      return Some(sessions[sid].data);
    }

    method UpdateSession(at: int, sid: string, data: Data)
      modifies this
      ensures sessions == Apply(old(sessions), Update(at, sid, data))
    {
      if sid in sessions {
        sessions := sessions[sid := sessions[sid].(data := sessions[sid].data + data)];
      }
    }

    method DestroySession(at: int, sid: string)
      modifies this
      ensures sessions == Apply(old(sessions), Destroy(at, sid))
    {
      sessions := sessions - {sid};
    }

    /** Collects the expired ids, then deletes them one by one. */
    method SweepSessions(at: int, now: int) returns (removed: nat)
      modifies this
      ensures sessions == Apply(old(sessions), Sweep(at, now))
      ensures removed == |old(sessions)| - |sessions|
    {
      var expired := Expired(sessions, now);
      KeptOrExpired(sessions, now);
      var todo := expired;
      while todo != {}
        invariant todo <= expired && sessions == old(sessions) - (expired - todo)
        decreases todo
      {
        var sid :| sid in todo;
        assert expired - (todo - {sid}) == (expired - todo) + {sid};
        sessions := sessions - {sid};
        todo := todo - {sid};
      }
      assert expired - todo == expired;
      removed := |expired|;
    }
  }

  // ---- Runs ----

  /** The clock never goes back, and a time read before the lock is not later than the lock. */
  predicate Timely(clock: int, ops: seq<Op>)
    decreases |ops|
  {
    ops == [] ||
    (clock <= ops[0].at
     && ((ops[0].Create? || ops[0].Sweep?) ==> ops[0].now <= ops[0].at)
     && Timely(ops[0].at, ops[1..]))
  }

  /** What the `get` calls of a run return, in order. */
  function Answers(s: Sessions, ops: seq<Op>): seq<Option<Data>>
    decreases |ops|
  {
    if ops == [] then []
    else
      (if ops[0].Get? then [Lookup(s, ops[0].sid, ops[0].at)] else []) + Answers(Apply(s, ops[0]), ops[1..])
  }

  function WithoutSweeps(ops: seq<Op>): seq<Op>
    decreases |ops|
  {
    if ops == [] then []
    else (if ops[0].Sweep? then [] else [ops[0]]) + WithoutSweeps(ops[1..])
  }

  /** The swept store lacks only sessions that had expired by the given time. */
  predicate Shadows(swept: Sessions, full: Sessions, clock: int) {
    && (forall sid :: sid in swept ==> sid in full && swept[sid] == full[sid])
    && (forall sid :: sid in full && sid !in swept ==> full[sid].expiresAt < clock)
  }

  lemma ShadowStep(swept: Sessions, full: Sessions, clock: int, op: Op)
    requires Shadows(swept, full, clock) && clock <= op.at
    requires (op.Create? || op.Sweep?) ==> op.now <= op.at
    ensures Shadows(Apply(swept, op), if op.Sweep? then full else Apply(full, op), op.at)
    ensures op.Get? ==> Lookup(swept, op.sid, op.at) == Lookup(full, op.sid, op.at)
  {
  }

  lemma {:induction false} ShadowRun(swept: Sessions, full: Sessions, clock: int, ops: seq<Op>)
    requires Shadows(swept, full, clock) && Timely(clock, ops)
    ensures Answers(swept, ops) == Answers(full, WithoutSweeps(ops))
    decreases |ops|
  {
    hide Lookup, Shadows, Apply;
    if ops != [] {
      var op := ops[0];
      ShadowStep(swept, full, clock, op);
      if op.Sweep? {
        ShadowRun(Apply(swept, op), full, op.at, ops[1..]);
        assert WithoutSweeps(ops) == WithoutSweeps(ops[1..]);
      } else {
        ShadowRun(Apply(swept, op), Apply(full, op), op.at, ops[1..]);
        assert WithoutSweeps(ops)[1..] == WithoutSweeps(ops[1..]);
      }
    }
  }

  /** In every timely interleaving, every `get` returns what a store that never swept would return. */
  lemma SweepingIsUnobservable(start: int, ops: seq<Op>)
    requires Timely(start, ops)
    ensures Answers(map[], ops) == Answers(map[], WithoutSweeps(ops))
  {
    ShadowRun(map[], map[], start, ops);
  }

  function After(s: Sessions, ops: seq<Op>): Sessions
    decreases |ops|
  {
    if ops == [] then s else After(Apply(s, ops[0]), ops[1..])
  }

  function LastClock(clock: int, ops: seq<Op>): int
    decreases |ops|
  {
    if ops == [] then clock else LastClock(ops[0].at, ops[1..])
  }

  /** The session is neither created again nor destroyed. */
  predicate LeavesAlone(ops: seq<Op>, sid: string) {
    forall i :: 0 <= i < |ops| ==> !(ops[i].Create? && ops[i].sid == sid) && !(ops[i].Destroy? && ops[i].sid == sid)
  }

  /** Data with the updates of a session merged in, in order. */
  function Merged(data: Data, ops: seq<Op>, sid: string): Data
    decreases |ops|
  {
    if ops == [] then data
    else Merged(if ops[0].Update? && ops[0].sid == sid then data + ops[0].data else data, ops[1..], sid)
  }

  /** Until it expires a session stays, with its expiry fixed and its updates merged; sweeps take it only afterwards. */
  lemma {:induction false} SessionKept(s: Sessions, clock: int, ops: seq<Op>, sid: string)
    requires sid in s && LeavesAlone(ops, sid) && Timely(clock, ops)
    ensures var s' := After(s, ops);
      && (sid in s' ==> s'[sid].expiresAt == s[sid].expiresAt && s'[sid].data == Merged(s[sid].data, ops, sid))
      && (sid !in s' ==> s[sid].expiresAt < LastClock(clock, ops))
    decreases |ops|
  {
    if ops != [] {
      var op := ops[0];
      assert LeavesAlone(ops[1..], sid);
      if sid in Apply(s, op) {
        SessionKept(Apply(s, op), op.at, ops[1..], sid);
      } else {
        StaysGone(Apply(s, op), op.at, ops[1..], sid);
      }
    }
  }

  lemma {:induction false} StaysGone(s: Sessions, clock: int, ops: seq<Op>, sid: string)
    requires sid !in s && LeavesAlone(ops, sid) && Timely(clock, ops)
    ensures sid !in After(s, ops) && clock <= LastClock(clock, ops)
    decreases |ops|
  {
    if ops != [] {
      assert LeavesAlone(ops[1..], sid);
      StaysGone(Apply(s, ops[0]), ops[0].at, ops[1..], sid);
    }
  }

  /** A created session is returned, with every later update merged in, exactly until its lifetime has passed:
      whatever else runs in between, sweeps included, and however often it is updated. */
  lemma SessionLifetime(s: Sessions, create: Op, ops: seq<Op>, at: int)
    requires create.Create? && create.now <= create.at && Timely(create.at, ops)
    requires LeavesAlone(ops, create.sid) && LastClock(create.at, ops) <= at
    ensures Lookup(After(Apply(s, create), ops), create.sid, at) ==
      if at <= create.now + create.ttl then Some(Merged(create.data, ops, create.sid)) else None
  {
    SessionKept(Apply(s, create), create.at, ops, create.sid);
  }

  /** A destroyed session is gone until it is created again. */
  lemma DestroyedStaysGone(s: Sessions, destroy: Op, ops: seq<Op>, at: int)
    requires destroy.Destroy? && Timely(destroy.at, ops) && LeavesAlone(ops, destroy.sid)
    ensures Lookup(After(Apply(s, destroy), ops), destroy.sid, at) == None
  {
    StaysGone(Apply(s, destroy), destroy.at, ops, destroy.sid);
  }

  /** A sweep goes unnoticed in every later timely run if and only if it removes no session that is still to expire:
      none whose lifetime ends between the clock and the time the sweep was given. */
  lemma SweepUnnoticedExactly(s: Sessions, now: int, clock: int)
    ensures (forall ops :: Timely(clock, ops) ==> Answers(Kept(s, now), ops) == Answers(s, ops))
      <==> (forall sid :: sid in s ==> !(clock <= s[sid].expiresAt < now))
  {
    if forall sid :: sid in s ==> !(clock <= s[sid].expiresAt < now) {
      forall ops | Timely(clock, ops)
        ensures Answers(Kept(s, now), ops) == Answers(s, ops)
      {
        ShadowRun(Kept(s, now), s, clock, ops);
        ShadowRun(s, s, clock, ops);
      }
    } else {
      var sid :| sid in s && clock <= s[sid].expiresAt < now;
      var ops := [Get(clock, sid)];
      assert ops[1..] == [] && Timely(clock, ops);
      assert Answers(s, ops) == [Lookup(s, sid, clock)] + Answers(s, []);
      assert Answers(Kept(s, now), ops) == [Lookup(Kept(s, now), sid, clock)] + Answers(Kept(s, now), []);
      assert Answers(s, ops)[0] != Answers(Kept(s, now), ops)[0];
    }
  }

  /** As `Timely`, except that a sweep may have been given any time. */
  predicate ClockForward(clock: int, ops: seq<Op>)
    decreases |ops|
  {
    ops == [] ||
    (clock <= ops[0].at
     && (ops[0].Create? ==> ops[0].now <= ops[0].at)
     && ClockForward(ops[0].at, ops[1..]))
  }

  /** The clock assumption is needed: in a run that is timely except for the time given to one sweep, which is ahead of
      the clock, the sweep is observed. */
  lemma FutureSweepIsObserved()
    ensures exists ops: seq<Op> ::
      && ClockForward(0, ops) && |ops| == 3 && ops[1].Sweep? && ops[1].at < ops[1].now
      && Answers(map[], ops) != Answers(map[], WithoutSweeps(ops))
  {
    var a, b, c := Create(0, 0, "s", 10, map[]), Sweep(0, 11), Get(0, "s");
    var ops := [a, b, c];
    var s1 := Apply(map[], a);
    assert ops[1..] == [b, c] && [b, c][1..] == [c] && [c][1..] == [];
    assert ClockForward(0, [c]) && ClockForward(0, [b, c]) && ClockForward(0, ops);
    assert Answers(Apply(s1, b), [c]) == [Lookup(Apply(s1, b), "s", 0)] + Answers(Apply(s1, b), []);
    assert Answers(map[], ops) == Answers(s1, [b, c]) == Answers(Apply(s1, b), [c]) == [None];
    assert WithoutSweeps([c]) == [c] + WithoutSweeps([]);
    assert WithoutSweeps([b, c]) == [c];
    assert WithoutSweeps(ops) == [a, c];
    assert [a, c][1..] == [c];
    assert Answers(s1, [c]) == [Lookup(s1, "s", 0)] + Answers(s1, []);
    assert Answers(map[], [a, c]) == Answers(s1, [c]) == [Some(map[])];
  }
}
