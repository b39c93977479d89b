/** Whose calls reach the circuit breaker, and which probes are really out.

    The breaker does not know who reports. Here every call has a caller, so that a report by the probe and a
    stale report by a request admitted before the circuit opened are different events. */
module BreakerProbes {
  import opened CircuitBreaker

  /** A caller leaves without reporting when its response is neither a success nor a server error. */
  datatype Event = Event(who: nat, call: Call) | Leave(who: nat, at: real)

  /** `plain` and `probes` are the requests admitted, while the circuit was closed and while it was not, that
      have neither reported nor left. */
  datatype World = World(state: State, clock: real, plain: set<nat>, probes: set<nat>)

  const IDLE: World := World(FRESH, 0.0, {}, {})

  function TimeOf(e: Event): real {
    if e.Leave? then e.at else e.call.at
  }

  predicate IsCheck(e: Event) {
    e.Event? && e.call.Check?
  }

  predicate IsReport(e: Event) {
    e.Event? && !e.call.Check?
  }

  /** Requests check, and once admitted they report once or leave; the clock never goes back. */
  predicate Enabled(w: World, e: Event) {
    w.clock <= TimeOf(e) && (IsCheck(e) <==> e.who !in w.plain && e.who !in w.probes)
  }

  function Next(c: Config, w: World, e: Event): World {
    var s := if e.Leave? then w.state else Step(c, w.state, e.call);
    if !IsCheck(e) then World(s, TimeOf(e), w.plain - {e.who}, w.probes - {e.who})
    else if !Admits(c, w.state, e.call.at) then World(s, TimeOf(e), w.plain, w.probes)
    else if w.state.mode.Closed? then World(s, TimeOf(e), w.plain + {e.who}, w.probes)
    else World(s, TimeOf(e), w.plain, w.probes + {e.who})
  }

  predicate IsRun(c: Config, w: World, es: seq<Event>)
    decreases |es|
  {
    es == [] || (Enabled(w, es[0]) && IsRun(c, Next(c, w, es[0]), es[1..]))
  }

  function Final(c: Config, w: World, es: seq<Event>): World
    decreases |es|
  {
    if es == [] then w else Final(c, Next(c, w, es[0]), es[1..])
  }

  function Calls(es: seq<Event>): seq<Call> {
    if es == [] then [] else (if es[0].Leave? then [] else [es[0].call]) + Calls(es[1..])
  }

  /** The breaker sees the calls alone. */
  lemma {:induction false} FinalState(c: Config, w: World, es: seq<Event>)
    ensures Final(c, w, es).state == After(c, w.state, Calls(es))
    decreases |es|
  {
    if es != [] {
      FinalState(c, Next(c, w, es[0]), es[1..]);
      assert Calls(es) == if es[0].Leave? then Calls(es[1..]) else [es[0].call] + Calls(es[1..]);
    }
  }

  // ---- One probe ----

  /** What the documentation says of HALF_OPEN: exactly one probe is out then, and none otherwise. */
  ghost predicate OneProbe(w: World) {
    if w.state.mode.HalfOpen? then exists p :: w.probes == {p} else w.probes == {}
  }

  ghost predicate OneProbeThroughout(c: Config, w: World, es: seq<Event>)
    decreases |es|
  {
    OneProbe(w) && (es == [] || OneProbeThroughout(c, Next(c, w, es[0]), es[1..]))
  }

  /** In HALF_OPEN, a report (success or failure) from a request that is not the probe, or a probe that leaves
      without a report. */
  predicate Disturbs(w: World, e: Event) {
    w.state.mode.HalfOpen? && if e.who in w.probes then e.Leave? else IsReport(e)
  }

  predicate Undisturbed(c: Config, w: World, es: seq<Event>)
    decreases |es|
  {
    es == [] || (!Disturbs(w, es[0]) && Undisturbed(c, Next(c, w, es[0]), es[1..]))
  }

  lemma OneProbeStep(c: Config, w: World, e: Event)
    requires OneProbe(w) && (w.state.mode.HalfOpen? <==> w.state.probing) && Enabled(w, e)
    ensures OneProbe(Next(c, w, e)) <==> !Disturbs(w, e)
  {
    var w' := Next(c, w, e);
    if w.state.mode.HalfOpen? {
      var p :| w.probes == {p};
      if e.who == p {
        assert w'.probes == {};
      } else {
        assert w'.probes == {p};
      }
    } else if w'.state.mode.HalfOpen? {
      assert w'.probes == {e.who};
    } else {
      assert w'.probes == {};
    }
  }

  lemma {:induction false} OneProbeRun(c: Config, w: World, es: seq<Event>)
    requires OneProbe(w) && (w.state.mode.HalfOpen? <==> w.state.probing) && IsRun(c, w, es)
    ensures OneProbeThroughout(c, w, es) <==> Undisturbed(c, w, es)
    decreases |es|
  {
    if es != [] {
      OneProbeStep(c, w, es[0]);
      if !Disturbs(w, es[0]) {
        OneProbeRun(c, Next(c, w, es[0]), es[1..]);
      }
    }
  }

  /** In every run, exactly one probe is out in HALF_OPEN and none otherwise, at every moment, if and only if
      every report received in HALF_OPEN comes from the probe and no probe leaves without a report. */
  lemma OneProbeExactly(c: Config, es: seq<Event>)
    requires IsRun(c, IDLE, es)
    ensures OneProbeThroughout(c, IDLE, es) <==> Undisturbed(c, IDLE, es)
  {
    OneProbeRun(c, IDLE, es);
  }

  // ---- Any number of probes ----

  lemma {:induction false} RunConcat(c: Config, w: World, es: seq<Event>, fs: seq<Event>)
    requires IsRun(c, w, es) && IsRun(c, Final(c, w, es), fs)
    ensures IsRun(c, w, es + fs) && Final(c, w, es + fs) == Final(c, Final(c, w, es), fs)
    decreases |es|
  {
    if es == [] {
      assert es + fs == fs;
    } else {
      RunConcat(c, Next(c, w, es[0]), es[1..], fs);
      assert (es + fs)[1..] == es[1..] + fs;
    }
  }

  lemma RunOfOne(c: Config, w: World, e: Event)
    requires Enabled(w, e)
    ensures IsRun(c, w, [e]) && Final(c, w, [e]) == Next(c, w, e)
  {
    assert [e][1..] == [];
    assert Final(c, Next(c, w, e), []) == Next(c, w, e);
  }

  lemma RunOfTwo(c: Config, w: World, e: Event, f: Event)
    requires Enabled(w, e) && Enabled(Next(c, w, e), f)
    ensures IsRun(c, w, [e, f]) && Final(c, w, [e, f]) == Next(c, Next(c, w, e), f)
  {
    RunOfOne(c, Next(c, w, e), f);
    assert [e, f][1..] == [f];
  }

  lemma {:induction false} FreshId(ids: set<nat>) returns (n: nat)
    ensures forall x :: x in ids ==> x < n
  {
    if ids == {} {
      n := 0;
    } else {
      var y :| y in ids;
      var m := FreshId(ids - {y});
      n := if m <= y then y + 1 else m;
      assert forall x :: x in ids ==> x == y || x in ids - {y};
    }
  }

  /** While the circuit is closed, any number of requests can be admitted. */
  lemma {:induction false} Crowd(c: Config, n: nat) returns (es: seq<Event>)
    ensures IsRun(c, IDLE, es)
    ensures var w := Final(c, IDLE, es); w.state == FRESH && |w.plain| == n && w.probes == {}
  {
    es := [];
    if n > 0 {
      var before := Crowd(c, n - 1);
      var w := Final(c, IDLE, before);
      var id := FreshId(w.plain);
      var e := Event(id, Check(w.clock));
      RunOfOne(c, w, e);
      RunConcat(c, IDLE, before, [e]);
      es := before + [e];
    }
  }

  /** From a closed circuit, enough outstanding requests can fail to open it. */
  lemma {:induction false} Trip(c: Config, w: World) returns (es: seq<Event>)
    requires w.state.mode.Closed? && w.state.failures < c.threshold && w.probes == {}
    requires |w.plain| >= c.threshold - w.state.failures
    ensures IsRun(c, w, es)
    ensures var w' := Final(c, w, es);
      w'.state.mode.Open? && w'.probes == {} && |w'.plain| == |w.plain| - (c.threshold - w.state.failures)
    decreases c.threshold - w.state.failures
  {
    assert w.plain != {};
    var stale :| stale in w.plain;
    var e := Event(stale, Failure(w.clock));
    var w1 := Next(c, w, e);
    RunOfOne(c, w, e);
    es := [e];
    if w1.state.mode.Closed? {
      var rest := Trip(c, w1);
      RunConcat(c, w, [e], rest);
      es := [e] + rest;
    }
  }

  /** Any number of requests can still be out when the circuit opens. */
  lemma Tripped(c: Config, n: nat) returns (es: seq<Event>)
    requires c.threshold >= 1
    ensures IsRun(c, IDLE, es)
    ensures var w := Final(c, IDLE, es); w.state.mode.Open? && |w.plain| == n && w.probes == {}
  {
    hide IsRun, Final;
    var crowd := Crowd(c, n + c.threshold);
    var trip := Trip(c, Final(c, IDLE, crowd));
    RunConcat(c, IDLE, crowd, trip);
    es := crowd + trip;
  }

  function Later(a: real, b: real): real {
    if a < b then b else a
  }

  /** From an open circuit, one more probe goes out. */
  lemma Probe(c: Config, w: World) returns (e: Event)
    requires w.state.mode.Open? && w.plain !! w.probes
    ensures IsCheck(e) && Enabled(w, e)
    ensures var w' := Next(c, w, e);
      w'.state.mode.HalfOpen? && |w'.probes| == |w.probes| + 1 && w'.plain == w.plain && w'.plain !! w'.probes
  {
    var id := FreshId(w.plain + w.probes);
    e := Event(id, Check(Later(w.clock, w.state.lastFailure + c.cooldown)));
  }

  /** Each stale failure received in HALF_OPEN opens the circuit under its probe, and the next probe joins it. */
  lemma {:induction false} Pile(c: Config, w: World, n: nat) returns (es: seq<Event>)
    requires w.state.mode.Open? && |w.plain| >= n && w.plain !! w.probes
    ensures IsRun(c, w, es)
    ensures var w' := Final(c, w, es);
      w'.state.mode.Open? && |w'.probes| == |w.probes| + n && w'.plain !! w'.probes
    decreases n
  {
    es := [];
    if n > 0 {
      var probe := Probe(c, w);
      var w1 := Next(c, w, probe);
      assert w1.plain != {};
      var stale :| stale in w1.plain;
      var report := Event(stale, Failure(w1.clock));
      var w2 := Next(c, w1, report);
      assert w2.probes == w1.probes;
      var rest := Pile(c, w2, n - 1);
      RunOfTwo(c, w, probe, report);
      RunConcat(c, w, [probe, report], rest);
      es := [probe, report] + rest;
    }
  }

  /** Stale failures can put any number of probes in flight at once, whatever the threshold and the cooldown. */
  lemma ProbesPileUp(c: Config, n: nat) returns (es: seq<Event>)
    requires c.threshold >= 1
    ensures IsRun(c, IDLE, es)
    ensures var w := Final(c, IDLE, es); w.state.mode.HalfOpen? && |w.probes| == n + 1
  {
    hide IsRun, Final;
    var trip := Tripped(c, n);
    var w := Final(c, IDLE, trip);
    var pile := Pile(c, w, n);
    var piled := Final(c, w, pile);
    var probe := Probe(c, piled);
    RunOfOne(c, piled, probe);
    RunConcat(c, w, pile, [probe]);
    RunConcat(c, IDLE, trip, pile + [probe]);
    es := trip + (pile + [probe]);
  }

  /** A stale success closes the circuit although the probe is still out and has reported nothing. */
  lemma StaleSuccessCloses(c: Config) returns (es: seq<Event>)
    requires c.threshold >= 1
    ensures IsRun(c, IDLE, es)
    ensures var w := Final(c, IDLE, es); w.state.mode.Closed? && |w.probes| == 1
  {
    hide IsRun, Final;
    var trip := Tripped(c, 1);
    var w := Final(c, IDLE, trip);
    var probe := Probe(c, w);
    var w1 := Next(c, w, probe);
    assert w1.plain != {};
    var stale :| stale in w1.plain;
    var report := Event(stale, Success(w1.clock));
    assert Next(c, w1, report).probes == w1.probes;
    RunOfTwo(c, w, probe, report);
    RunConcat(c, IDLE, trip, [probe, report]);
    es := trip + [probe, report];
  }

  // ---- A probe that never reports ----

  /** Nobody is left who could report, and HALF_OPEN waits for a report. */
  predicate Stuck(w: World) {
    w.state.mode.HalfOpen? && w.state.probing && w.plain == {} && w.probes == {}
  }

  /** Then no continuation admits anybody, however much time passes: HALF_OPEN has no cooldown of its own. */
  lemma {:induction false} StuckIsForever(c: Config, w: World, es: seq<Event>)
    requires Stuck(w) && IsRun(c, w, es)
    ensures Final(c, w, es).state == w.state && Stuck(Final(c, w, es))
    ensures forall at :: !Admits(c, Final(c, w, es).state, at)
    decreases |es|
  {
    if es != [] {
      assert Next(c, w, es[0]).plain == {} && Next(c, w, es[0]).probes == {};
      StuckIsForever(c, Next(c, w, es[0]), es[1..]);
    }
  }

  /** Some continuation gets a request admitted. */
  ghost predicate Recovers(c: Config, w: World) {
    exists es, at :: IsRun(c, w, es) && Final(c, w, es).clock <= at && Admits(c, Final(c, w, es).state, at)
  }

  lemma {:induction false} ProbingKept(c: Config, w: World, es: seq<Event>)
    requires w.state.mode.HalfOpen? <==> w.state.probing
    ensures var s := Final(c, w, es).state; s.mode.HalfOpen? <==> s.probing
    decreases |es|
  {
    if es != [] {
      ProbingKept(c, Next(c, w, es[0]), es[1..]);
    }
  }

  /** After every run, the breaker can admit somebody again if and only if it is not stuck. */
  lemma RecoversExactly(c: Config, run: seq<Event>)
    ensures var w := Final(c, IDLE, run); Recovers(c, w) <==> !Stuck(w)
  {
    var w := Final(c, IDLE, run);
    ProbingKept(c, IDLE, run);
    if Stuck(w) {
      forall es, at | IsRun(c, w, es)
        ensures !Admits(c, Final(c, w, es).state, at)
      {
        StuckIsForever(c, w, es);
      }
    } else if w.state.mode.HalfOpen? {
      assert w.plain + w.probes != {};
      var who :| who in w.plain + w.probes;
      var report := Event(who, Success(w.clock));
      RunOfOne(c, w, report);
      assert Admits(c, Final(c, w, [report]).state, w.clock);
    } else {
      var at := Later(w.clock, w.state.lastFailure + c.cooldown);
      assert IsRun(c, w, []) && Final(c, w, []) == w && Admits(c, w.state, at);
    }
  }

  /** One client error answered to the probe is enough to get there. */
  lemma SilentProbeSticks(c: Config) returns (es: seq<Event>)
    requires c.threshold >= 1
    ensures IsRun(c, IDLE, es) && Stuck(Final(c, IDLE, es))
  {
    hide IsRun, Final;
    var trip := Tripped(c, 0);
    var w := Final(c, IDLE, trip);
    var probe := Probe(c, w);
    var w1 := Next(c, w, probe);
    var leave := Leave(probe.who, w1.clock);
    assert w1.probes == {probe.who};
    RunOfTwo(c, w, probe, leave);
    RunConcat(c, IDLE, trip, [probe, leave]);
    es := trip + [probe, leave];
  }
}
