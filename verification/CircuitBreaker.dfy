/** The circuit breaker, its invariant, and how slowly it can probe. */
module CircuitBreaker {

  datatype Mode = Closed | Open | HalfOpen

  datatype State = State(mode: Mode, failures: nat, lastFailure: real, probing: bool)

  datatype Config = Config(threshold: int, cooldown: real)

  const FRESH: State := State(Closed, 0, 0.0, false)

  /** A call, with the monotonic clock at the moment it holds the lock. */
  datatype Call = Check(at: real) | Success(at: real) | Failure(at: real)

  predicate Admits(c: Config, s: State, at: real) {
    match s.mode
    case Closed => true
    case Open => at - s.lastFailure >= c.cooldown
    case HalfOpen => !s.probing
  }

  function Step(c: Config, s: State, call: Call): State {
    match call
    case Check(at) =>
      if s.mode.Closed? || !Admits(c, s, at) then s else s.(mode := HalfOpen, probing := true)
    case Success(_) =>
      if s.mode.HalfOpen? then s.(mode := Closed, failures := 0, probing := false)
      else if s.mode.Closed? then s.(failures := 0)
      else s
    case Failure(at) =>
      var s1 := s.(failures := s.failures + 1, lastFailure := at);
      if s.mode.HalfOpen? then s1.(mode := Open, probing := false)
      else if s.mode.Closed? && s1.failures >= c.threshold then s1.(mode := Open)
      else s1
  }

  class Breaker {
    const threshold: int
    const cooldown: real
    var mode: Mode
    var failures: nat
    var lastFailure: real
    var probing: bool

    ghost function Value(): State
      reads this
    {
      State(mode, failures, lastFailure, probing)
    }

    ghost function Settings(): Config {
      Config(threshold, cooldown)
    }

    constructor (threshold: int, cooldown: real)
      ensures Value() == FRESH && Settings() == Config(threshold, cooldown)
    {
      this.threshold, this.cooldown := threshold, cooldown;
      mode, failures, lastFailure, probing := Closed, 0, 0.0, false;
    }

    /** Returns whether the request may go through; `false` is `CircuitOpenError`. */
    method CheckCircuit(at: real) returns (admitted: bool)
      modifies this
      ensures admitted == Admits(Settings(), old(Value()), at)
      ensures Value() == Step(Settings(), old(Value()), Check(at))
    {
      if mode == Closed {
        return true;
      }
      if mode == Open {
        var elapsed := at - lastFailure;
        if elapsed >= cooldown {
          mode := HalfOpen;
          probing := false;
        } else {
          return false;
        }
      }
      if !probing {
        probing := true;
        return true;
      }
      return false;
    }

    method RecordSuccess(at: real)
      modifies this
      ensures Value() == Step(Settings(), old(Value()), Success(at))
    {
      if mode == HalfOpen {
        mode := Closed;
        failures := 0;
        probing := false;
      } else if mode == Closed {
        failures := 0;
      }
    }

    method RecordFailure(at: real)
      modifies this
      ensures Value() == Step(Settings(), old(Value()), Failure(at))
    {
      failures := failures + 1;
      lastFailure := at;
      if mode == HalfOpen {
        mode := Open;
        probing := false;
      } else if mode == Closed {
        if failures >= threshold {
          mode := Open;
        }
      }
    }
  }

  // ---- Every run ----

  function After(c: Config, s: State, calls: seq<Call>): State
    decreases |calls|
  {
    if calls == [] then s else After(c, Step(c, s, calls[0]), calls[1..])
  }

  predicate Monotone(clock: real, calls: seq<Call>)
    decreases |calls|
  {
    calls == [] || (clock <= calls[0].at && Monotone(calls[0].at, calls[1..]))
  }

  /** Between calls, a probe is out exactly in HALF_OPEN, and the circuit is closed exactly below the threshold. */
  predicate Inv(c: Config, s: State) {
    (s.mode.HalfOpen? <==> s.probing) && (s.mode.Closed? <==> s.failures < c.threshold)
  }

  lemma {:induction false} RunKeeps(c: Config, s: State, calls: seq<Call>)
    requires c.threshold >= 1 && Inv(c, s)
    ensures Inv(c, After(c, s, calls))
    decreases |calls|
  {
    if calls != [] {
      RunKeeps(c, Step(c, s, calls[0]), calls[1..]);
    }
  }

  /** The invariant holds after every run exactly when the threshold is at least one. */
  lemma InvariantExactly(c: Config)
    ensures c.threshold >= 1 <==> forall calls :: Inv(c, After(c, FRESH, calls))
  {
    if c.threshold >= 1 {
      forall calls: seq<Call>
        ensures Inv(c, After(c, FRESH, calls))
      {
        RunKeeps(c, FRESH, calls);
      }
    } else {
      assert !Inv(c, After(c, FRESH, []));
    }
  }

  /** Failures reported since the last success. */
  function Trailing(calls: seq<Call>): nat {
    if calls == [] then 0
    else
      var before := Trailing(calls[..|calls| - 1]);
      match calls[|calls| - 1]
      case Check(_) => before
      case Success(_) => 0
      case Failure(_) => before + 1
  }

  function LastFailureOf(calls: seq<Call>): real {
    if calls == [] then FRESH.lastFailure
    else
      match calls[|calls| - 1]
      case Failure(at) => at
      case _ => LastFailureOf(calls[..|calls| - 1])
  }

  lemma {:induction false} AfterSnoc(c: Config, s: State, calls: seq<Call>)
    requires calls != []
    ensures After(c, s, calls) == Step(c, After(c, s, calls[..|calls| - 1]), calls[|calls| - 1])
    decreases |calls|
  {
    if |calls| > 1 {
      AfterSnoc(c, Step(c, s, calls[0]), calls[1..]);
      assert calls[1..][..|calls| - 2] == calls[..|calls| - 1][1..];
    }
  }

  /** The circuit is closed after every prefix of the run. */
  predicate StaysClosed(c: Config, calls: seq<Call>) {
    After(c, FRESH, calls).mode.Closed? && (calls == [] || StaysClosed(c, calls[..|calls| - 1]))
  }

  /** After every prefix of the run, fewer than `threshold` failures have been reported since the last success. */
  predicate StaysBelow(c: Config, calls: seq<Call>) {
    Trailing(calls) < c.threshold && (calls == [] || StaysBelow(c, calls[..|calls| - 1]))
  }

  lemma {:induction false} ClosedCounts(c: Config, calls: seq<Call>)
    requires c.threshold >= 1 && (calls == [] || StaysClosed(c, calls[..|calls| - 1]))
    ensures After(c, FRESH, calls).failures == Trailing(calls)
    ensures After(c, FRESH, calls).mode.Closed? <==> Trailing(calls) < c.threshold
  {
    if calls != [] {
      AfterSnoc(c, FRESH, calls);
      ClosedCounts(c, calls[..|calls| - 1]);
    }
  }

  /** The circuit first opens at the report that makes `threshold` failures since the last success, not before. */
  lemma {:induction false} OpensExactlyAtThreshold(c: Config, calls: seq<Call>)
    requires c.threshold >= 1
    ensures StaysClosed(c, calls) <==> StaysBelow(c, calls)
  {
    if calls != [] {
      OpensExactlyAtThreshold(c, calls[..|calls| - 1]);
    }
    if calls == [] || StaysClosed(c, calls[..|calls| - 1]) {
      ClosedCounts(c, calls);
    }
  }

  /** In every run, an open circuit admits a check exactly when a cooldown has passed since the last reported
      failure, stale or not; a half-open one admits none. */
  lemma AdmissionExactly(c: Config, calls: seq<Call>, at: real)
    requires c.threshold >= 1
    ensures var s := After(c, FRESH, calls);
      Admits(c, s, at) <==> s.mode.Closed? || (s.mode.Open? && at - LastFailureOf(calls) >= c.cooldown)
  {
    RunKeeps(c, FRESH, calls);
    LastFailureTracked(c, calls);
  }

  lemma {:induction false} LastFailureTracked(c: Config, calls: seq<Call>)
    ensures After(c, FRESH, calls).lastFailure == LastFailureOf(calls)
  {
    if calls != [] {
      LastFailureTracked(c, calls[..|calls| - 1]);
      AfterSnoc(c, FRESH, calls);
    }
  }

  /** While the circuit is closed, in any run, the counter holds the failures since the last success. */
  lemma {:induction false} ClosedCounter(c: Config, calls: seq<Call>)
    ensures After(c, FRESH, calls).mode.Closed? ==> After(c, FRESH, calls).failures == Trailing(calls)
  {
    if calls != [] {
      ClosedCounter(c, calls[..|calls| - 1]);
      AfterSnoc(c, FRESH, calls);
    }
  }

  /** How each call moves the circuit after any run, told from the calls alone: a closed circuit opens at the failure that
      makes `threshold` since the last success; an open one half-opens at the first check a cooldown after the last
      failure, and nothing else moves it; a half-open one closes on a success and opens on a failure, whoever reports. */
  lemma TransitionsExactly(c: Config, calls: seq<Call>, call: Call)
    ensures var s, s' := After(c, FRESH, calls), After(c, FRESH, calls + [call]);
      && (s.mode.Closed? ==> s'.mode == if call.Failure? && Trailing(calls) + 1 >= c.threshold then Open else Closed)
      && (s.mode.Open? ==> s'.mode == if call.Check? && call.at >= LastFailureOf(calls) + c.cooldown then HalfOpen else Open)
      && (s.mode.HalfOpen? && call.Success? ==> s'.mode.Closed? && s'.failures == 0)
      && (s.mode.HalfOpen? && call.Failure? ==> s'.mode.Open?)
      && (s.mode.HalfOpen? && call.Check? ==> s'.mode.HalfOpen?)
      && (call.Failure? ==> s'.failures == s.failures + 1 && s'.lastFailure == call.at)
      && (!call.Failure? ==> s'.lastFailure == s.lastFailure)
  {
    var run := calls + [call];
    assert run[..|run| - 1] == calls && run[|run| - 1] == call;
    AfterSnoc(c, FRESH, run);
    ClosedCounter(c, calls);
    LastFailureTracked(c, calls);
  }

  /** How many checks of a run are admitted. */
  function Probes(c: Config, s: State, calls: seq<Call>): nat
    decreases |calls|
  {
    if calls == [] then 0
    else
      var here := if calls[0].Check? && Admits(c, s, calls[0].at) then 1 else 0;
      here + Probes(c, Step(c, s, calls[0]), calls[1..])
  }

  /** The circuit is not closed again at any point of the run. */
  predicate NeverCloses(c: Config, s: State, calls: seq<Call>)
    decreases |calls|
  {
    !s.mode.Closed? && (calls == [] || NeverCloses(c, Step(c, s, calls[0]), calls[1..]))
  }

  function LastTime(clock: real, calls: seq<Call>): real {
    if calls == [] then clock else calls[|calls| - 1].at
  }

  function Times(n: nat, x: real): real {
    if n == 0 then 0.0 else Times(n - 1, x) + x
  }

  lemma {:induction false} TimesIsProduct(n: nat, x: real)
    ensures Times(n, x) == n as real * x
  {
    if n > 0 {
      TimesIsProduct(n - 1, x);
    }
  }

  lemma {:induction false} LastTimeLater(clock: real, calls: seq<Call>)
    requires Monotone(clock, calls)
    ensures clock <= LastTime(clock, calls)
    decreases |calls|
  {
    if calls != [] {
      LastTimeLater(calls[0].at, calls[1..]);
      LastTimeTail(clock, calls);
    }
  }

  lemma LastTimeTail(clock: real, calls: seq<Call>)
    requires calls != []
    ensures LastTime(clock, calls) == LastTime(calls[0].at, calls[1..])
  {
  }

  /** From OPEN, each probe costs a cooldown after the last failure; from HALF_OPEN, after the next one. */
  lemma {:induction false} ProbesTakeTime(c: Config, s: State, clock: real, calls: seq<Call>)
    requires Monotone(clock, calls) && NeverCloses(c, s, calls) && (s.mode.HalfOpen? <==> s.probing)
    requires s.lastFailure <= clock
    ensures Probes(c, s, calls) > 0 || s.mode.Open? ==>
      LastTime(clock, calls) >= (if s.mode.Open? then s.lastFailure else clock) + Times(Probes(c, s, calls), c.cooldown)
    decreases |calls|
  {
    if calls != [] {
      var call, s1 := calls[0], Step(c, s, calls[0]);
      LastTimeTail(clock, calls);
      LastTimeLater(call.at, calls[1..]);
      ProbesTakeTime(c, s1, call.at, calls[1..]);
    }
  }

  /** If `n` probes are admitted after the circuit opens and before it closes again, at least `n` cooldowns
      have passed since the opening failure, however many stale reports arrive in between. */
  lemma ProbeRate(c: Config, tripped: State, calls: seq<Call>)
    requires tripped.mode.Open? && !tripped.probing
    requires Monotone(tripped.lastFailure, calls) && NeverCloses(c, tripped, calls)
    ensures LastTime(tripped.lastFailure, calls) - tripped.lastFailure
      >= Probes(c, tripped, calls) as real * c.cooldown
  {
    ProbesTakeTime(c, tripped, tripped.lastFailure, calls);
    TimesIsProduct(Probes(c, tripped, calls), c.cooldown);
  }
}
