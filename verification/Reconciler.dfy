/** Diff, plan, apply and verify against an arbitrary server, with an irreversible last step. */
module Reconciler {
  import opened Options
  import opened Rulesets

  datatype Mode = DryRun | Apply

  datatype Request =
    | CheckRuns
    | ListRulesets
    | FetchRuleset(id: int)
    | Create(payload: Ruleset)
    | Update(target: Option<int>, payload: Ruleset)
    | DeleteProtection

  datatype Summary = Summary(name: Option<string>, id: int)

  datatype Body =
    | Runs(names: set<string>, more: bool)
    | Summaries(entries: seq<Summary>)
    | One(ruleset: Ruleset)
    | Junk

  datatype Reply = Unreachable | Reply(status: int, body: Body)

  /** Any server: what it answers to the last request may depend on everything it was ever sent. */
  type Server = seq<Request> -> Reply

  predicate IsRead(r: Request) {
    r.CheckRuns? || r.ListRulesets? || r.FetchRuleset?
  }

  datatype Action = CreateIt | UpdateIt | Keep

  datatype Change = Change(name: string, action: Action, id: Option<int>)

  // ---- Planning ----

  /** The first ruleset with a name. */
  function FirstNamed(actual: seq<Ruleset>, name: string): Option<Ruleset> {
    if actual == [] then None
    else if actual[0].name == name then Some(actual[0])
    else FirstNamed(actual[1..], name)
  }

  function PlanOne(wanted: Ruleset, actual: seq<Ruleset>): Change {
    match FirstNamed(actual, wanted.name)
    case None => Change(wanted.name, CreateIt, None)
    case Some(current) =>
      Change(wanted.name, if Diff(wanted, current) == [] then Keep else UpdateIt, current.id)
  }

  /** `plan_changes`. */
  function PlanChanges(desired: seq<Ruleset>, actual: seq<Ruleset>): (r: seq<Change>)
    ensures |r| == |desired|
    ensures forall i :: 0 <= i < |r| ==> r[i] == PlanOne(desired[i], actual)
  {
    if desired == [] then []
    else PlanChanges(desired[..|desired| - 1], actual) + [PlanOne(desired[|desired| - 1], actual)]
  }

  /** A stage of a run: the requests issued so far, and a value unless the stage raised. */
  datatype Stage<T> = Stage(trace: seq<Request>, value: Option<T>)

  /** Fetches the details of each listed ruleset, stopping at the first failure. */
  function FetchAll(server: Server, trace: seq<Request>, entries: seq<Summary>): Stage<seq<Ruleset>>
    decreases |entries|
  {
    if entries == [] then Stage(trace, Some([]))
    else
      var t := trace + [FetchRuleset(entries[0].id)];
      match server(t)
      case Reply(status, One(r)) =>
        if status != 200 then Stage(t, None)
        else
          var rest := FetchAll(server, t, entries[1..]);
          Stage(rest.trace, if rest.value.Some? then Some([r] + rest.value.value) else None)
      case _ => Stage(t, None)
  }

  /** `compute_plan`. */
  function ComputePlan(server: Server, desired: seq<Ruleset>, trace: seq<Request>): Stage<seq<Change>> {
    var t := trace + [ListRulesets];
    match server(t)
    case Reply(status, Summaries(entries)) =>
      if status != 200 then Stage(t, None)
      else
        var fetched := FetchAll(server, t, entries);
        Stage(fetched.trace, if fetched.value.Some? then Some(PlanChanges(desired, fetched.value.value)) else None)
    case _ => Stage(t, None)
  }

  // ---- Applying ----

  /** `ruleset_payload_for`. */
  function PayloadFor(desired: seq<Ruleset>, name: string): Option<Ruleset> {
    FirstNamed(desired, name)
  }

  /** A write succeeded and `verify_returned` accepts what came back. */
  predicate Accepted(reply: Reply, request: Request) {
    match (request, reply)
    case (Create(payload), Reply(status, One(r))) =>
      (status == 200 || status == 201) && r.enforcement == Some("active") && Diff(payload, r) == []
    case (Update(_, payload), Reply(status, One(r))) =>
      status == 200 && r.enforcement == Some("active") && Diff(payload, r) == []
    case _ => false
  }

  function WriteFor(change: Change, payload: Ruleset): Request {
    if change.action.CreateIt? then Create(payload) else Update(change.id, payload)
  }

  /** The changes from index `i` on; stops at the first write that is not accepted. */
  function ApplyFrom(server: Server, desired: seq<Ruleset>, changes: seq<Change>, i: nat, trace: seq<Request>): Stage<()>
    requires i <= |changes|
    decreases |changes| - i
  {
    if i == |changes| then Stage(trace, Some(()))
    else
      match PayloadFor(desired, changes[i].name)
      case None => Stage(trace, None)
      case Some(payload) =>
        if changes[i].action.Keep? then ApplyFrom(server, desired, changes, i + 1, trace)
        else
          var request := WriteFor(changes[i], payload);
          var t := trace + [request];
          if Accepted(server(t), request) then ApplyFrom(server, desired, changes, i + 1, t) else Stage(t, None)
  }

  predicate Deleted(reply: Reply) {
    reply.Reply? && (reply.status == 404 || reply.status == 200 || reply.status == 204)
  }

  /** `apply_plan`. */
  function ApplyPlan(server: Server, desired: seq<Ruleset>, changes: seq<Change>, trace: seq<Request>): Stage<()> {
    var applied := ApplyFrom(server, desired, changes, 0, trace);
    if applied.value.None? then applied
    else
      var t := applied.trace + [DeleteProtection];
      Stage(t, if Deleted(server(t)) then Some(()) else None)
  }

  // ---- The orchestrator ----

  const REQUIRED_CHECK_CONTEXTS: set<string> := {"Code Quality Gate", "Runtime Gate"}

  datatype GateResult = GateResult(trace: seq<Request>, verified: bool, finished: bool)

  /** `safety_gate`: reads pages of check runs while the server offers more, at most `pages` of them. */
  function Gate(server: Server, trace: seq<Request>, seen: set<string>, pages: nat): GateResult
    decreases pages
  {
    if pages == 0 then GateResult(trace, false, false)
    else
      var t := trace + [CheckRuns];
      match server(t)
      case Reply(status, Runs(names, more)) =>
        if status != 200 then GateResult(t, false, true)
        else if more then Gate(server, t, seen + names, pages - 1)
        else GateResult(t, REQUIRED_CHECK_CONTEXTS <= seen + names, true)
      case _ => GateResult(t, false, true)
  }

  datatype Outcome = Reported | Applied | Aborted | StillPaging

  datatype Run = Run(trace: seq<Request>, outcome: Outcome)

  /** `run_orchestrator`. */
  function Orchestrate(server: Server, desired: seq<Ruleset>, mode: Mode, pages: nat): Run {
    var gate := Gate(server, [], {}, pages);
    if !gate.finished then Run(gate.trace, StillPaging)
    else
      var plan := ComputePlan(server, desired, gate.trace);
      if mode.DryRun? then Run(plan.trace, Reported)
      else if !gate.verified || plan.value.None? then Run(plan.trace, Aborted)
      else
        var r := ApplyPlan(server, desired, plan.value.value, plan.trace);
        Run(r.trace, if r.value.Some? then Applied else Aborted)
  }

  // ---- What every run keeps ----

  predicate ReadsFrom(t: seq<Request>, n: nat) {
    forall j :: n <= j < |t| ==> IsRead(t[j])
  }

  lemma {:induction false} GateReads(server: Server, trace: seq<Request>, seen: set<string>, pages: nat)
    ensures trace <= Gate(server, trace, seen, pages).trace
    ensures ReadsFrom(Gate(server, trace, seen, pages).trace, |trace|)
    decreases pages
  {
    if pages > 0 {
      var t := trace + [CheckRuns];
      match server(t)
      case Reply(status, Runs(names, more)) =>
        if status == 200 && more {
          GateReads(server, t, seen + names, pages - 1);
        }
      case _ =>
    }
  }

  /** Position `j` of the trace read a ruleset that is diff-clean for `wanted`. */
  predicate CleanRead(server: Server, t: seq<Request>, j: nat, wanted: Ruleset)
    requires j < |t|
  {
    && t[j].FetchRuleset?
    && match server(t[..j + 1])
       case Reply(status, One(r)) => status == 200 && r.name == wanted.name && Diff(wanted, r) == []
       case _ => false
  }

  /** Position `j` of the trace wrote `wanted` and got it back active and diff-clean. */
  predicate CleanWrite(server: Server, t: seq<Request>, j: nat, wanted: Ruleset)
    requires j < |t|
  {
    (t[j] == Create(wanted) || (t[j].Update? && t[j].payload == wanted)) && Accepted(server(t[..j + 1]), t[j])
  }

  predicate CleanFor(server: Server, t: seq<Request>, wanted: Ruleset) {
    exists j :: 0 <= j < |t| && (CleanRead(server, t, j, wanted) || CleanWrite(server, t, j, wanted))
  }

  lemma CleanForExtends(server: Server, t: seq<Request>, t': seq<Request>, wanted: Ruleset)
    requires t <= t' && CleanFor(server, t, wanted)
    ensures CleanFor(server, t', wanted)
  {
    var j :| 0 <= j < |t| && (CleanRead(server, t, j, wanted) || CleanWrite(server, t, j, wanted));
    assert t'[..j + 1] == t[..j + 1] && t'[j] == t[j];
    assert CleanRead(server, t', j, wanted) || CleanWrite(server, t', j, wanted);
  }

  /** Each fetched ruleset is what the server answered to some fetch of the trace. */
  predicate WasRead(server: Server, t: seq<Request>, r: Ruleset) {
    exists j :: 0 <= j < |t| && t[j].FetchRuleset? && server(t[..j + 1]) == Reply(200, One(r))
  }

  lemma WasReadExtends(server: Server, t: seq<Request>, t': seq<Request>, r: Ruleset)
    requires t <= t' && WasRead(server, t, r)
    ensures WasRead(server, t', r)
  {
    var j :| 0 <= j < |t| && t[j].FetchRuleset? && server(t[..j + 1]) == Reply(200, One(r));
    assert t'[..j + 1] == t[..j + 1] && t'[j] == t[j];
  }

  lemma {:induction false} FetchAllReads(server: Server, trace: seq<Request>, entries: seq<Summary>)
    ensures var f := FetchAll(server, trace, entries);
      && trace <= f.trace && ReadsFrom(f.trace, |trace|)
      && (f.value.Some? ==> forall r :: r in f.value.value ==> WasRead(server, f.trace, r))
    decreases |entries|
  {
    if entries != [] {
      var t := trace + [FetchRuleset(entries[0].id)];
      FetchAllReads(server, t, entries[1..]);
      var f := FetchAll(server, trace, entries);
      if f.value.Some? {
        var r := f.value.value[0];
        assert t[..|t|] == t && t[|trace|].FetchRuleset?;
        assert server(t[..|trace| + 1]) == Reply(200, One(r));
        assert WasRead(server, t, r);
        WasReadExtends(server, t, f.trace, r);
      }
    }
  }

  lemma {:induction false} FirstNamedIn(actual: seq<Ruleset>, name: string)
    ensures FirstNamed(actual, name).Some? ==>
      FirstNamed(actual, name).value in actual && FirstNamed(actual, name).value.name == name
  {
    if actual != [] && actual[0].name != name {
      FirstNamedIn(actual[1..], name);
    }
  }

  /** A plan is made of reads; what it keeps, it has read and found clean. */
  lemma PlanReads(server: Server, desired: seq<Ruleset>, trace: seq<Request>)
    ensures var p := ComputePlan(server, desired, trace);
      && trace <= p.trace && ReadsFrom(p.trace, |trace|)
      && (p.value.Some? ==> PlanFor(desired, p.value.value))
      && (p.value.Some? ==> forall i :: 0 <= i < |desired| && p.value.value[i].action.Keep? ==>
            CleanFor(server, p.trace, desired[i]))
  {
    var t := trace + [ListRulesets];
    match server(t)
    case Reply(status, Summaries(entries)) =>
      if status == 200 {
        FetchAllReads(server, t, entries);
        var f := FetchAll(server, t, entries);
        if f.value.Some? {
          forall i | 0 <= i < |desired| && PlanOne(desired[i], f.value.value).action.Keep?
            ensures CleanFor(server, f.trace, desired[i])
          {
            KeptIsClean(server, f.trace, f.value.value, desired[i]);
          }
        }
      }
    case _ =>
  }

  lemma KeptIsClean(server: Server, t: seq<Request>, actual: seq<Ruleset>, wanted: Ruleset)
    requires forall r :: r in actual ==> WasRead(server, t, r)
    requires PlanOne(wanted, actual).action.Keep?
    ensures CleanFor(server, t, wanted)
  {
    hide Diff;
    FirstNamedIn(actual, wanted.name);
    var r := FirstNamed(actual, wanted.name).value;
    var j :| 0 <= j < |t| && t[j].FetchRuleset? && server(t[..j + 1]) == Reply(200, One(r));
    assert CleanRead(server, t, j, wanted);
  }

  predicate DistinctNames(desired: seq<Ruleset>) {
    forall i, j :: 0 <= i < j < |desired| ==> desired[i].name != desired[j].name
  }

  lemma {:induction false} PayloadIsWanted(desired: seq<Ruleset>, i: nat)
    requires DistinctNames(desired) && i < |desired|
    ensures PayloadFor(desired, desired[i].name) == Some(desired[i])
  {
    if i > 0 {
      assert desired[0].name != desired[i].name;
      PayloadIsWanted(desired[1..], i - 1);
    }
  }

  /** The plan names the desired rulesets in order. */
  predicate PlanFor(desired: seq<Ruleset>, changes: seq<Change>) {
    |changes| == |desired| && forall i :: 0 <= i < |desired| ==> changes[i].name == desired[i].name
  }

  /** Applying issues creates and updates only; all but possibly the last were accepted, and when it
      completes, every change it had to make is clean. */
  lemma {:induction false} ApplyFromClean(server: Server, desired: seq<Ruleset>, changes: seq<Change>, i: nat, trace: seq<Request>)
    requires PlanFor(desired, changes) && DistinctNames(desired) && i <= |changes|
    ensures var a := ApplyFrom(server, desired, changes, i, trace);
      && trace <= a.trace
      && (forall j :: |trace| <= j < |a.trace| ==> a.trace[j].Create? || a.trace[j].Update?)
      && (forall j :: |trace| <= j < |a.trace| && (a.value.Some? || j < |a.trace| - 1) ==>
            Accepted(server(a.trace[..j + 1]), a.trace[j]))
      && (a.value.Some? ==> forall k :: i <= k < |changes| && !changes[k].action.Keep? ==>
            CleanFor(server, a.trace, desired[k]))
    decreases |changes| - i
  {
    hide Accepted;
    if i < |changes| {
      PayloadIsWanted(desired, i);
      if changes[i].action.Keep? {
        ApplyFromClean(server, desired, changes, i + 1, trace);
      } else {
        var request := WriteFor(changes[i], desired[i]);
        var t := trace + [request];
        var a := ApplyFrom(server, desired, changes, i, trace);
        assert t[..|trace| + 1] == t && t[|trace|] == request;
        if Accepted(server(t), request) {
          ApplyFromClean(server, desired, changes, i + 1, t);
          assert a.trace[..|trace| + 1] == t && a.trace[|trace|] == request;
          if a.value.Some? {
            assert CleanWrite(server, t, |trace|, desired[i]);
            CleanForExtends(server, t, a.trace, desired[i]);
          }
        }
      }
    }
  }

  /** The irreversible request is issued at most once, last, in apply mode only, and only when every
      desired ruleset was diff-clean as read by the plan or as returned by its own write. */
  lemma DeleteIsLastAndEarned(server: Server, desired: seq<Ruleset>, mode: Mode, pages: nat, i: nat)
    requires DistinctNames(desired)
    requires i < |Orchestrate(server, desired, mode, pages).trace|
    requires Orchestrate(server, desired, mode, pages).trace[i].DeleteProtection?
    ensures mode.Apply? && i == |Orchestrate(server, desired, mode, pages).trace| - 1
    ensures forall w :: w in desired ==> CleanFor(server, Orchestrate(server, desired, mode, pages).trace[..i], w)
  {
    hide Diff, CleanFor, Accepted;
    var gate := Gate(server, [], {}, pages);
    GateReads(server, [], {}, pages);
    var plan := ComputePlan(server, desired, gate.trace);
    PlanReads(server, desired, gate.trace);
    var run := Orchestrate(server, desired, mode, pages);
    assert gate.finished && mode.Apply? && plan.value.Some?;
    var changes := plan.value.value;
    var a := ApplyFrom(server, desired, changes, 0, plan.trace);
    ApplyFromClean(server, desired, changes, 0, plan.trace);
    assert a.value.Some? && run.trace == a.trace + [DeleteProtection];
    assert run.trace[..i] == a.trace;
    forall k | 0 <= k < |desired|
      ensures CleanFor(server, a.trace, desired[k])
    {
      if changes[k].action.Keep? {
        CleanForExtends(server, plan.trace, a.trace, desired[k]);
      }
    }
  }

  /** No mutation follows one that was not accepted: every write but the last request was clean. */
  lemma NoMutationAfterFailure(server: Server, desired: seq<Ruleset>, mode: Mode, pages: nat, j: nat)
    requires DistinctNames(desired)
    requires j < |Orchestrate(server, desired, mode, pages).trace| - 1
    requires !IsRead(Orchestrate(server, desired, mode, pages).trace[j])
    ensures var t := Orchestrate(server, desired, mode, pages).trace; Accepted(server(t[..j + 1]), t[j])
  {
    hide Diff, CleanFor, Accepted;
    var gate := Gate(server, [], {}, pages);
    GateReads(server, [], {}, pages);
    var plan := ComputePlan(server, desired, gate.trace);
    PlanReads(server, desired, gate.trace);
    var t := Orchestrate(server, desired, mode, pages).trace;
    assert gate.finished && mode.Apply? && plan.value.Some?;
    var a := ApplyFrom(server, desired, plan.value.value, 0, plan.trace);
    ApplyFromClean(server, desired, plan.value.value, 0, plan.trace);
    assert j < |a.trace| && t[..j + 1] == a.trace[..j + 1] && t[j] == a.trace[j];
  }

  /** Dry runs issue no mutating request, whatever the server does. */
  lemma DryRunReadsOnly(server: Server, desired: seq<Ruleset>, pages: nat)
    ensures ReadsFrom(Orchestrate(server, desired, DryRun, pages).trace, 0)
  {
    GateReads(server, [], {}, pages);
    PlanReads(server, desired, Gate(server, [], {}, pages).trace);
  }

  /** A gate that is not verified lets no mutation through. */
  lemma GateBlocksMutation(server: Server, desired: seq<Ruleset>, mode: Mode, pages: nat)
    requires !Gate(server, [], {}, pages).verified
    ensures ReadsFrom(Orchestrate(server, desired, mode, pages).trace, 0)
  {
    GateReads(server, [], {}, pages);
    PlanReads(server, desired, Gate(server, [], {}, pages).trace);
  }

  // ---- The client that talks to the server ----

  class Client {
    const server: Server
    var trace: seq<Request>

    constructor (server: Server)
      ensures this.server == server && trace == []
    {
      this.server := server;
      trace := [];
    }

    method Send(request: Request) returns (reply: Reply)
      modifies this
      ensures trace == old(trace) + [request] && reply == server(trace)
    {
      trace := trace + [request];
      reply := server(trace);
    }

    /** `apply_plan`, one request at a time. */
    method ApplyChanges(desired: seq<Ruleset>, changes: seq<Change>) returns (ok: bool)
      modifies this
      ensures var r := ApplyPlan(server, desired, changes, old(trace)); trace == r.trace && ok == r.value.Some?
    {
      hide Accepted, PayloadFor, WriteFor;
      for i := 0 to |changes|
        invariant ApplyFrom(server, desired, changes, i, trace) == ApplyFrom(server, desired, changes, 0, old(trace))
      {
        var payload := PayloadFor(desired, changes[i].name);
        if payload.None? {
          return false;
        }
        if !changes[i].action.Keep? {
          var request := WriteFor(changes[i], payload.value);
          var returned := Send(request);
          if !Accepted(returned, request) {
            return false;
          }
        }
      }
      var reply := Send(DeleteProtection);
      return Deleted(reply);
    }
  }
}
