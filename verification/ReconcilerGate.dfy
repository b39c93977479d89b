/** What lets a run past the safety gate, and how far each run gets, said of the server's replies and the trace. */
module ReconcilerGate {
  import opened Options
  import opened Rulesets
  import opened Reconciler

  // ---- Check runs ----

  /** Position `j` of the trace read a page of check runs. */
  predicate PageRead(server: Server, t: seq<Request>, j: nat)
    requires j < |t|
  {
    && t[j].CheckRuns?
    && match server(t[..j + 1])
       case Reply(status, Runs(_, _)) => status == 200
       case _ => false
  }

  /** Position `j` of the trace read a page that names a context. */
  predicate NamesContext(server: Server, t: seq<Request>, j: nat, context: string)
    requires j < |t|
  {
    && t[j].CheckRuns?
    && match server(t[..j + 1])
       case Reply(status, Runs(names, _)) => status == 200 && context in names
       case _ => false
  }

  /** Every page from position `n` on was read, all but the last announced another, and the last did not. */
  predicate PagesRead(server: Server, t: seq<Request>, n: nat) {
    forall j :: n <= j < |t| ==> PageInOrder(server, t, j)
  }

  predicate PageInOrder(server: Server, t: seq<Request>, j: nat)
    requires j < |t|
  {
    PageRead(server, t, j) && (server(t[..j + 1]).body.more <==> j < |t| - 1)
  }

  predicate NamedFrom(server: Server, t: seq<Request>, n: nat, context: string) {
    exists j :: n <= j < |t| && NamesContext(server, t, j, context)
  }

  /** One more page at the front. */
  lemma PagesMore(server: Server, t: seq<Request>, n: nat)
    requires n < |t| && PageInOrder(server, t, n) && PagesRead(server, t, n + 1)
    ensures PagesRead(server, t, n)
  {
  }

  /** A verified gate has read every page and found every context, before or on one of them. */
  lemma {:induction false} GateEvidence(server: Server, trace: seq<Request>, seen: set<string>, pages: nat)
    requires Gate(server, trace, seen, pages).verified
    ensures var t := Gate(server, trace, seen, pages).trace;
      && |trace| < |t| && trace <= t && PagesRead(server, t, |trace|)
      && forall c :: c in REQUIRED_CHECK_CONTEXTS ==> c in seen || NamedFrom(server, t, |trace|, c)
    decreases pages
  {
    hide PagesRead;
    var u := trace + [CheckRuns];
    var t := Gate(server, trace, seen, pages).trace;
    var names := server(u).body.names;
    if server(u).body.more {
      GateEvidence(server, u, seen + names, pages - 1);
    } else {
      LastPage(server, u);
    }
    assert t[..|trace| + 1] == u && t[|trace|] == CheckRuns;
    PagesMore(server, t, |trace|);
    forall c | c in REQUIRED_CHECK_CONTEXTS
      ensures c in seen || NamedFrom(server, t, |trace|, c)
    {
      if c in names {
        assert NamesContext(server, t, |trace|, c);
      }
    }
  }

  lemma LastPage(server: Server, t: seq<Request>)
    ensures PagesRead(server, t, |t|)
  {
  }

  predicate NoChecksFrom(t: seq<Request>, n: nat) {
    forall j :: n <= j < |t| ==> !t[j].CheckRuns?
  }

  lemma {:induction false} FetchAllChecksNothing(server: Server, trace: seq<Request>, entries: seq<Summary>)
    ensures var t := FetchAll(server, trace, entries).trace; trace <= t && NoChecksFrom(t, |trace|)
    decreases |entries|
  {
    if entries != [] {
      FetchAllChecksNothing(server, trace + [FetchRuleset(entries[0].id)], entries[1..]);
    }
  }

  lemma PlanChecksNothing(server: Server, desired: seq<Ruleset>, trace: seq<Request>)
    ensures var t := ComputePlan(server, desired, trace).trace; trace <= t && NoChecksFrom(t, |trace|)
  {
    var t := trace + [ListRulesets];
    match server(t)
    case Reply(status, Summaries(entries)) =>
      if status == 200 {
        FetchAllChecksNothing(server, t, entries);
      }
    case _ =>
  }

  lemma {:induction false} ApplyChecksNothing(server: Server, desired: seq<Ruleset>, changes: seq<Change>, i: nat, trace: seq<Request>)
    requires i <= |changes|
    ensures var t := ApplyFrom(server, desired, changes, i, trace).trace; trace <= t && NoChecksFrom(t, |trace|)
    decreases |changes| - i
  {
    hide Accepted;
    if i < |changes| && PayloadFor(desired, changes[i].name).Some? {
      if changes[i].action.Keep? {
        ApplyChecksNothing(server, desired, changes, i + 1, trace);
      } else {
        var r := WriteFor(changes[i], PayloadFor(desired, changes[i].name).value);
        ApplyChecksNothing(server, desired, changes, i + 1, trace + [r]);
      }
    }
  }

  /** After the gate, a run issues no more check-run requests. */
  lemma RunChecksInGate(server: Server, desired: seq<Ruleset>, mode: Mode, pages: nat)
    ensures var gate, t := Gate(server, [], {}, pages).trace, Orchestrate(server, desired, mode, pages).trace;
      gate <= t && NoChecksFrom(t, |gate|)
  {
    hide ComputePlan, ApplyFrom;
    var gate := Gate(server, [], {}, pages);
    PlanChecksNothing(server, desired, gate.trace);
    var plan := ComputePlan(server, desired, gate.trace);
    if plan.value.Some? {
      ApplyChecksNothing(server, desired, plan.value.value, 0, plan.trace);
    }
  }

  predicate NamedBefore(server: Server, t: seq<Request>, n: nat, context: string)
    requires n <= |t|
  {
    exists j :: 0 <= j < n && NamesContext(server, t, j, context)
  }

  /** What the pages of a gate say still holds of the longer trace that the run makes of it. */
  lemma PagesExtend(server: Server, g: seq<Request>, t: seq<Request>)
    requires g != [] && g <= t && PagesRead(server, g, 0) && NoChecksFrom(t, |g|)
    ensures forall j :: 0 <= j < |t| && t[j].CheckRuns? ==> PageRead(server, t, j)
    ensures PageRead(server, t, |g| - 1) && !server(t[..|g|]).body.more
    ensures forall c :: NamedFrom(server, g, 0, c) ==> NamedBefore(server, t, |g|, c)
  {
    assert forall j :: 0 <= j < |g| ==> t[..j + 1] == g[..j + 1] && t[j] == g[j];
    forall j | 0 <= j < |t| && t[j].CheckRuns?
      ensures PageRead(server, t, j)
    {
      assert j < |g| && PageInOrder(server, g, j);
      assert t[..j + 1] == g[..j + 1];
    }
    assert PageInOrder(server, g, |g| - 1) && g[..|g|] == t[..|g|];
    forall c | NamedFrom(server, g, 0, c)
      ensures NamedBefore(server, t, |g|, c)
    {
      var j :| 0 <= j < |g| && NamesContext(server, g, j, c);
      assert NamesContext(server, t, j, c);
    }
  }

  /** A run that mutates anything has read every page of check runs, to the last, and each required context was named on
      one of them. */
  lemma MutationNeedsChecks(server: Server, desired: seq<Ruleset>, mode: Mode, pages: nat, i: nat)
    requires i < |Orchestrate(server, desired, mode, pages).trace|
    requires !IsRead(Orchestrate(server, desired, mode, pages).trace[i])
    ensures var t := Orchestrate(server, desired, mode, pages).trace;
      && (forall j :: 0 <= j < |t| && t[j].CheckRuns? ==> PageRead(server, t, j))
      && (exists j :: 0 <= j < i && PageRead(server, t, j) && !server(t[..j + 1]).body.more)
      && NamedBefore(server, t, i, "Code Quality Gate") && NamedBefore(server, t, i, "Runtime Gate")
  {
    hide Orchestrate, Gate, PageRead, NamesContext, PagesRead, NoChecksFrom;
    var t, gate := Orchestrate(server, desired, mode, pages).trace, Gate(server, [], {}, pages);
    if !gate.verified {
      GateBlocksMutation(server, desired, mode, pages);
    }
    GateEvidence(server, [], {}, pages);
    GateReads(server, [], {}, pages);
    RunChecksInGate(server, desired, mode, pages);
    PagesExtend(server, gate.trace, t);
    assert "Code Quality Gate" in REQUIRED_CHECK_CONTEXTS && "Runtime Gate" in REQUIRED_CHECK_CONTEXTS;
    assert forall j :: 0 <= j < |gate.trace| ==> t[j] == gate.trace[j];
    assert |gate.trace| <= i;
  }

  // ---- The converse: pages that name both contexts open the gate ----

  function Checks(n: nat): (t: seq<Request>)
    ensures |t| == n && forall i :: 0 <= i < n ==> t[i] == CheckRuns
  {
    if n == 0 then [] else Checks(n - 1) + [CheckRuns]
  }

  /** The server's pages of check runs, all read with status 200, are exactly these. */
  predicate Serves(server: Server, pages: seq<set<string>>) {
    pages != [] && forall i :: 0 <= i < |pages| ==> server(Checks(i + 1)) == Reply(200, Runs(pages[i], i < |pages| - 1))
  }

  predicate Named(pages: seq<set<string>>, n: nat, context: string)
    requires n <= |pages|
  {
    exists i :: 0 <= i < n && context in pages[i]
  }

  lemma {:induction false} GateOnPages(server: Server, pages: seq<set<string>>, n: nat, seen: set<string>, limit: nat)
    requires Serves(server, pages) && n < |pages| <= limit
    requires forall c :: c in REQUIRED_CHECK_CONTEXTS ==> (c in seen <==> Named(pages, n, c))
    ensures var g := Gate(server, Checks(n), seen, limit - n);
      && g.finished && g.trace == Checks(|pages|)
      && (g.verified <==> forall c :: c in REQUIRED_CHECK_CONTEXTS ==> Named(pages, |pages|, c))
    decreases |pages| - n
  {
    var t := Checks(n) + [CheckRuns];
    assert t == Checks(n + 1) && server(t) == Reply(200, Runs(pages[n], n < |pages| - 1));
    var now := seen + pages[n];
    forall c | c in REQUIRED_CHECK_CONTEXTS
      ensures c in now <==> Named(pages, n + 1, c)
    {
      if Named(pages, n + 1, c) {
        var i :| 0 <= i < n + 1 && c in pages[i];
        assert i < n ==> Named(pages, n, c);
      }
    }
    if n < |pages| - 1 {
      GateOnPages(server, pages, n + 1, now, limit);
    }
  }

  lemma {:induction false} PayloadsKnown(desired: seq<Ruleset>, i: nat)
    requires i < |desired|
    ensures PayloadFor(desired, desired[i].name).Some?
  {
    if i > 0 {
      PayloadsKnown(desired[1..], i - 1);
    }
  }

  /** Applying a plan for the desired rulesets mutates something: a ruleset, or else the legacy protection. */
  lemma {:induction false} ApplyMutates(server: Server, desired: seq<Ruleset>, changes: seq<Change>, i: nat, trace: seq<Request>)
    requires PlanFor(desired, changes) && i <= |changes|
    ensures var a := ApplyFrom(server, desired, changes, i, trace);
      && trace <= a.trace
      && (|a.trace| > |trace| ==> !IsRead(a.trace[|trace|])) && (|a.trace| == |trace| ==> a.value.Some?)
    decreases |changes| - i
  {
    hide Accepted, PayloadFor;
    if i < |changes| {
      PayloadsKnown(desired, i);
      if changes[i].action.Keep? {
        ApplyMutates(server, desired, changes, i + 1, trace);
      } else {
        var r := WriteFor(changes[i], PayloadFor(desired, changes[i].name).value);
        ApplyMutates(server, desired, changes, i + 1, trace + [r]);
      }
    }
  }

  lemma ContextsNamed(pages: seq<set<string>>)
    ensures (forall c :: c in REQUIRED_CHECK_CONTEXTS ==> Named(pages, |pages|, c)) <==>
      Named(pages, |pages|, "Code Quality Gate") && Named(pages, |pages|, "Runtime Gate")
  {
    hide Named;
  }

  lemma SomePage(server: Server, pages: seq<set<string>>)
    requires Serves(server, pages)
    ensures pages != []
  {
  }

  lemma NothingChecked(pages: seq<set<string>>)
    ensures Checks(0) == [] && forall c :: !Named(pages, 0, c)
  {
  }

  /** When the server's pages can be read to the end and the rulesets can be planned, an apply run mutates something if
      and only if the pages together name both required contexts. */
  lemma GateOpensExactly(server: Server, desired: seq<Ruleset>, pages: seq<set<string>>, limit: nat)
    requires Serves(server, pages) && |pages| <= limit
    requires ComputePlan(server, desired, Checks(|pages|)).value.Some?
    ensures var t := Orchestrate(server, desired, Apply, limit).trace;
      (exists i :: 0 <= i < |t| && !IsRead(t[i])) <==>
        Named(pages, |pages|, "Code Quality Gate") && Named(pages, |pages|, "Runtime Gate")
  {
    hide ComputePlan, ApplyFrom, Gate, PlanFor, Named, Checks, Serves;
    SomePage(server, pages);
    ContextsNamed(pages);
    NothingChecked(pages);
    GateOnPages(server, pages, 0, {}, limit);
    var plan := ComputePlan(server, desired, Checks(|pages|));
    var t := Orchestrate(server, desired, Apply, limit).trace;
    PlanReads(server, desired, Checks(|pages|));
    if Gate(server, [], {}, limit).verified {
      ApplyMutates(server, desired, plan.value.value, 0, plan.trace);
      assert !IsRead(t[|plan.trace|]);
    } else {
      GateBlocksMutation(server, desired, Apply, limit);
    }
  }

  // ---- What is planned ----

  /** `r` is the first ruleset of its name. */
  ghost predicate IsFirst(actual: seq<Ruleset>, name: string, r: Ruleset) {
    exists k :: 0 <= k < |actual| && actual[k] == r && r.name == name && forall j :: 0 <= j < k ==> actual[j].name != name
  }

  lemma {:induction false} FirstExactly(actual: seq<Ruleset>, name: string, r: Ruleset)
    ensures FirstNamed(actual, name) == Some(r) <==> IsFirst(actual, name, r)
    ensures FirstNamed(actual, name).None? <==> forall j :: 0 <= j < |actual| ==> actual[j].name != name
  {
    if actual != [] {
      var rest := actual[1..];
      FirstExactly(rest, name, r);
      assert forall j :: 1 <= j < |actual| ==> actual[j] == rest[j - 1];
      if actual[0].name == name {
        assert actual[0].name == name;
      } else {
        if IsFirst(rest, name, r) {
          var k :| 0 <= k < |rest| && rest[k] == r && r.name == name && forall j :: 0 <= j < k ==> rest[j].name != name;
          assert actual[k + 1] == r;
        }
        if IsFirst(actual, name, r) {
          var k :| 0 <= k < |actual| && actual[k] == r && r.name == name && forall j :: 0 <= j < k ==> actual[j].name != name;
          assert rest[k - 1] == r;
        }
      }
    }
  }

  /** A wanted ruleset is created exactly when none has its name; otherwise the first of its name is kept if it has the
      wanted policy, and updated under its own id if not. */
  lemma PlannedExactly(desired: seq<Ruleset>, actual: seq<Ruleset>, i: nat)
    requires i < |desired|
    ensures var changes := PlanChanges(desired, actual);
      && |changes| == |desired| && changes[i].name == desired[i].name
      && (changes[i].action.CreateIt? <==> forall j :: 0 <= j < |actual| ==> actual[j].name != desired[i].name)
      && (changes[i].action.Keep? <==> exists r :: IsFirst(actual, desired[i].name, r) && PoliciesAgree(desired[i], r))
      && (forall r :: IsFirst(actual, desired[i].name, r) ==> changes[i].id == r.id)
  {
    hide Diff, PoliciesAgree, IsFirst, FirstNamed;
    var name := desired[i].name;
    var first := FirstNamed(actual, name);
    forall r | IsFirst(actual, name, r)
      ensures first == Some(r)
    {
      FirstExactly(actual, name, r);
    }
    FirstExactly(actual, name, if first.Some? then first.value else desired[i]);
    if first.Some? {
      DiffExactly(desired[i], first.value);
    }
  }

  // ---- How far an apply run gets ----

  /** The server stored what it was sent: accepted status, active, same policy. */
  ghost predicate Stored(server: Server, t: seq<Request>, j: nat)
    requires j < |t| && (t[j].Create? || t[j].Update?)
  {
    match server(t[..j + 1])
    case Reply(status, One(returned)) =>
      && (status == 200 || (status == 201 && t[j].Create?))
      && returned.enforcement == Some("active") && PoliciesAgree(t[j].payload, returned)
    case _ => false
  }

  lemma StoredIsAccepted(server: Server, t: seq<Request>, j: nat)
    requires j < |t| && (t[j].Create? || t[j].Update?)
    ensures Stored(server, t, j) <==> Accepted(server(t[..j + 1]), t[j])
  {
    hide Diff, PoliciesAgree;
    match server(t[..j + 1])
    case Reply(status, One(returned)) => DiffExactly(t[j].payload, returned);
    case _ =>
  }

  /** Applying goes on after a write exactly when the server stored it; when nothing is left to write, it completes. */
  lemma {:induction false} ApplyGoesOn(server: Server, desired: seq<Ruleset>, changes: seq<Change>, i: nat, trace: seq<Request>, j: nat)
    requires PlanFor(desired, changes) && i <= |changes|
    requires |trace| <= j < |ApplyFrom(server, desired, changes, i, trace).trace|
    ensures var a := ApplyFrom(server, desired, changes, i, trace);
      && trace <= a.trace && (a.trace[j].Create? || a.trace[j].Update?)
      && (Accepted(server(a.trace[..j + 1]), a.trace[j]) <==> j < |a.trace| - 1 || a.value.Some?)
    decreases |changes| - i
  {
    hide Accepted, PayloadFor;
    var a := ApplyFrom(server, desired, changes, i, trace);
    PayloadsKnown(desired, i);
    if changes[i].action.Keep? {
      ApplyGoesOn(server, desired, changes, i + 1, trace, j);
    } else {
      var r := WriteFor(changes[i], PayloadFor(desired, changes[i].name).value);
      var t := trace + [r];
      ApplyMutates(server, desired, changes, i + 1, t);
      if Accepted(server(t), r) && j > |trace| {
        ApplyGoesOn(server, desired, changes, i + 1, t, j);
      } else {
        assert j == |trace| && a.trace[..j + 1] == t;
      }
    }
  }

  /** In every run, a write is followed by another request exactly when the server stored it. */
  lemma WritesExactly(server: Server, desired: seq<Ruleset>, mode: Mode, pages: nat, j: nat)
    requires j < |Orchestrate(server, desired, mode, pages).trace|
    requires !IsRead(Orchestrate(server, desired, mode, pages).trace[j]) && !Orchestrate(server, desired, mode, pages).trace[j].DeleteProtection?
    ensures var t := Orchestrate(server, desired, mode, pages).trace; Stored(server, t, j) <==> j < |t| - 1
  {
    hide Accepted, Stored, PlanFor, ComputePlan, ApplyFrom, Gate;
    var gate := Gate(server, [], {}, pages);
    GateReads(server, [], {}, pages);
    var plan := ComputePlan(server, desired, gate.trace);
    PlanReads(server, desired, gate.trace);
    var t := Orchestrate(server, desired, mode, pages).trace;
    StoredIsAccepted(server, t, j);
    assert gate.finished && gate.verified && mode.Apply? && plan.value.Some?;
    var a := ApplyFrom(server, desired, plan.value.value, 0, plan.trace);
    ApplyMutates(server, desired, plan.value.value, 0, plan.trace);
    assert j < |a.trace| && t[..j + 1] == a.trace[..j + 1] && t[j] == a.trace[j];
    ApplyGoesOn(server, desired, plan.value.value, 0, plan.trace, j);
  }

  /** A run reports success exactly when its last request deleted the legacy protection, or found none. */
  lemma AppliedExactly(server: Server, desired: seq<Ruleset>, mode: Mode, pages: nat)
    ensures var run := Orchestrate(server, desired, mode, pages);
      run.outcome.Applied? <==>
        && run.trace != [] && run.trace[|run.trace| - 1] == DeleteProtection
        && match server(run.trace)
           case Reply(status, _) => status == 200 || status == 204 || status == 404
           case Unreachable => false
  {
    hide ComputePlan, ApplyFrom, Gate;
    var run, gate := Orchestrate(server, desired, mode, pages), Gate(server, [], {}, pages);
    GateReads(server, [], {}, pages);
    PlanReads(server, desired, gate.trace);
    var plan := ComputePlan(server, desired, gate.trace);
    if plan.value.Some? && gate.finished && gate.verified && mode.Apply? {
      var a := ApplyFrom(server, desired, plan.value.value, 0, plan.trace);
      ApplyMutates(server, desired, plan.value.value, 0, plan.trace);
      if a.value.None? {
        ApplyGoesOn(server, desired, plan.value.value, 0, plan.trace, |a.trace| - 1);
      } else {
        assert run.trace == a.trace + [DeleteProtection];
      }
    } else {
      assert run.trace == gate.trace || run.trace == plan.trace;
    }
  }
}
