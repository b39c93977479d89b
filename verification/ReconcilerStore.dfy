/** Idempotence: against a server that stores what it is sent, a successful apply leaves nothing to plan. */
module ReconcilerStore {
  import opened Options
  import opened Rulesets
  import opened Reconciler

  // ---- A storing server ----

  /** An id greater than every id in the store. */
  function FreshId(store: seq<Ruleset>): int {
    if store == [] then 1
    else
      var rest := FreshId(store[1..]);
      match store[0].id
      case Some(n) => if n >= rest then n + 1 else rest
      case None => rest
  }

  function Find(store: seq<Ruleset>, id: int): Option<Ruleset> {
    if store == [] then None
    else if store[0].id == Some(id) then Some(store[0])
    else Find(store[1..], id)
  }

  /** The store with the payload in place of the ruleset that has the id. */
  function Overwrite(store: seq<Ruleset>, id: int, payload: Ruleset): seq<Ruleset> {
    if store == [] then []
    else if store[0].id == Some(id) then [payload.(id := Some(id))] + store[1..]
    else [store[0]] + Overwrite(store[1..], id, payload)
  }

  /** What the store holds after a request; listing order is insertion order. */
  function Written(store: seq<Ruleset>, r: Request): seq<Ruleset> {
    match r
    case Create(payload) => store + [payload.(id := Some(FreshId(store)))]
    case Update(Some(id), payload) => Overwrite(store, id, payload)
    case _ => store
  }

  function StoreAfter(init: seq<Ruleset>, t: seq<Request>): seq<Ruleset> {
    if t == [] then init else Written(StoreAfter(init, t[..|t| - 1]), t[|t| - 1])
  }

  function Entries(store: seq<Ruleset>): seq<Summary> {
    if store == [] then []
    else [Summary(Some(store[0].name), if store[0].id.Some? then store[0].id.value else 0)] + Entries(store[1..])
  }

  function AnswerTo(store: seq<Ruleset>, r: Request): Reply {
    match r
    case CheckRuns => Reply(200, Runs(REQUIRED_CHECK_CONTEXTS, false))
    case ListRulesets => Reply(200, Summaries(Entries(store)))
    case FetchRuleset(id) =>
      (match Find(store, id)
       case Some(x) => Reply(200, One(x))
       case None => Reply(404, Junk))
    case Create(payload) => Reply(201, One(payload.(id := Some(FreshId(store)))))
    case Update(Some(id), payload) =>
      if Find(store, id).Some? then Reply(200, One(payload.(id := Some(id)))) else Reply(404, Junk)
    case Update(None, _) => Reply(404, Junk)
    case DeleteProtection => Reply(204, Junk)
  }

  function Storing(init: seq<Ruleset>): Server {
    (t: seq<Request>) =>
      if t == [] then Unreachable else AnswerTo(StoreAfter(init, t[..|t| - 1]), t[|t| - 1])
  }

  predicate DistinctIds(store: seq<Ruleset>) {
    && (forall i :: 0 <= i < |store| ==> store[i].id.Some?)
    && (forall i, j :: 0 <= i < j < |store| ==> store[i].id != store[j].id)
  }

  lemma StoreStep(init: seq<Ruleset>, t: seq<Request>, r: Request)
    ensures StoreAfter(init, t + [r]) == Written(StoreAfter(init, t), r)
    ensures Storing(init)(t + [r]) == AnswerTo(StoreAfter(init, t), r)
  {
    assert (t + [r])[..|t|] == t;
  }

  /** Reads leave the store alone. */
  lemma {:induction false} ReadsKeepStore(init: seq<Ruleset>, t: seq<Request>, t': seq<Request>)
    requires t <= t' && ReadsFrom(t', |t|)
    ensures StoreAfter(init, t') == StoreAfter(init, t)
  {
    if |t| < |t'| {
      var u := t'[..|t'| - 1];
      ReadsKeepStore(init, t, u);
      assert t' == u + [t'[|t'| - 1]];
      StoreStep(init, u, t'[|t'| - 1]);
    } else {
      assert t == t';
    }
  }

  // ---- Reading the store back ----

  lemma {:induction false} FindsEach(store: seq<Ruleset>, i: nat)
    requires DistinctIds(store) && i < |store|
    ensures Find(store, store[i].id.value) == Some(store[i])
  {
    if i > 0 {
      assert store[0].id != store[i].id;
      FindsEach(store[1..], i - 1);
    }
  }

  lemma {:induction false} EntriesIds(store: seq<Ruleset>, i: nat)
    requires DistinctIds(store)
    ensures |Entries(store)| == |store|
    ensures i < |store| ==> Entries(store)[i].id == store[i].id.value
  {
    if store != [] {
      EntriesIds(store[1..], if i > 0 then i - 1 else 0);
    }
  }

  /** One fetch, and then the rest. */
  lemma FetchStep(server: Server, trace: seq<Request>, entries: seq<Summary>, i: nat, store: seq<Ruleset>)
    requires i < |entries| == |store|
    requires server(trace + [FetchRuleset(entries[i].id)]) == Reply(200, One(store[i]))
    requires FetchAll(server, trace + [FetchRuleset(entries[i].id)], entries[i + 1..]).value == Some(store[i + 1..])
    ensures FetchAll(server, trace, entries[i..]).value == Some(store[i..])
  {
    assert entries[i..][1..] == entries[i + 1..];
    assert store[i..] == [store[i]] + store[i + 1..];
  }

  /** Fetching a ruleset by its own id returns it and leaves the store alone. */
  lemma FetchOwn(init: seq<Ruleset>, store: seq<Ruleset>, i: nat, trace: seq<Request>)
    requires StoreAfter(init, trace) == store && DistinctIds(store) && i < |store|
    ensures var request := FetchRuleset(store[i].id.value);
      && Storing(init)(trace + [request]) == Reply(200, One(store[i]))
      && StoreAfter(init, trace + [request]) == store
  {
    FindsEach(store, i);
    StoreStep(init, trace, FetchRuleset(store[i].id.value));
  }

  lemma FetchNothing(server: Server, trace: seq<Request>)
    ensures FetchAll(server, trace, []).value == Some([])
  {
  }

  /** Fetching everything that is listed from index `i` on returns the store from index `i` on. */
  lemma {:induction false} FetchAllIsStore(init: seq<Ruleset>, store: seq<Ruleset>, i: nat, trace: seq<Request>)
    requires StoreAfter(init, trace) == store && DistinctIds(store) && i <= |store|
    requires |Entries(store)| == |store|
    ensures FetchAll(Storing(init), trace, Entries(store)[i..]).value == Some(store[i..])
    decreases |store| - i
  {
    hide FetchAll, Storing, StoreAfter, Entries, DistinctIds;
    if i == |store| {
      assert Entries(store)[i..] == [] && store[i..] == [];
      FetchNothing(Storing(init), trace);
    } else {
      EntriesIds(store, i);
      FetchOwn(init, store, i, trace);
      FetchAllIsStore(init, store, i + 1, trace + [FetchRuleset(Entries(store)[i].id)]);
      FetchStep(Storing(init), trace, Entries(store), i, store);
    }
  }

  /** Planning against the storing server plans against its store. */
  lemma PlanIsOfStore(init: seq<Ruleset>, desired: seq<Ruleset>, trace: seq<Request>)
    requires DistinctIds(StoreAfter(init, trace))
    ensures ComputePlan(Storing(init), desired, trace).value == Some(PlanChanges(desired, StoreAfter(init, trace)))
  {
    hide FetchAll, Storing, StoreAfter, Entries, DistinctIds, PlanChanges;
    var store := StoreAfter(init, trace);
    StoreStep(init, trace, ListRulesets);
    EntriesIds(store, 0);
    FetchAllIsStore(init, store, 0, trace + [ListRulesets]);
    assert Entries(store)[0..] == Entries(store) && store[0..] == store;
  }

  // ---- Writes ----

  lemma {:induction false} FreshIdIsFresh(store: seq<Ruleset>)
    ensures forall i :: 0 <= i < |store| && store[i].id.Some? ==> store[i].id.value < FreshId(store)
  {
    if store != [] {
      FreshIdIsFresh(store[1..]);
      assert forall i :: 1 <= i < |store| ==> store[i] == store[1..][i - 1];
    }
  }

  lemma {:induction false} FirstNamedAppend(store: seq<Ruleset>, x: Ruleset, name: string)
    ensures FirstNamed(store + [x], name) ==
      if FirstNamed(store, name).Some? then FirstNamed(store, name)
      else if x.name == name then Some(x) else None
  {
    if store == [] {
      assert store + [x] == [x];
    } else {
      FirstNamedAppend(store[1..], x, name);
      assert (store + [x])[1..] == store[1..] + [x];
    }
  }

  /** Overwriting the first ruleset of a name with one of the same name changes that name's first only. */
  lemma {:induction false} FirstNamedOverwrite(store: seq<Ruleset>, payload: Ruleset, name: string)
    requires DistinctIds(store) && FirstNamed(store, payload.name).Some?
    ensures var id := FirstNamed(store, payload.name).value.id;
      && id.Some?
      && FirstNamed(Overwrite(store, id.value, payload), name) ==
           (if name == payload.name then Some(payload.(id := id)) else FirstNamed(store, name))
  {
    FirstNamedIn(store, payload.name);
    if store[0].name != payload.name {
      FirstNamedOverwrite(store[1..], payload, name);
      FirstNamedIn(store[1..], payload.name);
    }
  }

  lemma {:induction false} OverwriteShape(store: seq<Ruleset>, id: int, payload: Ruleset)
    ensures |Overwrite(store, id, payload)| == |store|
    ensures forall i :: 0 <= i < |store| ==> Overwrite(store, id, payload)[i].id == store[i].id
  {
    if store != [] && store[0].id != Some(id) {
      OverwriteShape(store[1..], id, payload);
    }
  }

  lemma WrittenDistinct(store: seq<Ruleset>, r: Request)
    requires DistinctIds(store)
    ensures DistinctIds(Written(store, r))
  {
    match r
    case Create(payload) => FreshIdIsFresh(store);
    case Update(Some(id), payload) => OverwriteShape(store, id, payload);
    case _ =>
  }

  predicate CleanIn(store: seq<Ruleset>, wanted: Ruleset) {
    FirstNamed(store, wanted.name).Some? && Diff(wanted, FirstNamed(store, wanted.name).value) == []
  }

  /** After the first `i` changes: those rulesets are clean in the store, the others are as planned. */
  predicate Progress(store: seq<Ruleset>, planned: seq<Ruleset>, desired: seq<Ruleset>, i: nat) {
    && DistinctIds(store)
    && (forall k :: 0 <= k < i && k < |desired| ==> CleanIn(store, desired[k]))
    && (forall k :: i <= k < |desired| ==> FirstNamed(store, desired[k].name) == FirstNamed(planned, desired[k].name))
  }

  /** One accepted write of change `i` makes progress. */
  lemma WriteProgress(store: seq<Ruleset>, planned: seq<Ruleset>, desired: seq<Ruleset>, i: nat)
    requires Progress(store, planned, desired, i) && DistinctNames(desired) && i < |desired|
    requires !PlanOne(desired[i], planned).action.Keep?
    requires var r := WriteFor(PlanOne(desired[i], planned), desired[i]); Accepted(AnswerTo(store, r), r)
    ensures Progress(Written(store, WriteFor(PlanOne(desired[i], planned), desired[i])), planned, desired, i + 1)
  {
    hide Diff;
    var w := desired[i];
    var change := PlanOne(w, planned);
    var r := WriteFor(change, w);
    var store' := Written(store, r);
    WrittenDistinct(store, r);
    forall k | 0 <= k < |desired|
      ensures k == i ==> FirstNamed(store', w.name) == Some(AnswerTo(store, r).body.ruleset)
      ensures k != i ==> FirstNamed(store', desired[k].name) == FirstNamed(store, desired[k].name)
    {
      assert k != i ==> desired[k].name != w.name;
      if change.action.CreateIt? {
        FirstNamedAppend(store, w.(id := Some(FreshId(store))), desired[k].name);
      } else {
        FirstNamedOverwrite(store, w, desired[k].name);
      }
    }
  }

  lemma {:induction false} ApplyProgress(init: seq<Ruleset>, planned: seq<Ruleset>, desired: seq<Ruleset>, i: nat, trace: seq<Request>)
    requires DistinctNames(desired) && i <= |desired|
    requires Progress(StoreAfter(init, trace), planned, desired, i)
    ensures var a := ApplyFrom(Storing(init), desired, PlanChanges(desired, planned), i, trace);
      a.value.Some? ==> Progress(StoreAfter(init, a.trace), planned, desired, |desired|)
    decreases |desired| - i
  {
    hide Diff, Accepted, Progress, Written, AnswerTo, Storing, StoreAfter, WriteFor, PayloadFor, DistinctNames;
    if i < |desired| {
      PayloadIsWanted(desired, i);
      var change := PlanOne(desired[i], planned);
      if change.action.Keep? {
        KeepProgress(StoreAfter(init, trace), planned, desired, i);
        ApplyProgress(init, planned, desired, i + 1, trace);
      } else {
        var r := WriteFor(change, desired[i]);
        StoreStep(init, trace, r);
        if Accepted(Storing(init)(trace + [r]), r) {
          WriteProgress(StoreAfter(init, trace), planned, desired, i);
          ApplyProgress(init, planned, desired, i + 1, trace + [r]);
        }
      }
    }
  }

  lemma KeepProgress(store: seq<Ruleset>, planned: seq<Ruleset>, desired: seq<Ruleset>, i: nat)
    requires Progress(store, planned, desired, i) && i < |desired| && PlanOne(desired[i], planned).action.Keep?
    ensures Progress(store, planned, desired, i + 1)
  {
  }

  /** The stages of an apply run against the storing server: the plan is of the initial store. */
  lemma PlanStage(init: seq<Ruleset>, desired: seq<Ruleset>, pages: nat)
    requires DistinctIds(init)
    ensures var plan := ComputePlan(Storing(init), desired, Gate(Storing(init), [], {}, pages).trace);
      && plan.value == Some(PlanChanges(desired, init))
      && StoreAfter(init, plan.trace) == init
  {
    hide Diff, CleanFor, Written, AnswerTo, Storing, ComputePlan, Gate, PlanChanges;
    var server := Storing(init);
    var gate := Gate(server, [], {}, pages);
    GateReads(server, [], {}, pages);
    PlanReads(server, desired, gate.trace);
    ReadsKeepStore(init, [], gate.trace);
    ReadsKeepStore(init, gate.trace, ComputePlan(server, desired, gate.trace).trace);
    PlanIsOfStore(init, desired, gate.trace);
  }

  /** A store in which everything is clean yields a plan that keeps everything. */
  lemma CleanPlan(store: seq<Ruleset>, planned: seq<Ruleset>, desired: seq<Ruleset>)
    requires Progress(store, planned, desired, |desired|)
    ensures forall i :: 0 <= i < |desired| ==> PlanChanges(desired, store)[i].action.Keep?
  {
    hide Diff;
    forall i | 0 <= i < |desired|
      ensures PlanChanges(desired, store)[i].action.Keep?
    {
      assert CleanIn(store, desired[i]);
    }
  }

  /** After a successful apply, planning again finds every desired ruleset in place. */
  lemma ApplyIsIdempotent(init: seq<Ruleset>, desired: seq<Ruleset>, pages: nat)
    requires DistinctIds(init) && DistinctNames(desired)
    requires Orchestrate(Storing(init), desired, Apply, pages).outcome.Applied?
    ensures var again := ComputePlan(Storing(init), desired, Orchestrate(Storing(init), desired, Apply, pages).trace);
      again.value.Some? && forall i :: 0 <= i < |again.value.value| ==> again.value.value[i].action.Keep?
  {
    hide Diff, Storing, ComputePlan, Gate, ApplyFrom, StoreAfter, DistinctNames;
    var server := Storing(init);
    PlanStage(init, desired, pages);
    var plan := ComputePlan(server, desired, Gate(server, [], {}, pages).trace);
    ApplyProgress(init, init, desired, 0, plan.trace);
    var a := ApplyFrom(server, desired, plan.value.value, 0, plan.trace);
    StoreStepDelete(init, a.trace);
    PlanIsOfStore(init, desired, a.trace + [DeleteProtection]);
    CleanPlan(StoreAfter(init, a.trace), init, desired);
  }

  lemma StoreStepDelete(init: seq<Ruleset>, t: seq<Request>)
    ensures StoreAfter(init, t + [DeleteProtection]) == StoreAfter(init, t)
  {
    StoreStep(init, t, DeleteProtection);
  }

  // ---- The two rulesets the script enforces ----

  const REVIEW_POLICY: Ruleset := Ruleset(
    None, "main review policy", Some("active"), Some("branch"), ["~DEFAULT_BRANCH"], [],
    [Actor("Integration", 29110, "pull_request"), Actor("User", 942000, "pull_request")],
    [Rule("pull_request",
          map["required_approving_review_count" := Num(1), "dismiss_stale_reviews_on_push" := Flag(true),
              "require_last_push_approval" := Flag(true), "require_code_owner_review" := Flag(false),
              "required_review_thread_resolution" := Flag(true)],
          [])])

  const REQUIRED_CHECKS: Ruleset := Ruleset(
    None, "main required checks", Some("active"), Some("branch"), ["~DEFAULT_BRANCH"], [], [],
    [Rule("required_status_checks", map["strict_required_status_checks_policy" := Flag(true)],
          [Some("Code Quality Gate"), Some("Runtime Gate")]),
     Rule("non_fast_forward", map[], []),
     Rule("deletion", map[], [])])

  const RULESETS: seq<Ruleset> := [REVIEW_POLICY, REQUIRED_CHECKS]

  lemma RulesetNamesDistinct()
    ensures DistinctNames(RULESETS)
  {
    assert "main review policy"[7] != "main required checks"[7];
  }

  /** Sent to a server that stores it, the ruleset comes back active and clean, whatever id it is given. */
  ghost predicate SelfClean(w: Ruleset) {
    w.enforcement == Some("active") && forall id :: SamePolicy(w, w.(id := id))
  }

  lemma ReviewPolicySelfClean()
    ensures SelfClean(REVIEW_POLICY)
  {
    var rule := REVIEW_POLICY.rules[0];
    assert Param(rule, "required_approving_review_count") == Num(1);
    assert Param(rule, "dismiss_stale_reviews_on_push") == Flag(true);
    assert Param(rule, "require_last_push_approval") == Flag(true);
    assert Param(rule, "require_code_owner_review") == Flag(false);
    assert Param(rule, "required_review_thread_resolution") == Flag(true);
    assert FirstOf(REVIEW_POLICY.rules, "pull_request") == Some(rule);
    assert KindSet(REVIEW_POLICY.rules) == {"pull_request"};
    assert "pull_request"[0] != "required_status_checks"[0];
  }

  lemma RequiredChecksSelfClean()
    ensures SelfClean(REQUIRED_CHECKS)
  {
    var rules := REQUIRED_CHECKS.rules;
    assert "pull_request"[0] != "required_status_checks"[0];
    assert "pull_request"[0] != "non_fast_forward"[0] && "pull_request"[0] != "deletion"[0];
    assert "pull_request" !in KindSet(rules) by {
      assert rules[0].kind != "pull_request" && rules[1].kind != "pull_request" && rules[2].kind != "pull_request";
    }
    assert FirstOf(rules, "required_status_checks") == Some(rules[0]);
  }

  lemma {:induction false} FindsSome(store: seq<Ruleset>, x: Ruleset)
    requires x in store && x.id.Some?
    ensures Find(store, x.id.value).Some?
  {
    if store[0] != x {
      FindsSome(store[1..], x);
    }
  }

  lemma WriteAccepted(store: seq<Ruleset>, planned: seq<Ruleset>, desired: seq<Ruleset>, i: nat)
    requires Progress(store, planned, desired, i) && i < |desired| && SelfClean(desired[i])
    requires !PlanOne(desired[i], planned).action.Keep?
    ensures var r := WriteFor(PlanOne(desired[i], planned), desired[i]); Accepted(AnswerTo(store, r), r)
  {
    hide Diff;
    var w := desired[i];
    var r := WriteFor(PlanOne(w, planned), w);
    if r.Update? {
      FirstNamedIn(store, w.name);
      FindsSome(store, FirstNamed(store, w.name).value);
    }
    DiffEmptyIffSamePolicy(w, AnswerTo(store, r).body.ruleset);
  }

  lemma {:induction false} ApplyCompletes(init: seq<Ruleset>, planned: seq<Ruleset>, desired: seq<Ruleset>, i: nat, trace: seq<Request>)
    requires DistinctNames(desired) && i <= |desired| && forall w :: w in desired ==> SelfClean(w)
    requires Progress(StoreAfter(init, trace), planned, desired, i)
    ensures ApplyFrom(Storing(init), desired, PlanChanges(desired, planned), i, trace).value.Some?
    decreases |desired| - i
  {
    hide Diff, Accepted, Progress, Written, AnswerTo, SelfClean, Storing, StoreAfter, WriteFor, PayloadFor, DistinctNames;
    if i < |desired| {
      PayloadIsWanted(desired, i);
      var change := PlanOne(desired[i], planned);
      if change.action.Keep? {
        KeepProgress(StoreAfter(init, trace), planned, desired, i);
        ApplyCompletes(init, planned, desired, i + 1, trace);
      } else {
        var r := WriteFor(change, desired[i]);
        StoreStep(init, trace, r);
        WriteAccepted(StoreAfter(init, trace), planned, desired, i);
        WriteProgress(StoreAfter(init, trace), planned, desired, i);
        ApplyCompletes(init, planned, desired, i + 1, trace + [r]);
      }
    }
  }

  /** Whatever a storing repository holds, enforcing the two rulesets succeeds, and then there is nothing left to do. */
  lemma EnforcementConverges(init: seq<Ruleset>, pages: nat)
    requires DistinctIds(init) && pages >= 1
    ensures Orchestrate(Storing(init), RULESETS, Apply, pages).outcome.Applied?
    ensures var again := ComputePlan(Storing(init), RULESETS, Orchestrate(Storing(init), RULESETS, Apply, pages).trace);
      again.value.Some? && forall i :: 0 <= i < |again.value.value| ==> again.value.value[i].action.Keep?
  {
    hide Diff, Storing, ComputePlan, Gate, ApplyFrom, StoreAfter, DistinctNames, SelfClean;
    RulesetNamesDistinct();
    ReviewPolicySelfClean();
    RequiredChecksSelfClean();
    var server := Storing(init);
    GateOpens(init, pages);
    PlanStage(init, RULESETS, pages);
    var plan := ComputePlan(server, RULESETS, Gate(server, [], {}, pages).trace);
    ApplyCompletes(init, init, RULESETS, 0, plan.trace);
    var a := ApplyFrom(server, RULESETS, plan.value.value, 0, plan.trace);
    StoreStep(init, a.trace, DeleteProtection);
    ApplyIsIdempotent(init, RULESETS, pages);
  }

  lemma GateOpens(init: seq<Ruleset>, pages: nat)
    requires pages >= 1
    ensures Gate(Storing(init), [], {}, pages).finished && Gate(Storing(init), [], {}, pages).verified
  {
    hide Storing, Gate;
    StoreStep(init, [], CheckRuns);
    assert [] + [CheckRuns] == [CheckRuns];
    GateOnePage(Storing(init), pages);
  }

  lemma GateOnePage(server: Server, pages: nat)
    requires pages >= 1 && server([CheckRuns]) == Reply(200, Runs(REQUIRED_CHECK_CONTEXTS, false))
    ensures Gate(server, [], {}, pages).finished && Gate(server, [], {}, pages).verified
  {
    assert [] + [CheckRuns] == [CheckRuns];
  }
}
