/** Read-only verification, and how it relates to what an apply has just enforced. */
module ReconcilerVerify {
  import opened Options
  import opened Rulesets
  import opened Reconciler
  import opened ReconcilerStore

  datatype Verified = Verified(trace: seq<Request>, oks: seq<bool>)

  /** The id listed for a name; the last entry with that name wins, and empty names are ignored. */
  function LastListed(entries: seq<Summary>, name: string): Option<int> {
    if entries == [] then None
    else
      match LastListed(entries[1..], name)
      case Some(id) => Some(id)
      case None => if entries[0].name == Some(name) && name != "" then Some(entries[0].id) else None
  }

  /** A fetched ruleset passes: it was served, has no policy difference and is active. */
  predicate Passes(reply: Reply, wanted: Ruleset) {
    match reply
    case Reply(status, One(r)) => status == 200 && Diff(wanted, r) == [] && r.enforcement == Some("active")
    case _ => false
  }

  function VerifyFrom(server: Server, desired: seq<Ruleset>, entries: seq<Summary>, i: nat, v: Verified): Verified
    requires i <= |desired|
    decreases |desired| - i
  {
    if i == |desired| then v
    else
      match LastListed(entries, desired[i].name)
      case None => VerifyFrom(server, desired, entries, i + 1, v.(oks := v.oks + [false]))
      case Some(id) =>
        var t := v.trace + [FetchRuleset(id)];
        VerifyFrom(server, desired, entries, i + 1, Verified(t, v.oks + [Passes(server(t), desired[i])]))
  }

  /** `verify_rulesets`, continuing a history of requests; `oks` is empty when listing fails. */
  function VerifyRulesets(server: Server, desired: seq<Ruleset>, trace: seq<Request>): Verified {
    var t := trace + [ListRulesets];
    match server(t)
    case Reply(status, Summaries(entries)) =>
      if status == 200 then VerifyFrom(server, desired, entries, 0, Verified(t, [])) else Verified(t, [])
    case _ => Verified(t, [])
  }

  lemma {:induction false} VerifyFromReads(server: Server, desired: seq<Ruleset>, entries: seq<Summary>, i: nat, v: Verified, n: nat)
    requires i <= |desired| && ReadsFrom(v.trace, n)
    ensures ReadsFrom(VerifyFrom(server, desired, entries, i, v).trace, n)
    decreases |desired| - i
  {
    hide Passes;
    if i < |desired| {
      match LastListed(entries, desired[i].name)
      case None => VerifyFromReads(server, desired, entries, i + 1, v.(oks := v.oks + [false]), n);
      case Some(id) =>
        var t := v.trace + [FetchRuleset(id)];
        VerifyFromReads(server, desired, entries, i + 1, Verified(t, v.oks + [Passes(server(t), desired[i])]), n);
    }
  }

  /** Verification issues no mutating request, whatever the server does. */
  lemma VerifyReadsOnly(server: Server, desired: seq<Ruleset>, trace: seq<Request>)
    ensures ReadsFrom(VerifyRulesets(server, desired, trace).trace, |trace|)
  {
    hide Passes;
    var t := trace + [ListRulesets];
    match server(t)
    case Reply(status, Summaries(entries)) => VerifyFromReads(server, desired, entries, 0, Verified(t, []), |trace|);
    case _ =>
  }

  // ---- Against any server ----

  /** The last entry listed under a nonempty name has this id. */
  ghost predicate ListedLast(entries: seq<Summary>, name: string, id: int) {
    && name != ""
    && exists k ::
         && 0 <= k < |entries| && entries[k] == Summary(Some(name), id)
         && forall j :: k < j < |entries| ==> entries[j].name != Some(name)
  }

  lemma {:induction false} ListedExactly(entries: seq<Summary>, name: string, id: int)
    ensures LastListed(entries, name) == Some(id) <==> ListedLast(entries, name, id)
    ensures LastListed(entries, name).None? ==> name == "" || forall j :: 0 <= j < |entries| ==> entries[j].name != Some(name)
  {
    if entries != [] {
      var rest := entries[1..];
      ListedExactly(rest, name, id);
      assert forall j :: 1 <= j < |entries| ==> entries[j] == rest[j - 1];
      if ListedLast(rest, name, id) {
        var k :| 0 <= k < |rest| && rest[k] == Summary(Some(name), id) && forall j :: k < j < |rest| ==> rest[j].name != Some(name);
        assert entries[k + 1] == Summary(Some(name), id);
      }
      if ListedLast(entries, name, id) {
        var k :| 0 <= k < |entries| && entries[k] == Summary(Some(name), id) && forall j :: k < j < |entries| ==> entries[j].name != Some(name);
        if k > 0 {
          assert rest[k - 1] == Summary(Some(name), id);
        } else {
          ListedExactlyNone(rest, name);
        }
      }
    }
  }

  lemma {:induction false} ListedExactlyNone(entries: seq<Summary>, name: string)
    requires forall j :: 0 <= j < |entries| ==> entries[j].name != Some(name)
    ensures LastListed(entries, name).None?
  {
    if entries != [] {
      ListedExactlyNone(entries[1..], name);
    }
  }

  /** How many of the first `i` wanted names are listed: each costs one fetch. */
  function ListedCount(entries: seq<Summary>, desired: seq<Ruleset>, i: nat): (n: nat)
    requires i <= |desired|
    ensures n <= i
  {
    if i == 0 then 0
    else ListedCount(entries, desired, i - 1) + if LastListed(entries, desired[i - 1].name).Some? then 1 else 0
  }

  /** Position `p` of the trace fetched this id and got an active ruleset of the wanted policy. */
  ghost predicate FetchedClean(server: Server, t: seq<Request>, p: nat, id: int, wanted: Ruleset) {
    && p < |t| && t[p] == FetchRuleset(id)
    && match server(t[..p + 1])
       case Reply(status, One(r)) => status == 200 && r.enforcement == Some("active") && PoliciesAgree(wanted, r)
       case _ => false
  }

  lemma FetchedExactly(server: Server, t: seq<Request>, p: nat, id: int, wanted: Ruleset)
    requires p < |t| && t[p] == FetchRuleset(id)
    ensures FetchedClean(server, t, p, id, wanted) <==> Passes(server(t[..p + 1]), wanted)
  {
    hide Diff, PoliciesAgree;
    match server(t[..p + 1])
    case Reply(_, One(r)) => DiffExactly(wanted, r);
    case _ =>
  }

  lemma {:induction false} VerifyFromExactly(server: Server, desired: seq<Ruleset>, entries: seq<Summary>, i: nat, v: Verified, k: nat)
    requires i <= |desired| && |v.oks| == i && k < |desired| && |v.trace| >= ListedCount(entries, desired, i)
    ensures var r, start := VerifyFrom(server, desired, entries, i, v), |v.trace| - ListedCount(entries, desired, i);
      && |r.oks| == |desired| && v.trace <= r.trace && v.oks <= r.oks
      && (k >= i ==>
            var id, p := LastListed(entries, desired[k].name), start + ListedCount(entries, desired, k);
            if id.None? then !r.oks[k]
            else p < |r.trace| && r.trace[p] == FetchRuleset(id.value) && (r.oks[k] <==> Passes(server(r.trace[..p + 1]), desired[k])))
    decreases |desired| - i
  {
    hide Passes, LastListed;
    if i < |desired| {
      match LastListed(entries, desired[i].name)
      case None => VerifyFromExactly(server, desired, entries, i + 1, v.(oks := v.oks + [false]), k);
      case Some(id) =>
        var t := v.trace + [FetchRuleset(id)];
        VerifyFromExactly(server, desired, entries, i + 1, Verified(t, v.oks + [Passes(server(t), desired[i])]), k);
        var r := VerifyFrom(server, desired, entries, i, v);
        assert r.trace[..|v.trace| + 1] == t;
    }
  }

  /** For every server that lists, the verdict on a wanted ruleset is true exactly when the last entry listed under its name
      was then fetched active and with the wanted policy. */
  lemma VerifyExactly(server: Server, desired: seq<Ruleset>, trace: seq<Request>, entries: seq<Summary>, k: nat)
    requires server(trace + [ListRulesets]) == Reply(200, Summaries(entries)) && k < |desired|
    ensures var v, p := VerifyRulesets(server, desired, trace), |trace| + 1 + ListedCount(entries, desired, k);
      && |v.oks| == |desired|
      && (v.oks[k] <==> exists id :: ListedLast(entries, desired[k].name, id) && FetchedClean(server, v.trace, p, id, desired[k]))
  {
    hide Passes, VerifyFrom, LastListed, ListedLast, FetchedClean;
    var t := trace + [ListRulesets];
    VerifyFromExactly(server, desired, entries, 0, Verified(t, []), k);
    var v, p := VerifyRulesets(server, desired, trace), |trace| + 1 + ListedCount(entries, desired, k);
    var listed := LastListed(entries, desired[k].name);
    if listed.Some? {
      ListedExactly(entries, desired[k].name, listed.value);
      FetchedExactly(server, v.trace, p, listed.value, desired[k]);
    }
    forall id | ListedLast(entries, desired[k].name, id)
      ensures listed == Some(id)
    {
      ListedExactly(entries, desired[k].name, id);
    }
  }

  // ---- Against the storing server ----

  function LastNamed(store: seq<Ruleset>, name: string): Option<Ruleset> {
    if store == [] then None
    else
      match LastNamed(store[1..], name)
      case Some(x) => Some(x)
      case None => if store[0].name == name then Some(store[0]) else None
  }

  /** At most one ruleset of the store has the name. */
  predicate AtMostOnce(store: seq<Ruleset>, name: string) {
    FirstNamed(store, name) == LastNamed(store, name)
  }

  lemma {:induction false} LastNamedIn(store: seq<Ruleset>, name: string) returns (i: nat)
    requires LastNamed(store, name).Some?
    ensures i < |store| && store[i] == LastNamed(store, name).value && store[i].name == name
  {
    if LastNamed(store[1..], name).Some? {
      var j := LastNamedIn(store[1..], name);
      i := j + 1;
    } else {
      i := 0;
    }
  }

  lemma {:induction false} BothOrNeither(store: seq<Ruleset>, name: string)
    ensures FirstNamed(store, name).Some? <==> LastNamed(store, name).Some?
  {
    if store != [] {
      BothOrNeither(store[1..], name);
    }
  }

  lemma {:induction false} ListedIsLast(store: seq<Ruleset>, name: string)
    requires DistinctIds(store) && name != ""
    ensures LastListed(Entries(store), name) ==
      if LastNamed(store, name).Some? then LastNamed(store, name).value.id else None
  {
    if store != [] {
      ListedIsLast(store[1..], name);
      if LastNamed(store[1..], name).Some? {
        var _ := LastNamedIn(store[1..], name);
      }
    }
  }

  /** What verification of one ruleset amounts to on a store. */
  predicate LastIsClean(store: seq<Ruleset>, wanted: Ruleset) {
    LastNamed(store, wanted.name).Some? && SamePolicy(wanted, LastNamed(store, wanted.name).value)
  }

  /** Fetching the listed id serves the last ruleset of that name. */
  lemma FetchLast(init: seq<Ruleset>, store: seq<Ruleset>, trace: seq<Request>, wanted: Ruleset)
    requires StoreAfter(init, trace) == store && DistinctIds(store)
    requires wanted.name != "" && wanted.enforcement == Some("active")
    ensures var listed := LastListed(Entries(store), wanted.name);
      && (listed.None? ==> !LastIsClean(store, wanted))
      && (listed.Some? ==> var t := trace + [FetchRuleset(listed.value)];
           StoreAfter(init, t) == store && (Passes(Storing(init)(t), wanted) <==> LastIsClean(store, wanted)))
  {
    hide Diff, SamePolicy, Storing, StoreAfter;
    ListedIsLast(store, wanted.name);
    if LastNamed(store, wanted.name).Some? {
      var i := LastNamedIn(store, wanted.name);
      FetchOwn(init, store, i, trace);
      DiffEmptyIffSamePolicy(wanted, store[i]);
      SamePolicyActive(wanted, store[i]);
    }
  }

  lemma SamePolicyActive(wanted: Ruleset, actual: Ruleset)
    ensures SamePolicy(wanted, actual) ==> actual.enforcement == wanted.enforcement
  {
  }

  lemma {:induction false} VerifyFromStore(init: seq<Ruleset>, store: seq<Ruleset>, desired: seq<Ruleset>, i: nat, v: Verified)
    requires i == |v.oks| <= |desired| && StoreAfter(init, v.trace) == store && DistinctIds(store)
    requires forall k :: i <= k < |desired| ==> desired[k].name != "" && desired[k].enforcement == Some("active")
    requires forall k :: 0 <= k < i ==> (v.oks[k] <==> LastIsClean(store, desired[k]))
    ensures var r := VerifyFrom(Storing(init), desired, Entries(store), i, v);
      |r.oks| == |desired| && forall k :: 0 <= k < |desired| ==> (r.oks[k] <==> LastIsClean(store, desired[k]))
    decreases |desired| - i
  {
    hide Passes, LastIsClean, Storing, StoreAfter, DistinctIds, Entries, LastListed;
    if i < |desired| {
      FetchLast(init, store, v.trace, desired[i]);
      match LastListed(Entries(store), desired[i].name)
      case None => VerifyFromStore(init, store, desired, i + 1, v.(oks := v.oks + [false]));
      case Some(id) =>
        var t := v.trace + [FetchRuleset(id)];
        VerifyFromStore(init, store, desired, i + 1, Verified(t, v.oks + [Passes(Storing(init)(t), desired[i])]));
    }
  }

  /** Verifying reads the last ruleset of each name. */
  lemma VerifyIsOfStore(init: seq<Ruleset>, desired: seq<Ruleset>, trace: seq<Request>)
    requires DistinctIds(StoreAfter(init, trace))
    requires forall k :: 0 <= k < |desired| ==> desired[k].name != "" && desired[k].enforcement == Some("active")
    ensures var oks := VerifyRulesets(Storing(init), desired, trace).oks;
      |oks| == |desired| && forall k :: 0 <= k < |desired| ==> (oks[k] <==> LastIsClean(StoreAfter(init, trace), desired[k]))
  {
    hide LastIsClean, Storing, StoreAfter, DistinctIds, Entries, VerifyFrom;
    StoreStep(init, trace, ListRulesets);
    VerifyFromStore(init, StoreAfter(init, trace), desired, 0, Verified(trace + [ListRulesets], []));
  }

  // ---- After an apply ----

  lemma {:induction false} LastNamedAppend(store: seq<Ruleset>, x: Ruleset, name: string)
    ensures LastNamed(store + [x], name) == if x.name == name then Some(x) else LastNamed(store, name)
  {
    if store == [] {
      assert store + [x] == [x];
    } else {
      LastNamedAppend(store[1..], x, name);
      assert (store + [x])[1..] == store[1..] + [x];
    }
  }

  /** Overwriting the first ruleset of a name moves the last one only when they are the same. */
  lemma {:induction false} LastNamedOverwrite(store: seq<Ruleset>, payload: Ruleset, name: string)
    requires DistinctIds(store) && FirstNamed(store, payload.name).Some?
    ensures var id := FirstNamed(store, payload.name).value.id;
      && id.Some?
      && LastNamed(Overwrite(store, id.value, payload), name) ==
           (if name == payload.name && AtMostOnce(store, name) then Some(payload.(id := id)) else LastNamed(store, name))
  {
    FirstNamedIn(store, payload.name);
    if store[0].name == payload.name {
      if LastNamed(store[1..], name).Some? {
        var j := LastNamedIn(store[1..], name);
        assert store[1..][j] == store[j + 1];
        assert store[0].id != store[j + 1].id;
      }
    } else {
      FirstNamedIn(store[1..], payload.name);
      LastNamedOverwrite(store[1..], payload, name);
      BothOrNeither(store[1..], payload.name);
    }
  }

  /** A name that occurred at most once still does; otherwise its last ruleset is the one it started with. */
  predicate LastKept(store: seq<Ruleset>, init: seq<Ruleset>, name: string) {
    LastNamed(store, name) == if AtMostOnce(init, name) then FirstNamed(store, name) else LastNamed(init, name)
  }

  lemma WriteKeepsLast(store: seq<Ruleset>, init: seq<Ruleset>, desired: seq<Ruleset>, i: nat, k: nat)
    requires Progress(store, init, desired, i) && DistinctNames(desired) && i < |desired| && k < |desired|
    requires !PlanOne(desired[i], init).action.Keep? && DistinctIds(init)
    requires LastKept(store, init, desired[k].name) && LastKept(store, init, desired[i].name)
    ensures LastKept(Written(store, WriteFor(PlanOne(desired[i], init), desired[i])), init, desired[k].name)
  {
    hide Diff, CleanIn;
    var w, name := desired[i], desired[k].name;
    assert k != i ==> name != w.name;
    var change := PlanOne(w, init);
    if change.action.CreateIt? {
      var x := w.(id := Some(FreshId(store)));
      FirstNamedAppend(store, x, name);
      LastNamedAppend(store, x, name);
      BothOrNeither(init, w.name);
      BothOrNeither(store, name);
    } else {
      FirstNamedOverwrite(store, w, name);
      LastNamedOverwrite(store, w, name);
    }
  }

  predicate AllLastKept(store: seq<Ruleset>, init: seq<Ruleset>, desired: seq<Ruleset>) {
    forall k :: 0 <= k < |desired| ==> LastKept(store, init, desired[k].name)
  }

  lemma {:induction false} ApplyKeepsLast(init: seq<Ruleset>, desired: seq<Ruleset>, i: nat, trace: seq<Request>)
    requires DistinctNames(desired) && DistinctIds(init) && i <= |desired|
    requires Progress(StoreAfter(init, trace), init, desired, i) && AllLastKept(StoreAfter(init, trace), init, desired)
    ensures var a := ApplyFrom(Storing(init), desired, PlanChanges(desired, init), i, trace);
      a.value.Some? ==> AllLastKept(StoreAfter(init, a.trace), init, desired)
    decreases |desired| - i
  {
    hide Diff, Accepted, Progress, Written, AnswerTo, Storing, StoreAfter, WriteFor, PayloadFor, DistinctNames, DistinctIds, LastKept;
    if i < |desired| {
      PayloadIsWanted(desired, i);
      var change := PlanOne(desired[i], init);
      if change.action.Keep? {
        KeepProgress(StoreAfter(init, trace), init, desired, i);
        ApplyKeepsLast(init, desired, i + 1, trace);
      } else {
        var r := WriteFor(change, desired[i]);
        StoreStep(init, trace, r);
        if Accepted(Storing(init)(trace + [r]), r) {
          WriteProgress(StoreAfter(init, trace), init, desired, i);
          forall k | 0 <= k < |desired|
            ensures LastKept(StoreAfter(init, trace + [r]), init, desired[k].name)
          {
            WriteKeepsLast(StoreAfter(init, trace), init, desired, i, k);
          }
          ApplyKeepsLast(init, desired, i + 1, trace + [r]);
        }
      }
    }
  }

  /** Nothing an apply can do makes this name verify, except when its duplicates already agree. */
  predicate Verifiable(init: seq<Ruleset>, wanted: Ruleset) {
    AtMostOnce(init, wanted.name) || LastIsClean(init, wanted)
  }

  lemma LastCleanExactly(store: seq<Ruleset>, init: seq<Ruleset>, wanted: Ruleset)
    requires CleanIn(store, wanted) && LastKept(store, init, wanted.name)
    ensures LastIsClean(store, wanted) <==> Verifiable(init, wanted)
  {
    hide Diff, SamePolicy;
    DiffEmptyIffSamePolicy(wanted, FirstNamed(store, wanted.name).value);
    BothOrNeither(init, wanted.name);
  }

  /** The plan enforces the first ruleset of a name, verification reads the last: after a successful apply,
      a ruleset verifies exactly when its name occurred at most once before, or its last duplicate was already clean. */
  lemma VerifyAfterApply(init: seq<Ruleset>, desired: seq<Ruleset>, pages: nat)
    requires DistinctIds(init) && DistinctNames(desired)
    requires forall k :: 0 <= k < |desired| ==> desired[k].name != "" && desired[k].enforcement == Some("active")
    requires Orchestrate(Storing(init), desired, Apply, pages).outcome.Applied?
    ensures var oks := VerifyRulesets(Storing(init), desired, Orchestrate(Storing(init), desired, Apply, pages).trace).oks;
      |oks| == |desired| && forall k :: 0 <= k < |desired| ==> (oks[k] <==> Verifiable(init, desired[k]))
  {
    hide Diff, Storing, ComputePlan, Gate, ApplyFrom, StoreAfter, DistinctNames, LastIsClean, Verifiable, VerifyRulesets, LastKept, CleanIn;
    var server := Storing(init);
    PlanStage(init, desired, pages);
    var plan := ComputePlan(server, desired, Gate(server, [], {}, pages).trace);
    ApplyProgress(init, init, desired, 0, plan.trace);
    StartKeepsLast(init, desired);
    ApplyKeepsLast(init, desired, 0, plan.trace);
    var a := ApplyFrom(server, desired, plan.value.value, 0, plan.trace);
    var store := StoreAfter(init, a.trace);
    StoreStepDelete(init, a.trace);
    VerifyIsOfStore(init, desired, a.trace + [DeleteProtection]);
    forall k | 0 <= k < |desired|
      ensures LastIsClean(store, desired[k]) <==> Verifiable(init, desired[k])
    {
      LastCleanExactly(store, init, desired[k]);
    }
  }

  lemma StartKeepsLast(init: seq<Ruleset>, desired: seq<Ruleset>)
    ensures AllLastKept(init, init, desired)
  {
  }

  /** Applying succeeds on this repository, and verification then rejects the review policy. */
  predicate Escapes(init: seq<Ruleset>) {
    var run := Orchestrate(Storing(init), RULESETS, Apply, 1);
    var oks := VerifyRulesets(Storing(init), RULESETS, run.trace).oks;
    DistinctIds(init) && run.outcome.Applied? && |oks| == 2 && !oks[0]
  }

  /** Two rulesets under one wanted name, the later one disabled: apply reports success and verification fails. */
  lemma DuplicateNameEscapes()
    ensures exists init :: Escapes(init)
  {
    hide Storing, Orchestrate, VerifyRulesets, SamePolicy;
    var first := REVIEW_POLICY.(id := Some(1));
    var second := REVIEW_POLICY.(id := Some(2), enforcement := Some("disabled"));
    var init := [first, second];
    EnforcementConverges(init, 1);
    RulesetNamesDistinct();
    VerifyAfterApply(init, RULESETS, 1);
    assert init[1..] == [second] && [second][1..] == [];
    assert LastNamed([second], second.name) == Some(second);
    assert LastNamed(init, second.name) == Some(second) && FirstNamed(init, second.name) == Some(first);
    assert "active"[0] != "disabled"[0];
    SamePolicyActive(REVIEW_POLICY, second);
    assert !Verifiable(init, RULESETS[0]);
    assert Escapes(init);
  }
}
