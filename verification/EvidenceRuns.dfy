/** Every run of builder calls, with the plans and responses it hands out. */
module EvidenceRuns {
  import opened Options
  import opened Utf8
  import opened Json
  import opened CanonicalJson
  import opened EvidenceChecks
  import opened EvidencePlans

  datatype Call =
    | AskSufficiency(state: Json)
    | AskReview(state: Json, hypotheses: Json, documents: Option<map<string, Json>>)
    | Respond(response: Json, plan: Plan)
    | AskAddress(state: Json, hypothesis: Json, sources: map<string, Json>, plan: Plan, validated: Validated,
                 questionId: string, qualified: string)

  /** A stage-3 request that was built, with what it was built from. */
  datatype Review = Review(state: Json, hypotheses: seq<Json>, plan: Plan)

  /** Everything that calls have returned so far. */
  datatype Ledger = Ledger(plans: set<Plan>, validated: set<Validated>, reviews: set<Review>)

  /** Plans and validated responses are values of this module: callers pass on what they were given. */
  predicate Legal(l: Ledger, c: Call) {
    match c
    case Respond(_, plan) => plan in l.plans
    case AskAddress(_, _, _, plan, validated, _, _) => plan in l.plans && validated in l.validated
    case _ => true
  }

  /** `build_sufficiency_request`. */
  function BuildSufficiency(lib: Library, prompts: Prompts, state: Json): PlanResult {
    var issue := CheckState(lib, state);
    if issue.IsFailure() then Stop(Sufficiency, issue)
    else
      MakePlan(Sufficiency, state,
        map["n0" := Obj(map["type" := Str("noul"), "instructions" := Obj(map["question" := Str(prompts.sufficiency)])])], map[])
  }

  function AddPlan(l: Ledger, r: PlanResult): Ledger {
    if r.Planned? then l.(plans := l.plans + {r.plan}) else l
  }

  function Perform(lib: Library, prompts: Prompts, l: Ledger, c: Call): Ledger {
    match c
    case AskSufficiency(state) => AddPlan(l, BuildSufficiency(lib, prompts, state))
    case AskReview(state, hypotheses, documents) =>
      var r := BuildReview(lib, prompts, state, hypotheses, documents);
      if r.Planned? && hypotheses.Arr? then
        AddPlan(l, r).(reviews := l.reviews + {Review(state, hypotheses.items, r.plan)})
      else l
    case Respond(response, plan) =>
      (match ValidateResponse(lib, response, plan)
       case Some(v) => l.(validated := l.validated + {v})
       case None => l)
    case AskAddress(state, hypothesis, sources, plan, validated, questionId, qualified) =>
      AddPlan(l, BuildAddressability(lib, prompts, state, hypothesis, sources, plan, validated, questionId, qualified))
  }

  predicate IsRun(lib: Library, prompts: Prompts, l: Ledger, calls: seq<Call>)
    decreases |calls|
  {
    calls == [] || (Legal(l, calls[0]) && IsRun(lib, prompts, Perform(lib, prompts, l, calls[0]), calls[1..]))
  }

  function After(lib: Library, prompts: Prompts, l: Ledger, calls: seq<Call>): Ledger
    decreases |calls|
  {
    if calls == [] then l else After(lib, prompts, Perform(lib, prompts, l, calls[0]), calls[1..])
  }

  /** The stage-3 plan in a review is the one built from its state and hypotheses. */
  predicate Genuine(prompts: Prompts, r: Review) {
    var hs := r.hypotheses;
    MakePlan(HypothesisReview, r.state, ReviewQuestions(prompts, hs, |hs|), ReviewMapping(hs, |hs|)) == Planned(r.plan)
  }

  /** The request that asks about one gap in one state. */
  function AddressPayload(prompts: Prompts, state: Json, hypothesis: Json): Json {
    Payload(state, AddressQuestions(prompts, hypothesis))
  }

  /** `p` asks about exactly hypothesis `slot` of review `r`, and `v` is a response to a request with
      the digest of that review which answers that hypothesis's question. */
  ghost predicate JustifiedBy(lib: Library, prompts: Prompts, p: Plan, r: Review, slot: nat, v: Validated) {
    && slot < |r.hypotheses|
    && Canonical(AddressPayload(prompts, r.state, r.hypotheses[slot])) == Some(p.serialized)
    && v.requestSha == lib.sha(r.plan.serialized)
    && QuestionId(slot) in v.probabilities
    && Vetted(lib, r.state, r.hypotheses[slot])
  }

  /** The state and the hypothesis passed every check, against some acquired documents. */
  ghost predicate Vetted(lib: Library, state: Json, hypothesis: Json) {
    CheckState(lib, state) == Pass && exists documents :: CheckHypothesis(lib, hypothesis, state, documents) == Pass
  }

  ghost predicate Justified(lib: Library, prompts: Prompts, l: Ledger, p: Plan) {
    exists r, slot, v :: r in l.reviews && v in l.validated && JustifiedBy(lib, prompts, p, r, slot, v)
  }

  /** `v` was read from a response to `p`, and answers exactly the questions of `p`. */
  predicate Answers(lib: Library, v: Validated, p: Plan) {
    v.requestSha == lib.sha(p.serialized) && v.probabilities.Keys == QuestionsOf(p).Keys
  }

  predicate Recorded(l: Ledger, p: Plan) {
    exists r :: r in l.reviews && r.plan == p
  }

  predicate Answered(lib: Library, l: Ledger, v: Validated) {
    exists p :: p in l.plans && Answers(lib, v, p)
  }

  ghost predicate Inv(lib: Library, prompts: Prompts, l: Ledger) {
    && (forall r :: r in l.reviews ==> Genuine(prompts, r))
    && (forall p :: p in l.plans && p.stage.HypothesisReview? ==> Recorded(l, p))
    && (forall v :: v in l.validated ==> Answered(lib, l, v))
    && (forall p :: p in l.plans && p.stage.Addressability? ==> Justified(lib, prompts, l, p))
  }

  predicate Grows(l: Ledger, l': Ledger) {
    l.plans <= l'.plans && l.validated <= l'.validated && l.reviews <= l'.reviews
  }

  /** Everything established stays established when the ledger grows. */
  lemma GrowthKeeps(lib: Library, prompts: Prompts, l: Ledger, l': Ledger)
    requires Inv(lib, prompts, l) && Grows(l, l')
    ensures forall p :: p in l.plans && p.stage.HypothesisReview? ==> Recorded(l', p)
    ensures forall v :: v in l.validated ==> Answered(lib, l', v)
    ensures forall p :: p in l.plans && p.stage.Addressability? ==> Justified(lib, prompts, l', p)
  {
    hide Answers, Genuine, JustifiedBy;
    forall p | p in l.plans && p.stage.HypothesisReview?
      ensures Recorded(l', p)
    {
      var r :| r in l.reviews && r.plan == p;
      assert r in l'.reviews;
    }
    forall v | v in l.validated
      ensures Answered(lib, l', v)
    {
      var p :| p in l.plans && Answers(lib, v, p);
      assert p in l'.plans;
    }
    forall p | p in l.plans && p.stage.Addressability?
      ensures Justified(lib, prompts, l', p)
    {
      var r, slot, v :| r in l.reviews && v in l.validated && JustifiedBy(lib, prompts, p, r, slot, v);
      assert r in l'.reviews && v in l'.validated;
    }
  }

  lemma ReviewKeeps(lib: Library, prompts: Prompts, l: Ledger, c: Call)
    requires Inv(lib, prompts, l) && c.AskReview?
    ensures Inv(lib, prompts, Perform(lib, prompts, l, c))
  {
    hide CheckState, CheckAll, ReviewQuestions, ReviewMapping, Canonical, Payload, Justified, Answered;
    var l' := Perform(lib, prompts, l, c);
    var r := BuildReview(lib, prompts, c.state, c.hypotheses, c.documents);
    GrowthKeeps(lib, prompts, l, l');
    if r.Planned? && c.hypotheses.Arr? {
      var review := Review(c.state, c.hypotheses.items, r.plan);
      assert Genuine(prompts, review);
      assert review in l'.reviews;
      assert Recorded(l', r.plan);
    }
  }

  lemma RespondKeeps(lib: Library, prompts: Prompts, l: Ledger, c: Call)
    requires Inv(lib, prompts, l) && c.Respond? && Legal(l, c)
    ensures Inv(lib, prompts, Perform(lib, prompts, l, c))
  {
    hide Genuine, Justified, Recorded, QuestionsOf, Probability;
    var l' := Perform(lib, prompts, l, c);
    GrowthKeeps(lib, prompts, l, l');
    var v := ValidateResponse(lib, c.response, c.plan);
    if v.Some? {
      assert v.value.probabilities.Keys == QuestionsOf(c.plan).Keys;
      assert Answers(lib, v.value, c.plan);
      assert Answered(lib, l', v.value);
    }
  }

  /** A stage-4 plan is stage 4's payload, and only a stage-3 plan leads to one. */
  lemma AddressPlan(lib: Library, prompts: Prompts, c: Call)
    requires c.AskAddress? && Address(lib, prompts, c).Planned?
    ensures c.plan.stage.HypothesisReview? && Vetted(lib, c.state, c.hypothesis)
    ensures Canonical(AddressPayload(prompts, c.state, c.hypothesis)) == Some(Address(lib, prompts, c).plan.serialized)
  {
    hide CheckState, CheckHypothesis, Payload, Canonical, Bound, EvidencePlans.Recorded, QuestionsOf, Snapshot, AddressQuestions;
  }

  function Address(lib: Library, prompts: Prompts, c: Call): PlanResult
    requires c.AskAddress?
  {
    BuildAddressability(lib, prompts, c.state, c.hypothesis, c.sources, c.plan, c.validated, c.questionId, c.qualified)
  }

  lemma AddressJustified(lib: Library, prompts: Prompts, l: Ledger, c: Call)
    requires Inv(lib, prompts, l) && c.AskAddress? && Legal(l, c) && Address(lib, prompts, c).Planned?
    ensures Justified(lib, prompts, l, Address(lib, prompts, c).plan)
  {
    hide BuildAddressability, AddressPayload, MakePlan, Canonical, Answered, QuestionId, ReviewQuestions, ReviewMapping, Vetted;
    AddressPlan(lib, prompts, c);
    assert Recorded(l, c.plan);
    var review :| review in l.reviews && review.plan == c.plan;
    assert Genuine(prompts, review);
    var slot := AddressabilityBinds(lib, prompts, c.state, c.hypothesis, c.sources, c.plan, c.validated,
      c.questionId, c.qualified, review.state, review.hypotheses);
    assert JustifiedBy(lib, prompts, Address(lib, prompts, c).plan, review, slot, c.validated);
  }

  lemma AddressKeeps(lib: Library, prompts: Prompts, l: Ledger, c: Call)
    requires Inv(lib, prompts, l) && c.AskAddress? && Legal(l, c)
    ensures Inv(lib, prompts, Perform(lib, prompts, l, c))
  {
    hide BuildAddressability, Answered, Genuine, JustifiedBy;
    var l' := Perform(lib, prompts, l, c);
    GrowthKeeps(lib, prompts, l, l');
    var r := Address(lib, prompts, c);
    if r.Planned? {
      AddressJustified(lib, prompts, l, c);
      var review, slot, v :| review in l.reviews && v in l.validated && JustifiedBy(lib, prompts, r.plan, review, slot, v);
      assert review in l'.reviews && v in l'.validated;
      AddressStage(lib, prompts, c);
    }
  }

  lemma AddressStage(lib: Library, prompts: Prompts, c: Call)
    requires c.AskAddress? && Address(lib, prompts, c).Planned?
    ensures Address(lib, prompts, c).plan.stage.Addressability?
  {
    hide CheckState, CheckHypothesis, Payload, Canonical, Bound, EvidencePlans.Recorded, QuestionsOf, Snapshot, AddressQuestions;
  }

  lemma SufficiencyKeeps(lib: Library, prompts: Prompts, l: Ledger, c: Call)
    requires Inv(lib, prompts, l) && c.AskSufficiency?
    ensures Inv(lib, prompts, Perform(lib, prompts, l, c))
  {
    hide Answered, Justified, Recorded, Genuine, CheckState, Canonical, Payload;
    GrowthKeeps(lib, prompts, l, Perform(lib, prompts, l, c));
  }

  lemma {:induction false} RunKeeps(lib: Library, prompts: Prompts, l: Ledger, calls: seq<Call>)
    requires Inv(lib, prompts, l) && IsRun(lib, prompts, l, calls)
    ensures Inv(lib, prompts, After(lib, prompts, l, calls))
    decreases |calls|
  {
    hide Inv, Perform;
    if calls != [] {
      CallKeeps(lib, prompts, l, calls[0]);
      RunKeeps(lib, prompts, Perform(lib, prompts, l, calls[0]), calls[1..]);
    }
  }

  lemma CallKeeps(lib: Library, prompts: Prompts, l: Ledger, c: Call)
    requires Inv(lib, prompts, l) && Legal(l, c)
    ensures Inv(lib, prompts, Perform(lib, prompts, l, c))
  {
    hide Inv, Perform;
    match c
    case AskSufficiency(_) => SufficiencyKeeps(lib, prompts, l, c);
    case AskReview(_, _, _) => ReviewKeeps(lib, prompts, l, c);
    case Respond(_, _) => RespondKeeps(lib, prompts, l, c);
    case AskAddress(_, _, _, _, _, _, _) => AddressKeeps(lib, prompts, l, c);
  }

  /** SHA-256 taken as collision-free. */
  ghost predicate Injective(sha: seq<Byte> -> string) {
    forall a, b :: sha(a) == sha(b) ==> a == b
  }

  /** In every run, a stage-4 plan decodes to the exact state and the exact hypothesis of a stage-3 review of
      that run, and somebody validated a response to a request with that review's very bytes. */
  lemma StageFourIsReviewed(lib: Library, prompts: Prompts, calls: seq<Call>, p: Plan)
      returns (r: Review, slot: nat, v: Validated, answered: Plan)
    requires IsRun(lib, prompts, Ledger({}, {}, {}), calls) && Injective(lib.sha)
    requires p in After(lib, prompts, Ledger({}, {}, {}), calls).plans && p.stage.Addressability?
    ensures var l := After(lib, prompts, Ledger({}, {}, {}), calls);
      && r in l.reviews && v in l.validated && answered in l.plans
      && Genuine(prompts, r) && slot < |r.hypotheses| && Vetted(lib, r.state, r.hypotheses[slot])
      && Loads(p.serialized) == Some(AddressPayload(prompts, r.state, r.hypotheses[slot]))
      && answered.serialized == r.plan.serialized && Answers(lib, v, answered)
      && QuestionId(slot) in v.probabilities
  {
    hide Perform, Genuine, Answers, AddressPayload, Canonical, Loads, QuestionId, Vetted;
    var l0 := Ledger({}, {}, {});
    RunKeeps(lib, prompts, l0, calls);
    var l := After(lib, prompts, l0, calls);
    assert Justified(lib, prompts, l, p);
    r, slot, v :| r in l.reviews && v in l.validated && JustifiedBy(lib, prompts, p, r, slot, v);
    assert Answered(lib, l, v);
    answered :| answered in l.plans && Answers(lib, v, answered);
    AnswersDigest(lib, v, answered);
    assert lib.sha(answered.serialized) == lib.sha(r.plan.serialized);
    LoadsCanonical(AddressPayload(prompts, r.state, r.hypotheses[slot]), p.serialized);
  }

  lemma AnswersDigest(lib: Library, v: Validated, p: Plan)
    requires Answers(lib, v, p)
    ensures v.requestSha == lib.sha(p.serialized)
  {
  }

  /** End to end: whatever a stage-4 request quotes from a source is a run of characters of the text that the same
      request shows for that source, at the byte offset it declares. */
  lemma StageFourQuotesWhatItShows(lib: Library, prompts: Prompts, calls: seq<Call>, p: Plan, i: nat)
      returns (state: Json, hypothesis: Json, k: nat)
    requires IsRun(lib, prompts, Ledger({}, {}, {}), calls) && Injective(lib.sha)
    requires p in After(lib, prompts, Ledger({}, {}, {}), calls).plans && p.stage.Addressability?
    ensures Loads(p.serialized) == Some(AddressPayload(prompts, state, hypothesis))
    ensures i < |Spans(hypothesis)| ==>
      && k < |Sources(state)|
      && var span, source := Spans(hypothesis)[i], Sources(state)[k];
         && SourceId(source) == Text(Get(span, "source_id"))
         && QuotesAt(Text(Get(source, "supplied_text")), Text(Get(span, "quote")),
              Number(Get(span, "start_byte")) - Number(Get(source, "excerpt_start_byte")))
  {
    hide IsRun, After, Loads, AddressPayload, CheckState, CheckHypothesis, QuotesAt, Spans, Sources, Injective, Genuine, Answers;
    var r, slot, _, _ := StageFourIsReviewed(lib, prompts, calls, p);
    state, hypothesis, k := r.state, r.hypotheses[slot], 0;
    if i < |Spans(hypothesis)| {
      var documents :| CheckHypothesis(lib, hypothesis, state, documents) == Pass;
      k := SpanQuotesExcerpt(lib, hypothesis, state, documents, i);
    }
  }
}
