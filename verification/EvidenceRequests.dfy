/** Exactly when each builder plans a request, and what the request says. */
module EvidenceRequests {
  import opened Options
  import opened Utf8
  import opened Json
  import opened CanonicalJson
  import opened EvidenceChecks
  import opened EvidenceAcceptance
  import opened EvidencePlans
  import opened EvidenceRuns

  // ---- Question identifiers ----

  lemma {:induction false} PadShape(s: string)
    ensures |Pad(s)| == if |s| < 4 then 4 else |s|
    ensures |s| >= 4 ==> Pad(s) == s
    decreases 4 - |s|
  {
    if |s| < 4 {
      PadShape("0" + s);
    }
  }

  /** `q` and the slot in decimal, padded with zeros to four digits and no further. */
  lemma QuestionIdIs(slot: nat)
    ensures var id := QuestionId(slot);
      && |id| >= 5 && id[0] == 'q' && AllDigits(id[1..]) && DigitsValue(id[1..]) == slot
      && (|id| == 5 || id[1..] == Digits(slot))
  {
    assert QuestionId(slot)[1..] == Pad(Digits(slot));
    DigitsInverse(slot);
    PadValue(Digits(slot));
    PadShape(Digits(slot));
  }

  // ---- The request ----

  /** The request fits into one message. */
  ghost predicate Sendable(state: Json, questions: map<string, Json>, bytes: seq<Byte>) {
    Canonical(Payload(state, questions)) == Some(bytes) && |bytes| <= 128_000
  }

  /** A plan is made exactly when its request can be serialised within the limit; it carries the pinned model, the
      mapping, and the state and questions it was made from, and nothing else. */
  lemma PlanExactly(stage: Stage, state: Json, questions: map<string, Json>, mapping: map<string, string>)
    ensures var r := MakePlan(stage, state, questions, mapping);
      && (r.Planned? <==> exists bytes :: Sendable(state, questions, bytes))
      && (r.Planned? ==>
            && r.plan.stage == stage && r.plan.model == "jev-1.13.0" && r.plan.mapping == mapping
            && Sendable(state, questions, r.plan.serialized)
            && var p := Loads(r.plan.serialized);
            && p.Some? && p.value.Obj? && p.value.fields.Keys == {"model", "state", "questions"}
            && Get(p.value, "model") == Some(Str("jev-1.13.0")) && Get(p.value, "state") == Some(state)
            && Get(p.value, "questions") == Some(Obj(questions)))
      && (!r.Planned? ==> r == Abstained(stage, if Canonical(Payload(state, questions)).None? then NotSerializable else RequestTooLong))
  {
    hide Canonical, Loads, Payload, Dumpable;
    var r := MakePlan(stage, state, questions, mapping);
    if r.Planned? {
      SnapshotOfPlan(stage, state, questions, mapping);
      PayloadMembers(state, questions);
      PayloadKeys(state, questions);
      SnapshotLoads(r.plan);
      assert Sendable(state, questions, r.plan.serialized);
    }
  }

  lemma PayloadKeys(state: Json, questions: map<string, Json>)
    ensures Payload(state, questions).Obj? && Payload(state, questions).fields.Keys == {"model", "state", "questions"}
  {
  }

  lemma SnapshotLoads(plan: Plan)
    ensures Snapshot(plan).Some? ==> Loads(plan.serialized) == Snapshot(plan)
  {
    hide Loads;
  }

  /** A Noul question with the given text about the given hypothesis, under the given key. */
  predicate Asks(question: Json, text: string, key: string, hypothesis: Json) {
    && question.Obj? && question.fields.Keys == {"type", "instructions"} && Get(question, "type") == Some(Str("noul"))
    && var instructions := Get(question, "instructions");
    && IsObj(instructions) && instructions.value.fields.Keys == {"question", key}
    && Member(instructions, "question") == Some(Str(text)) && Member(instructions, key) == Some(hypothesis)
  }

  /** There is one such question. */
  lemma AsksExactly(question: Json, text: string, key: string, hypothesis: Json)
    requires key != "question"
    ensures Asks(question, text, key, hypothesis) <==> question == Question(text, key, hypothesis)
  {
    assert "type"[0] != "instructions"[0];
    var q := Question(text, key, hypothesis);
    assert q.fields["instructions"] == Obj(map["question" := Str(text)][key := hypothesis]);
    if Asks(question, text, key, hypothesis) {
      assert question.fields["instructions"].fields == q.fields["instructions"].fields;
      assert question.fields == q.fields;
    }
  }

  // ---- Stage 1 ----

  /** The one question of stage 1. */
  predicate AsksSufficiency(questions: map<string, Json>, text: string) {
    && questions.Keys == {"n0"}
    && var q := questions["n0"];
    && q.Obj? && q.fields.Keys == {"type", "instructions"} && Get(q, "type") == Some(Str("noul"))
    && Get(q, "instructions") == Some(Obj(map["question" := Str(text)]))
  }

  /** Stage 1 plans its question exactly for the acceptable states that fit. */
  lemma SufficiencyExactly(lib: Library, prompts: Prompts, state: Json, questions: map<string, Json>)
    requires AsksSufficiency(questions, prompts.sufficiency)
    ensures var r := BuildSufficiency(lib, prompts, state);
      && (r.Planned? <==> StateOk(lib, state) && exists bytes :: Sendable(state, questions, bytes))
      && (r.Planned? ==> r.plan.stage.Sufficiency? && r.plan.mapping == map[] && Sendable(state, questions, r.plan.serialized))
  {
    hide CheckState, StateOk, Sendable, Canonical, Payload;
    StateExactly(lib, state);
    var question := Obj(map["type" := Str("noul"), "instructions" := Obj(map["question" := Str(prompts.sufficiency)])]);
    assert questions["n0"].fields == question.fields;
    assert questions == map["n0" := question];
    PlanExactly(Sufficiency, state, questions, map[]);
  }

  // ---- Stage 3 ----

  /** One question per hypothesis, under its slot's identifier: the one for its kind, about exactly that hypothesis. */
  ghost predicate AsksReview(questions: map<string, Json>, prompts: Prompts, hs: seq<Json>) {
    && (forall k :: k in questions <==> exists i :: 0 <= i < |hs| && k == QuestionId(i))
    && (forall i :: 0 <= i < |hs| ==>
          && QuestionId(i) in questions
          && Asks(questions[QuestionId(i)],
               if Get(hs[i], "kind") == Some(Str("missing_information")) then prompts.missing else prompts.contradiction,
               "hypothesis", hs[i]))
  }

  /** Each question identifier leads to the identifier of its hypothesis. */
  ghost predicate MapsBack(mapping: map<string, string>, hs: seq<Json>) {
    && (forall k :: k in mapping <==> exists i :: 0 <= i < |hs| && k == QuestionId(i))
    && (forall i :: 0 <= i < |hs| ==> QuestionId(i) in mapping && Get(hs[i], "hypothesis_id") == Some(Str(mapping[QuestionId(i)])))
  }

  lemma ReviewQuestionAsks(prompts: Prompts, h: Json)
    ensures Asks(ReviewQuestion(prompts, h),
      if Get(h, "kind") == Some(Str("missing_information")) then prompts.missing else prompts.contradiction, "hypothesis", h)
  {
    hide Asks, Question;
    var text := if Get(h, "kind") == Some(Str("missing_information")) then prompts.missing else prompts.contradiction;
    assert "hypothesis"[0] != "question"[0];
    assert ReviewQuestion(prompts, h) == Question(text, "hypothesis", h);
    AsksExactly(Question(text, "hypothesis", h), text, "hypothesis", h);
  }

  lemma ReviewAsksExactly(prompts: Prompts, hs: seq<Json>, questions: map<string, Json>)
    ensures AsksReview(questions, prompts, hs) <==> questions == ReviewQuestions(prompts, hs, |hs|)
  {
    hide Asks, ReviewQuestion, QuestionId, ReviewQuestions, Get;
    ReviewQuestionsExact(prompts, hs, |hs|);
    var built := ReviewQuestions(prompts, hs, |hs|);
    forall i | 0 <= i < |hs|
      ensures Asks(built[QuestionId(i)],
        if Get(hs[i], "kind") == Some(Str("missing_information")) then prompts.missing else prompts.contradiction, "hypothesis", hs[i])
    {
      ReviewQuestionAsks(prompts, hs[i]);
    }
    if AsksReview(questions, prompts, hs) {
      forall k
        ensures k in questions <==> k in built
        ensures k in questions ==> questions[k] == built[k]
      {
        if k in questions {
          var i :| 0 <= i < |hs| && k == QuestionId(i);
          var text := if Get(hs[i], "kind") == Some(Str("missing_information")) then prompts.missing else prompts.contradiction;
          assert "hypothesis"[0] != "question"[0];
          AsksExactly(questions[k], text, "hypothesis", hs[i]);
          AsksExactly(built[k], text, "hypothesis", hs[i]);
        }
      }
      assert questions == built;
    }
  }

  lemma {:induction false} MappingIs(hs: seq<Json>, n: nat)
    requires n <= |hs|
    ensures forall i :: 0 <= i < n ==>
      QuestionId(i) in ReviewMapping(hs, n) && ReviewMapping(hs, n)[QuestionId(i)] == HypothesisId(hs[i])
    ensures forall k :: k in ReviewMapping(hs, n) ==> exists i :: 0 <= i < n && k == QuestionId(i)
  {
    hide QuestionId, HypothesisId;
    if n > 0 {
      MappingIs(hs, n - 1);
      forall i | 0 <= i < n - 1
        ensures QuestionId(i) != QuestionId(n - 1)
      {
        if QuestionId(i) == QuestionId(n - 1) {
          QuestionIdInjective(i, n - 1);
        }
      }
    }
  }

  ghost predicate Identifies(hs: seq<Json>) {
    forall i :: 0 <= i < |hs| ==> Get(hs[i], "hypothesis_id") == Some(Str(HypothesisId(hs[i])))
  }

  lemma MappingExactly(hs: seq<Json>)
    requires Identifies(hs)
    ensures MapsBack(ReviewMapping(hs, |hs|), hs)
  {
    hide QuestionId, ReviewMapping;
    MappingIs(hs, |hs|);
  }

  ghost predicate HypothesesOk(lib: Library, hs: seq<Json>, state: Json, documents: map<string, Json>) {
    && (forall i :: 0 <= i < |hs| ==> HypothesisOk(lib, hs[i], state, documents))
    && (forall i, j :: 0 <= i < j < |hs| ==> Get(hs[i], "hypothesis_id") != Get(hs[j], "hypothesis_id"))
  }

  lemma {:induction false} EachChecked(lib: Library, hs: seq<Json>, n: nat, state: Json, documents: map<string, Json>)
    requires n <= |hs| && StateOk(lib, state)
    ensures CheckAll(lib, hs, n, state, documents) == Pass <==>
      && (forall i :: 0 <= i < n ==> HypothesisOk(lib, hs[i], state, documents))
      && (forall i, j :: 0 <= i < j < n ==> HypothesisId(hs[i]) != HypothesisId(hs[j]))
  {
    hide StateOk, CheckHypothesis, HypothesisOk, HypothesisId;
    if n > 0 {
      EachChecked(lib, hs, n - 1, state, documents);
      HypothesisExactly(lib, hs[n - 1], state, documents);
    }
  }

  lemma IdField(lib: Library, h: Json, state: Json, documents: map<string, Json>)
    requires HypothesisOk(lib, h, state, documents)
    ensures Get(h, "hypothesis_id") == Some(Str(HypothesisId(h)))
  {
    hide KindOk, SpanOk, ForbiddenAt;
  }

  lemma HypothesesExactly(lib: Library, hs: seq<Json>, state: Json, documents: map<string, Json>)
    requires StateOk(lib, state)
    ensures CheckAll(lib, hs, |hs|, state, documents) == Pass <==> HypothesesOk(lib, hs, state, documents)
    ensures HypothesesOk(lib, hs, state, documents) ==> Identifies(hs)
  {
    hide StateOk, HypothesisOk, HypothesisId, CheckAll, Get;
    EachChecked(lib, hs, |hs|, state, documents);
    if forall i :: 0 <= i < |hs| ==> HypothesisOk(lib, hs[i], state, documents) {
      forall i | 0 <= i < |hs|
        ensures Get(hs[i], "hypothesis_id") == Some(Str(HypothesisId(hs[i])))
      {
        IdField(lib, hs[i], state, documents);
      }
    }
  }

  /** Stage 3 plans its questions exactly for an acceptable state and a nonempty list of acceptable hypotheses with
      distinct identifiers, if documents were supplied and the request fits; the plan leads each question back to its
      hypothesis. */
  lemma ReviewExactly(lib: Library, prompts: Prompts, state: Json, hs: seq<Json>, documents: map<string, Json>,
      questions: map<string, Json>)
    requires AsksReview(questions, prompts, hs)
    ensures var r := BuildReview(lib, prompts, state, Arr(hs), Some(documents));
      && (r.Planned? <==>
            && StateOk(lib, state) && hs != [] && HypothesesOk(lib, hs, state, documents)
            && exists bytes :: Sendable(state, questions, bytes))
      && (r.Planned? ==> r.plan.stage.HypothesisReview? && MapsBack(r.plan.mapping, hs) && Sendable(state, questions, r.plan.serialized))
  {
    hide CheckState, StateOk, CheckAll, HypothesesOk, Sendable, Canonical, Payload, ReviewQuestions, ReviewMapping, AsksReview, MapsBack, Identifies;
    StateExactly(lib, state);
    ReviewAsksExactly(prompts, hs, questions);
    PlanExactly(HypothesisReview, state, questions, ReviewMapping(hs, |hs|));
    if StateOk(lib, state) {
      HypothesesExactly(lib, hs, state, documents);
      if HypothesesOk(lib, hs, state, documents) {
        MappingExactly(hs);
      }
    }
  }

  /** Without a list of hypotheses or without documents, stage 3 plans nothing. */
  lemma ReviewNeedsInputs(lib: Library, prompts: Prompts, state: Json, hypotheses: Json, documents: Option<map<string, Json>>)
    requires BuildReview(lib, prompts, state, hypotheses, documents).Planned?
    ensures hypotheses.Arr? && documents.Some?
  {
    hide CheckState, CheckAll, MakePlan, ReviewQuestions, ReviewMapping;
  }

  // ---- Stage 4 ----

  /** The policy qualified one hypothesis of the review, whose question the response to that review answers. */
  ghost predicate Qualified(lib: Library, hs: seq<Json>, hypothesis: Json, plan: Plan, response: Validated, questionId: string, qualified: string) {
    && (exists slot :: 0 <= slot < |hs| && hs[slot] == hypothesis && questionId == QuestionId(slot))
    && response.model == "jev-1.13.0" && response.requestSha == lib.sha(plan.serialized)
    && questionId in response.probabilities && Get(hypothesis, "hypothesis_id") == Some(Str(qualified))
  }

  lemma BoundToItself(state: Json, hypothesis: Json)
    requires state.Obj? && hypothesis.Obj?
    ensures Bound(Some(state), state, Some(hypothesis), hypothesis)
  {
    hide Canonical;
  }

  lemma QualifiedIsPlanned(lib: Library, prompts: Prompts, state: Json, hypothesis: Json, documents: map<string, Json>,
      plan: Plan, response: Validated, questionId: string, qualified: string, hs: seq<Json>)
    requires MakePlan(HypothesisReview, state, ReviewQuestions(prompts, hs, |hs|), ReviewMapping(hs, |hs|)) == Planned(plan)
    requires CheckState(lib, state) == Pass && CheckHypothesis(lib, hypothesis, state, documents) == Pass
    requires state.Obj? && hypothesis.Obj? && Qualified(lib, hs, hypothesis, plan, response, questionId, qualified)
    ensures BuildAddressability(lib, prompts, state, hypothesis, documents, plan, response, questionId, qualified)
      == MakePlan(Addressability, state, AddressQuestions(prompts, hypothesis), map[])
  {
    hide CheckState, CheckHypothesis, MakePlan, ReviewQuestion, Payload, ReviewQuestions, ReviewMapping, Snapshot, QuestionsOf,
      EvidencePlans.Recorded, QuestionId, Dumpable, AddressQuestions, Bound;
    var questions := ReviewQuestions(prompts, hs, |hs|);
    SnapshotOfPlan(HypothesisReview, state, questions, ReviewMapping(hs, |hs|));
    PayloadMembers(state, questions);
    ReviewQuestionsExact(prompts, hs, |hs|);
    var slot :| 0 <= slot < |hs| && hs[slot] == hypothesis && questionId == QuestionId(slot);
    RecordedHypothesis(prompts, hypothesis);
    BoundToItself(state, hypothesis);
    ReviewStage(state, questions, ReviewMapping(hs, |hs|), plan);
  }

  lemma ReviewStage(state: Json, questions: map<string, Json>, mapping: map<string, string>, plan: Plan)
    requires MakePlan(HypothesisReview, state, questions, mapping) == Planned(plan)
    ensures plan.stage.HypothesisReview?
  {
    hide Canonical, Payload;
  }

  lemma PlannedIsChecked(lib: Library, prompts: Prompts, state: Json, hypothesis: Json, documents: map<string, Json>,
      plan: Plan, response: Validated, questionId: string, qualified: string)
    requires BuildAddressability(lib, prompts, state, hypothesis, documents, plan, response, questionId, qualified).Planned?
    ensures CheckState(lib, state) == Pass && CheckHypothesis(lib, hypothesis, state, documents) == Pass
    ensures response.model == MODEL && qualified == HypothesisId(hypothesis)
  {
    hide CheckState, CheckHypothesis, MakePlan, Bound, EvidencePlans.Recorded, QuestionsOf, Snapshot, AddressQuestions;
  }

  lemma OkAreObjects(lib: Library, state: Json, hypothesis: Json, documents: map<string, Json>)
    requires StateOk(lib, state) && HypothesisOk(lib, hypothesis, state, documents)
    ensures state.Obj? && hypothesis.Obj? && Get(hypothesis, "hypothesis_id") == Some(Str(HypothesisId(hypothesis)))
  {
    hide SourcesOk, CoverageOk, FilledList, KindOk, SpanOk, ForbiddenAt, HypothesisId;
    IdField(lib, hypothesis, state, documents);
  }

  /** Against a stage-3 plan, stage 4 plans its one question exactly for that plan's own state and a hypothesis of it that
      the policy qualified and the response answers, if the checks still accept both and the request fits. */
  lemma AddressExactly(lib: Library, prompts: Prompts, state: Json, hypothesis: Json, documents: map<string, Json>,
      plan: Plan, response: Validated, questionId: string, qualified: string, reviewed: Json, hs: seq<Json>,
      questions: map<string, Json>)
    requires MakePlan(HypothesisReview, reviewed, ReviewQuestions(prompts, hs, |hs|), ReviewMapping(hs, |hs|)) == Planned(plan)
    requires questions.Keys == {"n0"} && Asks(questions["n0"], prompts.addressability, "gap_hypothesis", hypothesis)
    ensures var r := BuildAddressability(lib, prompts, state, hypothesis, documents, plan, response, questionId, qualified);
      && (r.Planned? <==>
            && StateOk(lib, state) && HypothesisOk(lib, hypothesis, state, documents)
            && state == reviewed && Qualified(lib, hs, hypothesis, plan, response, questionId, qualified)
            && exists bytes :: Sendable(state, questions, bytes))
      && (r.Planned? ==> r.plan.stage.Addressability? && Sendable(state, questions, r.plan.serialized))
  {
    hide CheckState, StateOk, CheckHypothesis, HypothesisOk, MakePlan, ReviewQuestions, ReviewMapping, BuildAddressability,
      Sendable, QuestionId, Get, Asks, AddressQuestions;
    StateExactly(lib, state);
    AddressIs(prompts, hypothesis, questions);
    PlanExactly(Addressability, state, questions, map[]);
    if BuildAddressability(lib, prompts, state, hypothesis, documents, plan, response, questionId, qualified).Planned? {
      PlannedIsChecked(lib, prompts, state, hypothesis, documents, plan, response, questionId, qualified);
      var slot := AddressabilityBinds(lib, prompts, state, hypothesis, documents, plan, response, questionId, qualified, reviewed, hs);
      HypothesisExactly(lib, hypothesis, state, documents);
      OkAreObjects(lib, state, hypothesis, documents);
      QualifiedIsPlanned(lib, prompts, state, hypothesis, documents, plan, response, questionId, qualified, hs);
    } else if StateOk(lib, state) && HypothesisOk(lib, hypothesis, state, documents) && state == reviewed
              && Qualified(lib, hs, hypothesis, plan, response, questionId, qualified) {
      HypothesisExactly(lib, hypothesis, state, documents);
      OkAreObjects(lib, state, hypothesis, documents);
      QualifiedIsPlanned(lib, prompts, state, hypothesis, documents, plan, response, questionId, qualified, hs);
    }
  }

  lemma AddressIs(prompts: Prompts, hypothesis: Json, questions: map<string, Json>)
    requires questions.Keys == {"n0"} && Asks(questions["n0"], prompts.addressability, "gap_hypothesis", hypothesis)
    ensures questions == AddressQuestions(prompts, hypothesis)
  {
    hide Asks, Question;
    assert "gap_hypothesis"[0] != "question"[0];
    AsksExactly(questions["n0"], prompts.addressability, "gap_hypothesis", hypothesis);
    assert questions == map["n0" := questions["n0"]];
  }
}
