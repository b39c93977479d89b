/** Building the staged requests, and the chain that binds stage 4 to a reviewed stage 3. */
module EvidencePlans {
  import opened Options
  import opened Utf8
  import opened Json
  import opened CanonicalJson
  import opened EvidenceChecks

  const MODEL := "jev-1.13.0"
  const MAX_REQUEST_BYTES := 128_000

  /** The fixed question texts. */
  datatype Prompts = Prompts(missing: string, contradiction: string, addressability: string, sufficiency: string)

  datatype Stage = Sufficiency | HypothesisReview | Addressability

  datatype Plan = Plan(stage: Stage, model: string, serialized: seq<Byte>, mapping: map<string, string>)

  /** `Crashed` is an exception that the builder does not catch. */
  datatype PlanResult = Planned(plan: Plan) | Abstained(stage: Stage, reason: Reason) | Crashed

  datatype Validated = Validated(model: string, probabilities: map<string, real>, requestSha: string)

  function Payload(state: Json, questions: map<string, Json>): Json {
    Obj(map["model" := Str(MODEL), "state" := state, "questions" := Obj(questions)])
  }

  lemma PayloadMembers(state: Json, questions: map<string, Json>)
    ensures Get(Payload(state, questions), "model") == Some(Str(MODEL))
    ensures Get(Payload(state, questions), "state") == Some(state)
    ensures Get(Payload(state, questions), "questions") == Some(Obj(questions))
    ensures Dumpable(Payload(state, questions)) ==> Dumpable(state) && forall k :: k in questions ==> Dumpable(questions[k])
  {
    var p := Payload(state, questions);
    assert "model"[0] != "state"[0] && "model"[0] != "questions"[0] && "state"[0] != "questions"[0];
    assert p.fields["state"] == state && p.fields["questions"] == Obj(questions);
    if Dumpable(p) {
      assert Dumpable(p.fields["state"]) && Dumpable(p.fields["questions"]);
    }
  }

  function MakePlan(stage: Stage, state: Json, questions: map<string, Json>, mapping: map<string, string>): PlanResult {
    match Canonical(Payload(state, questions))
    case None => Abstained(stage, NotSerializable)
    case Some(bytes) =>
      if |bytes| > MAX_REQUEST_BYTES then Abstained(stage, RequestTooLong)
      else Planned(Plan(stage, MODEL, bytes, mapping))
  }

  /** `_payload_from_snapshot`. */
  function Snapshot(plan: Plan): Option<Json> {
    match Loads(plan.serialized)
    case None => None
    case Some(p) => if p.Obj? && Get(p, "model") == Some(Str(plan.model)) then Some(p) else None
  }

  /** `_questions_from_snapshot`. */
  function QuestionsOf(plan: Plan): map<string, Json> {
    var q := Member(Snapshot(plan), "questions");
    if IsObj(q) then q.value.fields else map[]
  }

  /** The decoded snapshot of a built plan is the payload it was built from. */
  lemma SnapshotOfPlan(stage: Stage, state: Json, questions: map<string, Json>, mapping: map<string, string>)
    requires MakePlan(stage, state, questions, mapping).Planned?
    ensures var plan := MakePlan(stage, state, questions, mapping).plan;
      && Snapshot(plan) == Some(Payload(state, questions)) && QuestionsOf(plan) == questions
      && plan.serialized == Canonical(Payload(state, questions)).value
    ensures Dumpable(state) && forall k :: k in questions ==> Dumpable(questions[k])
  {
    hide Payload, Dumpable, Render;
    LoadsCanonical(Payload(state, questions), Canonical(Payload(state, questions)).value);
    PayloadMembers(state, questions);
    PayloadIsObj(state, questions);
  }

  lemma PayloadIsObj(state: Json, questions: map<string, Json>)
    ensures Payload(state, questions).Obj?
  {
  }

  // ---- Stage 3: hypothesis review ----

  function Pad(s: string): string
    decreases 4 - |s|
  {
    if |s| >= 4 then s else Pad("0" + s)
  }

  /** `f"q{slot:04d}"`. */
  function QuestionId(slot: nat): string {
    "q" + Pad(Digits(slot))
  }

  lemma {:induction false} PadValue(s: string)
    requires AllDigits(s)
    ensures AllDigits(Pad(s)) && DigitsValue(Pad(s)) == DigitsValue(s)
    decreases 4 - |s|
  {
    if |s| < 4 {
      LeadingZero(s);
      PadValue("0" + s);
    }
  }

  lemma {:induction false} LeadingZero(s: string)
    requires AllDigits(s)
    ensures AllDigits("0" + s) && DigitsValue("0" + s) == DigitsValue(s)
  {
    var z := "0" + s;
    if s == [] {
      assert z[..0] == [];
      assert DigitsValue(z) == 10 * DigitsValue(z[..0]);
    } else {
      var init := s[..|s| - 1];
      LeadingZero(init);
      assert z[..|z| - 1] == "0" + init;
    }
  }

  /** Different slots get different question ids, also beyond four digits. */
  lemma QuestionIdInjective(i: nat, j: nat)
    requires QuestionId(i) == QuestionId(j)
    ensures i == j
  {
    assert QuestionId(i)[1..] == Pad(Digits(i)) && QuestionId(j)[1..] == Pad(Digits(j));
    PadValue(Digits(i));
    PadValue(Digits(j));
    DigitsInverse(i);
    DigitsInverse(j);
  }

  function HypothesisId(h: Json): string {
    Text(Get(h, "hypothesis_id"))
  }

  function Question(text: string, key: string, hypothesis: Json): Json {
    Obj(map["type" := Str("noul"), "instructions" := Obj(map["question" := Str(text)][key := hypothesis])])
  }

  function ReviewQuestion(prompts: Prompts, h: Json): Json {
    var text := if Text(Get(h, "kind")) == "missing_information" then prompts.missing else prompts.contradiction;
    Question(text, "hypothesis", h)
  }

  function ReviewQuestions(prompts: Prompts, hs: seq<Json>, n: nat): map<string, Json>
    requires n <= |hs|
  {
    if n == 0 then map[]
    else ReviewQuestions(prompts, hs, n - 1)[QuestionId(n - 1) := ReviewQuestion(prompts, hs[n - 1])]
  }

  function ReviewMapping(hs: seq<Json>, n: nat): map<string, string>
    requires n <= |hs|
  {
    if n == 0 then map[] else ReviewMapping(hs, n - 1)[QuestionId(n - 1) := HypothesisId(hs[n - 1])]
  }

  /** Exactly one question per hypothesis, under its slot's id. */
  lemma {:induction false} ReviewQuestionsExact(prompts: Prompts, hs: seq<Json>, n: nat)
    requires n <= |hs|
    ensures forall i :: 0 <= i < n ==>
      QuestionId(i) in ReviewQuestions(prompts, hs, n)
      && ReviewQuestions(prompts, hs, n)[QuestionId(i)] == ReviewQuestion(prompts, hs[i])
    ensures forall k :: k in ReviewQuestions(prompts, hs, n) ==> exists i :: 0 <= i < n && k == QuestionId(i)
  {
    hide QuestionId, ReviewQuestion;
    if n > 0 {
      ReviewQuestionsExact(prompts, hs, n - 1);
      forall i | 0 <= i < n - 1
        ensures QuestionId(i) != QuestionId(n - 1)
      {
        if QuestionId(i) == QuestionId(n - 1) {
          QuestionIdInjective(i, n - 1);
        }
      }
    }
  }

  /** The hypothesis recorded in a question, as stage 4 looks it up; `None` when a level is not a dictionary. */
  function Recorded(question: Json): Option<Option<Json>> {
    if !question.Obj? then None
    else
      var instructions := if "instructions" in question.fields then question.fields["instructions"] else Obj(map[]);
      if !instructions.Obj? then None else Some(Get(instructions, "hypothesis"))
  }

  lemma RecordedHypothesis(prompts: Prompts, h: Json)
    ensures Recorded(ReviewQuestion(prompts, h)) == Some(Some(h))
    ensures Dumpable(ReviewQuestion(prompts, h)) ==> Dumpable(h)
  {
    var q := ReviewQuestion(prompts, h);
    assert "type"[0] != "instructions"[0];
    assert q.fields["instructions"].fields["hypothesis"] == h;
    if Dumpable(q) {
      assert Dumpable(q.fields["instructions"]);
    }
  }

  predicate IdRepeats(hs: seq<Json>, n: nat)
    requires n < |hs|
  {
    exists i :: 0 <= i < n && HypothesisId(hs[i]) == HypothesisId(hs[n])
  }

  function CheckAll(lib: Library, hs: seq<Json>, n: nat, state: Json, documents: map<string, Json>): Check
    requires n <= |hs|
  {
    if n == 0 then Pass
    else
      :- CheckAll(lib, hs, n - 1, state, documents);
      :- CheckHypothesis(lib, hs[n - 1], state, documents);
      Check.Need(!IdRepeats(hs, n - 1), HypothesisIdsRepeat)
  }

  function Stop(stage: Stage, c: Check): PlanResult
    requires c.IsFailure()
  {
    if c.Issue? then Abstained(stage, c.reason) else Crashed
  }

  function CheckInputs(hypotheses: Json, documents: Option<map<string, Json>>): (r: Check)
    ensures r == Pass ==> hypotheses.Arr? && documents.Some?
  {
    if !hypotheses.Arr? || hypotheses.items == [] then Issue(NoHypotheses)
    else if documents.None? then Issue(DocumentsMissing)
    else Pass
  }

  /** `build_hypothesis_review_request`; `documents` is `None` when no mapping was supplied. */
  function BuildReview(lib: Library, prompts: Prompts, state: Json, hypotheses: Json, documents: Option<map<string, Json>>): PlanResult {
    var issue := CheckState(lib, state);
    if issue.IsFailure() then Stop(HypothesisReview, issue)
    else if CheckInputs(hypotheses, documents).IsFailure() then Stop(HypothesisReview, CheckInputs(hypotheses, documents))
    else
      var hs := hypotheses.items;
      var checked := CheckAll(lib, hs, |hs|, state, documents.value);
      if checked.IsFailure() then Stop(HypothesisReview, checked)
      else MakePlan(HypothesisReview, state, ReviewQuestions(prompts, hs, |hs|), ReviewMapping(hs, |hs|))
  }

  /** The validation loop, with the set of identifiers it accumulates. */
  method ValidateAll(lib: Library, hs: seq<Json>, state: Json, documents: map<string, Json>) returns (r: Check)
    ensures r == CheckAll(lib, hs, |hs|, state, documents)
  {
    hide CheckHypothesis, HypothesisId;
    var ids: set<string> := {};
    for i := 0 to |hs|
      invariant CheckAll(lib, hs, i, state, documents) == Pass
      invariant forall x :: x in ids <==> exists j :: 0 <= j < i && HypothesisId(hs[j]) == x
    {
      r := ValidateHypothesis(lib, hs[i], state, documents);
      if r == Pass && HypothesisId(hs[i]) in ids {
        r := Issue(HypothesisIdsRepeat);
      }
      if r.IsFailure() {
        CheckAllStops(lib, hs, i + 1, |hs|, state, documents);
        return;
      }
      ids := ids + {HypothesisId(hs[i])};
    }
    r := Pass;
  }

  /** The loop that gives each proposal its question. */
  method MakeQuestions(prompts: Prompts, hs: seq<Json>) returns (questions: map<string, Json>, mapping: map<string, string>)
    ensures questions == ReviewQuestions(prompts, hs, |hs|) && mapping == ReviewMapping(hs, |hs|)
  {
    hide ReviewQuestion, QuestionId, HypothesisId;
    questions, mapping := map[], map[];
    for slot := 0 to |hs|
      invariant questions == ReviewQuestions(prompts, hs, slot) && mapping == ReviewMapping(hs, slot)
    {
      questions := questions[QuestionId(slot) := ReviewQuestion(prompts, hs[slot])];
      mapping := mapping[QuestionId(slot) := HypothesisId(hs[slot])];
    }
  }

  method BuildHypothesisReviewRequest(lib: Library, prompts: Prompts, state: Json, hypotheses: Json, documents: Option<map<string, Json>>)
      returns (r: PlanResult)
    ensures r == BuildReview(lib, prompts, state, hypotheses, documents)
  {
    hide CheckState, CheckAll, MakePlan, ReviewQuestions, ReviewMapping, Stop, CheckInputs;
    var issue := ValidateBaseState(lib, state);
    if issue.IsFailure() {
      return Stop(HypothesisReview, issue);
    }
    issue := CheckInputs(hypotheses, documents);
    if issue.IsFailure() {
      return Stop(HypothesisReview, issue);
    }
    issue := ValidateAll(lib, hypotheses.items, state, documents.value);
    if issue.IsFailure() {
      return Stop(HypothesisReview, issue);
    }
    var questions, mapping := MakeQuestions(prompts, hypotheses.items);
    r := MakePlan(HypothesisReview, state, questions, mapping);
  }

  lemma {:induction false} CheckAllStops(lib: Library, hs: seq<Json>, m: nat, n: nat, state: Json, documents: map<string, Json>)
    requires m <= n <= |hs| && CheckAll(lib, hs, m, state, documents) != Pass
    ensures CheckAll(lib, hs, n, state, documents) == CheckAll(lib, hs, m, state, documents)
  {
    hide CheckHypothesis, IdRepeats;
    if m < n {
      CheckAllStops(lib, hs, m, n - 1, state, documents);
    }
  }

  // ---- Responses ----

  /** A probability in [0, 1], as an integer or a finite float. */
  function Probability(lib: Library, answer: Json): Option<real> {
    if !answer.Obj? || Get(answer, "type") != Some(Str("noul")) then None
    else
      match Get(answer, "noul")
      case Some(Int(n)) => if 0 <= n <= 1 then Some(n as real) else None
      case Some(Float(t)) =>
        (match lib.number(t)
         case Some(x) => if 0.0 <= x <= 1.0 then Some(x) else None
         case None => None)
      case _ => None
  }

  /** `validate_noul_response`. */
  function ValidateResponse(lib: Library, response: Json, request: Plan): Option<Validated> {
    var answers := Get(response, "answers");
    var ids := QuestionsOf(request).Keys;
    if Get(response, "model") != Some(Str(MODEL)) || ids == {} || !IsObj(answers) || answers.value.fields.Keys != ids then None
    else if exists k :: k in ids && Probability(lib, answers.value.fields[k]).None? then None
    else
      Some(Validated(MODEL, map k | k in ids :: Probability(lib, answers.value.fields[k]).value, lib.sha(request.serialized)))
  }

  /** Why a response is refused; the last two name a question. */
  datatype Refusal = NotAnObject | WrongModel | WrongAnswers | NotNoul(id: string) | NoProbability(id: string)

  datatype Answered = Answered(valid: Validated) | Refused(why: Refusal)

  /** The refusals that the code may report: its tests come in this order, the questions in any. */
  predicate Refuses(lib: Library, response: Json, request: Plan, why: Refusal) {
    var answers := Get(response, "answers");
    var ids := QuestionsOf(request).Keys;
    match why
    case NotAnObject => !response.Obj?
    case WrongModel => response.Obj? && Get(response, "model") != Some(Str(MODEL))
    case WrongAnswers =>
      && response.Obj? && Get(response, "model") == Some(Str(MODEL))
      && (ids == {} || !IsObj(answers) || answers.value.fields.Keys != ids)
    case NotNoul(id) => AnswersAll(response, ids) && id in ids && !IsNoul(answers.value.fields[id])
    case NoProbability(id) =>
      && AnswersAll(response, ids) && id in ids && IsNoul(answers.value.fields[id])
      && Probability(lib, answers.value.fields[id]).None?
  }

  predicate IsNoul(answer: Json) {
    answer.Obj? && Get(answer, "type") == Some(Str("noul"))
  }

  /** The response comes from the pinned model and answers exactly the questions asked. */
  predicate AnswersAll(response: Json, ids: set<string>) {
    && response.Obj? && Get(response, "model") == Some(Str(MODEL)) && ids != {}
    && IsObj(Get(response, "answers")) && Get(response, "answers").value.fields.Keys == ids
  }

  /** The answer is a Noul answer whose number, an integer or the value of a float, is `x`, a probability. */
  ghost predicate Gives(lib: Library, answer: Json, x: real) {
    && Get(answer, "type") == Some(Str("noul")) && 0.0 <= x <= 1.0
    && (|| (exists n :: Get(answer, "noul") == Some(Int(n)) && x == n as real)
        || (exists t :: Get(answer, "noul") == Some(Float(t)) && lib.number(t) == Some(x)))
  }

  lemma ProbabilityExactly(lib: Library, answer: Json, x: real)
    ensures Probability(lib, answer) == Some(x) <==> Gives(lib, answer, x)
  {
  }

  /** The pinned model answers each question asked, and no other, with a probability. */
  ghost predicate WellAnswered(lib: Library, response: Json, asked: set<string>) {
    && Get(response, "model") == Some(Str("jev-1.13.0")) && asked != {}
    && exists answers ::
         && Get(response, "answers") == Some(Obj(answers)) && answers.Keys == asked
         && forall k :: k in answers ==> exists x :: Gives(lib, answers[k], x)
  }

  /** A response is validated exactly when it is well answered, and then into the probabilities it gives. */
  lemma ResponseExactly(lib: Library, response: Json, request: Plan)
    ensures var v, asked := ValidateResponse(lib, response, request), QuestionsOf(request).Keys;
      && (v.Some? <==> WellAnswered(lib, response, asked))
      && (v.Some? ==>
            && v.value.model == "jev-1.13.0" && v.value.requestSha == lib.sha(request.serialized)
            && v.value.probabilities.Keys == asked
            && IsObj(Get(response, "answers")) && Get(response, "answers").value.fields.Keys == asked
            && forall k :: k in asked ==> Gives(lib, Get(response, "answers").value.fields[k], v.value.probabilities[k]))
  {
    hide Probability, Gives, QuestionsOf;
    var answers, asked := Get(response, "answers"), QuestionsOf(request).Keys;
    if IsObj(answers) && answers.value.fields.Keys == asked {
      var given := answers.value.fields;
      forall k | k in asked
        ensures Probability(lib, given[k]).Some? <==> exists x :: Gives(lib, given[k], x)
        ensures Probability(lib, given[k]).Some? ==> Gives(lib, given[k], Probability(lib, given[k]).value)
      {
        if Probability(lib, given[k]).Some? {
          ProbabilityExactly(lib, given[k], Probability(lib, given[k]).value);
        }
        forall x | Gives(lib, given[k], x)
          ensures Probability(lib, given[k]).Some?
        {
          ProbabilityExactly(lib, given[k], x);
        }
      }
    }
  }

  /** The answer loop, filling the probabilities one by one. */
  method ValidateNoulResponse(lib: Library, response: Json, request: Plan) returns (r: Answered)
    ensures r.Answered? ==> ValidateResponse(lib, response, request) == Some(r.valid)
    ensures r.Refused? ==> ValidateResponse(lib, response, request) == None && Refuses(lib, response, request, r.why)
    ensures r.Answered? <==> WellAnswered(lib, response, QuestionsOf(request).Keys)
    ensures r.Answered? ==>
      && r.valid.requestSha == lib.sha(request.serialized) && r.valid.probabilities.Keys == QuestionsOf(request).Keys
      && IsObj(Get(response, "answers")) && Get(response, "answers").value.fields.Keys == QuestionsOf(request).Keys
      && forall k :: k in r.valid.probabilities ==>
           Gives(lib, Get(response, "answers").value.fields[k], r.valid.probabilities[k])
  {
    hide Probability, QuestionsOf, Gives, WellAnswered;
    ResponseExactly(lib, response, request);
    if !response.Obj? {
      return Refused(NotAnObject);
    }
    hide Get;
    if Get(response, "model") != Some(Str(MODEL)) {
      return Refused(WrongModel);
    }
    var answers := Get(response, "answers");
    var ids := QuestionsOf(request).Keys;
    if ids == {} || !IsObj(answers) || answers.value.fields.Keys != ids {
      return Refused(WrongAnswers);
    }
    var given := answers.value.fields;
    var probabilities: map<string, real> := map[];
    var rest := ids;
    while rest != {}
      invariant rest <= ids && probabilities.Keys == ids - rest
      invariant forall k :: k in probabilities ==> Probability(lib, given[k]) == Some(probabilities[k])
      decreases rest
    {
      var k :| k in rest;
      NoulOnly(lib, given[k]);
      if !IsNoul(given[k]) {
        return Refused(NotNoul(k));
      }
      var p := Probability(lib, given[k]);
      if p.None? {
        return Refused(NoProbability(k));
      }
      probabilities := probabilities[k := p.value];
      rest := rest - {k};
    }
    assert probabilities == map k | k in ids :: Probability(lib, given[k]).value;
    return Answered(Validated(MODEL, probabilities, lib.sha(request.serialized)));
  }

  lemma NoulOnly(lib: Library, answer: Json)
    ensures Probability(lib, answer).Some? ==> IsNoul(answer)
  {
  }

  // ---- Stage 4: addressability ----

  function AddressQuestions(prompts: Prompts, hypothesis: Json): map<string, Json> {
    map["n0" := Question(prompts.addressability, "gap_hypothesis", hypothesis)]
  }

  /** `build_addressability_request`. */
  function BuildAddressability(lib: Library, prompts: Prompts, state: Json, hypothesis: Json, documents: map<string, Json>,
      plan: Plan, response: Validated, questionId: string, qualified: string): PlanResult
  {
    var issue := CheckState(lib, state);
    if issue.IsFailure() then Stop(Addressability, issue)
    else
      var checked := CheckHypothesis(lib, hypothesis, state, documents);
      if checked.IsFailure() then Stop(Addressability, checked)
      else if !plan.stage.HypothesisReview? || response.model != MODEL || response.requestSha != lib.sha(plan.serialized)
              || questionId !in QuestionsOf(plan) || questionId !in response.probabilities || qualified != HypothesisId(hypothesis) then
        Abstained(Addressability, NotQualified)
      else
        match Recorded(QuestionsOf(plan)[questionId])
        case None => Crashed
        case Some(recorded) =>
          if Bound(Member(Snapshot(plan), "state"), state, recorded, hypothesis) then
            MakePlan(Addressability, state, AddressQuestions(prompts, hypothesis), map[])
          else Abstained(Addressability, InputDiffersFromReview)
  }

  /** Stage 4's input is, canonically, what stage 3 saw. */
  predicate Bound(sourceState: Option<Json>, state: Json, recorded: Option<Json>, hypothesis: Json) {
    && IsObj(sourceState) && Canonical(sourceState.value) == Canonical(state)
    && IsObj(recorded) && Get(recorded.value, "hypothesis_id") == Get(hypothesis, "hypothesis_id")
    && Canonical(recorded.value) == Canonical(hypothesis)
  }

  /** A stage-4 plan built against a stage-3 plan is for the very state and one of the very hypotheses of that plan,
      and the validated response answers that hypothesis's question. */
  lemma AddressabilityBinds(lib: Library, prompts: Prompts, state: Json, hypothesis: Json, documents: map<string, Json>,
      plan: Plan, response: Validated, questionId: string, qualified: string, reviewed: Json, hs: seq<Json>)
      returns (slot: nat)
    requires MakePlan(HypothesisReview, reviewed, ReviewQuestions(prompts, hs, |hs|), ReviewMapping(hs, |hs|)) == Planned(plan)
    requires BuildAddressability(lib, prompts, state, hypothesis, documents, plan, response, questionId, qualified).Planned?
    ensures state == reviewed && slot < |hs| && hs[slot] == hypothesis && questionId == QuestionId(slot)
    ensures response.requestSha == lib.sha(plan.serialized) && questionId in response.probabilities
  {
    hide CheckState, CheckHypothesis, MakePlan, ReviewQuestion, Payload, ReviewQuestions, ReviewMapping, Snapshot, QuestionsOf, Recorded, QuestionId, Dumpable;
    var questions := ReviewQuestions(prompts, hs, |hs|);
    SnapshotOfPlan(HypothesisReview, reviewed, questions, ReviewMapping(hs, |hs|));
    PayloadMembers(reviewed, questions);
    ReviewQuestionsExact(prompts, hs, |hs|);
    slot :| 0 <= slot < |hs| && questionId == QuestionId(slot);
    RecordedHypothesis(prompts, hs[slot]);
    BoundEqual(reviewed, state, hs[slot], hypothesis);
  }

  lemma BoundEqual(reviewed: Json, state: Json, recorded: Json, hypothesis: Json)
    requires Bound(Some(reviewed), state, Some(recorded), hypothesis) && Dumpable(reviewed) && Dumpable(recorded)
    ensures reviewed == state && recorded == hypothesis
  {
    CanonicalInjective(reviewed, state);
    CanonicalInjective(recorded, hypothesis);
  }
}
