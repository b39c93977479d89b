/** Validation of evidence state and of gap hypotheses, before any request is built. */
module EvidenceChecks {
  import opened Options
  import opened Utf8
  import opened Json

  /** Library behaviour the checks rely on: `str.casefold`, "blank after strip", the hex SHA-256 digest,
      and the value of a float text (`None` when it is not finite). */
  datatype Library = Library(
    fold: string -> string,
    blank: string -> bool,
    sha: seq<Byte> -> string,
    number: string -> Option<real>)

  /** Why a builder abstains. */
  datatype Reason =
    | StateNotAnObject | EvaluationOnlyField | ResearchQuestionMissing | ObligationIncomplete | FirstPassMissing
    | AcquisitionStatusInvalid | SourcesMissing | SourceNotAnObject | SourceIdInvalid | SourceProvenanceIncomplete
    | SourceDigestMalformed | FetchStatusInvalid | SuppliedTextMissing | TextScopeInvalid | ExcerptBoundsInvalid
    | FullSourceNotAtZero | FullSourceDigestDiffers | NoUsableEvidence | CoverageMissing | CoverageScopeInvalid
    | CoverageListsMissing | CoverageIdsNotStrings | CoverageDiffersFromSources | OmittedIdsDiffer
    | CoverageFlagMissing | FullCorpusOmits | FullCorpusNeedsFullText | BoundedNeedsExcerpts | SearchScopeMissing
    | AllowedTypesIncomplete | ExcludedScopesIncomplete | SpanOffsetsInvalid | SpanOffsetsUnaligned
    | QuoteDiffersFromBytes | SpanOutsideExcerpt | SpanNotAnObject | SpanProvenanceIncomplete | SpanSourceUnavailable
    | SpanSourceFailed | SpanDigestDiffers | SpanScopeIncomplete | SpanScopeDiffers | HypothesisNotAnObject
    | HypothesisIdMissing | KindUnsupported | PropositionMissing | SubjectMissing | VersionMissing | ContextMissing
    | SpansMissing | SpecificItemMissing | ReviewedSpanMissing | AbsenceScopeInvalid | AbsenceBeyondExcerpts
    | NotTwoSpans | PassagesNotAligned | HypothesisIdsRepeat | NoHypotheses | DocumentsMissing | NotSerializable
    | RequestTooLong | NotQualified | InputDiffersFromReview

  /** `Pass` is Python's `None`; `Raises` is an exception that the checks do not catch. */
  datatype Check = Pass | Issue(reason: Reason) | Raises {
    predicate IsFailure() {
      !Pass?
    }

    function PropagateFailure(): Check
      requires IsFailure()
    {
      this
    }

    static function Need(condition: bool, reason: Reason): Check {
      if condition then Pass else Issue(reason)
    }
  }

  const FORBIDDEN_KEYS: set<string> := {
    "answer", "answers", "expected", "expected_answer", "evaluation", "evaluator_label", "future_results",
    "future_search_results", "gold", "ground_truth", "label", "labels", "reference", "reference_label",
    "follow_up_pool", "followup_pool"
  }

  /** `value.get(key)` on a dictionary; anything else has no members. */
  function Get(v: Json, key: string): Option<Json> {
    if v.Obj? && key in v.fields then Some(v.fields[key]) else None
  }

  function Member(o: Option<Json>, key: string): Option<Json> {
    if o.Some? then Get(o.value, key) else None
  }

  predicate IsObj(o: Option<Json>) {
    o.Some? && o.value.Obj?
  }

  predicate IsArr(o: Option<Json>) {
    o.Some? && o.value.Arr?
  }

  function Items(o: Option<Json>): seq<Json> {
    if IsArr(o) then o.value.items else []
  }

  function Text(o: Option<Json>): string {
    if o.Some? && o.value.Str? then o.value.s else ""
  }

  function Number(o: Option<Json>): int {
    if o.Some? && o.value.Int? then o.value.n else 0
  }

  predicate Named(lib: Library, o: Option<Json>) {
    o.Some? && o.value.Str? && !lib.blank(o.value.s)
  }

  /** `value in {...}` for a set of strings; an unhashable value raises. */
  function OneOf(o: Option<Json>, allowed: set<string>, reason: Reason): Check {
    if o.Some? && (o.value.Arr? || o.value.Obj?) then Raises
    else Check.Need(o.Some? && o.value.Str? && o.value.s in allowed, reason)
  }

  predicate IsDigest(o: Option<Json>) {
    o.Some? && o.value.Str? && IsHex64(o.value.s)
  }

  predicate IsHex64(s: string) {
    |s| == 64 && forall i :: 0 <= i < |s| ==> IsDigit(s[i]) || 'a' <= s[i] <= 'f'
  }

  /** Some dictionary at any depth has a key that only an evaluator may see. */
  predicate Forbidden(lib: Library, v: Json)
    decreases v
  {
    match v
    case Obj(fields) => exists k :: k in fields && (lib.fold(k) in FORBIDDEN_KEYS || Forbidden(lib, fields[k]))
    case Arr(items) => exists i :: 0 <= i < |items| && Forbidden(lib, items[i])
    case _ => false
  }

  datatype Hop = Key(key: string) | Index(i: nat)

  /** The value reached by following a path of keys and indices. */
  function At(v: Json, path: seq<Hop>): Option<Json>
    decreases |path|
  {
    if path == [] then Some(v)
    else
      match (v, path[0])
      case (Obj(fields), Key(k)) => if k in fields then At(fields[k], path[1..]) else None
      case (Arr(items), Index(i)) => if i < |items| then At(items[i], path[1..]) else None
      case _ => None
  }

  /** The dictionary at `path` has `key`, and the key is for evaluators only. */
  predicate ForbiddenAt(lib: Library, v: Json, path: seq<Hop>, key: string) {
    Member(At(v, path), key).Some? && lib.fold(key) in FORBIDDEN_KEYS
  }

  lemma {:induction false} ForbiddenHasPath(lib: Library, v: Json) returns (path: seq<Hop>, key: string)
    requires Forbidden(lib, v)
    ensures ForbiddenAt(lib, v, path, key)
    decreases v
  {
    match v
    case Obj(fields) =>
      var k :| k in fields && (lib.fold(k) in FORBIDDEN_KEYS || Forbidden(lib, fields[k]));
      if lib.fold(k) in FORBIDDEN_KEYS {
        path, key := [], k;
      } else {
        var rest, deep := ForbiddenHasPath(lib, fields[k]);
        path, key := [Key(k)] + rest, deep;
        assert path[1..] == rest;
      }
    case Arr(items) =>
      var i :| 0 <= i < |items| && Forbidden(lib, items[i]);
      var rest, deep := ForbiddenHasPath(lib, items[i]);
      path, key := [Index(i)] + rest, deep;
      assert path[1..] == rest;
  }

  lemma {:induction false} PathIsForbidden(lib: Library, v: Json, path: seq<Hop>, key: string)
    requires ForbiddenAt(lib, v, path, key)
    ensures Forbidden(lib, v)
    decreases |path|
  {
    if path != [] {
      match (v, path[0])
      case (Obj(fields), Key(k)) => PathIsForbidden(lib, fields[k], path[1..], key);
      case (Arr(items), Index(i)) => PathIsForbidden(lib, items[i], path[1..], key);
    }
  }

  /** The recursive search reports a value exactly when some path in it ends at a forbidden key. */
  lemma ForbiddenExactly(lib: Library, v: Json)
    ensures Forbidden(lib, v) <==> exists path, key :: ForbiddenAt(lib, v, path, key)
  {
    hide ForbiddenAt;
    if Forbidden(lib, v) {
      var path, key := ForbiddenHasPath(lib, v);
    }
    forall path, key | ForbiddenAt(lib, v, path, key)
      ensures Forbidden(lib, v)
    {
      PathIsForbidden(lib, v, path, key);
    }
  }

  // ---- State ----

  function Sources(state: Json): seq<Json> {
    Items(Member(Get(state, "first_pass"), "sources"))
  }

  function SourceId(source: Json): string {
    Text(Get(source, "source_id"))
  }

  function SourceIds(sources: seq<Json>, n: nat): seq<string>
    requires n <= |sources|
  {
    if n == 0 then [] else SourceIds(sources, n - 1) + [SourceId(sources[n - 1])]
  }

  function IdSet(sources: seq<Json>): set<string> {
    set id | id in SourceIds(sources, |sources|)
  }

  function CheckSource(lib: Library, source: Json, earlier: seq<string>): Check {
    var id := Get(source, "source_id");
    :- Check.Need(source.Obj?, SourceNotAnObject);
    :- Check.Need(Named(lib, id) && Text(id) !in earlier, SourceIdInvalid);
    :- Check.Need(Named(lib, Get(source, "url")) && Named(lib, Get(source, "title")), SourceProvenanceIncomplete);
    :- Check.Need(IsDigest(Get(source, "source_sha256")), SourceDigestMalformed);
    :- OneOf(Get(source, "fetch_status"), {"success", "failed"}, FetchStatusInvalid);
    var supplied := Get(source, "supplied_text");
    :- Check.Need(supplied.Some? && supplied.value.Str?, SuppliedTextMissing);
    :- OneOf(Get(source, "text_scope"), {"excerpt", "full_source"}, TextScopeInvalid);
    :- Check.Need(ExcerptOk(source), ExcerptBoundsInvalid);
    var full := Text(Get(source, "text_scope")) == "full_source";
    :- Check.Need(full ==> Number(Get(source, "excerpt_start_byte")) == 0, FullSourceNotAtZero);
    :- Check.Need(full ==> lib.sha(Encode(Text(supplied))) == Text(Get(source, "source_sha256")),
         FullSourceDigestDiffers);
    Pass
  }

  /** The excerpt's byte bounds are integers that span exactly the supplied text. */
  predicate ExcerptOk(source: Json) {
    var start, end := Get(source, "excerpt_start_byte"), Get(source, "excerpt_end_byte");
    && start.Some? && start.value.Int? && end.Some? && end.value.Int?
    && 0 <= start.value.n < end.value.n
    && end.value.n - start.value.n == |Encode(Text(Get(source, "supplied_text")))|
  }

  /** The first finding among the first `n` sources. */
  function CheckSources(lib: Library, sources: seq<Json>, n: nat): Check
    requires n <= |sources|
  {
    if n == 0 then Pass
    else
      :- CheckSources(lib, sources, n - 1);
      CheckSource(lib, sources[n - 1], SourceIds(sources, n - 1))
  }

  predicate Usable(lib: Library, source: Json) {
    Text(Get(source, "fetch_status")) == "success" && !lib.blank(Text(Get(source, "supplied_text")))
  }

  predicate AllText(items: seq<Json>) {
    forall i :: 0 <= i < |items| ==> items[i].Str?
  }

  function TextSet(items: seq<Json>): set<string> {
    set v | v in items && v.Str? :: v.s
  }

  predicate NoRepeats(items: seq<Json>) {
    |TextSet(items)| == |items|
  }

  /** The three identifier lists agree with each other and with the presented sources. */
  function CheckLists(a: Option<Json>, p: Option<Json>, o: Option<Json>, sources: seq<Json>): Check {
    var acquired, presented, omitted := Items(a), Items(p), Items(o);
    :- Check.Need(IsArr(a) && IsArr(p) && IsArr(o), CoverageListsMissing);
    :- Check.Need(AllText(acquired) && AllText(presented) && AllText(omitted), CoverageIdsNotStrings);
    :- Check.Need(NoRepeats(acquired) && NoRepeats(presented) && NoRepeats(omitted)
                  && TextSet(presented) <= TextSet(acquired) && TextSet(presented) == IdSet(sources),
         CoverageDiffersFromSources);
    Check.Need(TextSet(omitted) == TextSet(acquired) - TextSet(presented),
      OmittedIdsDiffer)
  }

  function CheckCoverage(first: Option<Json>, sources: seq<Json>): Check {
    var coverage := Member(first, "coverage");
    :- Check.Need(IsObj(coverage), CoverageMissing);
    var scope, omitted := Member(coverage, "scope"), Member(coverage, "omitted_source_ids");
    :- OneOf(scope, {"full_acquired_corpus", "bounded_excerpts_only"}, CoverageScopeInvalid);
    :- CheckLists(Member(coverage, "acquired_source_ids"), Member(coverage, "presented_source_ids"), omitted, sources);
    var within := Member(coverage, "omitted_text_within_sources");
    :- Check.Need(within.Some? && within.value.Bool?, CoverageFlagMissing);
    if Text(scope) == "full_acquired_corpus" then
      :- Check.Need(Items(omitted) == [] && !within.value.b, FullCorpusOmits);
      Check.Need(AllScoped(sources, "full_source"), FullCorpusNeedsFullText)
    else
      Check.Need(AllScoped(sources, "excerpt"), BoundedNeedsExcerpts)
  }

  predicate AllScoped(sources: seq<Json>, scope: string) {
    forall i :: 0 <= i < |sources| ==> Text(Get(sources[i], "text_scope")) == scope
  }

  predicate NamedItems(lib: Library, o: Option<Json>) {
    IsArr(o) && forall i :: 0 <= i < |o.value.items| ==> Named(lib, Some(o.value.items[i]))
  }

  function CheckSearchScope(lib: Library, scope: Option<Json>): Check {
    var allowed, excluded := Member(scope, "allowed_source_types"), Member(scope, "excluded_scopes");
    :- Check.Need(IsObj(scope), SearchScopeMissing);
    :- Check.Need(NamedItems(lib, allowed), AllowedTypesIncomplete);
    Check.Need(NamedItems(lib, excluded), ExcludedScopesIncomplete)
  }

  /** The checks that precede the source loop. */
  function CheckHeader(lib: Library, state: Json): Check {
    var obligation := Get(state, "obligation");
    :- Check.Need(state.Obj?, StateNotAnObject);
    :- Check.Need(!Forbidden(lib, state), EvaluationOnlyField);
    :- Check.Need(Named(lib, Get(state, "research_question")), ResearchQuestionMissing);
    :- Check.Need(IsObj(obligation) && Named(lib, Member(obligation, "id"))
                  && Named(lib, Member(obligation, "statement")) && Named(lib, Member(obligation, "scope")),
         ObligationIncomplete);
    var first := Get(state, "first_pass");
    :- Check.Need(IsObj(first), FirstPassMissing);
    :- OneOf(Member(first, "acquisition_status"), {"complete", "partial", "failed"},
         AcquisitionStatusInvalid);
    Check.Need(IsArr(Member(first, "sources")), SourcesMissing)
  }

  /** `_validate_base_state`. */
  function CheckState(lib: Library, state: Json): Check {
    var sources := Sources(state);
    :- CheckHeader(lib, state);
    :- CheckSources(lib, sources, |sources|);
    :- Check.Need(exists i :: 0 <= i < |sources| && Usable(lib, sources[i]),
         NoUsableEvidence);
    :- CheckCoverage(Get(state, "first_pass"), sources);
    CheckSearchScope(lib, Get(state, "public_search_scope"))
  }

  /** The source loop, with the identifiers and the flag it accumulates. */
  method ValidateBaseState(lib: Library, state: Json) returns (r: Check)
    ensures r == CheckState(lib, state)
  {
    hide CheckHeader, CheckSource, CheckCoverage, CheckSearchScope, Usable, SourceId;
    var header := CheckHeader(lib, state);
    if header != Pass {
      return header;
    }
    var sources := Sources(state);
    var ids: seq<string> := [];
    var usable := false;
    for i := 0 to |sources|
      invariant ids == SourceIds(sources, i) && CheckSources(lib, sources, i) == Pass
      invariant usable <==> exists j :: 0 <= j < i && Usable(lib, sources[j])
    {
      var issue := CheckSource(lib, sources[i], ids);
      if issue != Pass {
        CheckSourcesStops(lib, sources, i + 1, |sources|);
        return issue;
      }
      ids := ids + [SourceId(sources[i])];
      usable := usable || Usable(lib, sources[i]);
    }
    if !usable {
      return Issue(NoUsableEvidence);
    }
    var coverage := CheckCoverage(Get(state, "first_pass"), sources);
    if coverage != Pass {
      return coverage;
    }
    r := CheckSearchScope(lib, Get(state, "public_search_scope"));
  }

  /** The first finding is final. */
  lemma {:induction false} CheckSourcesStops(lib: Library, sources: seq<Json>, m: nat, n: nat)
    requires m <= n <= |sources| && CheckSources(lib, sources, m) != Pass
    ensures CheckSources(lib, sources, n) == CheckSources(lib, sources, m)
  {
    hide CheckSource;
    if m < n {
      CheckSourcesStops(lib, sources, m, n - 1);
    }
  }

  // ---- Hypotheses ----

  /** The presented source with the given identifier; a later entry would replace an earlier one. */
  function FindSource(sources: seq<Json>, id: string): Option<Json> {
    if sources == [] then None
    else
      var last := |sources| - 1;
      if SourceId(sources[last]) == id then Some(sources[last]) else FindSource(sources[..last], id)
  }

  function Slice(bytes: seq<Byte>, start: nat, end: nat): seq<Byte>
    requires start <= end
  {
    var e := if end < |bytes| then end else |bytes|;
    if start < e then bytes[start..e] else []
  }

  predicate HasScope(lib: Library, v: Json) {
    Named(lib, Get(v, "subject")) && Named(lib, Get(v, "version")) && Named(lib, Get(v, "context"))
  }

  predicate SameScope(v: Json, w: Json) {
    && Get(v, "subject") == Get(w, "subject")
    && Get(v, "version") == Get(w, "version")
    && Get(v, "context") == Get(w, "context")
  }

  const SPAN_KEYS: set<string> := {"source_id", "source_sha256", "start_byte", "end_byte", "quote"}

  /** The byte range is inside the document, decodes, equals the quote and lies in the presented excerpt. */
  function CheckRange(span: Json, source: Json, raw: seq<Byte>): Check {
    var start, end := Get(span, "start_byte"), Get(span, "end_byte");
    :- Check.Need(start.Some? && start.value.Int? && end.Some? && end.value.Int?
                  && 0 <= start.value.n < end.value.n <= |raw|, SpanOffsetsInvalid);
    var from, to := start.value.n, end.value.n;
    var selected := Decode(raw[from..to]);
    :- Check.Need(selected.Some?, SpanOffsetsUnaligned);
    :- Check.Need(Get(span, "quote") == Some(Str(selected.value)), QuoteDiffersFromBytes);
    var low, high := Number(Get(source, "excerpt_start_byte")), Number(Get(source, "excerpt_end_byte"));
    Check.Need(0 <= low <= high && Slice(raw, low, high) == Encode(Text(Get(source, "supplied_text")))
               && low <= from && to <= high, SpanOutsideExcerpt)
  }

  function CheckSpan(lib: Library, span: Json, hypothesis: Json, state: Json, documents: map<string, Json>): Check {
    var id := Get(span, "source_id");
    :- Check.Need(span.Obj?, SpanNotAnObject);
    :- Check.Need(SPAN_KEYS <= span.fields.Keys, SpanProvenanceIncomplete);
    if id.Some? && (id.value.Arr? || id.value.Obj?) then Raises
    else
      var source := if id.Some? && id.value.Str? then FindSource(Sources(state), id.value.s) else None;
      :- Check.Need(source.Some? && Text(id) in documents && documents[Text(id)].Str?,
           SpanSourceUnavailable);
      :- Check.Need(Text(Get(source.value, "fetch_status")) == "success", SpanSourceFailed);
      var raw := Encode(documents[Text(id)].s);
      var digest := Some(Str(lib.sha(raw)));
      :- Check.Need(Get(span, "source_sha256") == digest && Get(source.value, "source_sha256") == digest && IsDigest(digest),
           SpanDigestDiffers);
      :- CheckRange(span, source.value, raw);
      :- Check.Need(HasScope(lib, span), SpanScopeIncomplete);
      Check.Need(SameScope(span, hypothesis), SpanScopeDiffers)
  }

  function CheckSpans(lib: Library, spans: seq<Json>, n: nat, hypothesis: Json, state: Json, documents: map<string, Json>): Check
    requires n <= |spans|
  {
    if n == 0 then Pass
    else
      :- CheckSpans(lib, spans, n - 1, hypothesis, state, documents);
      CheckSpan(lib, spans[n - 1], hypothesis, state, documents)
  }

  function Spans(hypothesis: Json): seq<Json> {
    Items(Get(hypothesis, "source_spans"))
  }

  /** The checks that precede the span loop. */
  function CheckProposal(lib: Library, hypothesis: Json, state: Json): Check {
    var fields := CheckFields(lib, hypothesis);
    if fields.IsFailure() then fields else CheckKind(lib, hypothesis, state)
  }

  function CheckFields(lib: Library, hypothesis: Json): Check {
    var kind := Get(hypothesis, "kind");
    :- Check.Need(hypothesis.Obj?, HypothesisNotAnObject);
    :- Check.Need(!Forbidden(lib, hypothesis), EvaluationOnlyField);
    :- Check.Need(Named(lib, Get(hypothesis, "hypothesis_id")), HypothesisIdMissing);
    :- OneOf(kind, {"missing_information", "contradiction"}, KindUnsupported);
    :- Check.Need(Named(lib, Get(hypothesis, "proposition")), PropositionMissing);
    :- Check.Need(Named(lib, Get(hypothesis, "subject")), SubjectMissing);
    :- Check.Need(Named(lib, Get(hypothesis, "version")), VersionMissing);
    :- Check.Need(Named(lib, Get(hypothesis, "context")), ContextMissing);
    Check.Need(IsArr(Get(hypothesis, "source_spans")), SpansMissing)
  }

  function CheckKind(lib: Library, hypothesis: Json, state: Json): Check {
    if Text(Get(hypothesis, "kind")) == "missing_information" then
      :- Check.Need(Named(lib, Get(hypothesis, "specific_information")),
           SpecificItemMissing);
      :- Check.Need(Spans(hypothesis) != [], ReviewedSpanMissing);
      var scope := Get(hypothesis, "absence_scope");
      :- OneOf(scope, {"supplied_material_only", "full_acquired_corpus"},
           AbsenceScopeInvalid);
      var corpus := Text(Member(Member(Get(state, "first_pass"), "coverage"), "scope"));
      Check.Need(Text(scope) == "full_acquired_corpus" ==> corpus == "full_acquired_corpus",
        AbsenceBeyondExcerpts)
    else
      Check.Need(|Spans(hypothesis)| == 2, NotTwoSpans)
  }

  /** `_validate_hypothesis`. */
  function CheckHypothesis(lib: Library, hypothesis: Json, state: Json, documents: map<string, Json>): Check {
    var spans := Spans(hypothesis);
    :- CheckProposal(lib, hypothesis, state);
    :- CheckSpans(lib, spans, |spans|, hypothesis, state, documents);
    CheckAligned(hypothesis, spans)
  }

  function CheckAligned(hypothesis: Json, spans: seq<Json>): Check {
    Check.Need(Text(Get(hypothesis, "kind")) == "contradiction" && |spans| == 2 ==> SameScope(spans[0], spans[1]),
      PassagesNotAligned)
  }

  method ValidateHypothesis(lib: Library, hypothesis: Json, state: Json, documents: map<string, Json>) returns (r: Check)
    ensures r == CheckHypothesis(lib, hypothesis, state, documents)
  {
    hide CheckProposal, CheckSpan, CheckAligned, Spans;
    var proposal := CheckProposal(lib, hypothesis, state);
    if proposal != Pass {
      return proposal;
    }
    var spans := Spans(hypothesis);
    for i := 0 to |spans|
      invariant CheckSpans(lib, spans, i, hypothesis, state, documents) == Pass
    {
      var issue := CheckSpan(lib, spans[i], hypothesis, state, documents);
      if issue != Pass {
        CheckSpansStops(lib, spans, i + 1, |spans|, hypothesis, state, documents);
        return issue;
      }
    }
    r := CheckAligned(hypothesis, spans);
  }

  lemma {:induction false} CheckSpansStops(lib: Library, spans: seq<Json>, m: nat, n: nat, hypothesis: Json, state: Json, documents: map<string, Json>)
    requires m <= n <= |spans| && CheckSpans(lib, spans, m, hypothesis, state, documents) != Pass
    ensures CheckSpans(lib, spans, n, hypothesis, state, documents) == CheckSpans(lib, spans, m, hypothesis, state, documents)
  {
    hide CheckSpan;
    if m < n {
      CheckSpansStops(lib, spans, m, n - 1, hypothesis, state, documents);
    }
  }

  // ---- What acceptance guarantees ----

  lemma {:induction false} SpansPass(lib: Library, spans: seq<Json>, n: nat, i: nat, hypothesis: Json, state: Json, documents: map<string, Json>)
    requires i < n <= |spans| && CheckSpans(lib, spans, n, hypothesis, state, documents) == Pass
    ensures CheckSpan(lib, spans[i], hypothesis, state, documents) == Pass
  {
    hide CheckSpan;
    if i < n - 1 {
      SpansPass(lib, spans, n - 1, i, hypothesis, state, documents);
    }
  }

  lemma {:induction false} FoundSource(sources: seq<Json>, id: string) returns (k: nat)
    requires FindSource(sources, id).Some?
    ensures k < |sources| && sources[k] == FindSource(sources, id).value && SourceId(sources[k]) == id
  {
    var last := |sources| - 1;
    if SourceId(sources[last]) == id {
      k := last;
    } else {
      k := FoundSource(sources[..last], id);
    }
  }

  lemma {:induction false} SourceIdListed(sources: seq<Json>, n: nat, i: nat)
    requires i < n <= |sources|
    ensures SourceId(sources[i]) in SourceIds(sources, n)
  {
    if i < n - 1 {
      SourceIdListed(sources, n - 1, i);
    }
  }

  /** An accepted source has an identifier that no earlier source has, and exact byte bounds. */
  lemma SourcePass(lib: Library, source: Json, earlier: seq<string>)
    requires CheckSource(lib, source, earlier) == Pass
    ensures ExcerptOk(source) && SourceId(source) !in earlier
  {
    hide ExcerptOk;
  }

  lemma {:induction false} SourcesPass(lib: Library, sources: seq<Json>, n: nat, j: nat)
    requires j < n <= |sources| && CheckSources(lib, sources, n) == Pass
    ensures ExcerptOk(sources[j])
    ensures forall i :: 0 <= i < j ==> SourceId(sources[i]) != SourceId(sources[j])
  {
    hide CheckSource, ExcerptOk, SourceId;
    if j < n - 1 {
      SourcesPass(lib, sources, n - 1, j);
    } else {
      SourcePass(lib, sources[j], SourceIds(sources, j));
      forall i | 0 <= i < j
        ensures SourceId(sources[i]) != SourceId(sources[j])
      {
        SourceIdListed(sources, j, i);
      }
    }
  }

  function CoverageIds(state: Json, key: string): set<string> {
    TextSet(Items(Member(Member(Get(state, "first_pass"), "coverage"), key)))
  }

  lemma ListsPass(a: Option<Json>, p: Option<Json>, o: Option<Json>, sources: seq<Json>)
    requires CheckLists(a, p, o, sources) == Pass
    ensures TextSet(Items(p)) == IdSet(sources)
    ensures TextSet(Items(p)) <= TextSet(Items(a)) && TextSet(Items(o)) == TextSet(Items(a)) - TextSet(Items(p))
  {
    hide IdSet, TextSet, NoRepeats, AllText;
  }

  lemma CoveragePass(first: Option<Json>, sources: seq<Json>)
    requires CheckCoverage(first, sources) == Pass
    ensures var c := Member(first, "coverage");
      CheckLists(Member(c, "acquired_source_ids"), Member(c, "presented_source_ids"), Member(c, "omitted_source_ids"), sources) == Pass
  {
    hide CheckLists, AllScoped;
  }

  /** What an accepted state promises about the evidence it shows: no evaluator-only key anywhere, distinct sources with
      exact excerpts, at least one usable, and a coverage declaration that splits the acquired sources exactly. */
  lemma AcceptedState(lib: Library, state: Json)
    requires CheckState(lib, state) == Pass
    ensures forall path, key :: !ForbiddenAt(lib, state, path, key)
    ensures var sources := Sources(state);
      && (forall i, j :: 0 <= i < j < |sources| ==> SourceId(sources[i]) != SourceId(sources[j]))
      && (forall j :: 0 <= j < |sources| ==> ExcerptOk(sources[j]))
      && (exists j :: 0 <= j < |sources| && Usable(lib, sources[j]))
      && CoverageIds(state, "presented_source_ids") == IdSet(sources)
      && CoverageIds(state, "presented_source_ids") <= CoverageIds(state, "acquired_source_ids")
      && CoverageIds(state, "omitted_source_ids")
           == CoverageIds(state, "acquired_source_ids") - CoverageIds(state, "presented_source_ids")
  {
    hide CheckHeader, CheckCoverage, CheckSearchScope, Usable, CheckSources, Sources, ExcerptOk, SourceId, IdSet, TextSet, ForbiddenAt;
    var sources := Sources(state);
    HeaderPass(lib, state);
    ForbiddenExactly(lib, state);
    forall j | 0 <= j < |sources|
      ensures ExcerptOk(sources[j]) && forall i :: 0 <= i < j ==> SourceId(sources[i]) != SourceId(sources[j])
    {
      SourcesPass(lib, sources, |sources|, j);
    }
    CoveragePass(Get(state, "first_pass"), sources);
    var c := Member(Get(state, "first_pass"), "coverage");
    ListsPass(Member(c, "acquired_source_ids"), Member(c, "presented_source_ids"), Member(c, "omitted_source_ids"), sources);
  }

  lemma HeaderPass(lib: Library, state: Json)
    requires CheckHeader(lib, state) == Pass
    ensures !Forbidden(lib, state)
  {
    hide Forbidden;
  }

  /** `quote` is a run of characters of `text` that starts `offset` bytes into its encoding. */
  predicate QuotesAt(text: string, quote: string, offset: int) {
    exists i :: 0 <= i <= |text| && i + |quote| <= |text| && text[i..i + |quote|] == quote && |Encode(text[..i])| == offset
  }

  lemma SliceInside(raw: seq<Byte>, low: nat, high: nat, from: nat, to: nat)
    requires low <= from <= to <= high <= |raw|
    ensures raw[low..high][from - low..to - low] == raw[from..to]
  {
    var a, b := raw[low..high][from - low..to - low], raw[from..to];
    assert forall i :: 0 <= i < to - from ==> a[i] == b[i];
  }

  /** What a range that passes says about the bytes. */
  lemma RangePass(span: Json, source: Json, raw: seq<Byte>)
    requires CheckRange(span, source, raw) == Pass && ExcerptOk(source)
    ensures Get(span, "quote").Some? && Get(span, "quote").value.Str?
    ensures var from, to := Number(Get(span, "start_byte")), Number(Get(span, "end_byte"));
      var low, high := Number(Get(source, "excerpt_start_byte")), Number(Get(source, "excerpt_end_byte"));
      && 0 <= low <= from < to <= high <= |raw|
      && raw[low..high] == Encode(Text(Get(source, "supplied_text")))
      && Decode(raw[from..to]) == Some(Text(Get(span, "quote")))
  {
    hide Encode, Decode, Get;
  }

  /** A range that passes quotes the excerpt, character for character, at the declared offset. */
  lemma RangeQuotesExcerpt(span: Json, source: Json, raw: seq<Byte>)
    requires CheckRange(span, source, raw) == Pass && ExcerptOk(source)
    ensures Get(span, "quote").Some? && Get(span, "quote").value.Str?
    ensures QuotesAt(Text(Get(source, "supplied_text")), Text(Get(span, "quote")),
              Number(Get(span, "start_byte")) - Number(Get(source, "excerpt_start_byte")))
  {
    hide Encode, Decode, Get, Number, Text, CheckRange, ExcerptOk;
    RangePass(span, source, raw);
    var from, to := Number(Get(span, "start_byte")), Number(Get(span, "end_byte"));
    var low, high := Number(Get(source, "excerpt_start_byte")), Number(Get(source, "excerpt_end_byte"));
    var text, quote := Text(Get(source, "supplied_text")), Text(Get(span, "quote"));
    SliceInside(raw, low, high, from, to);
    var i := SliceIsSubstring(text, from - low, to - low, quote);
  }

  /** Every span of an accepted hypothesis cites a presented, successfully fetched source of the state
      and quotes a character-level substring of the text shown for it, at its byte offset in the excerpt. */
  lemma SpanQuotesExcerpt(lib: Library, hypothesis: Json, state: Json, documents: map<string, Json>, i: nat)
      returns (k: nat)
    requires CheckState(lib, state) == Pass && CheckHypothesis(lib, hypothesis, state, documents) == Pass
    requires i < |Spans(hypothesis)|
    ensures k < |Sources(state)|
    ensures var span, source := Spans(hypothesis)[i], Sources(state)[k];
      && SourceId(source) == Text(Get(span, "source_id"))
      && Text(Get(source, "fetch_status")) == "success"
      && Text(Get(source, "source_sha256")) == Text(Get(span, "source_sha256"))
      && QuotesAt(Text(Get(source, "supplied_text")), Text(Get(span, "quote")),
           Number(Get(span, "start_byte")) - Number(Get(source, "excerpt_start_byte")))
  {
    hide CheckState, CheckHypothesis, CheckSpan, CheckSpans, CheckSources, CheckRange, QuotesAt, ExcerptOk, FindSource, Sources, Spans;
    var spans, span := Spans(hypothesis), Spans(hypothesis)[i];
    StatePass(lib, state);
    HypothesisPass(lib, hypothesis, state, documents);
    SpansPass(lib, spans, |spans|, i, hypothesis, state, documents);
    SpanPass(lib, span, hypothesis, state, documents);
    var id := Text(Get(span, "source_id"));
    k := FoundSource(Sources(state), id);
    var source := Sources(state)[k];
    SourcesPass(lib, Sources(state), |Sources(state)|, k);
    RangeQuotesExcerpt(span, source, Encode(documents[id].s));
  }

  /** What one accepted span says about the source it names. */
  lemma SpanPass(lib: Library, span: Json, hypothesis: Json, state: Json, documents: map<string, Json>)
    requires CheckSpan(lib, span, hypothesis, state, documents) == Pass
    ensures var id := Text(Get(span, "source_id"));
      var source := FindSource(Sources(state), id);
      && source.Some? && id in documents && documents[id].Str?
      && Text(Get(source.value, "fetch_status")) == "success"
      && Text(Get(source.value, "source_sha256")) == Text(Get(span, "source_sha256"))
      && CheckRange(span, source.value, Encode(documents[id].s)) == Pass
  {
    hide CheckRange, HasScope, SameScope, FindSource, Sources;
  }

  lemma StatePass(lib: Library, state: Json)
    requires CheckState(lib, state) == Pass
    ensures CheckSources(lib, Sources(state), |Sources(state)|) == Pass
  {
    hide CheckHeader, CheckCoverage, CheckSearchScope, Usable, CheckSources, Sources;
  }

  lemma HypothesisPass(lib: Library, hypothesis: Json, state: Json, documents: map<string, Json>)
    requires CheckHypothesis(lib, hypothesis, state, documents) == Pass
    ensures CheckSpans(lib, Spans(hypothesis), |Spans(hypothesis)|, hypothesis, state, documents) == Pass
  {
    hide CheckProposal, CheckSpans, CheckAligned, Spans;
  }
}
