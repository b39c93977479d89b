/** What each reason for refusing a state or a hypothesis says about it. */
module EvidenceRefusals {
  import opened Options
  import opened Utf8
  import opened Json
  import opened EvidenceChecks
  import opened EvidenceAcceptance

  /** Lists and dictionaries cannot be looked up in a set: the lookup raises. */
  predicate Unhashable(o: Option<Json>) {
    o.Some? && (o.value.Arr? || o.value.Obj?)
  }

  predicate IsText(o: Option<Json>) {
    o.Some? && o.value.Str?
  }

  ghost predicate HasForbidden(lib: Library, v: Json) {
    exists path, key :: ForbiddenAt(lib, v, path, key)
  }

  lemma OneOfRefuses(o: Option<Json>, allowed: set<string>, reason: Reason)
    ensures OneOf(o, allowed, reason) == Raises <==> Unhashable(o)
    ensures OneOf(o, allowed, reason) == Issue(reason) || OneOf(o, allowed, reason) == Raises || OneOf(o, allowed, reason) == Pass
  {
  }

  // ---- States ----

  ghost predicate HeaderFault(lib: Library, state: Json, c: Check) {
    var obligation, first := Get(state, "obligation"), Get(state, "first_pass");
    var status := Member(first, "acquisition_status");
    var plain := state.Obj? && !HasForbidden(lib, state);
    var asked := plain && Filled(lib, Get(state, "research_question"));
    var obliged := asked && Filled(lib, Member(obligation, "id")) && Filled(lib, Member(obligation, "statement"))
      && Filled(lib, Member(obligation, "scope"));
    match c
    case Pass => false
    case Raises => obliged && Unhashable(status)
    case Issue(StateNotAnObject) => !state.Obj?
    case Issue(EvaluationOnlyField) => state.Obj? && !plain
    case Issue(ResearchQuestionMissing) => plain && !asked
    case Issue(ObligationIncomplete) => asked && !obliged
    case Issue(FirstPassMissing) => obliged && !IsObj(first)
    case Issue(AcquisitionStatusInvalid) =>
      && obliged && IsObj(first) && !Unhashable(status)
      && status != Some(Str("complete")) && status != Some(Str("partial")) && status != Some(Str("failed"))
    case Issue(SourcesMissing) => HeaderOk(lib, state) && !IsArr(Member(first, "sources"))
    case _ => false
  }

  lemma HeaderRefused(lib: Library, state: Json)
    ensures CheckHeader(lib, state) == Pass || HeaderFault(lib, state, CheckHeader(lib, state))
  {
    hide Forbidden, ForbiddenAt, Named, Filled, OneOf;
    ForbiddenExactly(lib, state);
    var obligation, status := Get(state, "obligation"), Member(Get(state, "first_pass"), "acquisition_status");
    FilledExactly(lib, Get(state, "research_question"));
    FilledExactly(lib, Member(obligation, "id"));
    FilledExactly(lib, Member(obligation, "statement"));
    FilledExactly(lib, Member(obligation, "scope"));
    NamedMember(lib, obligation, "id");
    OneOfThree(status, "complete", "partial", "failed", AcquisitionStatusInvalid);
    OneOfRefuses(status, {"complete", "partial", "failed"}, AcquisitionStatusInvalid);
  }

  ghost predicate SourceFault(lib: Library, source: Json, earlier: seq<string>, c: Check) {
    var status, scope, supplied := Get(source, "fetch_status"), Get(source, "text_scope"), Get(source, "supplied_text");
    var named := source.Obj? && Filled(lib, Get(source, "source_id")) && SourceId(source) !in earlier;
    var traced := named && Filled(lib, Get(source, "url")) && Filled(lib, Get(source, "title"));
    var digested := traced && HexDigest(Get(source, "source_sha256"));
    var fetched := digested && (status == Some(Str("success")) || status == Some(Str("failed")));
    var texted := fetched && IsText(supplied);
    var scoped := texted && (scope == Some(Str("excerpt")) || scope == Some(Str("full_source")));
    var bounded := scoped && exists text, start, end :: Shows(source, text, start, end);
    match c
    case Pass => false
    case Raises => (digested && Unhashable(status)) || (texted && Unhashable(scope))
    case Issue(SourceNotAnObject) => !source.Obj?
    case Issue(SourceIdInvalid) => source.Obj? && !named
    case Issue(SourceProvenanceIncomplete) => named && !traced
    case Issue(SourceDigestMalformed) => traced && !digested
    case Issue(FetchStatusInvalid) => digested && !fetched && !Unhashable(status)
    case Issue(SuppliedTextMissing) => fetched && !texted
    case Issue(TextScopeInvalid) => texted && !scoped && !Unhashable(scope)
    case Issue(ExcerptBoundsInvalid) => scoped && !bounded
    case Issue(FullSourceNotAtZero) =>
      bounded && scope == Some(Str("full_source")) && Get(source, "excerpt_start_byte") != Some(Int(0))
    case Issue(FullSourceDigestDiffers) =>
      && bounded && scope == Some(Str("full_source")) && Number(Get(source, "excerpt_start_byte")) == 0
      && Get(source, "source_sha256") != Some(Str(lib.sha(Encode(supplied.value.s))))
    case _ => false
  }

  lemma ShowsExactly(source: Json)
    requires IsText(Get(source, "supplied_text"))
    ensures ExcerptOk(source) <==> exists text, start, end :: Shows(source, text, start, end)
    ensures Number(Get(source, "excerpt_start_byte")) != 0 ==> Get(source, "excerpt_start_byte") != Some(Int(0))
  {
    hide Encode;
    if ExcerptOk(source) {
      assert Shows(source, Text(Get(source, "supplied_text")), Number(Get(source, "excerpt_start_byte")), Number(Get(source, "excerpt_end_byte")));
    }
  }

  lemma SourceRefused(lib: Library, source: Json, earlier: seq<string>)
    ensures CheckSource(lib, source, earlier) == Pass || SourceFault(lib, source, earlier, CheckSource(lib, source, earlier))
  {
    hide Named, Filled, IsDigest, HexDigest, ExcerptOk, Shows, Encode, OneOf, Get, Number;
    FilledExactly(lib, Get(source, "source_id"));
    FilledExactly(lib, Get(source, "url"));
    FilledExactly(lib, Get(source, "title"));
    DigestExactly(Get(source, "source_sha256"));
    DigestIsText(source);
    var status, scope := Get(source, "fetch_status"), Get(source, "text_scope");
    OneOfTwo(status, "success", "failed", FetchStatusInvalid);
    OneOfRefuses(status, {"success", "failed"}, FetchStatusInvalid);
    OneOfTwo(scope, "excerpt", "full_source", TextScopeInvalid);
    OneOfRefuses(scope, {"excerpt", "full_source"}, TextScopeInvalid);
    if IsText(Get(source, "supplied_text")) {
      ShowsExactly(source);
    }
  }

  /** The first source that is not acceptable is the one refused. */
  lemma {:induction false} SourcesRefused(lib: Library, sources: seq<Json>, n: nat) returns (i: nat)
    requires n <= |sources| && CheckSources(lib, sources, n) != Pass
    ensures i < n && CheckSources(lib, sources, i) == Pass
    ensures CheckSources(lib, sources, n) == CheckSource(lib, sources[i], SourceIds(sources, i)) != Pass
  {
    hide CheckSource;
    if CheckSources(lib, sources, n - 1) == Pass {
      i := n - 1;
    } else {
      i := SourcesRefused(lib, sources, n - 1);
    }
  }

  predicate SomeNotText(o: Option<Json>) {
    IsArr(o) && exists i :: 0 <= i < |o.value.items| && !o.value.items[i].Str?
  }

  ghost predicate CoverageFault(coverage: Option<Json>, sources: seq<Json>, c: Check) {
    var a, p, o := Member(coverage, "acquired_source_ids"), Member(coverage, "presented_source_ids"), Member(coverage, "omitted_source_ids");
    var scope, within := Member(coverage, "scope"), Member(coverage, "omitted_text_within_sources");
    var scoped := scope == Some(Str("full_acquired_corpus")) || scope == Some(Str("bounded_excerpts_only"));
    var split := scoped && SplitBy(a, p, o, sources);
    var flagged := split && within.Some? && within.value.Bool?;
    var full := flagged && scope == Some(Str("full_acquired_corpus"));
    match c
    case Pass => false
    case Raises => Unhashable(scope)
    case Issue(CoverageMissing) => !IsObj(coverage)
    case Issue(CoverageScopeInvalid) => IsObj(coverage) && !scoped && !Unhashable(scope)
    case Issue(CoverageListsMissing) => scoped && (!IsArr(a) || !IsArr(p) || !IsArr(o))
    case Issue(CoverageIdsNotStrings) => scoped && IsArr(a) && IsArr(p) && IsArr(o) && (SomeNotText(a) || SomeNotText(p) || SomeNotText(o))
    case Issue(CoverageDiffersFromSources) => scoped && TextLists(a, p, o) && !split
    case Issue(OmittedIdsDiffer) =>
      scoped && TextLists(a, p, o) && OmitsOthers(a, p, o)
    case Issue(CoverageFlagMissing) => split && !flagged
    case Issue(FullCorpusOmits) => full && (o != Some(Arr([])) || within != Some(Bool(false)))
    case Issue(FullCorpusNeedsFullText) =>
      full && o == Some(Arr([])) && within == Some(Bool(false)) && !EachScoped(sources, "full_source")
    case Issue(BoundedNeedsExcerpts) => flagged && !full && !EachScoped(sources, "excerpt")
    case _ => false
  }

  ghost predicate TextLists(a: Option<Json>, p: Option<Json>, o: Option<Json>) {
    exists acquired, presented, omitted :: Listed(a, acquired) && Listed(p, presented) && Listed(o, omitted)
  }

  ghost predicate SplitBy(a: Option<Json>, p: Option<Json>, o: Option<Json>, sources: seq<Json>) {
    exists acquired, presented, omitted ::
      Listed(a, acquired) && Listed(p, presented) && Listed(o, omitted) && Splits(sources, acquired, presented, omitted)
  }

  ghost predicate OmitsOthers(a: Option<Json>, p: Option<Json>, o: Option<Json>) {
    forall acquired, presented, omitted :: Listed(a, acquired) && Listed(p, presented) && Listed(o, omitted) ==>
      exists id :: (id in omitted) != (id in acquired && id !in presented)
  }

  lemma ListsAreLists(a: Option<Json>, p: Option<Json>, o: Option<Json>, sources: seq<Json>)
    ensures var c := CheckLists(a, p, o, sources);
      && (c == Issue(CoverageListsMissing) ==> !IsArr(a) || !IsArr(p) || !IsArr(o))
      && (c == Issue(CoverageIdsNotStrings) ==> IsArr(a) && IsArr(p) && IsArr(o) && (SomeNotText(a) || SomeNotText(p) || SomeNotText(o)))
      && (c == Pass || c == Issue(CoverageListsMissing) || c == Issue(CoverageIdsNotStrings)
          || c == Issue(CoverageDiffersFromSources) || c == Issue(OmittedIdsDiffer))
      && (c == Pass || c == Issue(CoverageDiffersFromSources) || c == Issue(OmittedIdsDiffer) ==>
            IsArr(a) && IsArr(p) && IsArr(o) && AllText(Items(a)) && AllText(Items(p)) && AllText(Items(o)))
      && (c == Issue(OmittedIdsDiffer) ==> TextSet(Items(o)) != TextSet(Items(a)) - TextSet(Items(p)))
  {
    hide TextSet, NoRepeats, IdSet;
  }

  lemma ListsRefused(a: Option<Json>, p: Option<Json>, o: Option<Json>, sources: seq<Json>)
    requires Identified(sources)
    ensures var c := CheckLists(a, p, o, sources);
      && (c == Pass <==> SplitBy(a, p, o, sources))
      && (c == Issue(CoverageDiffersFromSources) ==> TextLists(a, p, o))
      && (c == Issue(OmittedIdsDiffer) ==> TextLists(a, p, o) && OmitsOthers(a, p, o))
  {
    hide TextSet, Identified, Splits, Strs, Texts, AllText, CheckLists, SomeNotText;
    var c := CheckLists(a, p, o, sources);
    ListsAreLists(a, p, o, sources);
    ListedTexts(a);
    ListedTexts(p);
    ListedTexts(o);
    if IsArr(a) && IsArr(p) && IsArr(o) && AllText(Items(a)) && AllText(Items(p)) && AllText(Items(o)) {
      ListsExactly(a, p, o, sources, Texts(Items(a)), Texts(Items(p)), Texts(Items(o)));
      if c == Issue(OmittedIdsDiffer) {
        SomeDiffers(Texts(Items(a)), Texts(Items(p)), Texts(Items(o)));
      }
    }
  }

  lemma SomeDiffers(acquired: seq<string>, presented: seq<string>, omitted: seq<string>)
    requires TextSet(Strs(omitted)) != TextSet(Strs(acquired)) - TextSet(Strs(presented))
    ensures exists id :: (id in omitted) != (id in acquired && id !in presented)
  {
    hide TextSet;
    var o, rest := TextSet(Strs(omitted)), TextSet(Strs(acquired)) - TextSet(Strs(presented));
    var id :| (id in o) != (id in rest);
    TextSetIs(acquired, id);
    TextSetIs(presented, id);
    TextSetIs(omitted, id);
  }

  lemma CoverageRefused(first: Option<Json>, sources: seq<Json>)
    requires Identified(sources)
    ensures CheckCoverage(first, sources) == Pass || CoverageFault(Member(first, "coverage"), sources, CheckCoverage(first, sources))
  {
    hide CheckLists, AllScoped, EachScoped, OneOf, SplitBy, TextLists, OmitsOthers, Identified, SomeNotText, AllText;
    var coverage := Member(first, "coverage");
    var scope := Member(coverage, "scope");
    OneOfTwo(scope, "full_acquired_corpus", "bounded_excerpts_only", CoverageScopeInvalid);
    OneOfRefuses(scope, {"full_acquired_corpus", "bounded_excerpts_only"}, CoverageScopeInvalid);
    ListsAreLists(Member(coverage, "acquired_source_ids"), Member(coverage, "presented_source_ids"), Member(coverage, "omitted_source_ids"), sources);
    ListsRefused(Member(coverage, "acquired_source_ids"), Member(coverage, "presented_source_ids"), Member(coverage, "omitted_source_ids"), sources);
    ScopedExactly(sources, "full_source");
    ScopedExactly(sources, "excerpt");
  }

  lemma ScopedExactly(sources: seq<Json>, scope: string)
    ensures scope != "" ==> (EachScoped(sources, scope) <==> AllScoped(sources, scope))
  {
  }

  ghost predicate SearchScopeFault(lib: Library, scope: Option<Json>, c: Check) {
    match c
    case Issue(SearchScopeMissing) => !IsObj(scope)
    case Issue(AllowedTypesIncomplete) => IsObj(scope) && !FilledList(lib, Member(scope, "allowed_source_types"))
    case Issue(ExcludedScopesIncomplete) =>
      FilledList(lib, Member(scope, "allowed_source_types")) && !FilledList(lib, Member(scope, "excluded_scopes"))
    case _ => false
  }

  lemma SearchScopeRefused(lib: Library, scope: Option<Json>)
    ensures CheckSearchScope(lib, scope) == Pass || SearchScopeFault(lib, scope, CheckSearchScope(lib, scope))
  {
    hide FilledList, NamedItems;
    FilledListExactly(lib, Member(scope, "allowed_source_types"));
    FilledListExactly(lib, Member(scope, "excluded_scopes"));
  }

  /** What a refusal says of the state, stage by stage: the header first, then the first faulty source, then that none is
      usable, then the coverage, then the search scope. */
  ghost predicate StateFault(lib: Library, state: Json, c: Check) {
    var first, sources := Get(state, "first_pass"), Sources(state);
    || HeaderFault(lib, state, c)
    || (HeaderOk(lib, state)
        && (|| (exists i :: 0 <= i < |sources| && SourceFault(lib, sources[i], SourceIds(sources, i), c)
                  && forall j :: 0 <= j < i ==> SourceOk(lib, sources[j]))
            || (c == Issue(NoUsableEvidence) && forall i :: 0 <= i < |sources| ==> SourceOk(lib, sources[i]) && !UsableOk(lib, sources[i]))
            || (SourcesOk(lib, sources) && CoverageFault(Member(first, "coverage"), sources, c))
            || (SourcesOk(lib, sources) && CoverageOk(Member(first, "coverage"), sources)
                && SearchScopeFault(lib, Get(state, "public_search_scope"), c))))
  }

  /** Every refusal of a state is for a reason that holds of it. */
  lemma StateRefused(lib: Library, state: Json)
    ensures CheckState(lib, state) == Pass || StateFault(lib, state, CheckState(lib, state))
  {
    hide HeaderOk, HeaderFault, CheckHeader, SourceFault, SourceOk, CheckSources, CoverageOk, CheckCoverage, CoverageFault,
      CheckSearchScope, SearchScopeFault, Usable, UsableOk, Sources;
    var first, sources := Get(state, "first_pass"), Sources(state);
    HeaderRefused(lib, state);
    HeaderExactly(lib, state);
    EachSourceExactly(lib, sources, |sources|);
    if CheckHeader(lib, state) == Pass {
      if CheckSources(lib, sources, |sources|) != Pass {
        var i := SourcesRefused(lib, sources, |sources|);
        EachSourceExactly(lib, sources, i);
        SourceRefused(lib, sources[i], SourceIds(sources, i));
      } else if exists i :: 0 <= i < |sources| && Usable(lib, sources[i]) {
        SourcesExactly(lib, sources);
        OkIdentified(lib, sources);
        CoverageExactly(first, sources);
        CoverageRefused(first, sources);
        SearchScopeRefused(lib, Get(state, "public_search_scope"));
      } else {
        forall i | 0 <= i < |sources|
          ensures !UsableOk(lib, sources[i])
        {
          UsableExactly(lib, sources[i]);
        }
      }
    }
  }

  // ---- Hypotheses ----

  ghost predicate FieldFault(lib: Library, hypothesis: Json, c: Check) {
    var kind := Get(hypothesis, "kind");
    var plain := hypothesis.Obj? && !HasForbidden(lib, hypothesis);
    var named := plain && Filled(lib, Get(hypothesis, "hypothesis_id"));
    var sorted := named && (kind == Some(Str("missing_information")) || kind == Some(Str("contradiction")));
    var stated := sorted && Filled(lib, Get(hypothesis, "proposition"));
    var about := stated && Filled(lib, Get(hypothesis, "subject"));
    var dated := about && Filled(lib, Get(hypothesis, "version"));
    var placed := dated && Filled(lib, Get(hypothesis, "context"));
    match c
    case Raises => named && Unhashable(kind)
    case Issue(HypothesisNotAnObject) => !hypothesis.Obj?
    case Issue(EvaluationOnlyField) => hypothesis.Obj? && !plain
    case Issue(HypothesisIdMissing) => plain && !named
    case Issue(KindUnsupported) => named && !sorted && !Unhashable(kind)
    case Issue(PropositionMissing) => sorted && !stated
    case Issue(SubjectMissing) => stated && !about
    case Issue(VersionMissing) => about && !dated
    case Issue(ContextMissing) => dated && !placed
    case Issue(SpansMissing) => placed && !IsArr(Get(hypothesis, "source_spans"))
    case _ => false
  }

  lemma FieldsRefused(lib: Library, hypothesis: Json)
    ensures CheckFields(lib, hypothesis) == Pass || FieldFault(lib, hypothesis, CheckFields(lib, hypothesis))
  {
    hide Forbidden, ForbiddenAt, Named, Filled, OneOf, Get;
    ForbiddenExactly(lib, hypothesis);
    FilledExactly(lib, Get(hypothesis, "hypothesis_id"));
    FilledExactly(lib, Get(hypothesis, "proposition"));
    FilledExactly(lib, Get(hypothesis, "subject"));
    FilledExactly(lib, Get(hypothesis, "version"));
    FilledExactly(lib, Get(hypothesis, "context"));
    var kind := Get(hypothesis, "kind");
    OneOfTwo(kind, "missing_information", "contradiction", KindUnsupported);
    OneOfRefuses(kind, {"missing_information", "contradiction"}, KindUnsupported);
  }

  ghost predicate KindFault(lib: Library, hypothesis: Json, state: Json, c: Check) {
    var scope := Get(hypothesis, "absence_scope");
    var specific := Filled(lib, Get(hypothesis, "specific_information"));
    var cited := specific && Spans(hypothesis) != [];
    if c == Issue(NotTwoSpans) then
      Get(hypothesis, "kind") == Some(Str("contradiction")) && |Spans(hypothesis)| != 2
    else
      && Get(hypothesis, "kind") == Some(Str("missing_information"))
      && match c
         case Raises => cited && Unhashable(scope)
         case Issue(SpecificItemMissing) => !specific
         case Issue(ReviewedSpanMissing) => specific && !cited
         case Issue(AbsenceScopeInvalid) =>
           && cited && !Unhashable(scope)
           && scope != Some(Str("supplied_material_only")) && scope != Some(Str("full_acquired_corpus"))
         case Issue(AbsenceBeyondExcerpts) =>
           && cited && scope == Some(Str("full_acquired_corpus"))
           && Member(Member(Get(state, "first_pass"), "coverage"), "scope") != Some(Str("full_acquired_corpus"))
         case _ => false
  }

  lemma MissingRefused(lib: Library, hypothesis: Json, state: Json)
    requires Get(hypothesis, "kind") == Some(Str("missing_information"))
    ensures CheckKind(lib, hypothesis, state) == Pass || KindFault(lib, hypothesis, state, CheckKind(lib, hypothesis, state))
  {
    hide Named, Filled, OneOf, Get, Spans, Member;
    FilledExactly(lib, Get(hypothesis, "specific_information"));
    var scope := Get(hypothesis, "absence_scope");
    OneOfTwo(scope, "supplied_material_only", "full_acquired_corpus", AbsenceScopeInvalid);
    OneOfRefuses(scope, {"supplied_material_only", "full_acquired_corpus"}, AbsenceScopeInvalid);
    FullCorpusField(scope);
    FullCorpusField(Member(Member(Get(state, "first_pass"), "coverage"), "scope"));
  }

  lemma ContradictionRefused(lib: Library, hypothesis: Json, state: Json)
    requires Get(hypothesis, "kind") == Some(Str("contradiction"))
    ensures CheckKind(lib, hypothesis, state) == Pass || KindFault(lib, hypothesis, state, CheckKind(lib, hypothesis, state))
  {
    hide Named, Filled, OneOf, Get, Spans, Member;
    assert "missing_information"[0] != "contradiction"[0];
  }

  lemma KindRefused(lib: Library, hypothesis: Json, state: Json)
    requires Get(hypothesis, "kind") == Some(Str("missing_information")) || Get(hypothesis, "kind") == Some(Str("contradiction"))
    ensures CheckKind(lib, hypothesis, state) == Pass || KindFault(lib, hypothesis, state, CheckKind(lib, hypothesis, state))
  {
    hide CheckKind, KindFault;
    if Get(hypothesis, "kind") == Some(Str("missing_information")) {
      MissingRefused(lib, hypothesis, state);
    } else {
      ContradictionRefused(lib, hypothesis, state);
    }
  }

  ghost predicate ProposalFault(lib: Library, hypothesis: Json, state: Json, c: Check) {
    FieldFault(lib, hypothesis, c) || KindFault(lib, hypothesis, state, c)
  }

  lemma ProposalRefused(lib: Library, hypothesis: Json, state: Json)
    ensures CheckProposal(lib, hypothesis, state) == Pass || ProposalFault(lib, hypothesis, state, CheckProposal(lib, hypothesis, state))
  {
    hide CheckFields, CheckKind, FieldFault, KindFault;
    FieldsRefused(lib, hypothesis);
    if CheckFields(lib, hypothesis) == Pass {
      FieldsKind(lib, hypothesis);
      KindRefused(lib, hypothesis, state);
    }
  }

  lemma FieldsKind(lib: Library, hypothesis: Json)
    requires CheckFields(lib, hypothesis) == Pass
    ensures Get(hypothesis, "kind") == Some(Str("missing_information")) || Get(hypothesis, "kind") == Some(Str("contradiction"))
  {
    hide Forbidden, Named, OneOf, Get;
    OneOfTwo(Get(hypothesis, "kind"), "missing_information", "contradiction", KindUnsupported);
  }

  /** The text acquired for a source, in bytes; empty if there is none. */
  function RawOf(documents: map<string, Json>, id: string): seq<Byte> {
    if id in documents && documents[id].Str? then Encode(documents[id].s) else []
  }

  ghost predicate RangeFault(span: Json, source: Json, raw: seq<Byte>, c: Check) {
    var start, end := Get(span, "start_byte"), Get(span, "end_byte");
    var valid := start.Some? && start.value.Int? && end.Some? && end.value.Int? && 0 <= start.value.n < end.value.n <= |raw|;
    match c
    case Issue(SpanOffsetsInvalid) => !valid
    case Issue(SpanOffsetsUnaligned) => valid && forall text :: raw[start.value.n..end.value.n] != Encode(text)
    case Issue(QuoteDiffersFromBytes) =>
      valid && forall quote :: Get(span, "quote") == Some(Str(quote)) ==> raw[start.value.n..end.value.n] != Encode(quote)
    case Issue(SpanOutsideExcerpt) =>
      valid && forall quote :: !Quotes(source, raw, start.value.n, end.value.n, quote)
    case _ => false
  }

  lemma RangeRefused(span: Json, source: Json, raw: seq<Byte>)
    requires ExcerptOk(source) && IsText(Get(source, "supplied_text"))
    ensures CheckRange(span, source, raw) == Pass || RangeFault(span, source, raw, CheckRange(span, source, raw))
  {
    hide Encode, Decode, Quotes, Slice;
    var start, end := Get(span, "start_byte"), Get(span, "end_byte");
    if start.Some? && start.value.Int? && end.Some? && end.value.Int? && 0 <= start.value.n < end.value.n <= |raw| {
      var from, to := start.value.n, end.value.n;
      var low, high := Number(Get(source, "excerpt_start_byte")), Number(Get(source, "excerpt_end_byte"));
      forall text
        ensures Decode(raw[from..to]) == Some(text) <==> raw[from..to] == Encode(text)
      {
        DecodeExactly(raw[from..to], text);
      }
      forall quote
        ensures Quotes(source, raw, from, to, quote) ==> low <= from && to <= high && Slice(raw, low, high) == Encode(Text(Get(source, "supplied_text")))
      {
        QuotesExactly(source, raw, from, to, quote, Text(Get(source, "supplied_text")), low, high);
      }
    }
  }

  ghost predicate SpanFault(lib: Library, span: Json, hypothesis: Json, sources: seq<Json>, documents: map<string, Json>, c: Check) {
    var id := Text(Get(span, "source_id"));
    var raw := RawOf(documents, id);
    var complete := Get(span, "source_id").Some? && Get(span, "source_sha256").Some? && Get(span, "start_byte").Some?
      && Get(span, "end_byte").Some? && Get(span, "quote").Some?;
    var scoped := Filled(lib, Get(span, "subject")) && Filled(lib, Get(span, "version")) && Filled(lib, Get(span, "context"));
    match c
    case Pass => false
    case Raises => complete && Unhashable(Get(span, "source_id"))
    case Issue(SpanNotAnObject) => !span.Obj?
    case Issue(SpanProvenanceIncomplete) => span.Obj? && !complete
    case Issue(SpanSourceUnavailable) =>
      && complete && !Unhashable(Get(span, "source_id"))
      && (|| !IsText(Get(span, "source_id")) || id !in documents || !documents[id].Str?
          || forall source :: source in sources ==> Get(source, "source_id") != Some(Str(id)))
    case Issue(SpanSourceFailed) =>
      exists source :: source in sources && SourceId(source) == id && Get(source, "fetch_status") != Some(Str("success"))
    case Issue(SpanDigestDiffers) =>
      exists source ::
        && source in sources && SourceId(source) == id && Get(source, "fetch_status") == Some(Str("success"))
        && (|| Get(span, "source_sha256") != Some(Str(lib.sha(raw))) || !HexDigits(lib.sha(raw))
            || Get(source, "source_sha256") != Some(Str(lib.sha(raw))))
    case Issue(SpanScopeIncomplete) => Get(span, "source_sha256") == Some(Str(lib.sha(raw))) && !scoped
    case Issue(SpanScopeDiffers) =>
      && Get(span, "source_sha256") == Some(Str(lib.sha(raw))) && scoped
      && (|| Get(span, "subject") != Get(hypothesis, "subject") || Get(span, "version") != Get(hypothesis, "version")
          || Get(span, "context") != Get(hypothesis, "context"))
    case Issue(_) =>
      && Get(span, "source_sha256") == Some(Str(lib.sha(raw)))
      && exists source :: source in sources && SourceId(source) == id && RangeFault(span, source, raw, c)
  }

  lemma FoundOrAbsent(lib: Library, sources: seq<Json>, id: string)
    requires SourcesOk(lib, sources)
    ensures FindSource(sources, id).None? ==> forall source :: source in sources ==> Get(source, "source_id") != Some(Str(id))
    ensures FindSource(sources, id).Some? ==>
      var source := FindSource(sources, id).value;
      source in sources && SourceId(source) == id && ExcerptOk(source) && IsText(Get(source, "supplied_text"))
  {
    hide SourceOk, UsableOk, FindSource, ExcerptOk;
    OkDistinct(lib, sources);
    OkIdentified(lib, sources);
    if FindSource(sources, id).Some? {
      var k := FoundSource(sources, id);
      SourceShown(lib, sources[k]);
    } else {
      forall source | source in sources
        ensures Get(source, "source_id") != Some(Str(id))
      {
        FindExactly(sources, id, source);
        var i :| 0 <= i < |sources| && sources[i] == source;
      }
    }
  }

  /** Whether the span names a presented source whose document was acquired. */
  ghost predicate Resolves(span: Json, sources: seq<Json>, documents: map<string, Json>) {
    && span.Obj? && SPAN_KEYS <= span.fields.Keys && IsText(Get(span, "source_id"))
    && var id := Text(Get(span, "source_id"));
    FindSource(sources, id).Some? && id in documents && documents[id].Str?
  }

  lemma UnresolvedRefused(lib: Library, span: Json, hypothesis: Json, state: Json, documents: map<string, Json>)
    requires SourcesOk(lib, Sources(state)) && !Resolves(span, Sources(state), documents)
    ensures SpanFault(lib, span, hypothesis, Sources(state), documents, CheckSpan(lib, span, hypothesis, state, documents))
  {
    hide CheckRange, RangeFault, SourcesOk, HasScope, SameScope, FindSource, Sources, IsDigest, HexDigits, Encode, SourceId, Get, RawOf, SPAN_KEYS;
    FoundOrAbsent(lib, Sources(state), Text(Get(span, "source_id")));
    SpanKeysCited(span);
  }

  /** The rest of the checks, once the source is known. */
  function CheckCited(lib: Library, span: Json, hypothesis: Json, source: Json, raw: seq<Byte>): Check {
    var digest := Some(Str(lib.sha(raw)));
    :- Check.Need(Text(Get(source, "fetch_status")) == "success", SpanSourceFailed);
    :- Check.Need(Get(span, "source_sha256") == digest && Get(source, "source_sha256") == digest && IsDigest(digest), SpanDigestDiffers);
    :- CheckRange(span, source, raw);
    :- Check.Need(HasScope(lib, span), SpanScopeIncomplete);
    Check.Need(SameScope(span, hypothesis), SpanScopeDiffers)
  }

  lemma ResolvedIsCited(lib: Library, span: Json, hypothesis: Json, state: Json, documents: map<string, Json>)
    requires Resolves(span, Sources(state), documents)
    ensures var id := Text(Get(span, "source_id"));
      CheckSpan(lib, span, hypothesis, state, documents)
        == CheckCited(lib, span, hypothesis, FindSource(Sources(state), id).value, RawOf(documents, id))
  {
    hide CheckRange, HasScope, SameScope, FindSource, Sources, IsDigest, Encode, Get, SPAN_KEYS;
  }

  lemma CitedRefused(lib: Library, span: Json, hypothesis: Json, sources: seq<Json>, documents: map<string, Json>, source: Json)
    requires source in sources && SourceId(source) == Text(Get(span, "source_id"))
    requires ExcerptOk(source) && IsText(Get(source, "supplied_text"))
    ensures var c := CheckCited(lib, span, hypothesis, source, RawOf(documents, Text(Get(span, "source_id"))));
      c == Pass || SpanFault(lib, span, hypothesis, sources, documents, c)
  {
    hide CheckRange, RangeFault, Named, Filled, IsDigest, HexDigits, Encode, ExcerptOk, SourceId, Get, RawOf;
    var raw := RawOf(documents, Text(Get(span, "source_id")));
    FilledExactly(lib, Get(span, "subject"));
    FilledExactly(lib, Get(span, "version"));
    FilledExactly(lib, Get(span, "context"));
    HexDigitsOf(lib.sha(raw));
    SuccessField(source);
    RangeRefused(span, source, raw);
    RangeIsRange(span, source, raw);
  }

  lemma SpanRefused(lib: Library, span: Json, hypothesis: Json, state: Json, documents: map<string, Json>)
    requires SourcesOk(lib, Sources(state))
    ensures CheckSpan(lib, span, hypothesis, state, documents) == Pass
      || SpanFault(lib, span, hypothesis, Sources(state), documents, CheckSpan(lib, span, hypothesis, state, documents))
  {
    hide CheckSpan, CheckCited, SpanFault, SourcesOk, FindSource, Sources, RawOf, SourceId, ExcerptOk, Get;
    if Resolves(span, Sources(state), documents) {
      FoundOrAbsent(lib, Sources(state), Text(Get(span, "source_id")));
      ResolvedIsCited(lib, span, hypothesis, state, documents);
      CitedRefused(lib, span, hypothesis, Sources(state), documents, FindSource(Sources(state), Text(Get(span, "source_id"))).value);
    } else {
      UnresolvedRefused(lib, span, hypothesis, state, documents);
    }
  }

  lemma RangeIsRange(span: Json, source: Json, raw: seq<Byte>)
    ensures var c := CheckRange(span, source, raw);
      c == Pass || c == Issue(SpanOffsetsInvalid) || c == Issue(SpanOffsetsUnaligned) || c == Issue(QuoteDiffersFromBytes)
      || c == Issue(SpanOutsideExcerpt)
  {
    hide Encode, Decode, Slice;
  }

  lemma {:induction false} SpansRefused(lib: Library, spans: seq<Json>, n: nat, hypothesis: Json, state: Json, documents: map<string, Json>)
      returns (i: nat)
    requires n <= |spans| && CheckSpans(lib, spans, n, hypothesis, state, documents) != Pass
    ensures i < n && CheckSpans(lib, spans, i, hypothesis, state, documents) == Pass
    ensures CheckSpans(lib, spans, n, hypothesis, state, documents) == CheckSpan(lib, spans[i], hypothesis, state, documents) != Pass
  {
    hide CheckSpan;
    if CheckSpans(lib, spans, n - 1, hypothesis, state, documents) == Pass {
      i := n - 1;
    } else {
      i := SpansRefused(lib, spans, n - 1, hypothesis, state, documents);
    }
  }

  /** Every refusal of a hypothesis is for a reason that holds of its own fields or else of its first faulty span. */
  lemma HypothesisRefused(lib: Library, hypothesis: Json, state: Json, documents: map<string, Json>)
    requires StateOk(lib, state)
    ensures var c, spans := CheckHypothesis(lib, hypothesis, state, documents), Spans(hypothesis);
      || c == Pass || ProposalFault(lib, hypothesis, state, c)
      || exists i :: 0 <= i < |spans| && SpanFault(lib, spans[i], hypothesis, Sources(state), documents, c)
           && forall j :: 0 <= j < i ==> SpanOk(lib, spans[j], hypothesis, Sources(state), documents)
  {
    hide HeaderOk, SourcesOk, CoverageOk, FilledList, CheckProposal, ProposalFault, ProposalOk, CheckSpans, CheckAligned, SpanOk, SpanFault, Sources;
    var spans, sources := Spans(hypothesis), Sources(state);
    StateSources(lib, state);
    ProposalRefused(lib, hypothesis, state);
    ProposalExactly(lib, hypothesis, state);
    if ProposalOk(lib, hypothesis, state) {
      ProposalHasScope(lib, hypothesis, state);
      SpansExactly(lib, spans, |spans|, hypothesis, state, documents);
      if CheckSpans(lib, spans, |spans|, hypothesis, state, documents) == Pass {
        AlignedAlways(lib, hypothesis, sources, documents);
      } else {
        var i := SpansRefused(lib, spans, |spans|, hypothesis, state, documents);
        SpansExactly(lib, spans, i, hypothesis, state, documents);
        SpanRefused(lib, spans[i], hypothesis, state, documents);
      }
    }
  }

  lemma StateSources(lib: Library, state: Json)
    requires StateOk(lib, state)
    ensures SourcesOk(lib, Sources(state))
  {
    hide HeaderOk, SourcesOk, CoverageOk, FilledList;
  }

  lemma ProposalHasScope(lib: Library, hypothesis: Json, state: Json)
    requires ProposalOk(lib, hypothesis, state)
    ensures HasScope(lib, hypothesis)
  {
    hide Filled, KindOk, ForbiddenAt, HasScope;
    ProposalScope(lib, hypothesis);
  }
}
