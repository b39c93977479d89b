/** Exactly which evidence states pass validation, said of their fields rather than of the checks. */
module EvidenceAcceptance {
  import opened Options
  import opened Utf8
  import opened Json
  import opened EvidenceChecks

  // ---- Vocabulary ----

  /** A string that is not blank. */
  ghost predicate Filled(lib: Library, o: Option<Json>) {
    exists s :: o == Some(Str(s)) && !lib.blank(s)
  }

  /** Sixty-four lower-case hexadecimal digits. */
  predicate HexDigits(d: string) {
    |d| == 64 && forall c :: c in d ==> '0' <= c <= '9' || 'a' <= c <= 'f'
  }

  ghost predicate HexDigest(o: Option<Json>) {
    exists d :: o == Some(Str(d)) && HexDigits(d)
  }

  /** A list of strings as a JSON array. */
  function Strs(ids: seq<string>): (r: seq<Json>)
    ensures |r| == |ids| && forall i :: 0 <= i < |r| ==> r[i] == Str(ids[i])
  {
    seq(|ids|, i requires 0 <= i < |ids| => Str(ids[i]))
  }

  ghost predicate Listed(o: Option<Json>, ids: seq<string>) {
    o == Some(Arr(Strs(ids)))
  }

  predicate NoTwice(ids: seq<string>) {
    forall i, j :: 0 <= i < j < |ids| ==> ids[i] != ids[j]
  }

  // ---- Acceptable states ----

  ghost predicate HeaderOk(lib: Library, state: Json) {
    && state.Obj?
    && (forall path, key :: !ForbiddenAt(lib, state, path, key))
    && Filled(lib, Get(state, "research_question"))
    && var obligation, first := Get(state, "obligation"), Get(state, "first_pass");
    && Filled(lib, Member(obligation, "id")) && Filled(lib, Member(obligation, "statement"))
    && Filled(lib, Member(obligation, "scope"))
    && var status := Member(first, "acquisition_status");
    (status == Some(Str("complete")) || status == Some(Str("partial")) || status == Some(Str("failed")))
  }

  /** The source shows `text`, taken from bytes `start` to `end` of its document. */
  ghost predicate Shows(source: Json, text: string, start: int, end: int) {
    && Get(source, "supplied_text") == Some(Str(text))
    && Get(source, "excerpt_start_byte") == Some(Int(start)) && Get(source, "excerpt_end_byte") == Some(Int(end))
    && 0 <= start < end && |Encode(text)| == end - start
  }

  /** An excerpt may start anywhere; a full source starts at zero and has the digest of its text. */
  ghost predicate ScopedAs(lib: Library, source: Json, text: string, start: int) {
    || Get(source, "text_scope") == Some(Str("excerpt"))
    || (Get(source, "text_scope") == Some(Str("full_source")) && start == 0
        && Get(source, "source_sha256") == Some(Str(lib.sha(Encode(text)))))
  }

  ghost predicate SourceOk(lib: Library, source: Json) {
    && Filled(lib, Get(source, "source_id")) && Filled(lib, Get(source, "url")) && Filled(lib, Get(source, "title"))
    && HexDigest(Get(source, "source_sha256"))
    && (Get(source, "fetch_status") == Some(Str("success")) || Get(source, "fetch_status") == Some(Str("failed")))
    && exists text, start, end :: Shows(source, text, start, end) && ScopedAs(lib, source, text, start)
  }

  ghost predicate UsableOk(lib: Library, source: Json) {
    Get(source, "fetch_status") == Some(Str("success")) && Filled(lib, Get(source, "supplied_text"))
  }

  ghost predicate SourcesOk(lib: Library, sources: seq<Json>) {
    && (forall i :: 0 <= i < |sources| ==> SourceOk(lib, sources[i]))
    && (forall i, j :: 0 <= i < j < |sources| ==> Get(sources[i], "source_id") != Get(sources[j], "source_id"))
    && (exists i :: 0 <= i < |sources| && UsableOk(lib, sources[i]))
  }

  /** The declared identifiers split the acquired sources into the presented ones, which are the given sources, and
      the omitted ones. */
  ghost predicate Splits(sources: seq<Json>, acquired: seq<string>, presented: seq<string>, omitted: seq<string>) {
    && NoTwice(acquired) && NoTwice(presented) && NoTwice(omitted)
    && (forall id :: id in presented <==> exists i :: 0 <= i < |sources| && Get(sources[i], "source_id") == Some(Str(id)))
    && (forall id :: id in presented ==> id in acquired)
    && (forall id :: id in omitted <==> id in acquired && id !in presented)
  }

  ghost predicate Declares(coverage: Option<Json>, acquired: seq<string>, presented: seq<string>, omitted: seq<string>, within: bool) {
    && Listed(Member(coverage, "acquired_source_ids"), acquired)
    && Listed(Member(coverage, "presented_source_ids"), presented)
    && Listed(Member(coverage, "omitted_source_ids"), omitted)
    && Member(coverage, "omitted_text_within_sources") == Some(Bool(within))
  }

  ghost predicate EachScoped(sources: seq<Json>, scope: string) {
    forall i :: 0 <= i < |sources| ==> Get(sources[i], "text_scope") == Some(Str(scope))
  }

  /** A full corpus omits nothing and shows full texts; otherwise everything shown is an excerpt. */
  ghost predicate ScopeHolds(scope: Option<Json>, sources: seq<Json>, omitted: seq<string>, within: bool) {
    || (scope == Some(Str("full_acquired_corpus")) && omitted == [] && !within && EachScoped(sources, "full_source"))
    || (scope == Some(Str("bounded_excerpts_only")) && EachScoped(sources, "excerpt"))
  }

  ghost predicate CoverageOk(coverage: Option<Json>, sources: seq<Json>) {
    exists acquired, presented, omitted, within ::
      && Declares(coverage, acquired, presented, omitted, within)
      && Splits(sources, acquired, presented, omitted)
      && ScopeHolds(Member(coverage, "scope"), sources, omitted, within)
  }

  ghost predicate FilledList(lib: Library, o: Option<Json>) {
    exists ids :: Listed(o, ids) && forall i :: 0 <= i < |ids| ==> !lib.blank(ids[i])
  }

  /** A state that may be sent: what every builder demands of it. */
  ghost predicate StateOk(lib: Library, state: Json) {
    && HeaderOk(lib, state)
    && var first, scope := Get(state, "first_pass"), Get(state, "public_search_scope");
    && (exists sources ::
          && Member(first, "sources") == Some(Arr(sources))
          && SourcesOk(lib, sources) && CoverageOk(Member(first, "coverage"), sources))
    && FilledList(lib, Member(scope, "allowed_source_types")) && FilledList(lib, Member(scope, "excluded_scopes"))
  }

  // ---- The checks decide exactly that ----

  lemma FilledExactly(lib: Library, o: Option<Json>)
    ensures Filled(lib, o) <==> Named(lib, o)
  {
    if Named(lib, o) {
      assert o == Some(Str(o.value.s));
    }
  }

  lemma DigestExactly(o: Option<Json>)
    ensures HexDigest(o) <==> IsDigest(o)
  {
    if IsDigest(o) {
      var d := o.value.s;
      assert forall c :: c in d ==> exists i :: 0 <= i < |d| && d[i] == c;
      assert o == Some(Str(d)) && HexDigits(d);
    }
    if HexDigest(o) {
      var d :| o == Some(Str(d)) && HexDigits(d);
      assert forall i :: 0 <= i < |d| ==> d[i] in d;
    }
  }

  lemma OneOfTwo(o: Option<Json>, a: string, b: string, reason: Reason)
    ensures OneOf(o, {a, b}, reason) == Pass <==> o == Some(Str(a)) || o == Some(Str(b))
  {
  }

  lemma OneOfThree(o: Option<Json>, a: string, b: string, c: string, reason: Reason)
    ensures OneOf(o, {a, b, c}, reason) == Pass <==> o == Some(Str(a)) || o == Some(Str(b)) || o == Some(Str(c))
  {
  }

  lemma HeaderExactly(lib: Library, state: Json)
    ensures CheckHeader(lib, state) == Pass <==>
      HeaderOk(lib, state) && IsArr(Member(Get(state, "first_pass"), "sources"))
  {
    hide Forbidden, ForbiddenAt, Named, Filled, OneOf;
    ForbiddenExactly(lib, state);
    OneOfThree(Member(Get(state, "first_pass"), "acquisition_status"), "complete", "partial", "failed",
      AcquisitionStatusInvalid);
    var obligation := Get(state, "obligation");
    FilledExactly(lib, Get(state, "research_question"));
    FilledExactly(lib, Member(obligation, "id"));
    FilledExactly(lib, Member(obligation, "statement"));
    FilledExactly(lib, Member(obligation, "scope"));
    NamedMember(lib, obligation, "id");
  }

  lemma NamedMember(lib: Library, o: Option<Json>, key: string)
    ensures Named(lib, Member(o, key)) ==> IsObj(o)
  {
  }

  lemma ShownExactly(lib: Library, source: Json)
    ensures (exists text, start, end :: Shows(source, text, start, end) && ScopedAs(lib, source, text, start)) <==>
      var supplied, scope := Get(source, "supplied_text"), Get(source, "text_scope");
      && supplied.Some? && supplied.value.Str? && ExcerptOk(source)
      && (|| scope == Some(Str("excerpt"))
          || (scope == Some(Str("full_source")) && Number(Get(source, "excerpt_start_byte")) == 0
              && Get(source, "source_sha256") == Some(Str(lib.sha(Encode(Text(supplied)))))))
  {
    hide Encode;
    var supplied, scope := Get(source, "supplied_text"), Get(source, "text_scope");
    if supplied.Some? && supplied.value.Str? && ExcerptOk(source) {
      var text, start, end := supplied.value.s, Number(Get(source, "excerpt_start_byte")), Number(Get(source, "excerpt_end_byte"));
      assert Shows(source, text, start, end);
      assert ScopedAs(lib, source, text, start) <==>
        (|| scope == Some(Str("excerpt"))
         || (scope == Some(Str("full_source")) && start == 0 && Get(source, "source_sha256") == Some(Str(lib.sha(Encode(text))))));
    }
  }

  lemma SourceExactly(lib: Library, source: Json, earlier: seq<string>)
    ensures CheckSource(lib, source, earlier) == Pass <==> SourceOk(lib, source) && SourceId(source) !in earlier
  {
    hide Named, Filled, IsDigest, HexDigest, ExcerptOk, Shows, ScopedAs, Encode, OneOf;
    OneOfTwo(Get(source, "fetch_status"), "success", "failed", FetchStatusInvalid);
    OneOfTwo(Get(source, "text_scope"), "excerpt", "full_source", TextScopeInvalid);
    FilledExactly(lib, Get(source, "source_id"));
    FilledExactly(lib, Get(source, "url"));
    FilledExactly(lib, Get(source, "title"));
    DigestExactly(Get(source, "source_sha256"));
    ShownExactly(lib, source);
    DigestIsText(source);
  }

  lemma DigestIsText(source: Json)
    ensures IsDigest(Get(source, "source_sha256")) ==>
      Get(source, "source_sha256") == Some(Str(Text(Get(source, "source_sha256"))))
  {
  }

  lemma {:induction false} SourceIdsAre(sources: seq<Json>, n: nat, id: string)
    requires n <= |sources|
    ensures id in SourceIds(sources, n) <==> exists i :: 0 <= i < n && SourceId(sources[i]) == id
  {
    hide SourceId;
    if n > 0 {
      SourceIdsAre(sources, n - 1, id);
    }
  }

  lemma {:induction false} EachSourceExactly(lib: Library, sources: seq<Json>, n: nat)
    requires n <= |sources|
    ensures CheckSources(lib, sources, n) == Pass <==>
      && (forall i :: 0 <= i < n ==> SourceOk(lib, sources[i]))
      && (forall i, j :: 0 <= i < j < n ==> SourceId(sources[i]) != SourceId(sources[j]))
  {
    hide CheckSource, SourceOk, SourceId;
    if n > 0 {
      EachSourceExactly(lib, sources, n - 1);
      SourceExactly(lib, sources[n - 1], SourceIds(sources, n - 1));
      SourceIdsAre(sources, n - 1, SourceId(sources[n - 1]));
    }
  }

  /** Acceptable sources have the same identifier exactly when the same text is in the field. */
  lemma SourceIdField(lib: Library, source: Json)
    requires SourceOk(lib, source)
    ensures Get(source, "source_id") == Some(Str(SourceId(source)))
  {
  }

  lemma UsableExactly(lib: Library, source: Json)
    requires SourceOk(lib, source)
    ensures UsableOk(lib, source) <==> Usable(lib, source)
  {
    hide Encode;
    FilledExactly(lib, Get(source, "supplied_text"));
  }

  lemma SourcesExactly(lib: Library, sources: seq<Json>)
    ensures SourcesOk(lib, sources) <==>
      && CheckSources(lib, sources, |sources|) == Pass
      && exists i :: 0 <= i < |sources| && Usable(lib, sources[i])
  {
    hide SourceOk, UsableOk, Usable, SourceId, CheckSources;
    EachSourceExactly(lib, sources, |sources|);
    if forall i :: 0 <= i < |sources| ==> SourceOk(lib, sources[i]) {
      forall i | 0 <= i < |sources|
        ensures Get(sources[i], "source_id") == Some(Str(SourceId(sources[i])))
        ensures UsableOk(lib, sources[i]) <==> Usable(lib, sources[i])
      {
        SourceIdField(lib, sources[i]);
        UsableExactly(lib, sources[i]);
      }
    }
  }

  // ---- Coverage ----

  function Texts(items: seq<Json>): (r: seq<string>)
    ensures |r| == |items|
  {
    seq(|items|, i requires 0 <= i < |items| => if items[i].Str? then items[i].s else "")
  }

  lemma TextsListed(items: seq<Json>)
    ensures AllText(items) ==> items == Strs(Texts(items))
    ensures forall ids :: items == Strs(ids) ==> AllText(items) && Texts(items) == ids
  {
    if AllText(items) {
      assert forall i :: 0 <= i < |items| ==> items[i] == Strs(Texts(items))[i];
    }
    forall ids | items == Strs(ids)
      ensures AllText(items) && Texts(items) == ids
    {
      assert forall i :: 0 <= i < |items| ==> Texts(items)[i] == ids[i];
    }
  }

  lemma TextSetIs(ids: seq<string>, id: string)
    ensures id in TextSet(Strs(ids)) <==> id in ids
  {
    if id in ids {
      var i :| 0 <= i < |ids| && ids[i] == id;
      assert Strs(ids)[i] in Strs(ids);
    }
  }

  lemma {:induction false} NoTwiceExactly(ids: seq<string>)
    ensures |TextSet(Strs(ids))| <= |ids|
    ensures NoRepeats(Strs(ids)) <==> NoTwice(ids)
  {
    if ids == [] {
      assert TextSet(Strs(ids)) == {};
    } else {
      var front, last := ids[..|ids| - 1], ids[|ids| - 1];
      NoTwiceExactly(front);
      assert Strs(ids) == Strs(front) + [Str(last)];
      assert TextSet(Strs(ids)) == TextSet(Strs(front)) + {last};
      TextSetIs(front, last);
      NoTwiceSnoc(front, last);
      assert ids == front + [last];
    }
  }

  lemma NoTwiceSnoc(front: seq<string>, last: string)
    ensures NoTwice(front + [last]) <==> NoTwice(front) && last !in front
  {
    var ids := front + [last];
    if last in front {
      var i :| 0 <= i < |front| && front[i] == last;
      assert ids[i] == ids[|front|];
    }
    if NoTwice(ids) {
      forall i, j | 0 <= i < j < |front|
        ensures front[i] != front[j]
      {
        assert ids[i] != ids[j];
      }
    }
  }

  /** The identifiers are in the fields they are read from. */
  ghost predicate Identified(sources: seq<Json>) {
    forall i :: 0 <= i < |sources| ==> Get(sources[i], "source_id") == Some(Str(SourceId(sources[i])))
  }

  /** Comparing the sets of texts is comparing the lists element by element. */
  lemma SetsExactly(sources: seq<Json>, acquired: seq<string>, presented: seq<string>, omitted: seq<string>)
    requires Identified(sources)
    ensures var a, p, o := TextSet(Strs(acquired)), TextSet(Strs(presented)), TextSet(Strs(omitted));
      (p <= a && p == IdSet(sources) && o == a - p) <==>
        && (forall id :: id in presented <==> exists i :: 0 <= i < |sources| && Get(sources[i], "source_id") == Some(Str(id)))
        && (forall id :: id in presented ==> id in acquired)
        && (forall id :: id in omitted <==> id in acquired && id !in presented)
  {
    hide TextSet, SourceId;
    var a, p, o := TextSet(Strs(acquired)), TextSet(Strs(presented)), TextSet(Strs(omitted));
    forall id
      ensures (id in a <==> id in acquired) && (id in p <==> id in presented) && (id in o <==> id in omitted)
      ensures id in IdSet(sources) <==> exists i :: 0 <= i < |sources| && Get(sources[i], "source_id") == Some(Str(id))
    {
      TextSetIs(acquired, id);
      TextSetIs(presented, id);
      TextSetIs(omitted, id);
      SourceIdsAre(sources, |sources|, id);
    }
  }

  lemma ListsExactly(a: Option<Json>, p: Option<Json>, o: Option<Json>, sources: seq<Json>,
      acquired: seq<string>, presented: seq<string>, omitted: seq<string>)
    requires Identified(sources) && Listed(a, acquired) && Listed(p, presented) && Listed(o, omitted)
    ensures CheckLists(a, p, o, sources) == Pass <==> Splits(sources, acquired, presented, omitted)
  {
    hide TextSet, NoTwice, NoRepeats, IdSet, AllText, Identified, Strs;
    TextsListed(Strs(acquired));
    TextsListed(Strs(presented));
    TextsListed(Strs(omitted));
    NoTwiceExactly(acquired);
    NoTwiceExactly(presented);
    NoTwiceExactly(omitted);
    SetsExactly(sources, acquired, presented, omitted);
  }

  /** A list that the checks take as one of strings lists its texts. */
  lemma ListedTexts(o: Option<Json>)
    ensures IsArr(o) && AllText(Items(o)) ==> Listed(o, Texts(Items(o)))
    ensures forall ids :: Listed(o, ids) ==> IsArr(o) && AllText(Items(o)) && Texts(Items(o)) == ids
  {
    hide AllText, Texts, Strs;
    if IsArr(o) {
      TextsListed(o.value.items);
    }
  }

  lemma ScopeExactly(scope: Option<Json>, sources: seq<Json>, omitted: seq<string>, within: bool)
    ensures ScopeHolds(scope, sources, omitted, within) <==>
      && (scope == Some(Str("full_acquired_corpus")) || scope == Some(Str("bounded_excerpts_only")))
      && if Text(scope) == "full_acquired_corpus" then omitted == [] && !within && AllScoped(sources, "full_source")
         else AllScoped(sources, "excerpt")
  {
    assert "full_acquired_corpus"[0] != "bounded_excerpts_only"[0];
    assert "full_source"[0] == 'f' && "excerpt"[0] == 'e';
  }

  lemma CoverageExactly(first: Option<Json>, sources: seq<Json>)
    requires Identified(sources)
    ensures CheckCoverage(first, sources) == Pass <==> CoverageOk(Member(first, "coverage"), sources)
  {
    hide CheckLists, ScopeHolds, AllScoped, OneOf, Splits, Identified, Texts, AllText, Listed;
    var coverage := Member(first, "coverage");
    var a, p, o := Member(coverage, "acquired_source_ids"), Member(coverage, "presented_source_ids"), Member(coverage, "omitted_source_ids");
    var scope, flag := Member(coverage, "scope"), Member(coverage, "omitted_text_within_sources");
    OneOfTwo(scope, "full_acquired_corpus", "bounded_excerpts_only", CoverageScopeInvalid);
    ListedTexts(a);
    ListedTexts(p);
    ListedTexts(o);
    if CheckCoverage(first, sources) == Pass {
      ListsAreText(a, p, o, sources);
      var acquired, presented, omitted, within := Texts(Items(a)), Texts(Items(p)), Texts(Items(o)), flag.value.b;
      ListsExactly(a, p, o, sources, acquired, presented, omitted);
      ScopeExactly(scope, sources, omitted, within);
      assert Declares(coverage, acquired, presented, omitted, within);
    }
    if CoverageOk(coverage, sources) {
      var acquired, presented, omitted, within :|
        && Declares(coverage, acquired, presented, omitted, within)
        && Splits(sources, acquired, presented, omitted)
        && ScopeHolds(scope, sources, omitted, within);
      ListsExactly(a, p, o, sources, acquired, presented, omitted);
      ScopeExactly(scope, sources, omitted, within);
    }
  }

  lemma ListsAreText(a: Option<Json>, p: Option<Json>, o: Option<Json>, sources: seq<Json>)
    requires CheckLists(a, p, o, sources) == Pass
    ensures IsArr(a) && IsArr(p) && IsArr(o) && AllText(Items(a)) && AllText(Items(p)) && AllText(Items(o))
  {
    hide AllText, NoRepeats, TextSet, IdSet;
  }

  lemma FilledListExactly(lib: Library, o: Option<Json>)
    ensures FilledList(lib, o) <==> NamedItems(lib, o)
  {
    ListedTexts(o);
    if NamedItems(lib, o) {
      assert AllText(Items(o));
      var ids := Texts(Items(o));
      assert Listed(o, ids) && forall i :: 0 <= i < |ids| ==> !lib.blank(ids[i]);
    }
  }

  lemma SearchScopeExactly(lib: Library, scope: Option<Json>)
    ensures CheckSearchScope(lib, scope) == Pass <==>
      FilledList(lib, Member(scope, "allowed_source_types")) && FilledList(lib, Member(scope, "excluded_scopes"))
  {
    hide FilledList, NamedItems;
    FilledListExactly(lib, Member(scope, "allowed_source_types"));
    FilledListExactly(lib, Member(scope, "excluded_scopes"));
    NamedItemsMember(lib, scope, "allowed_source_types");
  }

  lemma NamedItemsMember(lib: Library, o: Option<Json>, key: string)
    ensures NamedItems(lib, Member(o, key)) ==> IsObj(o)
  {
  }

  /** The state checks pass exactly the acceptable states. */
  lemma StateExactly(lib: Library, state: Json)
    ensures CheckState(lib, state) == Pass <==> StateOk(lib, state)
  {
    hide HeaderOk, CheckHeader, SourcesOk, CheckSources, CoverageOk, CheckCoverage, FilledList, CheckSearchScope, Usable;
    var first, sources := Get(state, "first_pass"), Sources(state);
    HeaderExactly(lib, state);
    SourcesExactly(lib, sources);
    SearchScopeExactly(lib, Get(state, "public_search_scope"));
    if SourcesOk(lib, sources) {
      OkIdentified(lib, sources);
      CoverageExactly(first, sources);
    }
  }

  lemma OkIdentified(lib: Library, sources: seq<Json>)
    requires SourcesOk(lib, sources)
    ensures Identified(sources)
  {
    hide SourceOk, UsableOk;
    forall i | 0 <= i < |sources|
      ensures Get(sources[i], "source_id") == Some(Str(SourceId(sources[i])))
    {
      SourceIdField(lib, sources[i]);
    }
  }

  // ---- Acceptable hypotheses ----

  /** The span names a source, its digest, a byte range and the text quoted from it. */
  ghost predicate Cites(span: Json, id: string, digest: string, from: int, to: int, quote: string) {
    && Get(span, "source_id") == Some(Str(id)) && Get(span, "source_sha256") == Some(Str(digest))
    && Get(span, "start_byte") == Some(Int(from)) && Get(span, "end_byte") == Some(Int(to))
    && Get(span, "quote") == Some(Str(quote))
  }

  /** Bytes `from` to `to` of the document are the quote, and lie in the excerpt that the source shows of it. */
  ghost predicate Quotes(source: Json, raw: seq<Byte>, from: int, to: int, quote: string) {
    exists text, low, high ::
      && Shows(source, text, low, high) && low <= from < to <= high <= |raw|
      && raw[low..high] == Encode(text) && raw[from..to] == Encode(quote)
  }

  /** A fetched source that the state presents under `id`, with the given digest. */
  ghost predicate Presents(sources: seq<Json>, source: Json, id: string, digest: string) {
    && source in sources && Get(source, "source_id") == Some(Str(id))
    && Get(source, "fetch_status") == Some(Str("success")) && Get(source, "source_sha256") == Some(Str(digest))
  }

  /** The span quotes a presented source, as the acquired document has it. */
  ghost predicate Backed(lib: Library, span: Json, sources: seq<Json>, documents: map<string, Json>) {
    exists id, digest, from, to, quote, source ::
      && Cites(span, id, digest, from, to, quote) && Presents(sources, source, id, digest)
      && id in documents && documents[id].Str? && digest == lib.sha(Encode(documents[id].s)) && HexDigits(digest)
      && Quotes(source, Encode(documents[id].s), from, to, quote)
  }

  ghost predicate SpanOk(lib: Library, span: Json, hypothesis: Json, sources: seq<Json>, documents: map<string, Json>) {
    && Backed(lib, span, sources, documents)
    && Get(span, "subject") == Get(hypothesis, "subject") && Get(span, "version") == Get(hypothesis, "version")
    && Get(span, "context") == Get(hypothesis, "context")
  }

  /** Missing information is specific, cites something, and claims no wider absence than the coverage allows; a
      contradiction cites two passages. */
  ghost predicate KindOk(lib: Library, hypothesis: Json, state: Json, spans: seq<Json>) {
    || (&& Get(hypothesis, "kind") == Some(Str("missing_information"))
        && Filled(lib, Get(hypothesis, "specific_information")) && spans != []
        && (|| Get(hypothesis, "absence_scope") == Some(Str("supplied_material_only"))
            || (&& Get(hypothesis, "absence_scope") == Some(Str("full_acquired_corpus"))
                && Member(Member(Get(state, "first_pass"), "coverage"), "scope") == Some(Str("full_acquired_corpus")))))
    || (Get(hypothesis, "kind") == Some(Str("contradiction")) && |spans| == 2)
  }

  ghost predicate HypothesisOk(lib: Library, hypothesis: Json, state: Json, documents: map<string, Json>) {
    && hypothesis.Obj?
    && (forall path, key :: !ForbiddenAt(lib, hypothesis, path, key))
    && Filled(lib, Get(hypothesis, "hypothesis_id")) && Filled(lib, Get(hypothesis, "proposition"))
    && Filled(lib, Get(hypothesis, "subject")) && Filled(lib, Get(hypothesis, "version"))
    && Filled(lib, Get(hypothesis, "context"))
    && (exists spans, sources ::
          && Get(hypothesis, "source_spans") == Some(Arr(spans))
          && Member(Get(state, "first_pass"), "sources") == Some(Arr(sources))
          && KindOk(lib, hypothesis, state, spans)
          && forall i :: 0 <= i < |spans| ==> SpanOk(lib, spans[i], hypothesis, sources, documents))
  }

  // ---- The checks decide exactly that ----

  /** Decoding to a text is being its encoding. */
  lemma DecodeExactly(bytes: seq<Byte>, text: string)
    ensures Decode(bytes) == Some(text) <==> bytes == Encode(text)
  {
    DecodeEncode(text);
    if Decode(bytes) == Some(text) {
      EncodeDecode(bytes);
    }
  }

  lemma RangeIs(span: Json, source: Json, raw: seq<Byte>)
    ensures CheckRange(span, source, raw) == Pass <==>
      var start, end, quote := Get(span, "start_byte"), Get(span, "end_byte"), Get(span, "quote");
      var low, high := Number(Get(source, "excerpt_start_byte")), Number(Get(source, "excerpt_end_byte"));
      && start.Some? && start.value.Int? && end.Some? && end.value.Int? && quote.Some? && quote.value.Str?
      && 0 <= start.value.n < end.value.n <= |raw|
      && Decode(raw[start.value.n..end.value.n]) == Some(quote.value.s)
      && 0 <= low <= high && Slice(raw, low, high) == Encode(Text(Get(source, "supplied_text")))
      && low <= start.value.n && end.value.n <= high
  {
    hide Encode, Decode, Get, Slice;
  }

  lemma RangeExactly(span: Json, source: Json, raw: seq<Byte>)
    requires ExcerptOk(source) && Get(source, "supplied_text").Some? && Get(source, "supplied_text").value.Str?
    ensures CheckRange(span, source, raw) == Pass <==>
      exists from, to, quote ::
        && Get(span, "start_byte") == Some(Int(from)) && Get(span, "end_byte") == Some(Int(to))
        && Get(span, "quote") == Some(Str(quote)) && Quotes(source, raw, from, to, quote)
  {
    hide CheckRange, Encode, Decode;
    RangeIs(span, source, raw);
    var start, end, q := Get(span, "start_byte"), Get(span, "end_byte"), Get(span, "quote");
    var low, high := Number(Get(source, "excerpt_start_byte")), Number(Get(source, "excerpt_end_byte"));
    var text := Text(Get(source, "supplied_text"));
    assert Shows(source, text, low, high);
    if start.Some? && start.value.Int? && end.Some? && end.value.Int? && q.Some? && q.value.Str? {
      var from, to, quote := start.value.n, end.value.n, q.value.s;
      if 0 <= from < to <= |raw| {
        DecodeExactly(raw[from..to], quote);
      }
      QuotesExactly(source, raw, from, to, quote, text, low, high);
    }
  }

  lemma QuotesExactly(source: Json, raw: seq<Byte>, from: int, to: int, quote: string, text: string, low: int, high: int)
    requires Shows(source, text, low, high)
    ensures Quotes(source, raw, from, to, quote) <==>
      && low <= from < to <= high && to <= |raw| && raw[from..to] == Encode(quote)
      && Slice(raw, low, high) == Encode(text)
  {
    hide Encode;
    if high <= |raw| {
      assert Slice(raw, low, high) == raw[low..high];
    } else {
      assert |Slice(raw, low, high)| < high - low;
    }
  }

  ghost predicate DistinctSources(sources: seq<Json>) {
    forall i, j :: 0 <= i < j < |sources| ==> SourceId(sources[i]) != SourceId(sources[j])
  }

  /** Among sources with distinct identifiers, looking one up finds the one that has it. */
  lemma {:induction false} FindExactly(sources: seq<Json>, id: string, source: Json)
    requires DistinctSources(sources)
    ensures FindSource(sources, id) == Some(source) <==> source in sources && SourceId(source) == id
  {
    hide SourceId;
    if sources != [] {
      var last := |sources| - 1;
      FindExactly(sources[..last], id, source);
      assert forall x :: x in sources <==> x in sources[..last] || x == sources[last];
      assert forall x :: x in sources[..last] ==> SourceId(x) != SourceId(sources[last]);
    }
  }

  lemma SpanIs(lib: Library, span: Json, hypothesis: Json, state: Json, documents: map<string, Json>)
    ensures CheckSpan(lib, span, hypothesis, state, documents) == Pass <==>
      && span.Obj? && SPAN_KEYS <= span.fields.Keys
      && var id := Get(span, "source_id");
      && id.Some? && id.value.Str? && FindSource(Sources(state), id.value.s).Some?
      && id.value.s in documents && documents[id.value.s].Str?
      && var source, raw := FindSource(Sources(state), id.value.s).value, Encode(documents[id.value.s].s);
      && Text(Get(source, "fetch_status")) == "success"
      && Get(span, "source_sha256") == Some(Str(lib.sha(raw))) && Get(source, "source_sha256") == Some(Str(lib.sha(raw)))
      && IsDigest(Some(Str(lib.sha(raw))))
      && CheckRange(span, source, raw) == Pass && HasScope(lib, span) && SameScope(span, hypothesis)
  {
    hide CheckRange, HasScope, SameScope, FindSource, Sources, IsDigest, Encode;
  }

  lemma SpanKeysCited(span: Json)
    ensures span.Obj? && SPAN_KEYS <= span.fields.Keys <==>
      && Get(span, "source_id").Some? && Get(span, "source_sha256").Some? && Get(span, "start_byte").Some?
      && Get(span, "end_byte").Some? && Get(span, "quote").Some?
  {
  }

  lemma SuccessField(source: Json)
    ensures Text(Get(source, "fetch_status")) == "success" <==> Get(source, "fetch_status") == Some(Str("success"))
  {
  }

  lemma ScopeFilled(lib: Library, span: Json, hypothesis: Json)
    requires HasScope(lib, hypothesis) && SameScope(span, hypothesis)
    ensures HasScope(lib, span)
  {
  }

  lemma CheckedIsBacked(lib: Library, span: Json, hypothesis: Json, state: Json, documents: map<string, Json>)
    requires SourcesOk(lib, Sources(state)) && CheckSpan(lib, span, hypothesis, state, documents) == Pass
    ensures Backed(lib, span, Sources(state), documents)
  {
    hide CheckSpan, CheckRange, HasScope, SameScope, FindSource, Sources, SourceOk, UsableOk, IsDigest, HexDigits, Quotes, Encode;
    SpanIs(lib, span, hypothesis, state, documents);
    var sources, id := Sources(state), Get(span, "source_id").value.s;
    var source, raw := FindSource(sources, id).value, Encode(documents[id].s);
    var k := FoundSource(sources, id);
    SourceShown(lib, source);
    SuccessField(source);
    RangeExactly(span, source, raw);
    HexDigitsOf(lib.sha(raw));
    var from, to, quote :|
      && Get(span, "start_byte") == Some(Int(from)) && Get(span, "end_byte") == Some(Int(to))
      && Get(span, "quote") == Some(Str(quote)) && Quotes(source, raw, from, to, quote);
    assert Cites(span, id, lib.sha(raw), from, to, quote);
    assert Presents(sources, source, id, lib.sha(raw));
  }

  lemma HexDigitsOf(d: string)
    ensures IsDigest(Some(Str(d))) <==> HexDigits(d)
  {
    hide IsDigest, HexDigits;
    DigestExactly(Some(Str(d)));
  }

  lemma SourceShown(lib: Library, source: Json)
    requires SourceOk(lib, source)
    ensures ExcerptOk(source) && Get(source, "supplied_text").Some? && Get(source, "supplied_text").value.Str?
    ensures Get(source, "source_id") == Some(Str(SourceId(source)))
  {
    hide Encode;
  }

  lemma BackedIsChecked(lib: Library, span: Json, hypothesis: Json, state: Json, documents: map<string, Json>)
    requires SourcesOk(lib, Sources(state)) && Backed(lib, span, Sources(state), documents)
    requires HasScope(lib, hypothesis) && SameScope(span, hypothesis)
    ensures CheckSpan(lib, span, hypothesis, state, documents) == Pass
  {
    hide CheckSpan, CheckRange, HasScope, SameScope, FindSource, Sources, SourceOk, UsableOk, IsDigest, HexDigits, Quotes, Encode;
    SpanIs(lib, span, hypothesis, state, documents);
    SpanKeysCited(span);
    var sources := Sources(state);
    var id, digest, from, to, quote, source :|
      && Cites(span, id, digest, from, to, quote) && Presents(sources, source, id, digest)
      && id in documents && documents[id].Str? && digest == lib.sha(Encode(documents[id].s)) && HexDigits(digest)
      && Quotes(source, Encode(documents[id].s), from, to, quote);
    SourceShown(lib, source);
    OkDistinct(lib, sources);
    FindExactly(sources, id, source);
    SuccessField(source);
    RangeExactly(span, source, Encode(documents[id].s));
    HexDigitsOf(digest);
    ScopeFilled(lib, span, hypothesis);
  }

  lemma OkDistinct(lib: Library, sources: seq<Json>)
    requires SourcesOk(lib, sources)
    ensures DistinctSources(sources)
  {
    hide SourceOk, UsableOk;
    OkIdentified(lib, sources);
  }

  lemma SpanExactly(lib: Library, span: Json, hypothesis: Json, state: Json, documents: map<string, Json>)
    requires SourcesOk(lib, Sources(state)) && HasScope(lib, hypothesis)
    ensures CheckSpan(lib, span, hypothesis, state, documents) == Pass <==> SpanOk(lib, span, hypothesis, Sources(state), documents)
  {
    hide SourcesOk, CheckSpan, HasScope, Sources;
    if CheckSpan(lib, span, hypothesis, state, documents) == Pass {
      CheckedIsBacked(lib, span, hypothesis, state, documents);
      SpanSameScope(lib, span, hypothesis, state, documents);
    }
    if SpanOk(lib, span, hypothesis, Sources(state), documents) {
      BackedIsChecked(lib, span, hypothesis, state, documents);
    }
  }

  lemma SpanSameScope(lib: Library, span: Json, hypothesis: Json, state: Json, documents: map<string, Json>)
    requires CheckSpan(lib, span, hypothesis, state, documents) == Pass
    ensures SameScope(span, hypothesis)
  {
    hide CheckSpan, CheckRange, HasScope, SameScope, FindSource, Sources, IsDigest, Encode;
    SpanIs(lib, span, hypothesis, state, documents);
  }

  lemma KindExactly(lib: Library, hypothesis: Json, state: Json)
    ensures KindOk(lib, hypothesis, state, Spans(hypothesis)) <==>
      var kind := Get(hypothesis, "kind");
      && (kind == Some(Str("missing_information")) || kind == Some(Str("contradiction")))
      && if Text(kind) == "missing_information" then
           var scope := Get(hypothesis, "absence_scope");
           && Named(lib, Get(hypothesis, "specific_information")) && Spans(hypothesis) != []
           && (scope == Some(Str("supplied_material_only")) || scope == Some(Str("full_acquired_corpus")))
           && (Text(scope) == "full_acquired_corpus" ==>
                 Text(Member(Member(Get(state, "first_pass"), "coverage"), "scope")) == "full_acquired_corpus")
         else |Spans(hypothesis)| == 2
  {
    hide Named, Filled, Spans;
    FilledExactly(lib, Get(hypothesis, "specific_information"));
    assert "missing_information"[0] != "contradiction"[0] && "supplied_material_only"[0] != "full_acquired_corpus"[0];
    var coverage := Member(Member(Get(state, "first_pass"), "coverage"), "scope");
    FullCorpusField(coverage);
  }

  lemma FullCorpusField(o: Option<Json>)
    ensures Text(o) == "full_acquired_corpus" <==> o == Some(Str("full_acquired_corpus"))
  {
  }

  ghost predicate ProposalOk(lib: Library, hypothesis: Json, state: Json) {
    && hypothesis.Obj?
    && (forall path, key :: !ForbiddenAt(lib, hypothesis, path, key))
    && Filled(lib, Get(hypothesis, "hypothesis_id")) && Filled(lib, Get(hypothesis, "proposition"))
    && Filled(lib, Get(hypothesis, "subject")) && Filled(lib, Get(hypothesis, "version"))
    && Filled(lib, Get(hypothesis, "context"))
    && IsArr(Get(hypothesis, "source_spans")) && KindOk(lib, hypothesis, state, Spans(hypothesis))
  }

  lemma ProposalExactly(lib: Library, hypothesis: Json, state: Json)
    ensures CheckProposal(lib, hypothesis, state) == Pass <==> ProposalOk(lib, hypothesis, state)
  {
    hide Forbidden, ForbiddenAt, Named, Filled, OneOf, KindOk, Spans, CheckKind;
    KindPasses(lib, hypothesis, state);
    ForbiddenExactly(lib, hypothesis);
    FilledExactly(lib, Get(hypothesis, "hypothesis_id"));
    FilledExactly(lib, Get(hypothesis, "proposition"));
    FilledExactly(lib, Get(hypothesis, "subject"));
    FilledExactly(lib, Get(hypothesis, "version"));
    FilledExactly(lib, Get(hypothesis, "context"));
    OneOfTwo(Get(hypothesis, "kind"), "missing_information", "contradiction", KindUnsupported);
  }

  lemma KindPasses(lib: Library, hypothesis: Json, state: Json)
    ensures KindOk(lib, hypothesis, state, Spans(hypothesis)) <==>
      && (Get(hypothesis, "kind") == Some(Str("missing_information")) || Get(hypothesis, "kind") == Some(Str("contradiction")))
      && CheckKind(lib, hypothesis, state) == Pass
  {
    hide Named, OneOf, KindOk, Spans;
    KindExactly(lib, hypothesis, state);
    OneOfTwo(Get(hypothesis, "absence_scope"), "supplied_material_only", "full_acquired_corpus", AbsenceScopeInvalid);
  }

  lemma {:induction false} SpansExactly(lib: Library, spans: seq<Json>, n: nat, hypothesis: Json, state: Json, documents: map<string, Json>)
    requires n <= |spans| && SourcesOk(lib, Sources(state)) && HasScope(lib, hypothesis)
    ensures CheckSpans(lib, spans, n, hypothesis, state, documents) == Pass <==>
      forall i :: 0 <= i < n ==> SpanOk(lib, spans[i], hypothesis, Sources(state), documents)
  {
    hide SourcesOk, CheckSpan, SpanOk, HasScope, Sources;
    if n > 0 {
      SpansExactly(lib, spans, n - 1, hypothesis, state, documents);
      SpanExactly(lib, spans[n - 1], hypothesis, state, documents);
    }
  }

  /** Passages that share the hypothesis's scope share each other's: the last check never fails. */
  lemma AlignedAlways(lib: Library, hypothesis: Json, sources: seq<Json>, documents: map<string, Json>)
    requires forall i :: 0 <= i < |Spans(hypothesis)| ==> SpanOk(lib, Spans(hypothesis)[i], hypothesis, sources, documents)
    ensures CheckAligned(hypothesis, Spans(hypothesis)) == Pass
  {
    hide Backed, Spans;
  }

  /** For an accepted state, the hypothesis checks pass exactly the acceptable hypotheses. */
  lemma HypothesisExactly(lib: Library, hypothesis: Json, state: Json, documents: map<string, Json>)
    requires StateOk(lib, state)
    ensures CheckHypothesis(lib, hypothesis, state, documents) == Pass <==> HypothesisOk(lib, hypothesis, state, documents)
  {
    hide HeaderOk, SourcesOk, CoverageOk, FilledList, CheckProposal, CheckSpans, CheckAligned, SpanOk, KindOk, ForbiddenAt, Filled;
    var spans, sources := Spans(hypothesis), Sources(state);
    ProposalExactly(lib, hypothesis, state);
    if ProposalOk(lib, hypothesis, state) {
      ProposalScope(lib, hypothesis);
      SpansExactly(lib, spans, |spans|, hypothesis, state, documents);
      if forall i :: 0 <= i < |spans| ==> SpanOk(lib, spans[i], hypothesis, sources, documents) {
        AlignedAlways(lib, hypothesis, sources, documents);
      }
    }
  }

  lemma ProposalScope(lib: Library, hypothesis: Json)
    requires Filled(lib, Get(hypothesis, "subject")) && Filled(lib, Get(hypothesis, "version")) && Filled(lib, Get(hypothesis, "context"))
    ensures HasScope(lib, hypothesis)
  {
    hide Filled, Named;
    FilledExactly(lib, Get(hypothesis, "subject"));
    FilledExactly(lib, Get(hypothesis, "version"));
    FilledExactly(lib, Get(hypothesis, "context"));
  }
}
