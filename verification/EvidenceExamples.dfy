/** Accepted states of both coverage scopes: the state checks do let evidence through. */
module EvidenceExamples {
  import opened Options
  import opened Utf8
  import opened Json
  import opened EvidenceChecks
  import opened EvidenceAcceptance

  const KEYS: set<string> := {
    "research_question", "obligation", "first_pass", "public_search_scope", "id", "statement", "scope",
    "acquisition_status", "sources", "coverage", "acquired_source_ids", "presented_source_ids", "omitted_source_ids",
    "omitted_text_within_sources", "allowed_source_types", "excluded_scopes", "source_id", "url", "title",
    "source_sha256", "fetch_status", "supplied_text", "text_scope", "excerpt_start_byte", "excerpt_end_byte"
  }

  /** No field of a state is for evaluators only, "x" is not blank, and digests are hexadecimal. */
  predicate Ordinary(lib: Library) {
    (forall k :: k in KEYS ==> lib.fold(k) !in FORBIDDEN_KEYS) && !lib.blank("x") && HexDigits(lib.sha(Encode("x")))
  }

  const X: Json := Str("x")

  /** One source that shows its whole document, under either text scope. */
  function Source(digest: string, textScope: string): Json {
    Obj(map["source_id" := X, "url" := X, "title" := X, "source_sha256" := Str(digest), "fetch_status" := Str("success"),
            "supplied_text" := X, "text_scope" := Str(textScope), "excerpt_start_byte" := Int(0), "excerpt_end_byte" := Int(1)])
  }

  function Coverage(scope: string): Json {
    Obj(map["scope" := Str(scope), "acquired_source_ids" := Arr([X]), "presented_source_ids" := Arr([X]),
            "omitted_source_ids" := Arr([]), "omitted_text_within_sources" := Bool(false)])
  }

  function FirstPass(digest: string, textScope: string, scope: string): Json {
    Obj(map["acquisition_status" := Str("complete"), "sources" := Arr([Source(digest, textScope)]), "coverage" := Coverage(scope)])
  }

  function Obligation(): Json {
    Obj(map["id" := X, "statement" := X, "scope" := X])
  }

  function SearchScope(): Json {
    Obj(map["allowed_source_types" := Arr([X]), "excluded_scopes" := Arr([])])
  }

  function State(digest: string, textScope: string, scope: string): Json {
    Obj(map["research_question" := X, "obligation" := Obligation(), "first_pass" := FirstPass(digest, textScope, scope),
            "public_search_scope" := SearchScope()])
  }

  lemma SourceFields(digest: string, textScope: string)
    ensures var s := Source(digest, textScope);
      && Get(s, "source_id") == Get(s, "url") == Get(s, "title") == Get(s, "supplied_text") == Some(X)
      && Get(s, "source_sha256") == Some(Str(digest)) && Get(s, "fetch_status") == Some(Str("success"))
      && Get(s, "text_scope") == Some(Str(textScope))
      && Get(s, "excerpt_start_byte") == Some(Int(0)) && Get(s, "excerpt_end_byte") == Some(Int(1))
  {
    assert "source_sha256"[1] != "supplied_text"[1];
  }

  lemma CoverageFields(scope: string)
    ensures var c := Some(Coverage(scope));
      && Member(c, "scope") == Some(Str(scope))
      && Member(c, "acquired_source_ids") == Member(c, "presented_source_ids") == Some(Arr([X]))
      && Member(c, "omitted_source_ids") == Some(Arr([])) && Member(c, "omitted_text_within_sources") == Some(Bool(false))
  {
    assert "omitted_source_ids"[0] == 'o';
  }

  lemma StateFields(digest: string, textScope: string, scope: string)
    ensures var s := State(digest, textScope, scope);
      && Get(s, "research_question") == Some(X) && Get(s, "obligation") == Some(Obligation())
      && Get(s, "first_pass") == Some(FirstPass(digest, textScope, scope)) && Get(s, "public_search_scope") == Some(SearchScope())
    ensures var f := Some(FirstPass(digest, textScope, scope));
      && Member(f, "acquisition_status") == Some(Str("complete")) && Member(f, "sources") == Some(Arr([Source(digest, textScope)]))
      && Member(f, "coverage") == Some(Coverage(scope))
    ensures var o := Some(Obligation()); Member(o, "id") == Member(o, "statement") == Member(o, "scope") == Some(X)
    ensures var p := Some(SearchScope());
      Member(p, "allowed_source_types") == Some(Arr([X])) && Member(p, "excluded_scopes") == Some(Arr([]))
  {
    hide Source, Coverage;
  }

  lemma PlainObj(lib: Library, fields: map<string, Json>)
    requires Ordinary(lib) && forall k :: k in fields ==> k in KEYS && !Forbidden(lib, fields[k])
    ensures !Forbidden(lib, Obj(fields))
  {
    hide HexDigits, KEYS, FORBIDDEN_KEYS;
  }

  lemma PlainOne(lib: Library, v: Json)
    requires !Forbidden(lib, v)
    ensures !Forbidden(lib, Arr([v]))
  {
  }

  lemma PlainX(lib: Library)
    ensures !Forbidden(lib, X) && !Forbidden(lib, Arr([X])) && !Forbidden(lib, Arr([]))
  {
  }

  lemma SourcePlain(lib: Library, digest: string, textScope: string)
    requires Ordinary(lib)
    ensures !Forbidden(lib, Source(digest, textScope))
  {
    hide Ordinary, FORBIDDEN_KEYS;
    PlainObj(lib, Source(digest, textScope).fields);
  }

  lemma CoveragePlain(lib: Library, scope: string)
    requires Ordinary(lib)
    ensures !Forbidden(lib, Coverage(scope))
  {
    hide Ordinary, FORBIDDEN_KEYS;
    PlainX(lib);
    PlainObj(lib, Coverage(scope).fields);
  }

  lemma PartsPlain(lib: Library)
    requires Ordinary(lib)
    ensures !Forbidden(lib, Obligation()) && !Forbidden(lib, SearchScope())
  {
    hide Ordinary, FORBIDDEN_KEYS;
    PlainX(lib);
    PlainObj(lib, Obligation().fields);
    PlainObj(lib, SearchScope().fields);
  }

  lemma FirstPassPlain(lib: Library, digest: string, textScope: string, scope: string)
    requires Ordinary(lib)
    ensures !Forbidden(lib, FirstPass(digest, textScope, scope))
  {
    hide Ordinary, FORBIDDEN_KEYS, Source, Coverage;
    SourcePlain(lib, digest, textScope);
    PlainOne(lib, Source(digest, textScope));
    CoveragePlain(lib, scope);
    PlainObj(lib, FirstPass(digest, textScope, scope).fields);
  }

  lemma StatePlain(lib: Library, digest: string, textScope: string, scope: string)
    requires Ordinary(lib)
    ensures !Forbidden(lib, State(digest, textScope, scope))
  {
    hide Ordinary, FORBIDDEN_KEYS, FirstPass, Obligation, SearchScope;
    FirstPassPlain(lib, digest, textScope, scope);
    PartsPlain(lib);
    PlainObj(lib, State(digest, textScope, scope).fields);
  }

  lemma XIsOneByte()
    ensures |Encode("x")| == 1
  {
    assert "x"[1..] == [];
  }

  lemma XFilled(lib: Library)
    requires Ordinary(lib)
    ensures Filled(lib, Some(X))
  {
  }

  lemma SourceAccepted(lib: Library, textScope: string)
    requires Ordinary(lib) && (textScope == "excerpt" || textScope == "full_source")
    ensures SourcesOk(lib, [Source(lib.sha(Encode("x")), textScope)])
  {
    hide Ordinary, Source, Filled, Encode, Get;
    var digest := lib.sha(Encode("x"));
    var s := Source(digest, textScope);
    SourceFields(digest, textScope);
    XFilled(lib);
    XIsOneByte();
    OrdinaryDigest(lib);
    assert HexDigest(Some(Str(digest)));
    assert Shows(s, "x", 0, 1) && ScopedAs(lib, s, "x", 0);
    assert SourceOk(lib, s) && UsableOk(lib, [s][0]);
  }

  lemma OrdinaryDigest(lib: Library)
    requires Ordinary(lib)
    ensures HexDigits(lib.sha(Encode("x")))
  {
  }

  lemma CoverageAccepted(digest: string, textScope: string, scope: string)
    requires (textScope == "excerpt" && scope == "bounded_excerpts_only") || (textScope == "full_source" && scope == "full_acquired_corpus")
    ensures CoverageOk(Some(Coverage(scope)), [Source(digest, textScope)])
  {
    hide Source, Coverage, Get;
    CoverageFields(scope);
    SourceFields(digest, textScope);
    var sources, ids := [Source(digest, textScope)], ["x"];
    assert Strs(ids) == [X] && Strs([]) == [];
    assert Declares(Some(Coverage(scope)), ids, ids, [], false);
    forall id
      ensures id in ids <==> exists i :: 0 <= i < |sources| && Get(sources[i], "source_id") == Some(Str(id))
    {
      assert Get(sources[0], "source_id") == Some(X);
    }
    assert Splits(sources, ids, ids, []);
    assert EachScoped(sources, textScope);
  }

  /** Under any ordinary library, a state that shows excerpts and one that shows the full corpus are accepted. */
  lemma BothScopesAccepted(lib: Library, textScope: string, scope: string)
    requires Ordinary(lib)
    requires (textScope == "excerpt" && scope == "bounded_excerpts_only") || (textScope == "full_source" && scope == "full_acquired_corpus")
    ensures var state := State(lib.sha(Encode("x")), textScope, scope);
      && CheckState(lib, state) == Pass
      && Member(Member(Get(state, "first_pass"), "coverage"), "scope") == Some(Str(scope))
  {
    hide Ordinary, Source, Coverage, FirstPass, Obligation, SearchScope, State, Encode, Filled, SourcesOk, CoverageOk, ForbiddenAt, Forbidden, CheckState, Get;
    var digest := lib.sha(Encode("x"));
    var state := State(digest, textScope, scope);
    StateFields(digest, textScope, scope);
    CoverageFields(scope);
    StatePlain(lib, digest, textScope, scope);
    ForbiddenExactly(lib, state);
    XFilled(lib);
    StateIsObj(digest, textScope, scope);
    SourceAccepted(lib, textScope);
    CoverageAccepted(digest, textScope, scope);
    ListsFilled(lib);
    StateExactly(lib, state);
  }

  lemma StateIsObj(digest: string, textScope: string, scope: string)
    ensures State(digest, textScope, scope).Obj?
  {
  }

  lemma ListsFilled(lib: Library)
    requires Ordinary(lib)
    ensures FilledList(lib, Some(Arr([X]))) && FilledList(lib, Some(Arr([])))
  {
    assert Strs(["x"]) == [X] && Strs([]) == [];
    assert Listed(Some(Arr([X])), ["x"]) && Listed(Some(Arr([])), []);
  }
}
