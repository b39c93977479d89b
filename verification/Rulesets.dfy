/** Branch rulesets and the whitelist comparator that decides whether a live one already is the policy. */
module Rulesets {
  import opened Options
  import opened Json

  /** A parameter value; `Nil` is an absent or null one. */
  datatype Value = Flag(b: bool) | Num(n: int) | Word(s: string) | Nil

  datatype Rule = Rule(kind: string, params: map<string, Value>, contexts: seq<Option<string>>)

  datatype Actor = Actor(kind: string, id: int, mode: string)

  datatype Ruleset = Ruleset(
    id: Option<int>,
    name: string,
    enforcement: Option<string>,
    target: Option<string>,
    included: seq<string>,
    excluded: seq<string>,
    bypass: seq<Actor>,
    rules: seq<Rule>)

  datatype Difference =
    | Enforcement
    | Target
    | IncludedRefs
    | ExcludedRefs
    | Bypass
    | MissingRule(kind: string)
    | PullRequest(key: string)
    | StrictPolicy
    | Contexts
    | ExtraRule(kind: string)

  // ---- Python equality and sorting ----

  /** Booleans are the integers 0 and 1. */
  function AsInt(v: Value): Option<int> {
    match v
    case Flag(b) => Some(if b then 1 else 0)
    case Num(n) => Some(n)
    case _ => None
  }

  predicate PyEq(a: Value, b: Value) {
    if AsInt(a).Some? && AsInt(b).Some? then AsInt(a) == AsInt(b) else a == b
  }

  function Insert(s: seq<string>, x: string): seq<string> {
    if s == [] || Leq(x, s[0]) then [x] + s else [s[0]] + Insert(s[1..], x)
  }

  function Sorted(s: seq<string>): seq<string> {
    if s == [] then [] else Insert(Sorted(s[1..]), s[0])
  }

  predicate IsSorted(s: seq<string>) {
    forall i, j :: 0 <= i < j < |s| ==> Leq(s[i], s[j])
  }

  lemma {:induction false} InsertMultiset(s: seq<string>, x: string)
    ensures multiset(Insert(s, x)) == multiset(s) + multiset{x}
  {
    if s != [] && !Leq(x, s[0]) {
      InsertMultiset(s[1..], x);
      assert s == [s[0]] + s[1..];
    }
  }

  lemma {:induction false} SortedMultiset(s: seq<string>)
    ensures multiset(Sorted(s)) == multiset(s)
  {
    if s != [] {
      SortedMultiset(s[1..]);
      InsertMultiset(Sorted(s[1..]), s[0]);
      assert s == [s[0]] + s[1..];
    }
  }

  lemma SortedCons(x: string, s: seq<string>)
    requires IsSorted(s) && forall y :: y in s ==> Leq(x, y)
    ensures IsSorted([x] + s)
  {
    var r := [x] + s;
    forall i, j | 0 <= i < j < |r|
      ensures Leq(r[i], r[j])
    {
      assert r[j] == s[j - 1] && s[j - 1] in s;
    }
  }

  lemma {:induction false} InsertSorted(s: seq<string>, x: string)
    requires IsSorted(s)
    ensures IsSorted(Insert(s, x))
    ensures forall y :: y in Insert(s, x) <==> y in s || y == x
  {
    if s != [] {
      assert forall y :: y in s <==> y == s[0] || y in s[1..];
      LeqTotal(x, s[0]);
      if Leq(x, s[0]) {
        forall y | y in s
          ensures Leq(x, y)
        {
          if y != s[0] {
            LeqTransitive(x, s[0], y);
          }
        }
        SortedCons(x, s);
      } else {
        InsertSorted(s[1..], x);
        SortedCons(s[0], Insert(s[1..], x));
      }
    }
  }

  lemma {:induction false} SortedIsSorted(s: seq<string>)
    ensures IsSorted(Sorted(s))
  {
    if s != [] {
      SortedIsSorted(s[1..]);
      InsertSorted(Sorted(s[1..]), s[0]);
    }
  }

  lemma SameLeast(a: seq<string>, b: seq<string>)
    requires IsSorted(a) && IsSorted(b) && multiset(a) == multiset(b) && a != []
    ensures b != [] && a[0] == b[0]
  {
    assert a[0] in multiset(b) && |multiset(a)| == |multiset(b)|;
    assert b[0] in multiset(a);
    LeqTotal(a[0], b[0]);
    LeqTotal(a[0], a[0]);
  }

  /** There is one sorted arrangement of a collection. */
  lemma {:induction false} SortedUnique(a: seq<string>, b: seq<string>)
    requires IsSorted(a) && IsSorted(b) && multiset(a) == multiset(b)
    ensures a == b
  {
    hide Leq;
    if a != [] {
      SameLeast(a, b);
      assert a == [a[0]] + a[1..] && b == [b[0]] + b[1..];
      assert multiset(a[1..]) == multiset(a) - multiset{a[0]};
      assert multiset(b[1..]) == multiset(b) - multiset{b[0]};
      SortedUnique(a[1..], b[1..]);
    } else {
      assert |multiset(b)| == 0;
    }
  }

  /** Comparing sorted lists is comparing the collections. */
  lemma SortedEqual(a: seq<string>, b: seq<string>)
    ensures Sorted(a) == Sorted(b) <==> multiset(a) == multiset(b)
  {
    SortedMultiset(a);
    SortedMultiset(b);
    SortedIsSorted(a);
    SortedIsSorted(b);
    if multiset(a) == multiset(b) {
      SortedUnique(Sorted(a), Sorted(b));
    }
  }

  // ---- The comparator ----

  const DEFAULT_BRANCH := "main"

  function NormalRef(ref: string): string {
    if ref == "~DEFAULT_BRANCH" || ref == "refs/heads/" + DEFAULT_BRANCH then "~DEFAULT_BRANCH" else ref
  }

  function NormalRefs(refs: seq<string>): seq<string> {
    if refs == [] then [] else [NormalRef(refs[0])] + NormalRefs(refs[1..])
  }

  function BypassKeys(actors: seq<Actor>): set<Actor> {
    set a | a in actors
  }

  /** The review policy; a false entry may be absent from the live payload. */
  const PULL_REQUEST_POLICY: seq<(string, Value)> := [
    ("required_approving_review_count", Num(1)),
    ("dismiss_stale_reviews_on_push", Flag(true)),
    ("require_last_push_approval", Flag(true)),
    ("require_code_owner_review", Flag(false)),
    ("required_review_thread_resolution", Flag(true))
  ]

  function Param(rule: Rule, key: string): Value {
    if key in rule.params then rule.params[key] else Nil
  }

  predicate Meets(actual: Value, expected: Value) {
    (expected == Flag(false) && (actual.Nil? || PyEq(actual, expected))) || PyEq(actual, expected)
  }

  function PullRequestDiff(rule: Rule, policy: seq<(string, Value)>): seq<Difference> {
    if policy == [] then []
    else
      var (key, expected) := policy[0];
      (if Meets(Param(rule, key), expected) then [] else [PullRequest(key)]) + PullRequestDiff(rule, policy[1..])
  }

  function ContextSet(rule: Rule): set<Option<string>> {
    set c | c in rule.contexts
  }

  function StatusDiff(desired: Rule, actual: Rule): seq<Difference> {
    (if Param(actual, "strict_required_status_checks_policy") == Flag(true) then [] else [StrictPolicy])
    + (if ContextSet(desired) == ContextSet(actual) then [] else [Contexts])
  }

  /** The first rule of a type, as grouping by type and taking the head gives it. */
  function FirstOf(rules: seq<Rule>, kind: string): Option<Rule> {
    if rules == [] then None
    else if rules[0].kind == kind then Some(rules[0])
    else FirstOf(rules[1..], kind)
  }

  /** Rule types in order of first appearance. */
  function Kinds(rules: seq<Rule>): seq<string> {
    if rules == [] then []
    else
      var last := rules[|rules| - 1].kind;
      var before := Kinds(rules[..|rules| - 1]);
      if last in before then before else before + [last]
  }

  function KindDiff(desired: seq<Rule>, actual: seq<Rule>, kind: string): seq<Difference> {
    match (FirstOf(desired, kind), FirstOf(actual, kind))
    case (Some(d), Some(a)) =>
      if kind == "pull_request" then PullRequestDiff(a, PULL_REQUEST_POLICY)
      else if kind == "required_status_checks" then StatusDiff(d, a)
      else []
    case _ => [MissingRule(kind)]
  }

  function KindsDiff(desired: seq<Rule>, actual: seq<Rule>, kinds: seq<string>): seq<Difference> {
    if kinds == [] then [] else KindDiff(desired, actual, kinds[0]) + KindsDiff(desired, actual, kinds[1..])
  }

  function ExtraDiff(kinds: seq<string>, wanted: seq<string>): seq<Difference> {
    if kinds == [] then []
    else (if kinds[0] in wanted then [] else [ExtraRule(kinds[0])]) + ExtraDiff(kinds[1..], wanted)
  }

  function RulesDiff(desired: seq<Rule>, actual: seq<Rule>): seq<Difference> {
    KindsDiff(desired, actual, Kinds(desired)) + ExtraDiff(Kinds(actual), Kinds(desired))
  }

  /** `ruleset_diff`. */
  function Diff(desired: Ruleset, actual: Ruleset): seq<Difference> {
    (if actual.enforcement != desired.enforcement then [Enforcement] else [])
    + (if actual.target != desired.target then [Target] else [])
    + (if Sorted(NormalRefs(actual.included)) != Sorted(NormalRefs(desired.included)) then [IncludedRefs] else [])
    + (if Sorted(actual.excluded) != Sorted(desired.excluded) then [ExcludedRefs] else [])
    + (if BypassKeys(actual.bypass) != BypassKeys(desired.bypass) then [Bypass] else [])
    + RulesDiff(desired.rules, actual.rules)
  }

  // ---- What the comparator means ----

  /** The policy-relevant projections agree; nothing here refers to the order of any list. */
  predicate SamePolicy(desired: Ruleset, actual: Ruleset) {
    && actual.enforcement == desired.enforcement
    && actual.target == desired.target
    && multiset(NormalRefs(actual.included)) == multiset(NormalRefs(desired.included))
    && multiset(actual.excluded) == multiset(desired.excluded)
    && BypassKeys(actual.bypass) == BypassKeys(desired.bypass)
    && KindSet(actual.rules) == KindSet(desired.rules)
    && ("pull_request" in KindSet(desired.rules) ==> ReviewPolicyHolds(FirstOf(actual.rules, "pull_request")))
    && ("required_status_checks" in KindSet(desired.rules) ==>
          ChecksAgree(FirstOf(desired.rules, "required_status_checks"), FirstOf(actual.rules, "required_status_checks")))
  }

  function KindSet(rules: seq<Rule>): set<string> {
    set r | r in rules :: r.kind
  }

  predicate ReviewPolicyHolds(rule: Option<Rule>) {
    rule.Some? && forall i :: 0 <= i < |PULL_REQUEST_POLICY| ==>
      Meets(Param(rule.value, PULL_REQUEST_POLICY[i].0), PULL_REQUEST_POLICY[i].1)
  }

  predicate ChecksAgree(desired: Option<Rule>, actual: Option<Rule>) {
    && desired.Some? && actual.Some?
    && Param(actual.value, "strict_required_status_checks_policy") == Flag(true)
    && ContextSet(desired.value) == ContextSet(actual.value)
  }

  lemma {:induction false} KindsAreKindSet(rules: seq<Rule>)
    ensures forall k :: k in Kinds(rules) <==> k in KindSet(rules)
  {
    if rules != [] {
      var init, last := rules[..|rules| - 1], rules[|rules| - 1];
      KindsAreKindSet(init);
      assert rules == init + [last];
      assert KindSet(rules) == KindSet(init) + {last.kind};
    }
  }

  lemma {:induction false} FirstOfExists(rules: seq<Rule>, kind: string)
    ensures FirstOf(rules, kind).Some? <==> kind in KindSet(rules)
  {
    if rules != [] {
      FirstOfExists(rules[1..], kind);
      assert rules == [rules[0]] + rules[1..];
      assert KindSet(rules) == {rules[0].kind} + KindSet(rules[1..]);
    }
  }

  lemma {:induction false} PullRequestDiffEmpty(rule: Rule, policy: seq<(string, Value)>)
    ensures PullRequestDiff(rule, policy) == [] <==>
      forall i :: 0 <= i < |policy| ==> Meets(Param(rule, policy[i].0), policy[i].1)
  {
    if policy != [] {
      PullRequestDiffEmpty(rule, policy[1..]);
      assert forall i :: 1 <= i < |policy| ==> policy[i] == policy[1..][i - 1];
    }
  }

  lemma {:induction false} KindsDiffEmpty(desired: seq<Rule>, actual: seq<Rule>, kinds: seq<string>)
    ensures KindsDiff(desired, actual, kinds) == [] <==> forall k :: k in kinds ==> KindDiff(desired, actual, k) == []
  {
    if kinds != [] {
      KindsDiffEmpty(desired, actual, kinds[1..]);
      assert forall k :: k in kinds <==> k == kinds[0] || k in kinds[1..];
    }
  }

  lemma {:induction false} ExtraDiffEmpty(kinds: seq<string>, wanted: seq<string>)
    ensures ExtraDiff(kinds, wanted) == [] <==> forall k :: k in kinds ==> k in wanted
  {
    if kinds != [] {
      ExtraDiffEmpty(kinds[1..], wanted);
      assert forall k :: k in kinds <==> k == kinds[0] || k in kinds[1..];
    }
  }

  /** One rule type contributes nothing exactly when it is present on both sides and its parameters agree. */
  lemma KindDiffEmpty(desired: seq<Rule>, actual: seq<Rule>, kind: string)
    requires kind in KindSet(desired)
    ensures KindDiff(desired, actual, kind) == [] <==>
      && kind in KindSet(actual)
      && (kind == "pull_request" ==> ReviewPolicyHolds(FirstOf(actual, kind)))
      && (kind == "required_status_checks" ==> ChecksAgree(FirstOf(desired, kind), FirstOf(actual, kind)))
  {
    FirstOfExists(desired, kind);
    FirstOfExists(actual, kind);
    if FirstOf(actual, kind).Some? {
      PullRequestDiffEmpty(FirstOf(actual, kind).value, PULL_REQUEST_POLICY);
    }
  }

  lemma RulesDiffEmpty(desired: seq<Rule>, actual: seq<Rule>)
    ensures RulesDiff(desired, actual) == [] <==>
      && KindSet(actual) == KindSet(desired)
      && ("pull_request" in KindSet(desired) ==> ReviewPolicyHolds(FirstOf(actual, "pull_request")))
      && ("required_status_checks" in KindSet(desired) ==>
            ChecksAgree(FirstOf(desired, "required_status_checks"), FirstOf(actual, "required_status_checks")))
  {
    hide KindDiff, ReviewPolicyHolds, ChecksAgree;
    KindsAreKindSet(desired);
    KindsAreKindSet(actual);
    KindsDiffEmpty(desired, actual, Kinds(desired));
    ExtraDiffEmpty(Kinds(actual), Kinds(desired));
    forall k | k in KindSet(desired)
      ensures KindDiff(desired, actual, k) == [] <==>
        && k in KindSet(actual)
        && (k == "pull_request" ==> ReviewPolicyHolds(FirstOf(actual, k)))
        && (k == "required_status_checks" ==> ChecksAgree(FirstOf(desired, k), FirstOf(actual, k)))
    {
      KindDiffEmpty(desired, actual, k);
    }
  }

  /** The comparator reports nothing exactly when the policies agree. */
  lemma DiffEmptyIffSamePolicy(desired: Ruleset, actual: Ruleset)
    ensures Diff(desired, actual) == [] <==> SamePolicy(desired, actual)
  {
    hide RulesDiff, Sorted, NormalRefs, BypassKeys, ReviewPolicyHolds, ChecksAgree;
    SortedEqual(NormalRefs(actual.included), NormalRefs(desired.included));
    SortedEqual(actual.excluded, desired.excluded);
    RulesDiffEmpty(desired.rules, actual.rules);
  }

  // ---- The same, field by field ----

  /** Two names of the default branch. */
  predicate IsDefaultRef(ref: string) {
    ref == "~DEFAULT_BRANCH" || ref == "refs/heads/main"
  }

  function DefaultRefs(refs: seq<string>): nat {
    multiset(refs)["~DEFAULT_BRANCH"] + multiset(refs)["refs/heads/main"]
  }

  /** The same references, as often each, counting both names of the default branch as one. */
  ghost predicate SameRefs(a: seq<string>, b: seq<string>) {
    DefaultRefs(a) == DefaultRefs(b) && forall r :: !IsDefaultRef(r) ==> multiset(a)[r] == multiset(b)[r]
  }

  lemma RefNames()
    ensures "refs/heads/" + DEFAULT_BRANCH == "refs/heads/main" && "~DEFAULT_BRANCH" != "refs/heads/main"
  {
    assert "~DEFAULT_BRANCH"[0] != "refs/heads/main"[0];
  }

  lemma {:induction false} NormalCounts(refs: seq<string>, r: string)
    ensures multiset(NormalRefs(refs))[r] ==
      if r == "~DEFAULT_BRANCH" then DefaultRefs(refs) else if r == "refs/heads/main" then 0 else multiset(refs)[r]
  {
    RefNames();
    if refs != [] {
      NormalCounts(refs[1..], r);
      assert refs == [refs[0]] + refs[1..];
    }
  }

  lemma SameRefsExactly(a: seq<string>, b: seq<string>)
    ensures SameRefs(a, b) <==> multiset(NormalRefs(a)) == multiset(NormalRefs(b))
  {
    hide NormalRefs, DefaultRefs;
    forall r
      ensures multiset(NormalRefs(a))[r] == if r == "~DEFAULT_BRANCH" then DefaultRefs(a) else if r == "refs/heads/main" then 0 else multiset(a)[r]
      ensures multiset(NormalRefs(b))[r] == if r == "~DEFAULT_BRANCH" then DefaultRefs(b) else if r == "refs/heads/main" then 0 else multiset(b)[r]
    {
      NormalCounts(a, r);
      NormalCounts(b, r);
    }
    if SameRefs(a, b) {
      assert forall r :: multiset(NormalRefs(a))[r] == multiset(NormalRefs(b))[r];
    }
    if multiset(NormalRefs(a)) == multiset(NormalRefs(b)) {
      assert DefaultRefs(a) == multiset(NormalRefs(a))["~DEFAULT_BRANCH"];
      forall r | !IsDefaultRef(r)
        ensures multiset(a)[r] == multiset(b)[r]
      {
        assert multiset(a)[r] == multiset(NormalRefs(a))[r];
      }
    }
  }

  /** `r` is the first rule of its type. */
  ghost predicate FirstRule(rules: seq<Rule>, kind: string, r: Rule) {
    exists i :: 0 <= i < |rules| && rules[i] == r && r.kind == kind && forall j :: 0 <= j < i ==> rules[j].kind != kind
  }

  lemma {:induction false} FirstRuleExactly(rules: seq<Rule>, kind: string, r: Rule)
    ensures FirstRule(rules, kind, r) <==> FirstOf(rules, kind) == Some(r)
  {
    if rules != [] {
      FirstRuleExactly(rules[1..], kind, r);
      if rules[0].kind != kind {
        if FirstRule(rules, kind, r) {
          var i :| 0 <= i < |rules| && rules[i] == r && r.kind == kind && forall j :: 0 <= j < i ==> rules[j].kind != kind;
          assert rules[1..][i - 1] == r;
        }
        if FirstRule(rules[1..], kind, r) {
          var i :| 0 <= i < |rules| - 1 && rules[1..][i] == r && r.kind == kind && forall j :: 0 <= j < i ==> rules[1..][j].kind != kind;
          assert rules[i + 1] == r && forall j :: 1 <= j < i + 1 ==> rules[j] == rules[1..][j - 1];
        }
      } else {
        assert rules[0].kind == kind;
      }
    }
  }

  /** A parameter is true, which Python also says of 1. */
  predicate IsTrue(rule: Rule, key: string) {
    key in rule.params && (rule.params[key] == Flag(true) || rule.params[key] == Num(1))
  }

  /** A parameter is false, absent or null, which Python also says of 0. */
  predicate IsFalse(rule: Rule, key: string) {
    key !in rule.params || rule.params[key] == Nil || rule.params[key] == Flag(false) || rule.params[key] == Num(0)
  }

  /** One approval, from somebody else than the last pusher, fresh, and every thread resolved; code owners optional. */
  predicate ReviewsAsPolicy(rule: Rule) {
    && IsTrue(rule, "required_approving_review_count") && IsTrue(rule, "dismiss_stale_reviews_on_push")
    && IsTrue(rule, "require_last_push_approval") && IsTrue(rule, "required_review_thread_resolution")
    && IsFalse(rule, "require_code_owner_review")
  }

  lemma ReviewsExactly(rule: Rule)
    ensures ReviewPolicyHolds(Some(rule)) <==> ReviewsAsPolicy(rule)
  {
    var p := PULL_REQUEST_POLICY;
    assert p[0] == ("required_approving_review_count", Num(1)) && p[1] == ("dismiss_stale_reviews_on_push", Flag(true));
    assert p[2] == ("require_last_push_approval", Flag(true)) && p[3] == ("require_code_owner_review", Flag(false));
    assert p[4] == ("required_review_thread_resolution", Flag(true)) && |p| == 5;
  }

  ghost predicate SameChecks(desired: Rule, actual: Rule) {
    && "strict_required_status_checks_policy" in actual.params
    && actual.params["strict_required_status_checks_policy"] == Flag(true)
    && forall c :: c in desired.contexts <==> c in actual.contexts
  }

  lemma SameChecksExactly(desired: Rule, actual: Rule)
    ensures SameChecks(desired, actual) <==> ChecksAgree(Some(desired), Some(actual))
  {
    if SameChecks(desired, actual) {
      assert ContextSet(desired) == ContextSet(actual);
    } else if ContextSet(desired) == ContextSet(actual) {
      assert forall c :: c in desired.contexts <==> c in ContextSet(desired);
    }
  }

  ghost predicate HasKind(rules: seq<Rule>, kind: string) {
    exists i :: 0 <= i < |rules| && rules[i].kind == kind
  }

  lemma KindSetExactly(a: seq<Rule>, b: seq<Rule>)
    ensures KindSet(a) == KindSet(b) <==> forall k :: HasKind(a, k) <==> HasKind(b, k)
    ensures forall k :: k in KindSet(a) <==> HasKind(a, k)
  {
    forall k
      ensures k in KindSet(a) <==> HasKind(a, k)
      ensures k in KindSet(b) <==> HasKind(b, k)
    {
      HasKindExactly(a, k);
      HasKindExactly(b, k);
    }
    if forall k :: HasKind(a, k) <==> HasKind(b, k) {
      assert KindSet(a) == KindSet(b);
    }
  }

  lemma HasKindExactly(rules: seq<Rule>, k: string)
    ensures k in KindSet(rules) <==> HasKind(rules, k)
  {
    if HasKind(rules, k) {
      var i :| 0 <= i < |rules| && rules[i].kind == k;
      assert rules[i] in rules;
    }
  }

  /** What the comparator compares, without the functions it compares with. */
  ghost predicate PoliciesAgree(desired: Ruleset, actual: Ruleset) {
    && actual.enforcement == desired.enforcement && actual.target == desired.target
    && SameRefs(actual.included, desired.included)
    && (forall r :: multiset(actual.excluded)[r] == multiset(desired.excluded)[r])
    && (forall x :: x in actual.bypass <==> x in desired.bypass)
    && (forall k :: HasKind(actual.rules, k) <==> HasKind(desired.rules, k))
    && (HasKind(desired.rules, "pull_request") ==>
          exists a :: FirstRule(actual.rules, "pull_request", a) && ReviewsAsPolicy(a))
    && (HasKind(desired.rules, "required_status_checks") ==>
          exists d, a ::
            && FirstRule(desired.rules, "required_status_checks", d)
            && FirstRule(actual.rules, "required_status_checks", a) && SameChecks(d, a))
  }

  lemma ReviewRuleExactly(rules: seq<Rule>)
    ensures ReviewPolicyHolds(FirstOf(rules, "pull_request")) <==>
      exists a :: FirstRule(rules, "pull_request", a) && ReviewsAsPolicy(a)
  {
    hide ReviewPolicyHolds, ReviewsAsPolicy, FirstRule, FirstOf;
    var first := FirstOf(rules, "pull_request");
    NoReviewRule();
    if first.Some? {
      FirstRuleExactly(rules, "pull_request", first.value);
      ReviewsExactly(first.value);
    }
    forall a | FirstRule(rules, "pull_request", a)
      ensures first == Some(a)
    {
      FirstRuleExactly(rules, "pull_request", a);
    }
  }

  lemma NoReviewRule()
    ensures !ReviewPolicyHolds(None) && forall o: Option<Rule> :: !ChecksAgree(None, o) && !ChecksAgree(o, None)
  {
  }

  lemma ChecksRuleExactly(desired: seq<Rule>, actual: seq<Rule>)
    ensures ChecksAgree(FirstOf(desired, "required_status_checks"), FirstOf(actual, "required_status_checks")) <==>
      exists d, a ::
        && FirstRule(desired, "required_status_checks", d) && FirstRule(actual, "required_status_checks", a)
        && SameChecks(d, a)
  {
    hide ChecksAgree, SameChecks, FirstRule, FirstOf;
    var d, a := FirstOf(desired, "required_status_checks"), FirstOf(actual, "required_status_checks");
    NoReviewRule();
    if d.Some? && a.Some? {
      FirstRuleExactly(desired, "required_status_checks", d.value);
      FirstRuleExactly(actual, "required_status_checks", a.value);
      SameChecksExactly(d.value, a.value);
    }
    forall d', a' | FirstRule(desired, "required_status_checks", d') && FirstRule(actual, "required_status_checks", a')
      ensures d == Some(d') && a == Some(a')
    {
      FirstRuleExactly(desired, "required_status_checks", d');
      FirstRuleExactly(actual, "required_status_checks", a');
    }
  }

  lemma BypassExactly(a: seq<Actor>, b: seq<Actor>)
    ensures BypassKeys(a) == BypassKeys(b) <==> forall x :: x in a <==> x in b
  {
    if BypassKeys(a) == BypassKeys(b) {
      assert forall x :: x in a <==> x in BypassKeys(a);
    } else {
      assert forall x :: x in b <==> x in BypassKeys(b);
    }
  }

  /** The comparator reports nothing exactly when the policies agree, field by field. */
  lemma DiffExactly(desired: Ruleset, actual: Ruleset)
    ensures Diff(desired, actual) == [] <==> PoliciesAgree(desired, actual)
  {
    hide Diff, NormalRefs, SameRefs, BypassKeys, KindSet, HasKind, ReviewPolicyHolds, ChecksAgree, FirstRule, FirstOf, ReviewsAsPolicy, SameChecks;
    DiffEmptyIffSamePolicy(desired, actual);
    SameRefsExactly(actual.included, desired.included);
    BypassExactly(actual.bypass, desired.bypass);
    KindSetExactly(desired.rules, actual.rules);
    ReviewRuleExactly(actual.rules);
    ChecksRuleExactly(desired.rules, actual.rules);
    ExcludedExactly(actual.excluded, desired.excluded);
  }

  lemma ExcludedExactly(a: seq<string>, b: seq<string>)
    ensures multiset(a) == multiset(b) <==> forall r :: multiset(a)[r] == multiset(b)[r]
  {
  }

  // ---- Which differences are reported ----

  lemma {:induction false} KindsDiffHolds(desired: seq<Rule>, actual: seq<Rule>, kinds: seq<string>, d: Difference)
    ensures d in KindsDiff(desired, actual, kinds) <==> exists k :: k in kinds && d in KindDiff(desired, actual, k)
  {
    hide KindDiff;
    if kinds != [] {
      KindsDiffHolds(desired, actual, kinds[1..], d);
      assert forall k :: k in kinds <==> k == kinds[0] || k in kinds[1..];
    }
  }

  lemma {:induction false} ExtraDiffHolds(kinds: seq<string>, wanted: seq<string>, d: Difference)
    ensures d in ExtraDiff(kinds, wanted) <==> d.ExtraRule? && d.kind in kinds && d.kind !in wanted
  {
    if kinds != [] {
      ExtraDiffHolds(kinds[1..], wanted, d);
      assert forall k :: k in kinds <==> k == kinds[0] || k in kinds[1..];
    }
  }

  lemma {:induction false} PullRequestDiffHolds(rule: Rule, policy: seq<(string, Value)>, d: Difference)
    ensures d in PullRequestDiff(rule, policy) ==> d.PullRequest?
  {
    if policy != [] {
      PullRequestDiffHolds(rule, policy[1..], d);
    }
  }

  lemma KindDiffHolds(desired: seq<Rule>, actual: seq<Rule>, kind: string, d: Difference)
    requires HasKind(desired, kind)
    ensures d.MissingRule? ==> (d in KindDiff(desired, actual, kind) <==> d.kind == kind && !HasKind(actual, kind))
    ensures d in KindDiff(desired, actual, kind) ==> d.MissingRule? || d.PullRequest? || d.StrictPolicy? || d.Contexts?
  {
    hide HasKind, PullRequestDiff;
    HasKindExactly(desired, kind);
    HasKindExactly(actual, kind);
    FirstOfExists(desired, kind);
    FirstOfExists(actual, kind);
    if FirstOf(actual, kind).Some? {
      PullRequestDiffHolds(FirstOf(actual, kind).value, PULL_REQUEST_POLICY, d);
    }
  }

  lemma RulesDiffHolds(desired: seq<Rule>, actual: seq<Rule>, d: Difference)
    ensures d.MissingRule? ==> (d in RulesDiff(desired, actual) <==> HasKind(desired, d.kind) && !HasKind(actual, d.kind))
    ensures d.ExtraRule? ==> (d in RulesDiff(desired, actual) <==> HasKind(actual, d.kind) && !HasKind(desired, d.kind))
    ensures d in RulesDiff(desired, actual) ==>
      d.MissingRule? || d.ExtraRule? || d.PullRequest? || d.StrictPolicy? || d.Contexts?
  {
    hide KindDiff, HasKind, KindsDiff, ExtraDiff, KindSet;
    KindsAreKindSet(desired);
    KindsAreKindSet(actual);
    KindSetExactly(desired, actual);
    KindSetExactly(actual, desired);
    KindsDiffHolds(desired, actual, Kinds(desired), d);
    ExtraDiffHolds(Kinds(actual), Kinds(desired), d);
    forall k | k in Kinds(desired)
      ensures d.MissingRule? ==> (d in KindDiff(desired, actual, k) <==> d.kind == k && !HasKind(actual, k))
      ensures d in KindDiff(desired, actual, k) ==> d.MissingRule? || d.PullRequest? || d.StrictPolicy? || d.Contexts?
    {
      KindDiffHolds(desired, actual, k, d);
    }
  }

  lemma DiffHolds(desired: Ruleset, actual: Ruleset, d: Difference)
    ensures d in Diff(desired, actual) <==>
      || (d == Enforcement && actual.enforcement != desired.enforcement)
      || (d == Target && actual.target != desired.target)
      || (d == IncludedRefs && Sorted(NormalRefs(actual.included)) != Sorted(NormalRefs(desired.included)))
      || (d == ExcludedRefs && Sorted(actual.excluded) != Sorted(desired.excluded))
      || (d == Bypass && BypassKeys(actual.bypass) != BypassKeys(desired.bypass))
      || d in RulesDiff(desired.rules, actual.rules)
  {
    hide RulesDiff, Sorted, NormalRefs, BypassKeys;
  }

  /** Each reported difference outside the rules' parameters is one, and each such difference is reported. */
  lemma DiffReports(desired: Ruleset, actual: Ruleset, kind: string)
    ensures var diff := Diff(desired, actual);
      && (Enforcement in diff <==> actual.enforcement != desired.enforcement)
      && (Target in diff <==> actual.target != desired.target)
      && (IncludedRefs in diff <==> !SameRefs(actual.included, desired.included))
      && (ExcludedRefs in diff <==> multiset(actual.excluded) != multiset(desired.excluded))
      && (Bypass in diff <==> !forall x :: x in actual.bypass <==> x in desired.bypass)
      && (MissingRule(kind) in diff <==> HasKind(desired.rules, kind) && !HasKind(actual.rules, kind))
      && (ExtraRule(kind) in diff <==> HasKind(actual.rules, kind) && !HasKind(desired.rules, kind))
  {
    hide Diff, RulesDiff, Sorted, NormalRefs, BypassKeys, SameRefs, HasKind;
    DiffHolds(desired, actual, MissingRule(kind));
    DiffHolds(desired, actual, ExtraRule(kind));
    DiffHolds(desired, actual, Enforcement);
    DiffHolds(desired, actual, Target);
    DiffHolds(desired, actual, IncludedRefs);
    DiffHolds(desired, actual, ExcludedRefs);
    DiffHolds(desired, actual, Bypass);
    SortedEqual(NormalRefs(actual.included), NormalRefs(desired.included));
    SortedEqual(actual.excluded, desired.excluded);
    SameRefsExactly(actual.included, desired.included);
    BypassExactly(actual.bypass, desired.bypass);
    RulesDiffHolds(desired.rules, actual.rules, MissingRule(kind));
    RulesDiffHolds(desired.rules, actual.rules, ExtraRule(kind));
    RulesDiffHolds(desired.rules, actual.rules, Enforcement);
    RulesDiffHolds(desired.rules, actual.rules, Target);
    RulesDiffHolds(desired.rules, actual.rules, IncludedRefs);
    RulesDiffHolds(desired.rules, actual.rules, ExcludedRefs);
    RulesDiffHolds(desired.rules, actual.rules, Bypass);
  }
}
