/** Acceptance of a rank migration: two result lists compared through independently recomputed scores. */
module RankAcceptance {

  type Key = int

  /** A float as the checks see it; infinities and NaN are all `NonFinite`. */
  datatype Score = Finite(value: real) | NonFinite

  datatype Hit = Hit(key: Key, score: Score)

  datatype Verdict =
    | Accepted(identical: bool)
    | MissingOrDuplicate
    | BadScores
    | ScoreDisagreement
    | RankInversion
    | BoundaryDifference

  const TOLERANCE: real := 0.0001
  const LIMIT: nat := 10

  function Abs(x: real): real {
    if x < 0.0 then -x else x
  }

  function Keys(hits: seq<Hit>): set<Key> {
    set h | h in hits :: h.key
  }

  /** The recomputed score of a key; the checks below only use it for keys with a finite score. */
  function Value(scores: map<Key, Score>, k: Key): real {
    if k in scores && scores[k].Finite? then scores[k].value else 0.0
  }

  predicate AllFinite(scores: map<Key, Score>) {
    forall k :: k in scores ==> scores[k].Finite?
  }

  function At(hits: seq<Hit>, scores: map<Key, Score>, i: nat): real
    requires i < |hits|
  {
    Value(scores, hits[i].key)
  }

  predicate Agrees(hits: seq<Hit>, scores: map<Key, Score>) {
    forall i :: 0 <= i < |hits| ==>
      hits[i].score.Finite? && Abs(hits[i].score.value - At(hits, scores, i)) <= TOLERANCE
  }

  predicate NoInversion(hits: seq<Hit>, scores: map<Key, Score>) {
    forall i, j :: 0 <= i < j < |hits| ==> At(hits, scores, j) - At(hits, scores, i) <= TOLERANCE
  }

  function Cutoff(hits: seq<Hit>, scores: map<Key, Score>): (c: real)
    requires hits != []
    ensures forall i :: 0 <= i < |hits| ==> c <= At(hits, scores, i)
    ensures exists i :: 0 <= i < |hits| && c == At(hits, scores, i)
  {
    var last := |hits| - 1;
    if last == 0 then At(hits, scores, 0)
    else
      var c := Cutoff(hits[..last], scores);
      assert forall i :: 0 <= i < last ==> At(hits[..last], scores, i) == At(hits, scores, i);
      if At(hits, scores, last) < c then At(hits, scores, last) else c
  }

  predicate NearCutoff(keys: set<Key>, scores: map<Key, Score>, cutoff: real) {
    forall k :: k in keys ==> Abs(Value(scores, k) - cutoff) <= TOLERANCE
  }

  predicate Unique(limit: nat, hits: seq<Hit>) {
    |hits| == limit && |Keys(hits)| == limit
  }

  function Difference(a: set<Key>, b: set<Key>): set<Key> {
    (a - b) + (b - a)
  }

  /** `validate_results` for lists of `limit` entries, its checks in its order. */
  function Validate(limit: nat, exact: seq<Hit>, projected: seq<Hit>, scores: map<Key, Score>): Verdict
    requires limit >= 1
  {
    if !Unique(limit, exact) || !Unique(limit, projected) then MissingOrDuplicate
    else if scores.Keys != Keys(exact) + Keys(projected) || !AllFinite(scores) then BadScores
    else if !Agrees(exact, scores) then ScoreDisagreement
    else if !NoInversion(exact, scores) then RankInversion
    else if !Agrees(projected, scores) then ScoreDisagreement
    else if !NoInversion(projected, scores) then RankInversion
    else if !NearCutoff(Difference(Keys(exact), Keys(projected)), scores, Cutoff(projected, scores)) then
      BoundaryDifference
    else Accepted(exact == projected)
  }

  function ValidateResults(exact: seq<Hit>, projected: seq<Hit>, scores: map<Key, Score>): Verdict {
    Validate(LIMIT, exact, projected, scores)
  }

  lemma {:induction false} KeysBound(hits: seq<Hit>)
    ensures |Keys(hits)| <= |hits|
  {
    if hits != [] {
      var init, last := hits[..|hits| - 1], hits[|hits| - 1];
      KeysBound(init);
      assert hits == init + [last];
      assert Keys(hits) == Keys(init) + {last.key};
    }
  }

  /** A prefix of a list without repeated keys has as many keys as entries. */
  lemma {:induction false} DistinctPrefix(hits: seq<Hit>, n: nat)
    requires |Keys(hits)| == |hits| && n <= |hits|
    ensures |Keys(hits[..n])| == n
    decreases |hits| - n
  {
    if n == |hits| {
      assert hits[..n] == hits;
    } else {
      DistinctPrefix(hits, n + 1);
      assert hits[..n + 1] == hits[..n] + [hits[n]];
      assert Keys(hits[..n + 1]) == Keys(hits[..n]) + {hits[n].key};
      KeysBound(hits[..n]);
    }
  }

  /** Pigeonhole: some entry of the first `i + 1` of `a` is not among the first `i` of `b`. */
  lemma Pigeonhole(a: seq<Hit>, b: seq<Hit>, i: nat) returns (j: nat)
    requires |Keys(a)| == |a| == |b| && i < |a|
    ensures j <= i && a[j].key !in Keys(b[..i])
  {
    DistinctPrefix(a, i + 1);
    KeysBound(b[..i]);
    if Keys(a[..i + 1]) <= Keys(b[..i]) {
      SubsetSmaller(Keys(a[..i + 1]), Keys(b[..i]));
      assert false;
    }
    var k :| k in Keys(a[..i + 1]) && k !in Keys(b[..i]);
    var h :| h in a[..i + 1] && h.key == k;
    j :| 0 <= j < |a[..i + 1]| && a[..i + 1][j] == h;
  }

  lemma {:induction false} SubsetSmaller<T>(a: set<T>, b: set<T>)
    requires a <= b
    ensures |a| <= |b|
  {
    if a != {} {
      var x :| x in a;
      SubsetSmaller(a - {x}, b - {x});
    }
  }

  /** Where a key that is not among the first `i` entries can be: further down, or nowhere. */
  lemma Position(b: seq<Hit>, i: nat, key: Key)
    requires i <= |b| && key !in Keys(b[..i])
    ensures key !in Keys(b) || exists k :: i <= k < |b| && b[k].key == key
  {
    if key in Keys(b) {
      var h :| h in b && h.key == key;
      assert b == b[..i] + b[i..] && h !in b[..i];
      var m :| 0 <= m < |b[i..]| && b[i..][m] == h;
      assert b[i + m].key == key;
    }
  }

  /** The common part of both directions. `a[i]` is at most one tolerance above some score
      that is either far down in `b` or in the band around the cutoff. */
  lemma AboveBound(a: seq<Hit>, b: seq<Hit>, scores: map<Key, Score>, i: nat, cutoff: real)
    requires NoInversion(a, scores) && NoInversion(b, scores)
    requires |Keys(a)| == |a| == |b| && i < |a|
    requires NearCutoff(Keys(a) - Keys(b), scores, cutoff)
    ensures At(a, scores, i) <= At(b, scores, i) + 2.0 * TOLERANCE || At(a, scores, i) <= cutoff + 2.0 * TOLERANCE
  {
    var j := Pigeonhole(a, b, i);
    assert At(a, scores, i) - At(a, scores, j) <= TOLERANCE;
    Position(b, i, a[j].key);
    if a[j].key in Keys(b) {
      var k :| i <= k < |b| && b[k].key == a[j].key;
      assert At(b, scores, k) == At(a, scores, j);
      assert At(b, scores, k) - At(b, scores, i) <= TOLERANCE;
    } else {
      assert a[j].key in Keys(a) - Keys(b);
    }
  }

  /** No entry of the exact list scores more than one tolerance below the cutoff. */
  lemma AboveCutoff(exact: seq<Hit>, projected: seq<Hit>, scores: map<Key, Score>, i: nat)
    requires i < |exact| && projected != []
    requires NearCutoff(Keys(exact) - Keys(projected), scores, Cutoff(projected, scores))
    ensures Cutoff(projected, scores) - TOLERANCE <= At(exact, scores, i)
  {
    if exact[i].key in Keys(projected) {
      var h :| h in projected && h.key == exact[i].key;
      var k :| 0 <= k < |projected| && projected[k] == h;
      assert At(projected, scores, k) == At(exact, scores, i);
    } else {
      assert exact[i].key in Keys(exact) - Keys(projected);
    }
  }

  /** The bound on recomputed scores, from the order and boundary checks alone. */
  lemma RecomputedBound(exact: seq<Hit>, projected: seq<Hit>, scores: map<Key, Score>, i: nat)
    requires |Keys(exact)| == |exact| == |projected| == |Keys(projected)| && i < |exact|
    requires NoInversion(exact, scores) && NoInversion(projected, scores)
    requires NearCutoff(Keys(exact) - Keys(projected), scores, Cutoff(projected, scores))
    requires NearCutoff(Keys(projected) - Keys(exact), scores, Cutoff(projected, scores))
    ensures At(exact, scores, i) - At(projected, scores, i) <= 2.0 * TOLERANCE
    ensures At(projected, scores, i) - At(exact, scores, i) <= 3.0 * TOLERANCE
  {
    var cutoff := Cutoff(projected, scores);
    assert cutoff <= At(projected, scores, i);
    AboveCutoff(exact, projected, scores, i);
    AboveBound(exact, projected, scores, i, cutoff);
    AboveBound(projected, exact, scores, i, cutoff);
  }

  lemma NearCutoffSubset(small: set<Key>, large: set<Key>, scores: map<Key, Score>, cutoff: real)
    requires small <= large && NearCutoff(large, scores, cutoff)
    ensures NearCutoff(small, scores, cutoff)
  {
  }

  /** Rank by rank, an accepted migration moves recomputed scores by at most two tolerances up and
      three down, and reported scores by two more. The lists may have any length. */
  lemma RankByRank(limit: nat, exact: seq<Hit>, projected: seq<Hit>, scores: map<Key, Score>, i: nat)
    requires limit >= 1 && Validate(limit, exact, projected, scores).Accepted? && i < limit
    ensures |exact| == |projected| == limit
    ensures var e, p := At(exact, scores, i), At(projected, scores, i);
      e - p <= 2.0 * TOLERANCE && p - e <= 3.0 * TOLERANCE
    ensures exact[i].score.Finite? && projected[i].score.Finite?
    ensures var e, p := exact[i].score.value, projected[i].score.value;
      e - p <= 4.0 * TOLERANCE && p - e <= 5.0 * TOLERANCE
  {
    var e, p := Keys(exact), Keys(projected);
    NearCutoffSubset(e - p, Difference(e, p), scores, Cutoff(projected, scores));
    NearCutoffSubset(p - e, Difference(e, p), scores, Cutoff(projected, scores));
    RecomputedBound(exact, projected, scores, i);
    assert Abs(exact[i].score.value - At(exact, scores, i)) <= TOLERANCE;
    assert Abs(projected[i].score.value - At(projected, scores, i)) <= TOLERANCE;
  }

  /** The recomputed scores the theorem speaks of exist and are finite. */
  lemma AcceptedIsScored(limit: nat, exact: seq<Hit>, projected: seq<Hit>, scores: map<Key, Score>, i: nat)
    requires limit >= 1 && Validate(limit, exact, projected, scores).Accepted? && i < limit
    ensures exact[i].key in scores && scores[exact[i].key] == Finite(At(exact, scores, i))
    ensures projected[i].key in scores && scores[projected[i].key] == Finite(At(projected, scores, i))
  {
    assert exact[i].key in Keys(exact) && projected[i].key in Keys(projected);
  }

  /** The guarantee for the lists the script compares. */
  lemma TopTenStable(exact: seq<Hit>, projected: seq<Hit>, scores: map<Key, Score>)
    requires ValidateResults(exact, projected, scores).Accepted?
    ensures |exact| == |projected| == LIMIT
    ensures forall i :: 0 <= i < LIMIT ==>
      && exact[i].score.Finite? && projected[i].score.Finite?
      && Abs(exact[i].score.value - projected[i].score.value) <= 5.0 * TOLERANCE
  {
    forall i | 0 <= i < LIMIT
      ensures exact[i].score.Finite? && projected[i].score.Finite?
      ensures Abs(exact[i].score.value - projected[i].score.value) <= 5.0 * TOLERANCE
    {
      RankByRank(LIMIT, exact, projected, scores, i);
    }
  }

  // ---- Exactly when the comparison accepts ----

  predicate HasKey(hits: seq<Hit>, k: Key) {
    exists i :: 0 <= i < |hits| && hits[i].key == k
  }

  predicate DistinctKeys(hits: seq<Hit>) {
    forall i, j :: 0 <= i < j < |hits| ==> hits[i].key != hits[j].key
  }

  /** The scores are finite and are those of the entries of the two lists. */
  ghost predicate Covers(scores: map<Key, Score>, exact: seq<Hit>, projected: seq<Hit>) {
    && (forall k :: k in scores <==> HasKey(exact, k) || HasKey(projected, k))
    && (forall k :: k in scores ==> scores[k] != NonFinite)
  }

  /** Each entry reports its recomputed score within one tolerance, and no entry is more than one tolerance above an
      earlier one. */
  predicate InOrder(hits: seq<Hit>, scores: map<Key, Score>)
    requires forall i :: 0 <= i < |hits| ==> hits[i].key in scores && scores[hits[i].key].Finite?
  {
    && (forall i :: 0 <= i < |hits| ==>
          && hits[i].score.Finite?
          && scores[hits[i].key].value - TOLERANCE <= hits[i].score.value <= scores[hits[i].key].value + TOLERANCE)
    && (forall i, j :: 0 <= i < j < |hits| ==>
          scores[hits[j].key].value <= scores[hits[i].key].value + TOLERANCE)
  }

  /** Every key of exactly one list scores within one tolerance of the least projected score. */
  ghost predicate DiffersAtCutoff(exact: seq<Hit>, projected: seq<Hit>, scores: map<Key, Score>)
    requires Covers(scores, exact, projected)
  {
    exists m ::
      && 0 <= m < |projected|
      && projected[m].key in scores
      && (forall i :: 0 <= i < |projected| ==>
            projected[i].key in scores && scores[projected[m].key].value <= scores[projected[i].key].value)
      && (forall k :: k in scores && HasKey(exact, k) != HasKey(projected, k) ==>
            scores[projected[m].key].value - TOLERANCE <= scores[k].value <= scores[projected[m].key].value + TOLERANCE)
  }

  lemma CoversEntries(scores: map<Key, Score>, exact: seq<Hit>, projected: seq<Hit>)
    requires Covers(scores, exact, projected)
    ensures forall i :: 0 <= i < |exact| ==> exact[i].key in scores && scores[exact[i].key].Finite?
    ensures forall i :: 0 <= i < |projected| ==> projected[i].key in scores && scores[projected[i].key].Finite?
  {
    forall i | 0 <= i < |exact|
      ensures exact[i].key in scores
    {
      assert HasKey(exact, exact[i].key);
    }
    forall i | 0 <= i < |projected|
      ensures projected[i].key in scores
    {
      assert HasKey(projected, projected[i].key);
    }
  }

  /** What `validate_results` is for, on lists of `limit` entries. */
  ghost predicate Acceptable(limit: nat, exact: seq<Hit>, projected: seq<Hit>, scores: map<Key, Score>) {
    && |exact| == limit && |projected| == limit && DistinctKeys(exact) && DistinctKeys(projected)
    && Covers(scores, exact, projected)
    && (CoversEntries(scores, exact, projected);
        InOrder(exact, scores) && InOrder(projected, scores) && DiffersAtCutoff(exact, projected, scores))
  }

  lemma {:induction false} KeysExactly(hits: seq<Hit>)
    ensures |Keys(hits)| <= |hits|
    ensures |Keys(hits)| == |hits| <==> DistinctKeys(hits)
  {
    KeysBound(hits);
    if hits != [] {
      var front, last := hits[..|hits| - 1], hits[|hits| - 1];
      KeysExactly(front);
      assert hits == front + [last];
      assert Keys(hits) == Keys(front) + {last.key};
      DistinctSnoc(front, last);
    }
  }

  lemma DistinctSnoc(front: seq<Hit>, last: Hit)
    ensures DistinctKeys(front + [last]) <==> DistinctKeys(front) && last.key !in Keys(front)
  {
    var hits := front + [last];
    assert forall i :: 0 <= i < |front| ==> hits[i] == front[i] && front[i].key in Keys(front);
    if last.key in Keys(front) {
      var h :| h in front && h.key == last.key;
      var i :| 0 <= i < |front| && front[i] == h;
      assert hits[i].key == hits[|front|].key;
    }
    if DistinctKeys(hits) {
      forall i, j | 0 <= i < j < |front|
        ensures front[i].key != front[j].key
      {
        assert hits[i].key != hits[j].key;
      }
    }
  }

  lemma KeysAreEntries(hits: seq<Hit>, k: Key)
    ensures k in Keys(hits) <==> HasKey(hits, k)
  {
    if k in Keys(hits) {
      var h :| h in hits && h.key == k;
      var i :| 0 <= i < |hits| && hits[i] == h;
    }
    if HasKey(hits, k) {
      var i :| 0 <= i < |hits| && hits[i].key == k;
      assert hits[i] in hits;
    }
  }

  lemma CoversExactly(scores: map<Key, Score>, exact: seq<Hit>, projected: seq<Hit>)
    ensures Covers(scores, exact, projected) <==>
      scores.Keys == Keys(exact) + Keys(projected) && AllFinite(scores)
  {
    hide Keys, HasKey;
    forall k
      ensures k in Keys(exact) <==> HasKey(exact, k)
      ensures k in Keys(projected) <==> HasKey(projected, k)
    {
      KeysAreEntries(exact, k);
      KeysAreEntries(projected, k);
    }
    if Covers(scores, exact, projected) {
      forall k
        ensures k in scores.Keys <==> k in Keys(exact) + Keys(projected)
      {
        assert k in scores <==> HasKey(exact, k) || HasKey(projected, k);
      }
      assert scores.Keys == Keys(exact) + Keys(projected);
    }
  }

  lemma InOrderExactly(hits: seq<Hit>, scores: map<Key, Score>)
    requires forall i :: 0 <= i < |hits| ==> hits[i].key in scores && scores[hits[i].key].Finite?
    ensures InOrder(hits, scores) <==> Agrees(hits, scores) && NoInversion(hits, scores)
  {
    assert forall i :: 0 <= i < |hits| ==> At(hits, scores, i) == scores[hits[i].key].value;
  }

  lemma CutoffExactly(exact: seq<Hit>, projected: seq<Hit>, scores: map<Key, Score>)
    requires Covers(scores, exact, projected) && projected != []
    ensures DiffersAtCutoff(exact, projected, scores) <==>
      NearCutoff(Difference(Keys(exact), Keys(projected)), scores, Cutoff(projected, scores))
  {
    hide Keys, HasKey, Cutoff;
    CoversEntries(scores, exact, projected);
    forall k
      ensures k in Difference(Keys(exact), Keys(projected)) <==> HasKey(exact, k) != HasKey(projected, k)
    {
      KeysAreEntries(exact, k);
      KeysAreEntries(projected, k);
    }
    var c := Cutoff(projected, scores);
    var m :| 0 <= m < |projected| && c == At(projected, scores, m);
    forall m' | 0 <= m' < |projected| && forall i :: 0 <= i < |projected| ==> At(projected, scores, m') <= At(projected, scores, i)
      ensures At(projected, scores, m') == c
    {
    }
    assert forall i :: 0 <= i < |projected| ==> At(projected, scores, i) == scores[projected[i].key].value;
    assert forall k :: k in scores ==> Value(scores, k) == scores[k].value;
  }

  /** The comparison accepts exactly the acceptable pairs, and as identical exactly the equal ones. */
  lemma AcceptedExactly(limit: nat, exact: seq<Hit>, projected: seq<Hit>, scores: map<Key, Score>, identical: bool)
    requires limit >= 1
    ensures Validate(limit, exact, projected, scores) == Accepted(identical) <==>
      Acceptable(limit, exact, projected, scores) && (identical <==> exact == projected)
  {
    hide Keys, DistinctKeys, Covers, AllFinite, InOrder, Agrees, NoInversion, DiffersAtCutoff, NearCutoff, Cutoff;
    KeysExactly(exact);
    KeysExactly(projected);
    CoversExactly(scores, exact, projected);
    if |exact| == limit && |projected| == limit && Covers(scores, exact, projected) {
      CoversEntries(scores, exact, projected);
      InOrderExactly(exact, scores);
      InOrderExactly(projected, scores);
      CutoffExactly(exact, projected, scores);
    }
  }

  /** An entry's report is off by more than one tolerance. */
  predicate Misreports(hits: seq<Hit>, scores: map<Key, Score>) {
    exists i :: 0 <= i < |hits| && hits[i].key in scores && scores[hits[i].key].Finite? &&
      (hits[i].score.NonFinite? || hits[i].score.value - scores[hits[i].key].value > TOLERANCE
       || scores[hits[i].key].value - hits[i].score.value > TOLERANCE)
  }

  /** An entry is more than one tolerance above an earlier one. */
  predicate Inverted(hits: seq<Hit>, scores: map<Key, Score>) {
    exists i, j :: 0 <= i < j < |hits| && hits[i].key in scores && hits[j].key in scores
      && scores[hits[i].key].Finite? && scores[hits[j].key].Finite?
      && scores[hits[j].key].value - scores[hits[i].key].value > TOLERANCE
  }

  /** Each refusal says what is wrong, in the order of the checks. */
  lemma RefusedExactly(limit: nat, exact: seq<Hit>, projected: seq<Hit>, scores: map<Key, Score>)
    requires limit >= 1
    ensures var v := Validate(limit, exact, projected, scores);
      var listed := |exact| == limit && |projected| == limit && DistinctKeys(exact) && DistinctKeys(projected);
      && (v.MissingOrDuplicate? <==> !listed)
      && (v.BadScores? <==> listed && !Covers(scores, exact, projected))
      && (v.ScoreDisagreement? ==> Misreports(exact, scores) || Misreports(projected, scores))
      && (v.RankInversion? ==> Inverted(exact, scores) || Inverted(projected, scores))
      && (v.BoundaryDifference? ==>
            Covers(scores, exact, projected) && !DiffersAtCutoff(exact, projected, scores)
            && !Misreports(exact, scores) && !Misreports(projected, scores)
            && !Inverted(exact, scores) && !Inverted(projected, scores))
  {
    hide Keys, DistinctKeys, Covers, AllFinite, DiffersAtCutoff, NearCutoff, Cutoff, Agrees, NoInversion, Misreports, Inverted;
    KeysExactly(exact);
    KeysExactly(projected);
    CoversExactly(scores, exact, projected);
    if |exact| == limit && |projected| == limit && Covers(scores, exact, projected) {
      CoversEntries(scores, exact, projected);
      CutoffExactly(exact, projected, scores);
      FaultsExactly(exact, scores);
      FaultsExactly(projected, scores);
    }
  }

  lemma FaultsExactly(hits: seq<Hit>, scores: map<Key, Score>)
    requires forall i :: 0 <= i < |hits| ==> hits[i].key in scores && scores[hits[i].key].Finite?
    ensures Misreports(hits, scores) <==> !Agrees(hits, scores)
    ensures Inverted(hits, scores) <==> !NoInversion(hits, scores)
  {
    assert forall i :: 0 <= i < |hits| ==> At(hits, scores, i) == scores[hits[i].key].value;
  }

  lemma KeysOfThree(a: Hit, b: Hit, c: Hit)
    requires a.key != b.key && a.key != c.key && b.key != c.key
    ensures Keys([a, b, c]) == {a.key, b.key, c.key} && Unique(3, [a, b, c])
  {
    var hits := [a, b, c];
    assert hits[0] == a && hits[1] == b && hits[2] == c;
    assert a in hits && b in hits && c in hits;
    assert Keys(hits) == {a.key, b.key, c.key};
  }

  /** Three tolerances is the best possible bound: an accepted pair of lists attains it. */
  lemma BoundAttained()
    ensures exists exact, projected, scores ::
      && Validate(3, exact, projected, scores) == Accepted(false)
      && |exact| == |projected| == 3
      && At(projected, scores, 1) - At(exact, scores, 1) == 3.0 * TOLERANCE
  {
    var t := TOLERANCE;
    var x, y, z, u := Finite(1.0 + t), Finite(1.0 + 2.0 * t), Finite(1.0), Finite(1.0 - t);
    var scores := map[1 := x, 2 := y, 3 := z, 4 := u];
    var projected := [Hit(1, x), Hit(2, y), Hit(3, z)];
    var exact := [Hit(2, y), Hit(4, u), Hit(3, z)];
    hide Unique, Agrees, NoInversion, Cutoff, Keys;
    KeysOfThree(projected[0], projected[1], projected[2]);
    KeysOfThree(exact[0], exact[1], exact[2]);
    CutoffOfThree(projected, scores);
    InOrderOfThree(projected, scores);
    InOrderOfThree(exact, scores);
    assert Difference(Keys(exact), Keys(projected)) == {1, 4};
    assert exact[0] != projected[0];
    assert Validate(3, exact, projected, scores) == Accepted(false);
    assert At(projected, scores, 1) - At(exact, scores, 1) == 3.0 * t;
  }

  lemma CutoffOfThree(hits: seq<Hit>, scores: map<Key, Score>)
    requires |hits| == 3
    requires At(hits, scores, 2) <= At(hits, scores, 0) && At(hits, scores, 2) <= At(hits, scores, 1)
    ensures Cutoff(hits, scores) == At(hits, scores, 2)
  {
  }

  /** Three entries that report their own scores, none far above an earlier one. */
  lemma InOrderOfThree(hits: seq<Hit>, scores: map<Key, Score>)
    requires |hits| == 3
    requires forall i :: 0 <= i < 3 ==> hits[i].score == Finite(At(hits, scores, i))
    requires At(hits, scores, 1) - At(hits, scores, 0) <= TOLERANCE
    requires At(hits, scores, 2) - At(hits, scores, 0) <= TOLERANCE
    requires At(hits, scores, 2) - At(hits, scores, 1) <= TOLERANCE
    ensures Agrees(hits, scores) && NoInversion(hits, scores)
  {
  }
}
