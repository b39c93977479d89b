/** The counterbalanced work order and the freeze checks that it must pass. */
module WorkOrder {
  import opened Options

  datatype Case = Case(id: string, kind: string)

  datatype Arm = FlatHttp | RecordedContinuation

  datatype Policy = Full | Fixed

  datatype Entry = Entry(position: nat, caseId: string, kind: string, repetition: nat, arm: Arm, policy: Policy)

  const ARMS: seq<Arm> := [FlatHttp, RecordedContinuation]

  function PolicyFor(selected: set<string>, kind: string): Policy {
    if kind in selected then Full else Fixed
  }

  // ---- Building ----

  function ArmAt(first: nat, slot: nat): Arm
    requires first < 2 && slot < 2
  {
    (ARMS[first..] + ARMS[..first])[slot]
  }

  /** The entry for one arm of the case at `position` of a repetition; `count` entries precede it. */
  function EntryFor(selected: set<string>, c: Case, repetition: nat, position: nat, slot: nat, count: nat): Entry
    requires slot < 2
  {
    Entry(count + 1, c.id, c.kind, repetition, ArmAt((position + repetition) % 2, slot), PolicyFor(selected, c.kind))
  }

  /** The entries of the first `n` arms of one case. */
  function Arms(selected: set<string>, c: Case, repetition: nat, position: nat, count: nat, n: nat): (r: seq<Entry>)
    requires n <= 2
    ensures |r| == n
  {
    if n == 0 then []
    else Arms(selected, c, repetition, position, count, n - 1) + [EntryFor(selected, c, repetition, position, n - 1, count + n - 1)]
  }

  /** The entries of the first `m` cases of a repetition, after `start` earlier entries. */
  function Block(selected: set<string>, order: seq<Case>, repetition: nat, m: nat, start: nat): (r: seq<Entry>)
    requires m <= |order|
    ensures |r| == 2 * m
  {
    if m == 0 then []
    else
      Block(selected, order, repetition, m - 1, start)
      + Arms(selected, order[m - 1], repetition, m - 1, start + 2 * (m - 1), 2)
  }

  /** All entries of the first `r` repetitions; `orders[r]` is how repetition `r` was shuffled. */
  function Entries(selected: set<string>, orders: seq<seq<Case>>, r: nat): seq<Entry>
    requires r <= |orders|
  {
    if r == 0 then []
    else
      var before := Entries(selected, orders, r - 1);
      before + Block(selected, orders[r - 1], r - 1, |orders[r - 1]|, |before|)
  }

  /** The innermost loop of `build`: both arms of one case. */
  method AppendArms(selected: set<string>, c: Case, repetition: nat, position: nat, before: seq<Entry>) returns (entries: seq<Entry>)
    ensures entries == before + Arms(selected, c, repetition, position, |before|, 2)
  {
    entries := before;
    var first := (position + repetition) % 2;
    var armOrder := ARMS[first..] + ARMS[..first];
    for slot := 0 to 2
      invariant entries == before + Arms(selected, c, repetition, position, |before|, slot)
    {
      entries := entries + [Entry(|entries| + 1, c.id, c.kind, repetition, armOrder[slot], PolicyFor(selected, c.kind))];
    }
  }

  /** The two outer loops of `build`. */
  method Build(selected: set<string>, orders: seq<seq<Case>>) returns (entries: seq<Entry>)
    ensures entries == Entries(selected, orders, |orders|)
  {
    hide Arms;
    entries := [];
    for repetition := 0 to |orders|
      invariant entries == Entries(selected, orders, repetition)
    {
      ghost var before := entries;
      var ordered := orders[repetition];
      for position := 0 to |ordered|
        invariant entries == before + Block(selected, ordered, repetition, position, |before|)
      {
        entries := AppendArms(selected, ordered[position], repetition, position, entries);
      }
    }
  }

  // ---- The freeze checks ----

  datatype Unit = Unit(caseId: string, kind: string, repetition: nat, arm: Arm)

  function UnitOf(e: Entry): Unit {
    Unit(e.caseId, e.kind, e.repetition, e.arm)
  }

  function Observed(entries: seq<Entry>): set<Unit> {
    set e | e in entries :: UnitOf(e)
  }

  /** The challenge type of each case id; a repeated id keeps its last type. */
  function CaseTypes(cases: seq<Case>): (m: map<string, string>)
    ensures forall c :: c in cases ==> c.id in m
  {
    if cases == [] then map[]
    else
      var last := cases[|cases| - 1];
      assert cases == cases[..|cases| - 1] + [last];
      CaseTypes(cases[..|cases| - 1])[last.id := last.kind]
  }

  function Expected(cases: seq<Case>, repetitions: nat): set<Unit> {
    var types := CaseTypes(cases);
    set id, r, a | id in types && 0 <= r < repetitions && a in ARMS :: Unit(id, types[id], r, a)
  }

  function Kinds(cases: seq<Case>): set<string> {
    set c | c in cases :: c.kind
  }

  function PolicyByType(cases: seq<Case>, selected: set<string>): map<string, Policy> {
    map kind | kind in Kinds(cases) :: PolicyFor(selected, kind)
  }

  const REPETITIONS: nat := 3
  const FROZEN_CASES: nat := 12

  datatype Order = Order(arms: seq<Arm>, repetitions: nat, resultLimit: int, policies: map<string, Policy>, entries: seq<Entry>)

  /** What `build` returns when `orders` are its shuffles of the cases; nothing where it raises. */
  function BuiltOrder(cases: seq<Case>, selected: set<string>, orders: seq<seq<Case>>, resultLimit: int): Option<Order> {
    if |orders| != REPETITIONS || !(1 <= resultLimit <= 20) || !(selected <= Kinds(cases)) then None
    else Some(Order(ARMS, |orders|, resultLimit, PolicyByType(cases, selected), Entries(selected, orders, |orders|)))
  }

  /** The design, position, unit and policy checks of `build_freeze`; `resultLimit` is the run manifest's. */
  predicate FreezeAccepts(cases: seq<Case>, selected: set<string>, resultLimit: int, order: Order) {
    && |cases| == FROZEN_CASES && order.arms == ARMS && order.repetitions == REPETITIONS
    && |order.entries| == |cases| * REPETITIONS * |ARMS| && order.resultLimit == resultLimit
    && order.policies == PolicyByType(cases, selected)
    && EntriesAccepted(cases, selected, order.entries)
  }

  predicate EntriesAccepted(cases: seq<Case>, selected: set<string>, entries: seq<Entry>) {
    && (forall k :: 0 <= k < |entries| ==> entries[k].position == k + 1)
    && |Observed(entries)| == |entries|
    && Observed(entries) == Expected(cases, REPETITIONS)
    && (forall k :: 0 <= k < |entries| ==>
          entries[k].kind in Kinds(cases) && entries[k].policy == PolicyFor(selected, entries[k].kind))
  }

  // ---- Shape of the order ----

  predicate DistinctIds(cases: seq<Case>) {
    forall i, j :: 0 <= i < j < |cases| ==> cases[i].id != cases[j].id
  }

  /** What the shuffles of `build` give: every repetition holds the same cases in some order. */
  predicate Shuffled(cases: seq<Case>, orders: seq<seq<Case>>) {
    forall r :: 0 <= r < |orders| ==> multiset(orders[r]) == multiset(cases)
  }

  /** Every repetition is some arrangement of the cases. */
  ghost predicate Shuffles(cases: seq<Case>, orders: seq<seq<Case>>) {
    forall r :: 0 <= r < |orders| ==> IsArrangement(cases, orders[r])
  }

  ghost predicate IsArrangement(cases: seq<Case>, order: seq<Case>) {
    |order| == |cases| && DistinctIds(order) && forall c :: c in order <==> c in cases
  }

  /** A shuffle of distinct cases is an arrangement of them. */
  lemma {:induction false} ShuffleIsArrangement(cases: seq<Case>, order: seq<Case>)
    requires DistinctIds(cases) && multiset(order) == multiset(cases)
    ensures IsArrangement(cases, order)
  {
    assert |multiset(order)| == |multiset(cases)|;
    forall c
      ensures c in order <==> c in cases
    {
      assert c in multiset(order) <==> c in multiset(cases);
    }
    forall i, j | 0 <= i < j < |order|
      ensures order[i].id != order[j].id
    {
      assert order[i] in cases && order[j] in cases;
      var a :| 0 <= a < |cases| && cases[a] == order[i];
      var b :| 0 <= b < |cases| && cases[b] == order[j];
      if order[i] == order[j] {
        TwiceInMultiset(order, i, j);
        OnceInMultiset(cases, order[i]);
        assert false;
      }
    }
  }

  lemma TwiceInMultiset(s: seq<Case>, i: nat, j: nat)
    requires i < j < |s| && s[i] == s[j]
    ensures multiset(s)[s[i]] >= 2
  {
    assert s == s[..i] + [s[i]] + s[i + 1..j] + [s[j]] + s[j + 1..];
  }

  lemma {:induction false} OnceInMultiset(cases: seq<Case>, c: Case)
    requires DistinctIds(cases)
    ensures multiset(cases)[c] <= 1
  {
    if cases != [] {
      var init, last := cases[..|cases| - 1], cases[|cases| - 1];
      OnceInMultiset(init, c);
      assert cases == init + [last];
      if last == c {
        assert c !in init;
      }
    }
  }

  lemma ArmsAt(selected: set<string>, c: Case, repetition: nat, position: nat, count: nat, slot: nat)
    requires slot < 2
    ensures Arms(selected, c, repetition, position, count, 2)[slot] == EntryFor(selected, c, repetition, position, slot, count + slot)
  {
    hide EntryFor;
  }

  lemma {:induction false} BlockAt(selected: set<string>, order: seq<Case>, repetition: nat, m: nat, start: nat, position: nat, slot: nat)
    requires position < m <= |order| && slot < 2
    ensures Block(selected, order, repetition, m, start)[2 * position + slot]
      == EntryFor(selected, order[position], repetition, position, slot, start + 2 * position + slot)
  {
    hide EntryFor, Arms;
    if position < m - 1 {
      BlockAt(selected, order, repetition, m - 1, start, position, slot);
    } else {
      ArmsAt(selected, order[position], repetition, position, start + 2 * position, slot);
    }
  }

  /** The entries of an initial segment of repetitions come first. */
  lemma {:induction false} EntriesPrefix(selected: set<string>, orders: seq<seq<Case>>, r: nat, n: nat)
    requires r <= n <= |orders|
    ensures Entries(selected, orders, r) <= Entries(selected, orders, n)
  {
    if r < n {
      EntriesPrefix(selected, orders, r, n - 1);
    }
  }

  /** Where the entry of a repetition, position and slot is, and what it is. */
  lemma EntryPlaced(selected: set<string>, orders: seq<seq<Case>>, r: nat, position: nat, slot: nat) returns (k: nat)
    requires r < |orders| && position < |orders[r]| && slot < 2
    ensures k == |Entries(selected, orders, r)| + 2 * position + slot < |Entries(selected, orders, |orders|)|
    ensures Entries(selected, orders, |orders|)[k] == EntryFor(selected, orders[r][position], r, position, slot, k)
  {
    hide EntryFor, Block;
    k := |Entries(selected, orders, r)| + 2 * position + slot;
    BlockAt(selected, orders[r], r, |orders[r]|, |Entries(selected, orders, r)|, position, slot);
    EntriesPrefix(selected, orders, r + 1, |orders|);
    assert Entries(selected, orders, r + 1)[k] == Entries(selected, orders, |orders|)[k];
  }

  /** Every index is the place of some repetition, position and slot. */
  lemma {:induction false} EntryLocated(selected: set<string>, orders: seq<seq<Case>>, n: nat, k: nat) returns (r: nat, position: nat, slot: nat)
    requires n <= |orders| && k < |Entries(selected, orders, n)|
    ensures r < n && position < |orders[r]| && slot < 2
    ensures k == |Entries(selected, orders, r)| + 2 * position + slot
  {
    var before := |Entries(selected, orders, n - 1)|;
    if k < before {
      r, position, slot := EntryLocated(selected, orders, n - 1, k);
    } else {
      r, position, slot := n - 1, (k - before) / 2, (k - before) % 2;
    }
  }

  lemma {:induction false} EntriesLength(selected: set<string>, cases: seq<Case>, orders: seq<seq<Case>>, n: nat)
    requires Shuffled(cases, orders) && n <= |orders|
    ensures |Entries(selected, orders, n)| == |cases| * n * 2
  {
    hide Block;
    if n > 0 {
      EntriesLength(selected, cases, orders, n - 1);
      assert |multiset(orders[n - 1])| == |multiset(cases)|;
      OneMore(|cases|, n);
    }
  }

  lemma OneMore(a: int, n: int)
    ensures a * n * 2 == a * (n - 1) * 2 + 2 * a
  {
  }

  // ---- The guarantees ----

  /** Each entry has its number, its own case's type and policy, and an arm fixed by position and repetition. */
  lemma EntryIs(selected: set<string>, orders: seq<seq<Case>>, k: nat) returns (r: nat, position: nat, slot: nat)
    requires k < |Entries(selected, orders, |orders|)|
    ensures r < |orders| && position < |orders[r]| && slot < 2 && k == |Entries(selected, orders, r)| + 2 * position + slot
    ensures Entries(selected, orders, |orders|)[k] == EntryFor(selected, orders[r][position], r, position, slot, k)
  {
    r, position, slot := EntryLocated(selected, orders, |orders|, k);
    var k' := EntryPlaced(selected, orders, r, position, slot);
  }

  lemma ArmsDiffer(first: nat, a: nat, b: nat)
    requires first < 2 && a < 2 && b < 2 && ArmAt(first, a) == ArmAt(first, b)
    ensures a == b
  {
  }

  /** No unit occurs twice. */
  lemma UnitsDistinct(selected: set<string>, cases: seq<Case>, orders: seq<seq<Case>>, j: nat, k: nat)
    requires Shuffles(cases, orders)
    requires j < |Entries(selected, orders, |orders|)| && k < |Entries(selected, orders, |orders|)|
    requires UnitOf(Entries(selected, orders, |orders|)[j]) == UnitOf(Entries(selected, orders, |orders|)[k])
    ensures j == k
  {
    hide Entries, ArmAt;
    var r, p, s := EntryIs(selected, orders, j);
    var r', p', s' := EntryIs(selected, orders, k);
    assert IsArrangement(cases, orders[r]);
    assert orders[r][p].id == orders[r][p'].id;
    assert p == p';
    ArmsDiffer((p + r) % 2, s, s');
  }

  predicate NoUnitTwice(entries: seq<Entry>) {
    forall j, k :: 0 <= j < k < |entries| ==> UnitOf(entries[j]) != UnitOf(entries[k])
  }

  lemma TwiceOrNew(front: seq<Entry>, last: Entry)
    ensures NoUnitTwice(front + [last]) <==> NoUnitTwice(front) && UnitOf(last) !in Observed(front)
    ensures Observed(front + [last]) == Observed(front) + {UnitOf(last)}
  {
    var entries := front + [last];
    if UnitOf(last) in Observed(front) {
      var e :| e in front && UnitOf(e) == UnitOf(last);
      var j :| 0 <= j < |front| && front[j] == e;
      assert UnitOf(entries[j]) == UnitOf(entries[|front|]);
    } else {
      assert forall j :: 0 <= j < |front| ==> UnitOf(front[j]) in Observed(front);
    }
    if NoUnitTwice(entries) {
      forall j, k | 0 <= j < k < |front|
        ensures UnitOf(front[j]) != UnitOf(front[k])
      {
        assert entries[j] == front[j] && entries[k] == front[k];
      }
    }
  }

  /** There are as many units as entries exactly when no unit occurs twice. */
  lemma {:induction false} ObservedSize(entries: seq<Entry>)
    ensures |Observed(entries)| <= |entries|
    ensures |Observed(entries)| == |entries| <==> NoUnitTwice(entries)
  {
    if entries != [] {
      var front, last := entries[..|entries| - 1], entries[|entries| - 1];
      ObservedSize(front);
      assert entries == front + [last];
      hide Observed, NoUnitTwice;
      TwiceOrNew(front, last);
    }
  }

  /** A repeated id keeps one type; distinct ids keep their own. */
  lemma {:induction false} CaseTypesExact(cases: seq<Case>, id: string)
    requires DistinctIds(cases)
    ensures id in CaseTypes(cases) <==> exists i :: 0 <= i < |cases| && cases[i].id == id
    ensures forall i :: 0 <= i < |cases| && cases[i].id == id ==> CaseTypes(cases)[id] == cases[i].kind
  {
    if cases != [] {
      var init, last := cases[..|cases| - 1], cases[|cases| - 1];
      CaseTypesExact(init, id);
      assert forall i :: 0 <= i < |init| ==> cases[i] == init[i];
      assert cases[|cases| - 1] == last;
    }
  }

  lemma UnitIsExpected(selected: set<string>, cases: seq<Case>, orders: seq<seq<Case>>, k: nat)
    requires DistinctIds(cases) && Shuffles(cases, orders) && k < |Entries(selected, orders, |orders|)|
    ensures UnitOf(Entries(selected, orders, |orders|)[k]) in Expected(cases, |orders|)
  {
    hide Entries;
    var r, p, s := EntryIs(selected, orders, k);
    assert IsArrangement(cases, orders[r]);
    var c := orders[r][p];
    assert c in orders[r] && c in cases;
    CaseTypesExact(cases, c.id);
    var a := ArmAt((p + r) % 2, s);
    assert a in ARMS;
    assert Unit(c.id, c.kind, r, a) in Expected(cases, |orders|);
  }

  lemma UnitIsCovered(selected: set<string>, cases: seq<Case>, orders: seq<seq<Case>>, c: Case, r: nat, a: Arm) returns (k: nat)
    requires Shuffles(cases, orders) && c in cases && r < |orders|
    ensures k < |Entries(selected, orders, |orders|)|
    ensures UnitOf(Entries(selected, orders, |orders|)[k]) == Unit(c.id, c.kind, r, a)
  {
    hide Entries;
    assert IsArrangement(cases, orders[r]);
    assert c in orders[r];
    var p :| 0 <= p < |orders[r]| && orders[r][p] == c;
    var slot := if ArmAt((p + r) % 2, 0) == a then 0 else 1;
    assert ArmAt((p + r) % 2, slot) == a;
    k := EntryPlaced(selected, orders, r, p, slot);
  }

  /** Whatever the shuffles of distinct cases, the built order covers each case, repetition and arm exactly once at
      positions 1..N and applies the selected policies. */
  lemma BuiltOrderCovers(selected: set<string>, cases: seq<Case>, orders: seq<seq<Case>>)
    requires DistinctIds(cases) && Shuffles(cases, orders) && |orders| == REPETITIONS
    ensures EntriesAccepted(cases, selected, Entries(selected, orders, |orders|))
  {
    hide Entries, Expected, Observed, EntryFor;
    var entries := Entries(selected, orders, |orders|);
    forall k | 0 <= k < |entries|
      ensures entries[k].position == k + 1 && entries[k].policy == PolicyFor(selected, entries[k].kind)
      ensures entries[k].kind in Kinds(cases)
    {
      var r, p, s := EntryIs(selected, orders, k);
      assert IsArrangement(cases, orders[r]);
      assert orders[r][p] in cases;
      EntryForFields(selected, orders[r][p], r, p, s, k);
    }
    forall j, k | 0 <= j < k < |entries|
      ensures UnitOf(entries[j]) != UnitOf(entries[k])
    {
      if UnitOf(entries[j]) == UnitOf(entries[k]) {
        UnitsDistinct(selected, cases, orders, j, k);
      }
    }
    ObservedSize(entries);
    ObservedIsExpected(selected, cases, orders);
  }

  /** Two places of an element that a sequence holds twice. */
  lemma {:induction false} TwoPlaces(s: seq<Case>, c: Case) returns (i: nat, j: nat)
    requires multiset(s)[c] >= 2
    ensures i < j < |s| && s[i] == s[j] == c
  {
    var init, last := s[..|s| - 1], s[|s| - 1];
    assert s == init + [last];
    if last == c {
      assert c in multiset(init);
      i :| 0 <= i < |init| && init[i] == c;
      j := |s| - 1;
    } else {
      i, j := TwoPlaces(init, c);
    }
  }

  /** A case that is shuffled twice into a repetition gives the same unit twice. */
  lemma TwiceShuffled(selected: set<string>, orders: seq<seq<Case>>, p: nat, p': nat)
    requires orders != [] && p < p' < |orders[0]| && orders[0][p] == orders[0][p']
    ensures !NoUnitTwice(Entries(selected, orders, |orders|))
  {
    hide Entries;
    var slot := if p % 2 == p' % 2 then 0 else 1;
    var k := EntryPlaced(selected, orders, 0, p, 0);
    var k' := EntryPlaced(selected, orders, 0, p', slot);
    assert ArmAt(p % 2, 0) == ArmAt(p' % 2, slot);
    assert UnitOf(Entries(selected, orders, |orders|)[k]) == UnitOf(Entries(selected, orders, |orders|)[k']);
  }

  /** A case of the first repetition is observed with its own type. */
  lemma TypeObserved(selected: set<string>, cases: seq<Case>, orders: seq<seq<Case>>, c: Case)
    requires orders != [] && c in orders[0]
    requires Observed(Entries(selected, orders, |orders|)) == Expected(cases, REPETITIONS)
    ensures c.id in CaseTypes(cases) && CaseTypes(cases)[c.id] == c.kind
  {
    hide Entries;
    var p :| 0 <= p < |orders[0]| && orders[0][p] == c;
    var k := EntryPlaced(selected, orders, 0, p, 0);
    var e := Entries(selected, orders, |orders|)[k];
    assert UnitOf(e) in Observed(Entries(selected, orders, |orders|));
    assert UnitOf(e) in Expected(cases, REPETITIONS);
  }

  /** The freeze rejects what is built from cases that repeat an id, with the same type or with another. */
  lemma RepeatedIdRejected(selected: set<string>, cases: seq<Case>, orders: seq<seq<Case>>)
    requires !DistinctIds(cases) && Shuffled(cases, orders) && orders != []
    ensures !EntriesAccepted(cases, selected, Entries(selected, orders, |orders|))
  {
    hide Entries, Expected, Observed;
    var entries := Entries(selected, orders, |orders|);
    var i, j :| 0 <= i < j < |cases| && cases[i].id == cases[j].id;
    ObservedSize(entries);
    assert multiset(orders[0]) == multiset(cases);
    if cases[i] == cases[j] {
      TwiceInMultiset(cases, i, j);
      var p, p' := TwoPlaces(orders[0], cases[i]);
      TwiceShuffled(selected, orders, p, p');
    } else if Observed(entries) == Expected(cases, REPETITIONS) {
      assert cases[i] in multiset(orders[0]) && cases[j] in multiset(orders[0]);
      TypeObserved(selected, cases, orders, cases[i]);
      TypeObserved(selected, cases, orders, cases[j]);
    }
  }

  /** Whatever the shuffles, what `build` returns passes the freeze checks if and only if there are twelve cases with
      distinct ids and the result limit is the manifest's: `build` itself checks neither. */
  lemma FreezesExactly(cases: seq<Case>, selected: set<string>, orders: seq<seq<Case>>, limit: int, manifestLimit: int)
    requires Shuffled(cases, orders) && BuiltOrder(cases, selected, orders, limit).Some?
    ensures FreezeAccepts(cases, selected, manifestLimit, BuiltOrder(cases, selected, orders, limit).value)
      <==> |cases| == FROZEN_CASES && DistinctIds(cases) && limit == manifestLimit
  {
    hide Entries, EntriesAccepted, DistinctIds, Shuffled;
    EntriesLength(selected, cases, orders, |orders|);
    if DistinctIds(cases) {
      ShufflesArrange(cases, orders);
      BuiltOrderCovers(selected, cases, orders);
    } else {
      RepeatedIdRejected(selected, cases, orders);
    }
  }

  lemma ShufflesArrange(cases: seq<Case>, orders: seq<seq<Case>>)
    requires DistinctIds(cases) && Shuffled(cases, orders)
    ensures Shuffles(cases, orders)
  {
    forall r | 0 <= r < |orders|
      ensures IsArrangement(cases, orders[r])
    {
      ShuffleIsArrangement(cases, orders[r]);
    }
  }

  lemma EntryForFields(selected: set<string>, c: Case, r: nat, p: nat, s: nat, k: nat)
    requires s < 2
    ensures var e := EntryFor(selected, c, r, p, s, k); e.position == k + 1 && e.kind == c.kind && e.policy == PolicyFor(selected, e.kind)
  {
  }

  lemma ObservedIsExpected(selected: set<string>, cases: seq<Case>, orders: seq<seq<Case>>)
    requires DistinctIds(cases) && Shuffles(cases, orders)
    ensures Observed(Entries(selected, orders, |orders|)) == Expected(cases, |orders|)
  {
    hide Entries;
    var entries := Entries(selected, orders, |orders|);
    forall u | u in Observed(entries)
      ensures u in Expected(cases, |orders|)
    {
      var e :| e in entries && UnitOf(e) == u;
      var k :| 0 <= k < |entries| && entries[k] == e;
      UnitIsExpected(selected, cases, orders, k);
    }
    forall u | u in Expected(cases, |orders|)
      ensures u in Observed(entries)
    {
      CaseTypesExact(cases, u.caseId);
      var i :| 0 <= i < |cases| && cases[i].id == u.caseId;
      var c, r, a := cases[i], u.repetition, u.arm;
      var k := UnitIsCovered(selected, cases, orders, c, r, a);
      assert entries[k] in entries;
    }
  }

  // ---- What the freeze checks mean for any order ----

  /** The entry is the one for a case, a repetition and an arm, with the policy selected for the case's type. */
  predicate EntryOf(e: Entry, c: Case, repetition: nat, arm: Arm, selected: set<string>) {
    && e.caseId == c.id && e.kind == c.kind && e.repetition == repetition && e.arm == arm
    && (e.policy == Full <==> c.kind in selected)
  }

  ghost predicate IsEntry(e: Entry, cases: seq<Case>, selected: set<string>) {
    e.repetition < 3 && exists c :: c in cases && EntryOf(e, c, e.repetition, e.arm, selected)
  }

  ghost predicate HasEntry(entries: seq<Entry>, c: Case, repetition: nat, arm: Arm, selected: set<string>) {
    exists k :: 0 <= k < |entries| && EntryOf(entries[k], c, repetition, arm, selected)
  }

  predicate SameSlot(d: Entry, e: Entry) {
    d.caseId == e.caseId && d.repetition == e.repetition && d.arm == e.arm
  }

  /** Every case, repetition and arm has exactly one entry, every entry is one of these, and they are numbered in order. */
  ghost predicate CoversOnce(cases: seq<Case>, selected: set<string>, entries: seq<Entry>) {
    && (forall k :: 0 <= k < |entries| ==> entries[k].position == k + 1 && IsEntry(entries[k], cases, selected))
    && (forall c, r, a :: c in cases && 0 <= r < 3 ==> HasEntry(entries, c, r, a, selected))
    && (forall j, k :: 0 <= j < k < |entries| ==> !SameSlot(entries[j], entries[k]))
  }

  lemma EveryArm(a: Arm)
    ensures a in ARMS
  {
    assert ARMS[0] == FlatHttp && ARMS[1] == RecordedContinuation;
  }

  lemma ExpectedExactly(cases: seq<Case>, u: Unit)
    requires DistinctIds(cases)
    ensures u in Expected(cases, REPETITIONS) <==>
      u.repetition < 3 && exists c :: c in cases && u.caseId == c.id && u.kind == c.kind
  {
    CaseTypesExact(cases, u.caseId);
    EveryArm(u.arm);
    if u in Expected(cases, REPETITIONS) {
      var i :| 0 <= i < |cases| && cases[i].id == u.caseId;
      assert cases[i] in cases;
    }
    if c :| c in cases && u.caseId == c.id && u.kind == c.kind {
      var i :| 0 <= i < |cases| && cases[i] == c;
      assert cases[i].id == u.caseId;
    }
  }

  /** One entry is for an expected unit with the right policy exactly when it is an entry of some case. */
  lemma IsEntryExactly(cases: seq<Case>, selected: set<string>, e: Entry)
    requires DistinctIds(cases)
    ensures IsEntry(e, cases, selected) <==>
      UnitOf(e) in Expected(cases, REPETITIONS) && e.kind in Kinds(cases) && e.policy == PolicyFor(selected, e.kind)
  {
    hide Expected;
    ExpectedExactly(cases, UnitOf(e));
    if UnitOf(e) in Expected(cases, REPETITIONS) && e.policy == PolicyFor(selected, e.kind) {
      var c :| c in cases && e.caseId == c.id && e.kind == c.kind;
      assert EntryOf(e, c, e.repetition, e.arm, selected);
    }
  }

  lemma ObservedAt(entries: seq<Entry>, u: Unit)
    ensures u in Observed(entries) <==> exists k :: 0 <= k < |entries| && UnitOf(entries[k]) == u
  {
    if u in Observed(entries) {
      var e :| e in entries && UnitOf(e) == u;
      var k :| 0 <= k < |entries| && entries[k] == e;
    }
    if k :| 0 <= k < |entries| && UnitOf(entries[k]) == u {
      assert entries[k] in entries;
    }
  }

  lemma AcceptedHasEntry(cases: seq<Case>, selected: set<string>, entries: seq<Entry>, c: Case, r: nat, a: Arm)
    requires DistinctIds(cases) && EntriesAccepted(cases, selected, entries) && c in cases && r < 3
    ensures HasEntry(entries, c, r, a, selected)
  {
    hide Expected, Observed;
    var u := Unit(c.id, c.kind, r, a);
    ExpectedExactly(cases, u);
    ObservedAt(entries, u);
    var k :| 0 <= k < |entries| && UnitOf(entries[k]) == u;
    assert EntryOf(entries[k], c, r, a, selected);
  }

  lemma SameIdSameKind(cases: seq<Case>, selected: set<string>, d: Entry, e: Entry)
    requires DistinctIds(cases) && IsEntry(d, cases, selected) && IsEntry(e, cases, selected) && d.caseId == e.caseId
    ensures d.kind == e.kind
  {
    var c :| c in cases && EntryOf(d, c, d.repetition, d.arm, selected);
    var b :| b in cases && EntryOf(e, b, e.repetition, e.arm, selected);
  }

  lemma AcceptedCovers(cases: seq<Case>, selected: set<string>, entries: seq<Entry>)
    requires DistinctIds(cases) && EntriesAccepted(cases, selected, entries)
    ensures CoversOnce(cases, selected, entries)
  {
    hide Expected, IsEntry, HasEntry, DistinctIds;
    ObservedSize(entries);
    forall k | 0 <= k < |entries|
      ensures IsEntry(entries[k], cases, selected)
    {
      ObservedAt(entries, UnitOf(entries[k]));
      IsEntryExactly(cases, selected, entries[k]);
    }
    forall c, r, a | c in cases && 0 <= r < 3
      ensures HasEntry(entries, c, r, a, selected)
    {
      AcceptedHasEntry(cases, selected, entries, c, r, a);
    }
    forall j, k | 0 <= j < k < |entries|
      ensures !SameSlot(entries[j], entries[k])
    {
      if SameSlot(entries[j], entries[k]) {
        SameIdSameKind(cases, selected, entries[j], entries[k]);
      }
    }
  }

  lemma CoveringObserved(cases: seq<Case>, selected: set<string>, entries: seq<Entry>, u: Unit)
    requires DistinctIds(cases) && CoversOnce(cases, selected, entries)
    ensures u in Observed(entries) <==> u in Expected(cases, REPETITIONS)
  {
    hide Expected, Observed, IsEntry;
    ObservedAt(entries, u);
    ExpectedExactly(cases, u);
    if k :| 0 <= k < |entries| && UnitOf(entries[k]) == u {
      IsEntryExactly(cases, selected, entries[k]);
    }
    if u in Expected(cases, REPETITIONS) {
      var c :| c in cases && u.caseId == c.id && u.kind == c.kind;
      assert HasEntry(entries, c, u.repetition, u.arm, selected);
      var k :| 0 <= k < |entries| && EntryOf(entries[k], c, u.repetition, u.arm, selected);
      assert UnitOf(entries[k]) == u;
    }
  }

  lemma CoveringAccepted(cases: seq<Case>, selected: set<string>, entries: seq<Entry>)
    requires DistinctIds(cases) && CoversOnce(cases, selected, entries)
    ensures EntriesAccepted(cases, selected, entries)
  {
    hide Expected, Observed, IsEntry, HasEntry, DistinctIds;
    ObservedSize(entries);
    assert forall j, k :: 0 <= j < k < |entries| ==> !SameSlot(entries[j], entries[k]);
    assert NoUnitTwice(entries);
    forall u
      ensures u in Observed(entries) <==> u in Expected(cases, REPETITIONS)
    {
      CoveringObserved(cases, selected, entries, u);
    }
    forall k | 0 <= k < |entries|
      ensures entries[k].kind in Kinds(cases) && entries[k].policy == PolicyFor(selected, entries[k].kind)
    {
      IsEntryExactly(cases, selected, entries[k]);
    }
  }

  /** For any entries whatever, the position, unit and policy checks accept them exactly when they cover every case,
      repetition and arm once, in numbered order, with the selected policies. */
  lemma EntriesAcceptedExactly(cases: seq<Case>, selected: set<string>, entries: seq<Entry>)
    requires DistinctIds(cases)
    ensures EntriesAccepted(cases, selected, entries) <==> CoversOnce(cases, selected, entries)
  {
    hide EntriesAccepted, CoversOnce;
    if EntriesAccepted(cases, selected, entries) {
      AcceptedCovers(cases, selected, entries);
    }
    if CoversOnce(cases, selected, entries) {
      CoveringAccepted(cases, selected, entries);
    }
  }

  /** For any order whatever, the freeze accepts it exactly when there are twelve cases, the order names both arms, three
      repetitions and the manifest's result limit, its policies are full for the selected types and fixed for the others,
      and its entries, as many as there are units, cover every unit once. */
  lemma FreezeAcceptsExactly(cases: seq<Case>, selected: set<string>, resultLimit: int, order: Order)
    requires DistinctIds(cases)
    ensures FreezeAccepts(cases, selected, resultLimit, order) <==>
      && |cases| == 12 && order.arms == [FlatHttp, RecordedContinuation] && order.repetitions == 3
      && order.resultLimit == resultLimit && |order.entries| == 72
      && (forall kind :: kind in order.policies <==> exists c :: c in cases && c.kind == kind)
      && (forall kind :: kind in order.policies ==> (order.policies[kind] == Full <==> kind in selected))
      && CoversOnce(cases, selected, order.entries)
  {
    hide EntriesAccepted, CoversOnce, DistinctIds;
    EntriesAcceptedExactly(cases, selected, order.entries);
    PoliciesExactly(cases, selected, order.policies);
    assert |ARMS| == 2;
  }

  lemma PoliciesExactly(cases: seq<Case>, selected: set<string>, policies: map<string, Policy>)
    ensures policies == PolicyByType(cases, selected) <==>
      && (forall kind :: kind in policies <==> exists c :: c in cases && c.kind == kind)
      && (forall kind :: kind in policies ==> (policies[kind] == Full <==> kind in selected))
  {
    assert forall kind :: kind in Kinds(cases) <==> exists c :: c in cases && c.kind == kind;
    var built := PolicyByType(cases, selected);
    if (forall kind :: kind in policies <==> exists c :: c in cases && c.kind == kind)
      && (forall kind :: kind in policies ==> (policies[kind] == Full <==> kind in selected)) {
      assert policies.Keys == built.Keys;
      assert policies == built;
    }
  }

  /** The two arms of a case are next to each other, in different order for neighbouring positions. */
  lemma ArmsAdjacent(selected: set<string>, orders: seq<seq<Case>>, r: nat, p: nat)
    requires r < |orders| && p < |orders[r]|
    ensures var k := |Entries(selected, orders, r)| + 2 * p;
      var entries := Entries(selected, orders, |orders|);
      && k + 1 < |entries|
      && entries[k].caseId == entries[k + 1].caseId == orders[r][p].id
      && entries[k].repetition == entries[k + 1].repetition == r
      && entries[k].arm == ARMS[(p + r) % 2] && entries[k + 1].arm == ARMS[1 - (p + r) % 2]
  {
    hide Entries;
    var k := EntryPlaced(selected, orders, r, p, 0);
    var k' := EntryPlaced(selected, orders, r, p, 1);
  }

  /** How many of the first `m` cases of a repetition run the given arm first. */
  function RunsFirst(entries: seq<Entry>, start: nat, m: nat, arm: Arm): nat
    requires start + 2 * m <= |entries|
  {
    if m == 0 then 0
    else
      var here := if entries[start + 2 * (m - 1)].arm == arm then 1 else 0;
      RunsFirst(entries, start, m - 1, arm) + here
  }

  lemma {:induction false} BalanceUpTo(selected: set<string>, orders: seq<seq<Case>>, r: nat, m: nat)
    requires r < |orders| && m <= |orders[r]|
    requires |Entries(selected, orders, r)| + 2 * m <= |Entries(selected, orders, |orders|)|
    ensures var entries, start := Entries(selected, orders, |orders|), |Entries(selected, orders, r)|;
      RunsFirst(entries, start, m, FlatHttp) - RunsFirst(entries, start, m, RecordedContinuation)
        == (if m % 2 == 0 then 0 else if r % 2 == 0 then 1 else -1)
  {
    hide Entries;
    if m > 0 {
      BalanceUpTo(selected, orders, r, m - 1);
      ArmsAdjacent(selected, orders, r, m - 1);
    }
  }

  /** Within each repetition, which arm goes first is balanced within one. */
  lemma Balanced(selected: set<string>, orders: seq<seq<Case>>, r: nat)
    requires r < |orders|
    ensures var entries, start, n := Entries(selected, orders, |orders|), |Entries(selected, orders, r)|, |orders[r]|;
      && start + 2 * n <= |entries|
      && -1 <= RunsFirst(entries, start, n, FlatHttp) - RunsFirst(entries, start, n, RecordedContinuation) <= 1
  {
    EntriesPrefix(selected, orders, r + 1, |orders|);
    BalanceUpTo(selected, orders, r, |orders[r]|);
  }
}
