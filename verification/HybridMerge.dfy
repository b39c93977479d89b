/** Blending web and vector results: floors first, then a round-robin over two cursors. */
module HybridMerge {

  // ---- Normal forms ----

  function Norms(normal: string -> string, urls: seq<string>): (r: seq<string>)
    ensures |r| == |urls| && forall i :: 0 <= i < |urls| ==> r[i] == normal(urls[i])
  {
    seq(|urls|, i requires 0 <= i < |urls| => normal(urls[i]))
  }

  /** The first occurrences, in order: how the web list is deduplicated. */
  function Firsts(norms: seq<string>): (r: seq<string>)
    ensures forall n :: n in r <==> n in norms
  {
    if norms == [] then []
    else
      var last := |norms| - 1;
      assert norms == norms[..last] + [norms[last]];
      if norms[last] in Firsts(norms[..last]) then Firsts(norms[..last]) else Firsts(norms[..last]) + [norms[last]]
  }

  // ---- Blending, on normal forms; `out` doubles as the set of seen ones ----

  /** `take`: up to `count` unseen entries from index `j` on, as long as there is room. */
  function Take(order: seq<string>, j: nat, count: int, out: seq<string>, limit: int): seq<string>
    requires j <= |order|
    decreases |order| - j
  {
    if j == |order| || count <= 0 || |out| >= limit then out
    else if order[j] in out then Take(order, j + 1, count, out, limit)
    else Take(order, j + 1, count - 1, out + [order[j]], limit)
  }

  /** The cursor moved past seen entries. */
  function Skip(order: seq<string>, i: nat, out: seq<string>): (k: nat)
    requires i <= |order|
    ensures i <= k <= |order| && (k < |order| ==> order[k] !in out)
    ensures forall x :: i <= x < k ==> order[x] in out
    decreases |order| - i
  {
    if i < |order| && order[i] in out then Skip(order, i + 1, out) else i
  }

  /** What one round appends when both cursors point at unseen entries (or past the end). */
  function Round(web: seq<string>, vec: seq<string>, w: nat, v: nat, out: seq<string>, limit: int): seq<string>
    requires w <= |web| && v <= |vec|
  {
    var first := if w < |web| then out + [web[w]] else out;
    if |first| < limit && v < |vec| then first + [vec[v]] else first
  }

  function Rounds(web: seq<string>, vec: seq<string>, wi: nat, vi: nat, out: seq<string>, limit: int): seq<string>
    requires wi <= |web| && vi <= |vec|
    decreases |web| - wi + |vec| - vi
  {
    if |out| >= limit || (wi == |web| && vi == |vec|) then out
    else
      var w, v := Skip(web, wi, out), Skip(vec, vi, out);
      if w == |web| && v == |vec| then out
      else
        var first := if w < |web| then out + [web[w]] else out;
        var w' := if w < |web| then w + 1 else w;
        var v' := if |first| < limit && v < |vec| then v + 1 else v;
        Rounds(web, vec, w', v', Round(web, vec, w, v, out, limit), limit)
  }

  function Floor(limit: int, others: nat): int {
    if limit - others > 0 then limit - others else 0
  }

  /** The blended list of normal forms. */
  function Blend(web: seq<string>, vec: seq<string>, limit: int): seq<string> {
    var floored := Take(web, 0, Floor(limit, |vec|), [], limit);
    var both := Take(vec, 0, Floor(limit, |web|), floored, limit);
    Rounds(web, vec, 0, 0, both, limit)
  }

  // ---- The loops of `_new_merge` ----

  method TakeLoop(order: seq<string>, count: int, before: seq<string>, limit: int) returns (out: seq<string>)
    ensures out == Take(order, 0, count, before, limit)
  {
    out := before;
    var seen := set n | n in before;
    var taken := 0;
    for j := 0 to |order|
      invariant forall n :: n in seen <==> n in out
      invariant Take(order, 0, count, before, limit) == Take(order, j, count - taken, out, limit)
    {
      if taken >= count || |out| >= limit {
        return;
      }
      if order[j] !in seen {
        out := out + [order[j]];
        seen := seen + {order[j]};
        taken := taken + 1;
      }
    }
  }

  method SkipLoop(order: seq<string>, i: nat, seen: set<string>, ghost out: seq<string>) returns (k: nat)
    requires i <= |order| && forall n :: n in seen <==> n in out
    ensures k == Skip(order, i, out)
  {
    k := i;
    while k < |order| && order[k] in seen
      invariant i <= k <= |order| && Skip(order, i, out) == Skip(order, k, out)
    {
      k := k + 1;
    }
  }

  function NextWeb(web: seq<string>, w: nat): nat {
    if w < |web| then w + 1 else w
  }

  function NextVector(web: seq<string>, vec: seq<string>, w: nat, v: nat, out: seq<string>, limit: int): nat {
    if (if w < |web| then |out| + 1 else |out|) < limit && v < |vec| then v + 1 else v
  }

  lemma RoundsStep(web: seq<string>, vec: seq<string>, wi: nat, vi: nat, out: seq<string>, limit: int)
    requires wi <= |web| && vi <= |vec|
    ensures |out| >= limit || (wi == |web| && vi == |vec|) ==> Rounds(web, vec, wi, vi, out, limit) == out
    ensures |out| < limit ==>
      var w, v := Skip(web, wi, out), Skip(vec, vi, out);
      Rounds(web, vec, wi, vi, out, limit) ==
        if w == |web| && v == |vec| then out
        else Rounds(web, vec, NextWeb(web, w), NextVector(web, vec, w, v, out, limit), Round(web, vec, w, v, out, limit), limit)
  {
  }

  /** One pass of the round-robin loop, from cursors at unseen entries. */
  method RoundLoop(web: seq<string>, vec: seq<string>, w: nat, v: nat, before: seq<string>, limit: int)
      returns (wi: nat, vi: nat, out: seq<string>, advanced: bool)
    requires w <= |web| && v <= |vec| && |before| < limit
    ensures out == Round(web, vec, w, v, before, limit)
    ensures wi == NextWeb(web, w) && vi == NextVector(web, vec, w, v, before, limit)
    ensures advanced <==> w < |web| || v < |vec|
  {
    wi, vi, out, advanced := w, v, before, false;
    if wi < |web| {
      out := out + [web[wi]];
      wi := wi + 1;
      advanced := true;
    }
    if |out| < limit && vi < |vec| {
      out := out + [vec[vi]];
      vi := vi + 1;
      advanced := true;
    }
  }

  method BlendLoop(web: seq<string>, vec: seq<string>, limit: int) returns (out: seq<string>)
    ensures out == Blend(web, vec, limit)
  {
    hide Rounds, Take;
    out := TakeLoop(web, Floor(limit, |vec|), [], limit);
    out := TakeLoop(vec, Floor(limit, |web|), out, limit);
    ghost var start := out;
    var wi: nat, vi: nat := 0, 0;
    while |out| < limit && (wi < |web| || vi < |vec|)
      invariant wi <= |web| && vi <= |vec|
      invariant Rounds(web, vec, 0, 0, start, limit) == Rounds(web, vec, wi, vi, out, limit)
      decreases |web| - wi + |vec| - vi
    {
      RoundsStep(web, vec, wi, vi, out, limit);
      var seen := set n | n in out;
      var w := SkipLoop(web, wi, seen, out);
      var v := SkipLoop(vec, vi, seen, out);
      var advanced;
      wi, vi, out, advanced := RoundLoop(web, vec, w, v, out, limit);
      if !advanced {
        break;
      }
    }
    RoundsStep(web, vec, wi, vi, out, limit);
  }

  // ---- What the blend guarantees ----

  /** The same normal form twice is a web entry directly followed by a vector entry. */
  predicate RepeatsAdjacent(web: seq<string>, vec: seq<string>, out: seq<string>) {
    forall i, j :: 0 <= i < j < |out| && out[i] == out[j] ==> j == i + 1 && out[i] in web && out[i] in vec
  }

  predicate From(web: seq<string>, vec: seq<string>, out: seq<string>) {
    forall n :: n in out ==> n in web || n in vec
  }

  predicate Within(out: seq<string>, limit: int) {
    |out| == 0 || |out| <= limit
  }

  predicate Sound(web: seq<string>, vec: seq<string>, out: seq<string>, limit: int) {
    RepeatsAdjacent(web, vec, out) && From(web, vec, out) && Within(out, limit)
  }

  lemma AppendNew(web: seq<string>, vec: seq<string>, out: seq<string>, n: string)
    requires RepeatsAdjacent(web, vec, out) && n !in out
    ensures RepeatsAdjacent(web, vec, out + [n])
  {
  }

  lemma {:induction false} TakeSound(web: seq<string>, vec: seq<string>, order: seq<string>, j: nat, count: int, out: seq<string>, limit: int)
    requires j <= |order| && (order == web || order == vec) && Sound(web, vec, out, limit)
    ensures Sound(web, vec, Take(order, j, count, out, limit), limit)
    decreases |order| - j
  {
    if j < |order| && count > 0 && |out| < limit {
      if order[j] in out {
        TakeSound(web, vec, order, j + 1, count, out, limit);
      } else {
        AppendNew(web, vec, out, order[j]);
        TakeSound(web, vec, order, j + 1, count - 1, out + [order[j]], limit);
      }
    }
  }

  lemma RoundSound(web: seq<string>, vec: seq<string>, w: nat, v: nat, out: seq<string>, limit: int)
    requires w <= |web| && v <= |vec| && Sound(web, vec, out, limit) && |out| < limit
    requires (w < |web| ==> web[w] !in out) && (v < |vec| ==> vec[v] !in out)
    ensures Sound(web, vec, Round(web, vec, w, v, out, limit), limit)
  {
    var first := if w < |web| then out + [web[w]] else out;
    if w < |web| {
      AppendNew(web, vec, out, web[w]);
    }
    if |first| < limit && v < |vec| {
      if vec[v] !in first {
        AppendNew(web, vec, first, vec[v]);
      } else {
        assert vec[v] == web[w] && first[|out|] == web[w];
      }
    }
  }

  /** Everything before the cursors has been placed. */
  predicate Placed(order: seq<string>, i: nat, out: seq<string>)
    requires i <= |order|
  {
    forall x :: 0 <= x < i ==> order[x] in out
  }

  lemma {:induction false} RoundsSound(web: seq<string>, vec: seq<string>, wi: nat, vi: nat, out: seq<string>, limit: int)
    requires wi <= |web| && vi <= |vec| && Sound(web, vec, out, limit)
    requires Placed(web, wi, out) && Placed(vec, vi, out)
    ensures var r := Rounds(web, vec, wi, vi, out, limit);
      Sound(web, vec, r, limit) && (|r| >= limit || (Placed(web, |web|, r) && Placed(vec, |vec|, r)))
    decreases |web| - wi + |vec| - vi
  {
    hide Sound, Rounds, Skip;
    RoundsStep(web, vec, wi, vi, out, limit);
    if |out| < limit && (wi < |web| || vi < |vec|) {
      var w, v := Skip(web, wi, out), Skip(vec, vi, out);
      if w < |web| || v < |vec| {
        var out' := Round(web, vec, w, v, out, limit);
        RoundSound(web, vec, w, v, out, limit);
        RoundPlaces(web, vec, w, v, out, limit);
        RoundsSound(web, vec, NextWeb(web, w), NextVector(web, vec, w, v, out, limit), out', limit);
      }
    }
  }

  /** A round keeps everything before its cursors placed. */
  lemma RoundPlaces(web: seq<string>, vec: seq<string>, w: nat, v: nat, out: seq<string>, limit: int)
    requires w <= |web| && v <= |vec| && Placed(web, w, out) && Placed(vec, v, out)
    ensures NextWeb(web, w) <= |web| && NextVector(web, vec, w, v, out, limit) <= |vec|
    ensures Placed(web, NextWeb(web, w), Round(web, vec, w, v, out, limit))
    ensures Placed(vec, NextVector(web, vec, w, v, out, limit), Round(web, vec, w, v, out, limit))
  {
    var r := Round(web, vec, w, v, out, limit);
    assert forall n :: n in out ==> n in r;
    assert w < |web| ==> r[|out|] == web[w];
    assert NextVector(web, vec, w, v, out, limit) > v ==> r[|r| - 1] == vec[v];
  }

  /** The blend never exceeds the limit, fills it or holds every distinct normal form, invents nothing, and
      repeats only in an adjacent web/vector pair; lists without a common normal form give no repeats. */
  lemma BlendGuarantees(web: seq<string>, vec: seq<string>, limit: int)
    ensures var out := Blend(web, vec, limit);
      && (limit >= 0 ==> |out| <= limit) && (limit < 0 ==> out == [])
      && (limit >= 0 ==> |out| == limit || forall n :: n in web || n in vec ==> n in out)
      && From(web, vec, out) && RepeatsAdjacent(web, vec, out)
      && ((forall n :: n in web ==> n !in vec) ==> forall i, j :: 0 <= i < j < |out| ==> out[i] != out[j])
  {
    var floored := Take(web, 0, Floor(limit, |vec|), [], limit);
    TakeSound(web, vec, web, 0, Floor(limit, |vec|), [], limit);
    var both := Take(vec, 0, Floor(limit, |web|), floored, limit);
    TakeSound(web, vec, vec, 0, Floor(limit, |web|), floored, limit);
    RoundsSound(web, vec, 0, 0, both, limit);
  }

  // ---- Floors and interleaving ----

  predicate Distinct(order: seq<string>) {
    forall i, j :: 0 <= i < j < |order| ==> order[i] != order[j]
  }

  lemma {:induction false} FirstsDistinct(norms: seq<string>)
    ensures Distinct(Firsts(norms))
  {
    if norms != [] {
      FirstsDistinct(norms[..|norms| - 1]);
    }
  }

  function Least(a: int, b: int): int {
    if a < b then a else b
  }

  predicate Disjoint(web: seq<string>, vec: seq<string>) {
    forall i, j :: 0 <= i < |web| && 0 <= j < |vec| ==> web[i] != vec[j]
  }

  /** Taking from a list without repeats, none of which is placed beyond its own prefix, takes the next entries in order. */
  lemma {:induction false} TakeFresh(order: seq<string>, j: nat, count: nat, before: seq<string>, limit: int)
    requires Distinct(order) && Disjoint(order, before) && j <= |order| && |before| + j + count <= limit
    ensures Take(order, j, count, before + order[..j], limit) == before + order[..Least(j + count, |order|)]
    decreases |order| - j
  {
    if j < |order| && count > 0 {
      assert order[j] !in before && order[j] !in order[..j];
      assert before + order[..j] + [order[j]] == before + order[..j + 1];
      TakeFresh(order, j + 1, count - 1, before, limit);
    } else {
      assert before + order[..j] == before + order[..Least(j + count, |order|)];
    }
  }

  /** Taking adds unseen entries only, at most `count`, and stops short only when it is full or everything is placed. */
  lemma {:induction false} TakeShape(order: seq<string>, j: nat, count: nat, out: seq<string>, limit: int)
    requires j <= |order| && Placed(order, j, out)
    ensures var r := Take(order, j, count, out, limit);
      && out <= r && |r| - |out| <= count
      && (forall x :: |out| <= x < |r| ==> r[x] in order && r[x] !in out)
      && (|r| - |out| == count || |r| >= limit || Placed(order, |order|, r))
    decreases |order| - j
  {
    if j < |order| && count > 0 && |out| < limit {
      if order[j] in out {
        TakeShape(order, j + 1, count, out, limit);
      } else {
        TakeShape(order, j + 1, count - 1, out + [order[j]], limit);
      }
    }
  }

  lemma {:induction false} RoundsExtend(web: seq<string>, vec: seq<string>, wi: nat, vi: nat, out: seq<string>, limit: int)
    requires wi <= |web| && vi <= |vec|
    ensures out <= Rounds(web, vec, wi, vi, out, limit)
    decreases |web| - wi + |vec| - vi
  {
    hide Rounds, Skip;
    RoundsStep(web, vec, wi, vi, out, limit);
    if |out| < limit && (wi < |web| || vi < |vec|) {
      var w, v := Skip(web, wi, out), Skip(vec, vi, out);
      if w < |web| || v < |vec| {
        RoundsExtend(web, vec, NextWeb(web, w), NextVector(web, vec, w, v, out, limit), Round(web, vec, w, v, out, limit), limit);
      }
    }
  }

  /** The places that a list of `others` entries cannot fill. */
  function Spare(limit: nat, others: nat): nat {
    if others < limit then limit - others else 0
  }

  /** The floor guarantee: the blend starts with the web entries that the vector list cannot displace, followed by the
      vector entries that the web list cannot displace (all of them, if there are fewer). */
  lemma BlendFloors(web: seq<string>, vec: seq<string>, limit: nat) returns (split: nat)
    requires Distinct(web)
    ensures var out := Blend(web, vec, limit);
      var floor := Least(Spare(limit, |vec|), |web|);
      && floor <= split <= |out| && out[..floor] == web[..floor]
      && (forall x :: floor <= x < split ==> out[x] in vec && out[x] !in web[..floor])
      && (split - floor == Spare(limit, |web|) || split >= limit || Placed(vec, |vec|, out[..split]))
  {
    hide Rounds, Take;
    assert [] + web[..0] == [];
    TakeFresh(web, 0, Floor(limit, |vec|), [], limit);
    var floored := Take(web, 0, Floor(limit, |vec|), [], limit);
    TakeShape(vec, 0, Floor(limit, |web|), floored, limit);
    var both := Take(vec, 0, Floor(limit, |web|), floored, limit);
    RoundsExtend(web, vec, 0, 0, both, limit);
    split := |both|;
    var out := Blend(web, vec, limit);
    assert out[..split] == both;
    assert out[..|floored|] == both[..|floored|];
  }

  /** Two lists in turn, and what is left of the longer one. */
  function Zip(a: seq<string>, b: seq<string>): seq<string> {
    if a == [] then b else if b == [] then a else [a[0], b[0]] + Zip(a[1..], b[1..])
  }

  function Cut(s: seq<string>, n: nat): seq<string> {
    if |s| <= n then s else s[..n]
  }

  /** Exactly the first `i` entries of a list have been placed. */
  predicate PlacedUpTo(order: seq<string>, i: nat, out: seq<string>)
    requires i <= |order|
  {
    Placed(order, i, out) && forall x :: i <= x < |order| ==> order[x] !in out
  }

  lemma SkipTo(order: seq<string>, from: nat, i: nat, out: seq<string>)
    requires from <= i <= |order| && PlacedUpTo(order, i, out)
    ensures Skip(order, from, out) == i
  {
    var k := Skip(order, from, out);
    assert k < |order| ==> order[k] !in out;
    assert i < |order| ==> order[i] !in out;
  }

  /** Placing the next entry of a list without repeats. */
  lemma PlaceNext(order: seq<string>, i: nat, out: seq<string>)
    requires Distinct(order) && i < |order| && PlacedUpTo(order, i, out)
    ensures PlacedUpTo(order, i + 1, out + [order[i]])
  {
    assert forall x :: 0 <= x < i ==> order[x] in out;
  }

  /** Placing an entry of the other list. */
  lemma PlaceOther(order: seq<string>, i: nat, out: seq<string>, x: string)
    requires i <= |order| && PlacedUpTo(order, i, out) && forall k :: 0 <= k < |order| ==> order[k] != x
    ensures PlacedUpTo(order, i, out + [x])
  {
  }

  lemma ZipStep(a: seq<string>, b: seq<string>, i: nat, j: nat)
    requires i <= |a| && j <= |b|
    ensures i < |a| && j < |b| ==> Zip(a[i..], b[j..]) == [a[i], b[j]] + Zip(a[i + 1..], b[j + 1..])
    ensures i < |a| && j == |b| ==> Zip(a[i..], b[j..]) == [a[i]] + Zip(a[i + 1..], b[j..])
    ensures i == |a| && j < |b| ==> Zip(a[i..], b[j..]) == [b[j]] + Zip(a[i..], b[j + 1..])
    ensures i == |a| && j == |b| ==> Zip(a[i..], b[j..]) == []
  {
    if i < |a| {
      assert a[i..][1..] == a[i + 1..];
      assert a[i..] == [a[i]] + a[i + 1..];
    }
    if j < |b| {
      assert b[j..][1..] == b[j + 1..];
      assert b[j..] == [b[j]] + b[j + 1..];
    }
  }

  lemma CutStep(out: seq<string>, x: seq<string>, rest: seq<string>, limit: nat)
    requires |out| + |x| <= limit
    ensures out + Cut(x + rest, limit - |out|) == (out + x) + Cut(rest, limit - |out| - |x|)
  {
  }

  /** From cursors behind what is placed, the rounds take the rest of both lists in turn, as far as there is room. */
  lemma {:induction false} RoundsZip(web: seq<string>, vec: seq<string>, wi: nat, vi: nat, i: nat, j: nat, out: seq<string>, limit: nat)
    requires Distinct(web) && Distinct(vec) && Disjoint(web, vec)
    requires wi <= i <= |web| && vi <= j <= |vec| && PlacedUpTo(web, i, out) && PlacedUpTo(vec, j, out)
    requires |out| <= limit
    ensures Rounds(web, vec, wi, vi, out, limit) == out + Cut(Zip(web[i..], vec[j..]), limit - |out|)
    decreases |web| - i + |vec| - j
  {
    hide Rounds, Skip, Zip, PlacedUpTo, Distinct;
    RoundsStep(web, vec, wi, vi, out, limit);
    ZipStep(web, vec, i, j);
    if |out| == limit {
      assert Cut(Zip(web[i..], vec[j..]), 0) == [];
    } else {
      SkipTo(web, wi, i, out);
      SkipTo(vec, vi, j, out);
      if i < |web| && j < |vec| {
        PlaceNext(web, i, out);
        PlaceOther(vec, j, out, web[i]);
        var first := out + [web[i]];
        if |first| < limit {
          PlaceNext(vec, j, first);
          PlaceOther(web, i + 1, first, vec[j]);
          assert first + [vec[j]] == out + [web[i], vec[j]];
          RoundsZip(web, vec, i + 1, j + 1, i + 1, j + 1, out + [web[i], vec[j]], limit);
          CutStep(out, [web[i], vec[j]], Zip(web[i + 1..], vec[j + 1..]), limit);
        } else {
          RoundsStep(web, vec, i + 1, j, first, limit);
          assert Cut(Zip(web[i..], vec[j..]), 1) == [web[i]];
        }
      } else if i < |web| {
        PlaceNext(web, i, out);
        PlaceOther(vec, j, out, web[i]);
        RoundsZip(web, vec, i + 1, j, i + 1, j, out + [web[i]], limit);
        CutStep(out, [web[i]], Zip(web[i + 1..], vec[j..]), limit);
      } else if j < |vec| {
        PlaceNext(vec, j, out);
        PlaceOther(web, i, out, vec[j]);
        RoundsZip(web, vec, i, j + 1, i, j + 1, out + [vec[j]], limit);
        CutStep(out, [vec[j]], Zip(web[i..], vec[j + 1..]), limit);
      }
    }
  }

  /** The blend of any two lists without repeats or common entries: the web entries that the vector list cannot displace,
      the vector entries that the web list cannot displace, then the rest in turn, web first, up to the limit. */
  lemma BlendDisjoint(web: seq<string>, vec: seq<string>, limit: nat)
    requires Distinct(web) && Distinct(vec) && Disjoint(web, vec)
    ensures var fw, fv := Least(Spare(limit, |vec|), |web|), Least(Spare(limit, |web|), |vec|);
      Blend(web, vec, limit) == web[..fw] + vec[..fv] + Cut(Zip(web[fw..], vec[fv..]), limit - fw - fv)
  {
    hide Rounds, Take, Zip;
    var fw, fv := Least(Floor(limit, |vec|), |web|), Least(Floor(limit, |web|), |vec|);
    assert web[..0] == [] && [] + web[..0] == [];
    TakeFresh(web, 0, Floor(limit, |vec|), [], limit);
    var floored := web[..fw];
    assert [] + floored == floored && floored + vec[..0] == floored;
    TakeFloor(vec, Floor(limit, |web|), floored, limit);
    var both := floored + vec[..fv];
    FloorsPlaced(web, vec, fw, fv);
    RoundsZip(web, vec, 0, 0, fw, fv, both, limit);
  }

  /** A floor that may be larger than the list is one as large as the list. */
  lemma TakeFloor(order: seq<string>, count: nat, before: seq<string>, limit: nat)
    requires Distinct(order) && Disjoint(order, before) && |before| + Least(count, |order|) <= limit
    ensures Take(order, 0, count, before, limit) == before + order[..Least(count, |order|)]
  {
    hide Take;
    TakeMore(order, 0, count, before, limit);
    assert before + order[..0] == before;
    TakeFresh(order, 0, Least(count, |order|), before, limit);
  }

  /** Asking for more than is left changes nothing. */
  lemma {:induction false} TakeMore(order: seq<string>, j: nat, count: nat, out: seq<string>, limit: int)
    requires j <= |order|
    ensures Take(order, j, count, out, limit) == Take(order, j, Least(count, |order| - j), out, limit)
    decreases |order| - j
  {
    if j < |order| && count > 0 && |out| < limit {
      if order[j] in out {
        TakeMore(order, j + 1, count, out, limit);
        TakeMore(order, j + 1, Least(count, |order| - j), out, limit);
      } else {
        TakeMore(order, j + 1, count - 1, out + [order[j]], limit);
        TakeMore(order, j + 1, Least(count, |order| - j) - 1, out + [order[j]], limit);
      }
    }
  }

  lemma FloorsPlaced(web: seq<string>, vec: seq<string>, fw: nat, fv: nat)
    requires Distinct(web) && Distinct(vec) && Disjoint(web, vec) && fw <= |web| && fv <= |vec|
    ensures PlacedUpTo(web, fw, web[..fw] + vec[..fv]) && PlacedUpTo(vec, fv, web[..fw] + vec[..fv])
  {
    var out := web[..fw] + vec[..fv];
    assert forall x :: 0 <= x < fw ==> out[x] == web[x];
    assert forall x :: 0 <= x < fv ==> out[fw + x] == vec[x];
  }

  // ---- Order ----

  /** Whoever is listed before an entry of one list only is placed before it. */
  predicate KeepsOrder(order: seq<string>, other: seq<string>, out: seq<string>) {
    forall q, j :: 0 <= q < |out| && 0 <= j < |order| && out[q] == order[j] && order[j] !in order[..j] && order[j] !in other ==>
      Placed(order, j, out[..q])
  }

  /** Appending the next unplaced entry of the list keeps its order. */
  lemma OrderNext(order: seq<string>, other: seq<string>, k: nat, out: seq<string>)
    requires KeepsOrder(order, other, out) && k < |order| && Placed(order, k, out) && order[k] !in out
    ensures KeepsOrder(order, other, out + [order[k]])
  {
    var r := out + [order[k]];
    forall q, j | 0 <= q < |r| && 0 <= j < |order| && r[q] == order[j] && order[j] !in order[..j] && order[j] !in other
      ensures Placed(order, j, r[..q])
    {
      if q < |out| {
        assert r[..q] == out[..q];
      } else {
        assert r[..q] == out;
      }
    }
  }

  /** Appending an entry of the other list keeps it too. */
  lemma OrderOther(order: seq<string>, other: seq<string>, x: string, out: seq<string>)
    requires KeepsOrder(order, other, out) && x in other
    ensures KeepsOrder(order, other, out + [x])
  {
    var r := out + [x];
    forall q, j | 0 <= q < |r| && 0 <= j < |order| && r[q] == order[j] && order[j] !in order[..j] && order[j] !in other
      ensures Placed(order, j, r[..q])
    {
      assert q < |out| && r[..q] == out[..q];
    }
  }

  predicate BothOrders(web: seq<string>, vec: seq<string>, out: seq<string>) {
    KeepsOrder(web, vec, out) && KeepsOrder(vec, web, out)
  }

  lemma {:induction false} TakeKeepsOrder(order: seq<string>, other: seq<string>, j: nat, count: int, out: seq<string>, limit: int)
    requires j <= |order| && Placed(order, j, out) && BothOrders(order, other, out)
    ensures BothOrders(order, other, Take(order, j, count, out, limit))
    decreases |order| - j
  {
    hide KeepsOrder;
    if j < |order| && count > 0 && |out| < limit {
      if order[j] in out {
        TakeKeepsOrder(order, other, j + 1, count, out, limit);
      } else {
        OrderNext(order, other, j, out);
        OrderOther(other, order, order[j], out);
        TakeKeepsOrder(order, other, j + 1, count - 1, out + [order[j]], limit);
      }
    }
  }

  lemma RoundKeepsOrder(web: seq<string>, vec: seq<string>, w: nat, v: nat, out: seq<string>, limit: int)
    requires w <= |web| && v <= |vec| && Placed(web, w, out) && Placed(vec, v, out) && BothOrders(web, vec, out)
    requires (w < |web| ==> web[w] !in out) && (v < |vec| ==> vec[v] !in out)
    ensures BothOrders(web, vec, Round(web, vec, w, v, out, limit))
  {
    hide KeepsOrder;
    var first := if w < |web| then out + [web[w]] else out;
    if w < |web| {
      OrderNext(web, vec, w, out);
      OrderOther(vec, web, web[w], out);
    }
    if |first| < limit && v < |vec| {
      OrderOther(web, vec, vec[v], first);
      if vec[v] in first {
        OrderOther(vec, web, vec[v], first);
      } else {
        OrderNext(vec, web, v, first);
      }
    }
  }

  lemma {:induction false} RoundsKeepOrder(web: seq<string>, vec: seq<string>, wi: nat, vi: nat, out: seq<string>, limit: int)
    requires wi <= |web| && vi <= |vec| && Placed(web, wi, out) && Placed(vec, vi, out) && BothOrders(web, vec, out)
    ensures BothOrders(web, vec, Rounds(web, vec, wi, vi, out, limit))
    decreases |web| - wi + |vec| - vi
  {
    hide Rounds, Skip, BothOrders;
    RoundsStep(web, vec, wi, vi, out, limit);
    if |out| < limit && (wi < |web| || vi < |vec|) {
      var w, v := Skip(web, wi, out), Skip(vec, vi, out);
      if w < |web| || v < |vec| {
        RoundKeepsOrder(web, vec, w, v, out, limit);
        RoundPlaces(web, vec, w, v, out, limit);
        RoundsKeepOrder(web, vec, NextWeb(web, w), NextVector(web, vec, w, v, out, limit), Round(web, vec, w, v, out, limit), limit);
      }
    }
  }

  /** For all lists and limits, an entry of only one list comes after everything that its list has before it. */
  lemma BlendKeepsOrder(web: seq<string>, vec: seq<string>, limit: int)
    ensures BothOrders(web, vec, Blend(web, vec, limit))
  {
    hide Take, Rounds, KeepsOrder;
    var floored := Take(web, 0, Floor(limit, |vec|), [], limit);
    NothingOrdered(web, vec);
    TakeKeepsOrder(web, vec, 0, Floor(limit, |vec|), [], limit);
    TakeKeepsOrder(vec, web, 0, Floor(limit, |web|), floored, limit);
    RoundsKeepOrder(web, vec, 0, 0, Take(vec, 0, Floor(limit, |web|), floored, limit), limit);
  }

  lemma NothingOrdered(web: seq<string>, vec: seq<string>)
    ensures BothOrders(web, vec, [])
  {
  }

  // ---- Exactly when entries repeat ----

  function Elements(out: seq<string>): set<string> {
    set n | n in out
  }

  lemma ElementsAppend(out: seq<string>, n: string)
    ensures Elements(out + [n]) == Elements(out) + {n}
  {
  }

  /** A sequence is free of repeats exactly when it has as many elements as entries. */
  lemma {:induction false} DistinctExactly(out: seq<string>)
    ensures |Elements(out)| <= |out| && (Distinct(out) <==> |Elements(out)| == |out|)
  {
    if out != [] {
      var front, last := out[..|out| - 1], out[|out| - 1];
      assert out == front + [last];
      DistinctExactly(front);
      ElementsAppend(front, last);
      assert Distinct(out) <==> Distinct(front) && last !in front;
    }
  }

  /** In how many rounds the cursors meet: both point at the same unseen entry and there is room for two. */
  function Meetings(web: seq<string>, vec: seq<string>, wi: nat, vi: nat, out: seq<string>, limit: int): nat
    requires wi <= |web| && vi <= |vec|
    decreases |web| - wi + |vec| - vi
  {
    var w, v := Skip(web, wi, out), Skip(vec, vi, out);
    if |out| >= limit || (w == |web| && v == |vec|) then 0
    else
      var here := if w < |web| && v < |vec| && web[w] == vec[v] && |out| + 2 <= limit then 1 else 0;
      here + Meetings(web, vec, NextWeb(web, w), NextVector(web, vec, w, v, out, limit), Round(web, vec, w, v, out, limit), limit)
  }

  lemma RoundElements(web: seq<string>, vec: seq<string>, w: nat, v: nat, out: seq<string>, limit: int)
    requires w <= |web| && v <= |vec| && |out| < limit
    requires (w < |web| ==> web[w] !in out) && (v < |vec| ==> vec[v] !in out)
    ensures var r := Round(web, vec, w, v, out, limit);
      |r| - |Elements(r)| == |out| - |Elements(out)|
        + if w < |web| && v < |vec| && web[w] == vec[v] && |out| + 2 <= limit then 1 else 0
  {
    var first := if w < |web| then out + [web[w]] else out;
    if w < |web| {
      ElementsAppend(out, web[w]);
    }
    if |first| < limit && v < |vec| {
      ElementsAppend(first, vec[v]);
    }
  }

  lemma {:induction false} RoundsElements(web: seq<string>, vec: seq<string>, wi: nat, vi: nat, out: seq<string>, limit: int)
    requires wi <= |web| && vi <= |vec|
    ensures var r := Rounds(web, vec, wi, vi, out, limit);
      |r| - |Elements(r)| == |out| - |Elements(out)| + Meetings(web, vec, wi, vi, out, limit)
    decreases |web| - wi + |vec| - vi
  {
    hide Rounds, Skip, Elements;
    RoundsStep(web, vec, wi, vi, out, limit);
    var w, v := Skip(web, wi, out), Skip(vec, vi, out);
    if |out| < limit && (w < |web| || v < |vec|) {
      RoundElements(web, vec, w, v, out, limit);
      RoundsElements(web, vec, NextWeb(web, w), NextVector(web, vec, w, v, out, limit), Round(web, vec, w, v, out, limit), limit);
    }
  }

  lemma {:induction false} TakeElements(order: seq<string>, j: nat, count: int, out: seq<string>, limit: int)
    requires j <= |order|
    ensures var r := Take(order, j, count, out, limit); |r| - |Elements(r)| == |out| - |Elements(out)|
    decreases |order| - j
  {
    if j < |order| && count > 0 && |out| < limit {
      if order[j] in out {
        TakeElements(order, j + 1, count, out, limit);
      } else {
        ElementsAppend(out, order[j]);
        TakeElements(order, j + 1, count - 1, out + [order[j]], limit);
      }
    }
  }

  /** The blend after both floors, where the round-robin starts. */
  function Floored(web: seq<string>, vec: seq<string>, limit: int): seq<string> {
    Take(vec, 0, Floor(limit, |web|), Take(web, 0, Floor(limit, |vec|), [], limit), limit)
  }

  /** The blend holds exactly one surplus entry per meeting of the cursors: it is free of repeats if and only if
      the cursors never meet. */
  lemma BlendRepeatsExactly(web: seq<string>, vec: seq<string>, limit: int)
    ensures var out := Blend(web, vec, limit);
      var meetings := Meetings(web, vec, 0, 0, Floored(web, vec, limit), limit);
      |out| == |Elements(out)| + meetings && (Distinct(out) <==> meetings == 0)
  {
    hide Take, Rounds, Meetings;
    var floored := Take(web, 0, Floor(limit, |vec|), [], limit);
    TakeElements(web, 0, Floor(limit, |vec|), [], limit);
    TakeElements(vec, 0, Floor(limit, |web|), floored, limit);
    RoundsElements(web, vec, 0, 0, Floored(web, vec, limit), limit);
    DistinctExactly(Blend(web, vec, limit));
  }

  // ---- URLs ----

  /** The URL shown for a normal form: its first occurrence, web results before vector results. */
  function Shown(normal: string -> string, urls: seq<string>, n: string): (u: string)
    requires n in Norms(normal, urls)
    ensures u in urls && normal(u) == n
  {
    if normal(urls[0]) == n then urls[0]
    else
      assert n in Norms(normal, urls[1..]) by {
        var i :| 0 <= i < |urls| && normal(urls[i]) == n;
        assert Norms(normal, urls[1..])[i - 1] == n;
      }
      Shown(normal, urls[1..], n)
  }

  lemma NormsConcat(normal: string -> string, a: seq<string>, b: seq<string>)
    ensures Norms(normal, a + b) == Norms(normal, a) + Norms(normal, b)
  {
  }

  lemma FirstsSnoc(norms: seq<string>, n: string)
    ensures Firsts(norms + [n]) == if n in norms then Firsts(norms) else Firsts(norms) + [n]
  {
    var all := norms + [n];
    assert all[..|all| - 1] == norms && all[|all| - 1] == n;
  }

  /** The first loop of `_new_merge`: index and deduplicate the web results. */
  method IndexWeb(normal: string -> string, web: seq<string>, ghost all: seq<string>)
      returns (byNorm: map<string, string>, order: seq<string>)
    requires web <= all
    ensures order == Firsts(Norms(normal, web)) && Indexed(normal, all, |web|, byNorm)
  {
    hide Firsts, Shown, Indexed;
    byNorm, order := map[], [];
    FirstsNothing();
    IndexedNothing(normal, all);
    for i := 0 to |web|
      invariant order == Firsts(Norms(normal, web[..i])) && Indexed(normal, all, i, byNorm)
    {
      var n := normal(web[i]);
      assert all[..i] == web[..i] && all[i] == web[i];
      NormsSnoc(normal, web, i);
      FirstsSnoc(Norms(normal, web[..i]), n);
      IndexedAdd(normal, all, i, byNorm);
      IndexedMembers(normal, all, i, byNorm);
      if n !in byNorm {
        byNorm := byNorm[n := web[i]];
        order := order + [n];
      }
    }
    assert web[..|web|] == web;
  }

  lemma IndexedNothing(normal: string -> string, all: seq<string>)
    ensures Indexed(normal, all, 0, map[])
  {
  }

  lemma IndexedMembers(normal: string -> string, all: seq<string>, k: nat, byNorm: map<string, string>)
    requires k <= |all| && Indexed(normal, all, k, byNorm)
    ensures forall n :: n in byNorm <==> n in Norms(normal, all[..k])
  {
  }

  lemma FirstsNothing()
    ensures Firsts([]) == []
  {
  }

  /** The second loop: index the vector results that are new, keep the order of all of them. */
  method IndexVector(normal: string -> string, start: nat, vector: seq<string>, before: map<string, string>, ghost all: seq<string>)
      returns (byNorm: map<string, string>, order: seq<string>)
    requires start <= |all| && all[start..] == vector && Indexed(normal, all, start, before)
    ensures order == Norms(normal, vector) && Indexed(normal, all, |all|, byNorm)
  {
    hide Shown, Indexed;
    byNorm, order := before, [];
    for i := 0 to |vector|
      invariant order == Norms(normal, vector[..i]) && Indexed(normal, all, start + i, byNorm)
    {
      var n := normal(vector[i]);
      assert all[start + i] == vector[i];
      NormsSnoc(normal, vector, i);
      IndexedAdd(normal, all, start + i, byNorm);
      if n !in byNorm {
        byNorm := byNorm[n := vector[i]];
      }
      order := order + [n];
    }
    assert vector[..|vector|] == vector;
  }

  /** `_new_merge`: the blend of the normal forms, shown as URLs. */
  method NewMerge(normal: string -> string, web: seq<string>, vector: seq<string>, limit: int)
      returns (result: seq<string>, norms: seq<string>)
    ensures norms == Blend(Firsts(Norms(normal, web)), Norms(normal, vector), limit) && |result| == |norms|
    ensures forall i :: 0 <= i < |norms| ==>
      norms[i] in Norms(normal, web + vector) && result[i] == Shown(normal, web + vector, norms[i])
    ensures Distinct(result) <==> MergeMeetings(normal, web, vector, limit) == 0
  {
    hide Shown, Blend, Indexed, Firsts, MergeMeetings, Distinct;
    ghost var all := web + vector;
    var byNorm, webOrder := IndexWeb(normal, web, all);
    var vectorOrder;
    byNorm, vectorOrder := IndexVector(normal, |web|, vector, byNorm, all);
    norms := BlendLoop(webOrder, vectorOrder, limit);
    BlendGuarantees(webOrder, vectorOrder, limit);
    NormsConcat(normal, web, vector);
    IndexedShown(normal, all, byNorm);
    result := seq(|norms|, i requires 0 <= i < |norms| && norms[i] in byNorm => byNorm[norms[i]]);
    MergeRepeatsExactly(normal, web, vector, limit, norms, result);
  }

  /** The meetings of the cursors when two lists of URLs are merged. */
  function MergeMeetings(normal: string -> string, web: seq<string>, vector: seq<string>, limit: int): nat {
    var w, v := Firsts(Norms(normal, web)), Norms(normal, vector);
    Meetings(w, v, 0, 0, Floored(w, v, limit), limit)
  }

  /** The merged URLs repeat if and only if the cursors meet. */
  lemma MergeRepeatsExactly(normal: string -> string, web: seq<string>, vector: seq<string>, limit: int,
      norms: seq<string>, result: seq<string>)
    requires norms == Blend(Firsts(Norms(normal, web)), Norms(normal, vector), limit) && |result| == |norms|
    requires forall i :: 0 <= i < |norms| ==>
      norms[i] in Norms(normal, web + vector) && result[i] == Shown(normal, web + vector, norms[i])
    ensures Distinct(result) <==> MergeMeetings(normal, web, vector, limit) == 0
  {
    hide Shown, Blend, Firsts, Meetings, Floored;
    BlendRepeatsExactly(Firsts(Norms(normal, web)), Norms(normal, vector), limit);
    SameRepeats(normal, norms, result);
  }

  /** URLs repeat exactly where their normal forms do, if equal normal forms are shown as equal URLs. */
  lemma SameRepeats(normal: string -> string, norms: seq<string>, urls: seq<string>)
    requires norms == Norms(normal, urls)
    requires forall i, j :: 0 <= i < j < |norms| && norms[i] == norms[j] ==> urls[i] == urls[j]
    ensures Distinct(urls) <==> Distinct(norms)
  {
  }

  /** The floor guarantee of the merge: the web list it blends has no repeats. */
  lemma MergeFloors(normal: string -> string, web: seq<string>, vector: seq<string>, limit: nat) returns (split: nat)
    ensures var w, v := Firsts(Norms(normal, web)), Norms(normal, vector);
      var out, floor := Blend(w, v, limit), Least(Spare(limit, |v|), |w|);
      && floor <= split <= |out| && out[..floor] == w[..floor]
      && (forall x :: floor <= x < split ==> out[x] in v && out[x] !in w[..floor])
      && (split - floor == Spare(limit, |w|) || split >= limit || Placed(v, |v|, out[..split]))
  {
    FirstsDistinct(Norms(normal, web));
    split := BlendFloors(Firsts(Norms(normal, web)), Norms(normal, vector), limit);
  }

  lemma IndexedShown(normal: string -> string, all: seq<string>, byNorm: map<string, string>)
    requires Indexed(normal, all, |all|, byNorm)
    ensures forall n :: n in Norms(normal, all) ==> n in byNorm && byNorm[n] == Shown(normal, all, n)
  {
    assert all[..|all|] == all;
  }

  /** The dictionary maps each normal form of the first `k` URLs to the URL shown for it. */
  ghost predicate Indexed(normal: string -> string, all: seq<string>, k: nat, byNorm: map<string, string>)
    requires k <= |all|
  {
    && (forall n :: n in byNorm <==> n in Norms(normal, all[..k]))
    && (forall n :: n in byNorm ==> n in Norms(normal, all) && byNorm[n] == Shown(normal, all, n))
  }

  lemma NormsSnoc(normal: string -> string, urls: seq<string>, i: nat)
    requires i < |urls|
    ensures Norms(normal, urls[..i + 1]) == Norms(normal, urls[..i]) + [normal(urls[i])]
  {
  }

  lemma {:induction false} FirstShown(normal: string -> string, all: seq<string>, k: nat)
    requires k < |all| && normal(all[k]) !in Norms(normal, all[..k])
    ensures normal(all[k]) in Norms(normal, all) && Shown(normal, all, normal(all[k])) == all[k]
  {
    assert Norms(normal, all)[k] == normal(all[k]);
    if k > 0 {
      assert Norms(normal, all[..k])[0] == normal(all[0]);
      var m := Norms(normal, all[1..][..k - 1]);
      forall j | 0 <= j < |m|
        ensures m[j] != normal(all[k])
      {
        assert m[j] == Norms(normal, all[..k])[j + 1];
      }
      FirstShown(normal, all[1..], k - 1);
    }
  }

  lemma IndexedAdd(normal: string -> string, all: seq<string>, k: nat, byNorm: map<string, string>)
    requires k < |all| && Indexed(normal, all, k, byNorm)
    ensures Indexed(normal, all, k + 1, if normal(all[k]) in byNorm then byNorm else byNorm[normal(all[k]) := all[k]])
  {
    hide Shown;
    NormsSnoc(normal, all, k);
    if normal(all[k]) !in byNorm {
      FirstShown(normal, all, k);
    }
  }

  /** Repeats do occur: the cursors can meet on a shared entry within one round. */
  lemma BlendCanRepeat()
    ensures Blend(["a", "b"], ["a", "c"], 2) == ["a", "a"]
  {
    var web, vec := ["a", "b"], ["a", "c"];
    assert Take(web, 0, 0, [], 2) == [];
    assert Take(vec, 0, 0, [], 2) == [];
    assert Skip(web, 0, []) == 0 && Skip(vec, 0, []) == 0;
    assert Round(web, vec, 0, 0, [], 2) == ["a", "a"];
    assert Rounds(web, vec, 1, 1, ["a", "a"], 2) == ["a", "a"];
  }

  /** When neither list is short enough to earn the other a floor, the blend opens with both heads, the same or not. */
  lemma BlendOpensWithHeads(web: seq<string>, vec: seq<string>, limit: int)
    requires 2 <= limit <= |web| && limit <= |vec|
    ensures var out := Blend(web, vec, limit);
      |out| >= 2 && out[0] == web[0] && out[1] == vec[0]
  {
    assert Take(web, 0, 0, [], limit) == [] && Take(vec, 0, 0, [], limit) == [];
    assert Skip(web, 0, []) == 0 && Skip(vec, 0, []) == 0;
    var out := Round(web, vec, 0, 0, [], limit);
    assert out == [web[0], vec[0]];
    RoundsExtend(web, vec, 1, 1, out, limit);
  }
}
