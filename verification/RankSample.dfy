/** Deterministic sampling of point ids: a bounded heap over a paged scan against "sort, then take". */
module RankSample {

  /** A heap entry; tuples compare by negated rank, then by id. */
  datatype Item = Item(negRank: int, id: int)

  predicate Below(a: Item, b: Item) {
    a.negRank < b.negRank || (a.negRank == b.negRank && a.id < b.id)
  }

  /** A heap is represented by its entries in order, so that the least one is in front. */
  predicate IsHeap(h: seq<Item>) {
    forall i, j :: 0 <= i < j < |h| ==> Below(h[i], h[j])
  }

  /** `heappush`. */
  function Push(h: seq<Item>, x: Item): seq<Item> {
    if h == [] then [x]
    else if Below(x, h[0]) then [x] + h
    else [h[0]] + Push(h[1..], x)
  }

  /** `heapreplace`: drop the least entry, then push. */
  function Replace(h: seq<Item>, x: Item): seq<Item>
    requires h != []
  {
    Push(h[1..], x)
  }

  lemma HeapCons(a: Item, h: seq<Item>)
    requires IsHeap(h) && forall y :: y in h ==> Below(a, y)
    ensures IsHeap([a] + h)
  {
    forall i, j | 0 <= i < j < |h| + 1
      ensures Below(([a] + h)[i], ([a] + h)[j])
    {
      assert h[j - 1] in h;
    }
  }

  lemma {:induction false} PushKeeps(h: seq<Item>, x: Item)
    requires IsHeap(h) && x !in h
    ensures IsHeap(Push(h, x)) && |Push(h, x)| == |h| + 1
    ensures forall y :: y in Push(h, x) <==> y in h || y == x
  {
    if h != [] {
      assert forall y :: y in h[1..] ==> Below(h[0], y);
      assert forall y :: y in h <==> y == h[0] || y in h[1..];
      if Below(x, h[0]) {
        HeapCons(x, h);
      } else {
        PushKeeps(h[1..], x);
        assert Below(h[0], x);
        HeapCons(h[0], Push(h[1..], x));
      }
    }
  }

  // ---- The reference: sort everything ----

  function Insert(ids: seq<int>, rank: int -> nat, x: int): seq<int> {
    if ids == [] then [x]
    else if rank(x) < rank(ids[0]) then [x] + ids
    else [ids[0]] + Insert(ids[1..], rank, x)
  }

  /** All ids in ascending rank. */
  function SortByRank(ids: seq<int>, rank: int -> nat): seq<int> {
    if ids == [] then [] else Insert(SortByRank(ids[1..], rank), rank, ids[0])
  }

  predicate Ascending(ids: seq<int>, rank: int -> nat) {
    forall i, j :: 0 <= i < j < |ids| ==> rank(ids[i]) < rank(ids[j])
  }

  predicate DistinctRanks(ids: seq<int>, rank: int -> nat) {
    forall i, j :: 0 <= i < j < |ids| ==> rank(ids[i]) != rank(ids[j])
  }

  lemma AscendingCons(a: int, ids: seq<int>, rank: int -> nat)
    requires Ascending(ids, rank) && forall y :: y in ids ==> rank(a) < rank(y)
    ensures Ascending([a] + ids, rank)
  {
    forall i, j | 0 <= i < j < |ids| + 1
      ensures rank(([a] + ids)[i]) < rank(([a] + ids)[j])
    {
      var r := [a] + ids;
      assert r[j] == ids[j - 1] && ids[j - 1] in ids;
      assert i > 0 ==> r[i] == ids[i - 1];
    }
  }

  lemma {:induction false} InsertSorted(ids: seq<int>, rank: int -> nat, x: int)
    requires Ascending(ids, rank) && forall y :: y in ids ==> rank(y) != rank(x)
    ensures Ascending(Insert(ids, rank, x), rank) && |Insert(ids, rank, x)| == |ids| + 1
    ensures forall y :: y in Insert(ids, rank, x) <==> y in ids || y == x
  {
    if ids != [] {
      assert forall y :: y in ids[1..] ==> rank(ids[0]) < rank(y);
      assert forall y :: y in ids <==> y == ids[0] || y in ids[1..];
      if rank(x) < rank(ids[0]) {
        AscendingCons(x, ids, rank);
      } else {
        InsertSorted(ids[1..], rank, x);
        AscendingCons(ids[0], Insert(ids[1..], rank, x), rank);
      }
    }
  }

  /** Sorting returns the same ids in strictly ascending rank. */
  lemma {:induction false} SortSorted(ids: seq<int>, rank: int -> nat)
    requires DistinctRanks(ids, rank)
    ensures Ascending(SortByRank(ids, rank), rank) && |SortByRank(ids, rank)| == |ids|
    ensures forall y :: y in SortByRank(ids, rank) <==> y in ids
  {
    if ids != [] {
      SortSorted(ids[1..], rank);
      assert forall y :: y in ids[1..] ==> rank(y) != rank(ids[0]);
      assert forall y :: y in ids <==> y == ids[0] || y in ids[1..];
      InsertSorted(SortByRank(ids[1..], rank), rank, ids[0]);
    }
  }

  /** `low` holds the lowest-ranked entries of `all`. */
  predicate IsLowest(all: seq<int>, low: seq<int>, rank: int -> nat) {
    && |low| <= |all|
    && (forall x :: x in low ==> x in all)
    && (forall x, y :: x in all && x !in low && y in low ==> rank(y) < rank(x))
  }

  lemma IndexAtLeast(all: seq<int>, low: seq<int>, rank: int -> nat, i: nat, x: int)
    requires Ascending(all, rank) && Ascending(low, rank) && i < |low| <= |all|
    requires all[..i] == low[..i] && x in all && (x == low[i] || (x in low && x == all[i]))
    ensures rank(all[i]) <= rank(x) && (x in low ==> rank(low[i]) <= rank(x))
  {
    assert forall j :: 0 <= j < i ==> all[..i][j] == all[j] && low[..i][j] == low[j];
  }

  /** A rank-ascending list of the lowest-ranked entries is a prefix of the sorted whole. */
  lemma {:induction false} LowestIsPrefix(all: seq<int>, low: seq<int>, rank: int -> nat, n: nat)
    requires Ascending(all, rank) && Ascending(low, rank) && IsLowest(all, low, rank) && n <= |low|
    ensures low[..n] == all[..n]
  {
    if n > 0 {
      var i := n - 1;
      LowestIsPrefix(all, low, rank, i);
      var x, y := all[i], low[i];
      assert y in low && x in all;
      assert x !in low ==> rank(y) < rank(x);
      IndexAtLeast(all, low, rank, i, low[i]);
      if all[i] in low {
        IndexAtLeast(all, low, rank, i, all[i]);
      }
      assert rank(low[i]) == rank(all[i]);
      SameRankSameId(all, rank, low[i], all[i]);
      assert low[..n] == low[..i] + [low[i]] && all[..n] == all[..i] + [all[i]];
    }
  }

  lemma SameRankSameId(ids: seq<int>, rank: int -> nat, x: int, y: int)
    requires DistinctRanks(ids, rank) && x in ids && y in ids && rank(x) == rank(y)
    ensures x == y
  {
  }

  // ---- The bounded scan ----

  function Ids(best: seq<Item>): (ids: seq<int>)
    ensures |ids| == |best| && forall i :: 0 <= i < |best| ==> ids[i] == best[i].id
  {
    seq(|best|, i requires 0 <= i < |best| => best[i].id)
  }

  function Entry(rank: int -> nat, id: int): Item {
    Item(0 - rank(id), id)
  }

  /** `best` is a heap of the `count` lowest-ranked ids seen so far. */
  predicate KeepsLowest(best: seq<Item>, seen: seq<int>, rank: int -> nat, count: nat) {
    && IsHeap(best)
    && |best| == (if |seen| < count then |seen| else count)
    && (forall b :: b in best ==> b == Entry(rank, b.id) && b.id in seen)
    && (|seen| <= count ==> forall x :: x in seen ==> Entry(rank, x) in best)
    && (forall x, b :: x in seen && Entry(rank, x) !in best && b in best ==> rank(b.id) < rank(x))
  }

  lemma PushLowest(best: seq<Item>, seen: seq<int>, rank: int -> nat, count: nat, x: int)
    requires KeepsLowest(best, seen, rank, count) && |best| < count
    requires forall y :: y in seen ==> rank(y) != rank(x)
    ensures KeepsLowest(Push(best, Entry(rank, x)), seen + [x], rank, count)
  {
    assert Entry(rank, x) !in best;
    PushKeeps(best, Entry(rank, x));
  }

  lemma SkipLowest(best: seq<Item>, seen: seq<int>, rank: int -> nat, count: nat, x: int)
    requires KeepsLowest(best, seen, rank, count) && |best| >= count >= 1
    requires rank(x) > rank(best[0].id)
    ensures KeepsLowest(best, seen + [x], rank, count)
  {
    assert forall b :: b in best ==> rank(b.id) <= rank(best[0].id);
  }

  lemma ReplaceLowest(best: seq<Item>, seen: seq<int>, rank: int -> nat, count: nat, x: int)
    requires KeepsLowest(best, seen, rank, count) && |best| >= count >= 1
    requires DistinctRanks(seen + [x], rank) && rank(x) < rank(best[0].id)
    ensures KeepsLowest(Replace(best, Entry(rank, x)), seen + [x], rank, count)
  {
    var m, rest, all := best[0], best[1..], seen + [x];
    assert all[|seen|] == x;
    assert x !in seen by {
      forall i | 0 <= i < |seen|
        ensures seen[i] != x
      {
        assert rank(all[i]) != rank(all[|seen|]);
      }
    }
    assert Entry(rank, x) !in rest;
    PushKeeps(rest, Entry(rank, x));
    forall b | b in rest
      ensures b in best && rank(b.id) < rank(m.id)
    {
      var j :| 0 <= j < |rest| && rest[j] == b;
      assert Below(best[0], best[j + 1]) && best[j + 1] in best && m in best;
      assert b.id in seen && m.id in seen;
      if rank(b.id) == rank(m.id) {
        SameRankSameId(all, rank, b.id, m.id);
      }
    }
    assert forall y :: y in best <==> y == m || y in rest;
    var best' := Push(rest, Entry(rank, x));
    forall y, b | y in all && Entry(rank, y) !in best' && b in best'
      ensures rank(b.id) < rank(y)
    {
      assert y in seen;
      if Entry(rank, y) != m {
        assert Entry(rank, y) !in best;
      }
    }
  }

  function Flatten(pages: seq<seq<int>>): seq<int> {
    if pages == [] then [] else Flatten(pages[..|pages| - 1]) + pages[|pages| - 1]
  }

  lemma {:induction false} FlattenPrefix(pages: seq<seq<int>>, n: nat)
    requires n <= |pages|
    ensures |Flatten(pages[..n])| <= |Flatten(pages)| && Flatten(pages[..n]) == Flatten(pages)[..|Flatten(pages[..n])|]
  {
    if n < |pages| {
      FlattenPrefix(pages[..|pages| - 1], n);
      assert pages[..|pages| - 1][..n] == pages[..n];
    } else {
      assert pages[..n] == pages;
    }
  }

  /** The heap's ids, sorted, are the first `count` of all ids sorted. */
  lemma HeapIsPrefix(best: seq<Item>, all: seq<int>, rank: int -> nat, count: nat)
    requires KeepsLowest(best, all, rank, count) && DistinctRanks(all, rank)
    ensures |best| <= |SortByRank(all, rank)|
    ensures SortByRank(Ids(best), rank) == SortByRank(all, rank)[..|best|]
  {
    var ids := Ids(best);
    forall i, j | 0 <= i < j < |ids|
      ensures rank(ids[i]) != rank(ids[j])
    {
      assert best[i] in best && best[j] in best && Below(best[i], best[j]);
      if rank(ids[i]) == rank(ids[j]) {
        SameRankSameId(all, rank, ids[i], ids[j]);
      }
    }
    SortSorted(ids, rank);
    SortSorted(all, rank);
    var low, sorted := SortByRank(ids, rank), SortByRank(all, rank);
    forall x | x in ids
      ensures x in all && Entry(rank, x) in best
    {
      var i :| 0 <= i < |ids| && ids[i] == x;
      assert best[i] in best;
    }
    forall x | Entry(rank, x) in best
      ensures x in ids
    {
      var i :| 0 <= i < |best| && best[i] == Entry(rank, x);
      assert ids[i] == x;
    }
    LowestIsPrefix(sorted, low, rank, |low|);
    assert low[..|low|] == low;
  }

  /** `_sample_ids`: whatever the paging, the bounded scan returns what sorting everything would. */
  method SampleIds(pages: seq<seq<int>>, rank: int -> nat, count: nat) returns (ids: seq<int>)
    requires count >= 1 && DistinctRanks(Flatten(pages), rank)
    ensures var all := SortByRank(Flatten(pages), rank);
      ids == all[..if count < |all| then count else |all|]
  {
    ghost var all := Flatten(pages);
    ghost var seen: seq<int> := [];
    var best: seq<Item> := [];
    for p := 0 to |pages|
      invariant seen == Flatten(pages[..p]) && KeepsLowest(best, seen, rank, count)
    {
      FlattenPrefix(pages, p + 1);
      assert pages[..p + 1][..p] == pages[..p];
      assert Flatten(pages[..p + 1]) == seen + pages[p];
      ghost var before := seen;
      for i := 0 to |pages[p]|
        invariant seen == before + pages[p][..i] && KeepsLowest(best, seen, rank, count)
      {
        var id := pages[p][i];
        assert before + pages[p][..i + 1] == seen + [id];
        assert (before + pages[p])[..|seen| + 1] == seen + [id];
        assert all[..|seen| + 1] == seen + [id];
        PrefixDistinct(all, rank, |seen| + 1);
        LastDistinct(seen, rank, id);
        if |best| < count {
          PushLowest(best, seen, rank, count, id);
          best := Push(best, Entry(rank, id));
        } else {
          assert best[0] in best;
          if rank(id) < 0 - best[0].negRank {
            ReplaceLowest(best, seen, rank, count, id);
            best := Replace(best, Entry(rank, id));
          } else {
            SkipLowest(best, seen, rank, count, id);
          }
        }
        seen := seen + [id];
      }
      assert pages[p][..|pages[p]|] == pages[p];
    }
    assert pages[..|pages|] == pages;
    HeapIsPrefix(best, all, rank, count);
    SortSorted(all, rank);
    ids := SortByRank(Ids(best), rank);
  }

  lemma PrefixDistinct(all: seq<int>, rank: int -> nat, n: nat)
    requires DistinctRanks(all, rank) && n <= |all|
    ensures DistinctRanks(all[..n], rank)
  {
  }

  lemma LastDistinct(seen: seq<int>, rank: int -> nat, x: int)
    requires DistinctRanks(seen + [x], rank)
    ensures forall y :: y in seen ==> rank(y) != rank(x)
  {
    var all := seen + [x];
    forall i | 0 <= i < |seen|
      ensures rank(seen[i]) != rank(x)
    {
      assert rank(all[i]) != rank(all[|seen|]);
    }
  }
}
