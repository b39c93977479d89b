/** Checkpointed grading: at most one accepted grade per item, however often a run is interrupted. */
module CheckpointedGrading {
  import opened Options

  datatype Field = Number(n: int) | Flag(b: bool) | Word(s: string) | Other

  type Grade = map<string, Field>

  datatype Kind = SourceGrade | ClaimClosure | Unsupported

  datatype Item = Item(id: string, kind: Kind)

  datatype Response = Response(id: string, kind: Kind, grade: Grade)

  datatype Call = Call(id: string, attempt: nat)

  /** What survives a run: the checkpoint files by observation id. `log` records every invocation ever made. */
  datatype World = World(files: map<string, Grade>, log: seq<Call>)

  /** `hermes` answers the last call of a log, or fails; `blank` is "empty after strip". */
  datatype Config = Config(hermes: seq<Call> -> Option<Grade>, blank: string -> bool, maxAttempts: int, keepGoing: bool)

  /** An interruption right after the invocation that makes the log `calls` long, before or after its checkpoint. */
  datatype Interrupt = Never | AfterCall(calls: nat, written: bool)

  datatype Outcome = Completed(items: seq<Response>, unresolved: seq<string>) | Raised | Interrupted

  datatype Run = Run(world: World, outcome: Outcome)

  // ---- Validation ----

  const SCORES: set<string> := {"currency", "relevance", "authority", "accuracy", "purpose"}
  const SOURCE_FIELDS: set<string> := SCORES + {"passage_support", "useful", "derivative_or_copied", "rationale"}
  const CLAIM_FIELDS: set<string> := {"claim_status", "contradiction_handling", "rationale"}

  predicate OneOf(f: Field, allowed: set<string>) {
    f.Word? && f.s in allowed
  }

  /** The check in `validate_grade`; the response it returns adds the item's id and type. */
  predicate ValidGrade(c: Config, kind: Kind, g: Grade) {
    match kind
    case Unsupported => false
    case SourceGrade =>
      && g.Keys == SOURCE_FIELDS
      && g["rationale"].Word? && !c.blank(g["rationale"].s)
      && (forall f :: f in SCORES ==> g[f].Number? && 0 <= g[f].n <= 2)
      && OneOf(g["passage_support"], {"supports", "challenges", "mixed", "irrelevant", "ambiguous"})
      && g["useful"].Flag? && g["derivative_or_copied"].Flag?
    case ClaimClosure =>
      && g.Keys == CLAIM_FIELDS
      && g["rationale"].Word? && !c.blank(g["rationale"].s)
      && OneOf(g["claim_status"], {"closed", "partial", "open", "ambiguous"})
      && OneOf(g["contradiction_handling"], {"adequate", "inadequate", "not_applicable", "ambiguous"})
  }

  // ---- One item ----

  datatype Attempted = Graded(world: World, grade: Grade) | Exhausted(world: World) | Stopped(world: World)

  predicate StopsAt(intr: Interrupt, log: seq<Call>) {
    intr.AfterCall? && intr.calls == |log|
  }

  /** The world after one invocation: a valid grade is checkpointed unless the run dies first. */
  function Invoke(c: Config, w: World, item: Item, attempt: nat, intr: Interrupt): World {
    var log := w.log + [Call(item.id, attempt)];
    var reply := c.hermes(log);
    if reply.Some? && ValidGrade(c, item.kind, reply.value) && (StopsAt(intr, log) ==> intr.written) then
      World(w.files[item.id := reply.value], log)
    else World(w.files, log)
  }

  function Attempt(c: Config, w: World, item: Item, attempt: nat, intr: Interrupt): Attempted
    requires 1 <= attempt <= c.maxAttempts
    decreases c.maxAttempts - attempt
  {
    var w1 := Invoke(c, w, item, attempt, intr);
    var reply := c.hermes(w1.log);
    if StopsAt(intr, w1.log) then Stopped(w1)
    else if reply.Some? && ValidGrade(c, item.kind, reply.value) then Graded(w1, reply.value)
    else if attempt == c.maxAttempts then Exhausted(w1)
    else Attempt(c, w1, item, attempt + 1, intr)
  }

  // ---- The packet ----

  predicate Repeated(items: seq<Item>, i: nat)
    requires i < |items|
  {
    exists j :: 0 <= j < i && items[j].id == items[i].id
  }

  /** The item loop of `grade_packet` from index `i` on. */
  function GradeFrom(c: Config, w: World, items: seq<Item>, i: nat, done: seq<Response>, unresolved: seq<string>, intr: Interrupt): Run
    requires i <= |items| && c.maxAttempts >= 1
    decreases |items| - i
  {
    if i == |items| then Run(w, Completed(done, unresolved))
    else
      var item := items[i];
      if item.id == "" || Repeated(items, i) then Run(w, Raised)
      else if item.id in w.files then
        if ValidGrade(c, item.kind, w.files[item.id]) then
          GradeFrom(c, w, items, i + 1, done + [Response(item.id, item.kind, w.files[item.id])], unresolved, intr)
        else Run(w, Raised)
      else if item.kind.Unsupported? then Run(w, Raised)
      else
        match Attempt(c, w, item, 1, intr)
        case Stopped(w1) => Run(w1, Interrupted)
        case Graded(w1, g) => GradeFrom(c, w1, items, i + 1, done + [Response(item.id, item.kind, g)], unresolved, intr)
        case Exhausted(w1) =>
          if c.keepGoing then GradeFrom(c, w1, items, i + 1, done, unresolved + [item.id], intr) else Run(w1, Raised)
  }

  /** `grade_packet`. */
  function GradePacket(c: Config, w: World, items: seq<Item>, intr: Interrupt): Run {
    if c.maxAttempts < 1 then Run(w, Raised) else GradeFrom(c, w, items, 0, [], [], intr)
  }

  /** The directory of checkpoints, updated in place. */
  class Checkpoints {
    var files: map<string, Grade>
    var log: seq<Call>

    constructor ()
      ensures files == map[] && log == []
    {
      files, log := map[], [];
    }

    ghost function Value(): World
      reads this
    {
      World(files, log)
    }

    /** The attempt loop for one item. */
    method TryItem(c: Config, item: Item, intr: Interrupt) returns (r: Option<Grade>, stopped: bool)
      requires c.maxAttempts >= 1
      modifies this
      ensures Attempt(c, old(Value()), item, 1, intr) ==
        if stopped then Stopped(Value()) else if r.Some? then Graded(Value(), r.value) else Exhausted(Value())
    {
      hide ValidGrade;
      var attempt := 1;
      while true
        invariant 1 <= attempt <= c.maxAttempts
        invariant Attempt(c, old(Value()), item, 1, intr) == Attempt(c, Value(), item, attempt, intr)
        decreases c.maxAttempts - attempt
      {
        log := log + [Call(item.id, attempt)];
        var reply := c.hermes(log);
        var valid := reply.Some? && ValidGrade(c, item.kind, reply.value);
        var stopping := StopsAt(intr, log);
        if valid && (stopping ==> intr.written) {
          files := files[item.id := reply.value];
        }
        if stopping {
          return None, true;
        }
        if valid {
          return reply, false;
        }
        if attempt == c.maxAttempts {
          return None, false;
        }
        attempt := attempt + 1;
      }
    }

    method Grade(c: Config, items: seq<Item>, intr: Interrupt) returns (r: Outcome)
      modifies this
      ensures GradePacket(c, old(Value()), items, intr) == Run(Value(), r)
    {
      hide ValidGrade, Attempt, Repeated;
      if c.maxAttempts < 1 {
        return Raised;
      }
      var done: seq<Response> := [];
      var unresolved: seq<string> := [];
      for i := 0 to |items|
        invariant GradeFrom(c, old(Value()), items, 0, [], [], intr) == GradeFrom(c, Value(), items, i, done, unresolved, intr)
      {
        var item := items[i];
        if item.id == "" || Repeated(items, i) {
          return Raised;
        }
        if item.id in files {
          if !ValidGrade(c, item.kind, files[item.id]) {
            return Raised;
          }
          done := done + [Response(item.id, item.kind, files[item.id])];
        } else {
          if item.kind.Unsupported? {
            return Raised;
          }
          var g, stopped := TryItem(c, item, intr);
          if stopped {
            return Interrupted;
          }
          if g.Some? {
            done := done + [Response(item.id, item.kind, g.value)];
          } else if c.keepGoing {
            unresolved := unresolved + [item.id];
          } else {
            return Raised;
          }
        }
      }
      return Completed(done, unresolved);
    }
  }

  // ---- What every run keeps ----

  /** `w'` follows from `w` by invoking only items of `ids` that had no checkpoint, overwriting nothing. */
  predicate Extends(w: World, w': World, ids: set<string>) {
    && w.log <= w'.log
    && (forall j :: |w.log| <= j < |w'.log| ==> w'.log[j].id !in w.files && w'.log[j].id in ids)
    && (forall id :: id in w.files ==> id in w'.files && w'.files[id] == w.files[id])
    && (forall id :: id in w'.files && id !in w.files ==> id in ids)
  }

  lemma ExtendsTransitive(a: World, b: World, d: World, ids: set<string>)
    requires Extends(a, b, ids) && Extends(b, d, ids)
    ensures Extends(a, d, ids)
  {
    forall j | |a.log| <= j < |d.log|
      ensures d.log[j].id !in a.files && d.log[j].id in ids
    {
      if j < |b.log| {
        assert d.log[j] == b.log[j];
      } else {
        assert d.log[j].id !in b.files;
      }
    }
  }

  lemma {:induction false} AttemptExtends(c: Config, w: World, item: Item, attempt: nat, intr: Interrupt)
    requires 1 <= attempt <= c.maxAttempts && item.id !in w.files
    ensures var a := Attempt(c, w, item, attempt, intr);
      && Extends(w, a.world, {item.id})
      && (a.Graded? ==> item.id in a.world.files && a.world.files[item.id] == a.grade && ValidGrade(c, item.kind, a.grade))
      && (a.Exhausted? ==> item.id !in a.world.files)
    decreases c.maxAttempts - attempt
  {
    hide ValidGrade;
    var w1 := Invoke(c, w, item, attempt, intr);
    var reply := c.hermes(w1.log);
    assert Extends(w, w1, {item.id});
    if !StopsAt(intr, w1.log) && !(reply.Some? && ValidGrade(c, item.kind, reply.value)) && attempt < c.maxAttempts {
      AttemptExtends(c, w1, item, attempt + 1, intr);
      ExtendsTransitive(w, w1, Attempt(c, w1, item, attempt + 1, intr).world, {item.id});
    }
  }

  /** Consecutively numbered calls for one item. */
  function Calls(id: string, from: nat, n: nat): (r: seq<Call>)
    ensures |r| == n
    decreases n
  {
    if n == 0 then [] else [Call(id, from)] + Calls(id, from + 1, n - 1)
  }

  predicate Rejected(c: Config, item: Item, log: seq<Call>) {
    !(c.hermes(log).Some? && ValidGrade(c, item.kind, c.hermes(log).value))
  }

  /** Attempts are numbered consecutively and bounded; all but the last were rejected, the last decides; giving up
      means that every allowed attempt was made and rejected. */
  lemma {:induction false} AttemptCalls(c: Config, w: World, item: Item, attempt: nat, intr: Interrupt) returns (n: nat)
    requires 1 <= attempt <= c.maxAttempts
    ensures var a := Attempt(c, w, item, attempt, intr);
      && 1 <= n <= c.maxAttempts - attempt + 1
      && a.world.log == w.log + Calls(item.id, attempt, n)
      && (forall k :: |w.log| < k < |a.world.log| ==> Rejected(c, item, a.world.log[..k]))
      && (a.Graded? ==> c.hermes(a.world.log) == Some(a.grade) && !Rejected(c, item, a.world.log))
      && (a.Exhausted? ==> n == c.maxAttempts - attempt + 1 && Rejected(c, item, a.world.log))
    decreases c.maxAttempts - attempt
  {
    hide ValidGrade;
    var w1 := Invoke(c, w, item, attempt, intr);
    var a := Attempt(c, w, item, attempt, intr);
    assert Calls(item.id, attempt, 1) == [Call(item.id, attempt)];
    if StopsAt(intr, w1.log) || !Rejected(c, item, w1.log) || attempt == c.maxAttempts {
      n := 1;
    } else {
      var m := AttemptCalls(c, w1, item, attempt + 1, intr);
      n := m + 1;
      assert a.world.log == w1.log + Calls(item.id, attempt + 1, m);
      assert a.world.log[..|w1.log|] == w1.log;
    }
  }

  function ItemIds(items: seq<Item>): set<string> {
    set x | x in items :: x.id
  }

  lemma ExtendsWider(a: World, b: World, small: set<string>, large: set<string>)
    requires Extends(a, b, small) && small <= large
    ensures Extends(a, b, large)
  {
  }

  /** No run, interrupted or not, invokes Hermes for a checkpointed item or touches a checkpoint. */
  lemma {:induction false} RunExtends(c: Config, w: World, items: seq<Item>, i: nat, done: seq<Response>, unresolved: seq<string>, intr: Interrupt)
    requires i <= |items| && c.maxAttempts >= 1
    ensures Extends(w, GradeFrom(c, w, items, i, done, unresolved, intr).world, ItemIds(items))
    decreases |items| - i
  {
    hide ValidGrade, Attempt, Extends;
    ExtendsSelf(w, ItemIds(items));
    if i < |items| {
      var item := items[i];
      assert item in items;
      if item.id != "" && !Repeated(items, i) {
        if item.id in w.files {
          if ValidGrade(c, item.kind, w.files[item.id]) {
            RunExtends(c, w, items, i + 1, done + [Response(item.id, item.kind, w.files[item.id])], unresolved, intr);
          }
        } else if !item.kind.Unsupported? {
          AttemptExtends(c, w, item, 1, intr);
          var a := Attempt(c, w, item, 1, intr);
          ExtendsWider(w, a.world, {item.id}, ItemIds(items));
          if a.Graded? {
            RunExtends(c, a.world, items, i + 1, done + [Response(item.id, item.kind, a.grade)], unresolved, intr);
            ExtendsTransitive(w, a.world, GradeFrom(c, w, items, i, done, unresolved, intr).world, ItemIds(items));
          } else if a.Exhausted? && c.keepGoing {
            RunExtends(c, a.world, items, i + 1, done, unresolved + [item.id], intr);
            ExtendsTransitive(w, a.world, GradeFrom(c, w, items, i, done, unresolved, intr).world, ItemIds(items));
          }
        }
      }
    }
  }

  lemma ExtendsSelf(w: World, ids: set<string>)
    ensures Extends(w, w, ids)
  {
  }

  /** The first `n` items, in order, are split between the responses and the unresolved. */
  predicate Splits(items: seq<Item>, n: nat, done: seq<Response>, unresolved: seq<string>)
    requires n <= |items|
  {
    if n == 0 then done == [] && unresolved == []
    else
      || (done != [] && done[|done| - 1].id == items[n - 1].id && done[|done| - 1].kind == items[n - 1].kind
          && Splits(items, n - 1, done[..|done| - 1], unresolved))
      || (unresolved != [] && unresolved[|unresolved| - 1] == items[n - 1].id
          && Splits(items, n - 1, done, unresolved[..|unresolved| - 1]))
  }

  /** Every response is a valid grade that is on disk. */
  predicate OnDisk(c: Config, w: World, done: seq<Response>) {
    forall k :: 0 <= k < |done| ==>
      done[k].id in w.files && w.files[done[k].id] == done[k].grade && ValidGrade(c, done[k].kind, done[k].grade)
  }

  lemma OnDiskExtends(c: Config, w: World, w': World, ids: set<string>, done: seq<Response>)
    requires OnDisk(c, w, done) && Extends(w, w', ids)
    ensures OnDisk(c, w', done)
  {
    hide ValidGrade;
  }

  lemma SplitsMore(items: seq<Item>, n: nat, done: seq<Response>, unresolved: seq<string>, g: Grade)
    requires n < |items| && Splits(items, n, done, unresolved)
    ensures Splits(items, n + 1, done + [Response(items[n].id, items[n].kind, g)], unresolved)
    ensures Splits(items, n + 1, done, unresolved + [items[n].id])
  {
    var r := Response(items[n].id, items[n].kind, g);
    assert (done + [r])[..|done|] == done && (unresolved + [items[n].id])[..|unresolved|] == unresolved;
  }

  /** A completed run splits the packet exactly and returns only what is on disk; without `keepGoing` nothing is unresolved. */
  lemma {:induction false} CompletedRun(c: Config, w: World, items: seq<Item>, i: nat, done: seq<Response>, unresolved: seq<string>, intr: Interrupt)
    requires i <= |items| && c.maxAttempts >= 1 && Splits(items, i, done, unresolved) && OnDisk(c, w, done)
    requires forall j :: 0 <= j < i ==> items[j].id != "" && !Repeated(items, j)
    ensures var r := GradeFrom(c, w, items, i, done, unresolved, intr);
      r.outcome.Completed? ==>
        && Splits(items, |items|, r.outcome.items, r.outcome.unresolved)
        && OnDisk(c, r.world, r.outcome.items)
        && (forall j :: 0 <= j < |items| ==> items[j].id != "" && !Repeated(items, j))
        && (!c.keepGoing && unresolved == [] ==> r.outcome.unresolved == [])
    decreases |items| - i
  {
    hide ValidGrade, Attempt, Splits;
    if i < |items| {
      var item := items[i];
      if item.id != "" && !Repeated(items, i) {
        if item.id in w.files {
          var g := w.files[item.id];
          if ValidGrade(c, item.kind, g) {
            SplitsMore(items, i, done, unresolved, g);
            CompletedRun(c, w, items, i + 1, done + [Response(item.id, item.kind, g)], unresolved, intr);
          }
        } else if !item.kind.Unsupported? {
          AttemptExtends(c, w, item, 1, intr);
          var a := Attempt(c, w, item, 1, intr);
          OnDiskExtends(c, w, a.world, {item.id}, done);
          if a.Graded? {
            SplitsMore(items, i, done, unresolved, a.grade);
            CompletedRun(c, a.world, items, i + 1, done + [Response(item.id, item.kind, a.grade)], unresolved, intr);
          } else if a.Exhausted? && c.keepGoing {
            SplitsMore(items, i, done, unresolved, map[]);
            CompletedRun(c, a.world, items, i + 1, done, unresolved + [item.id], intr);
          }
        }
      }
    }
  }

  /** With nothing unresolved, the responses are the items in order. */
  lemma {:induction false} SplitsAll(items: seq<Item>, n: nat, done: seq<Response>)
    requires n <= |items| && Splits(items, n, done, [])
    ensures |done| == n && forall k :: 0 <= k < n ==> done[k].id == items[k].id && done[k].kind == items[k].kind
  {
    if n > 0 {
      SplitsAll(items, n - 1, done[..|done| - 1]);
    }
  }

  /** Rerunning from index `i` over checkpoints that are all there reads them back and changes nothing. */
  lemma {:induction false} Replay(c: Config, w: World, items: seq<Item>, i: nat, all: seq<Response>, intr: Interrupt)
    requires i <= |items| == |all| && c.maxAttempts >= 1 && OnDisk(c, w, all)
    requires forall k :: 0 <= k < |items| ==> all[k].id == items[k].id && all[k].kind == items[k].kind
    requires forall j :: 0 <= j < |items| ==> items[j].id != "" && !Repeated(items, j)
    ensures GradeFrom(c, w, items, i, all[..i], [], intr) == Run(w, Completed(all, []))
    decreases |items| - i
  {
    hide ValidGrade, Attempt, Repeated;
    if i == |items| {
      assert all[..i] == all;
    } else {
      assert all[..i] + [all[i]] == all[..i + 1];
      Replay(c, w, items, i + 1, all, intr);
    }
  }

  /** What any two consecutive runs guarantee: the second, whatever its Hermes, attempts and interruption,
      keeps every checkpoint of the first and never invokes Hermes for one. */
  lemma RerunsKeepCheckpoints(c1: Config, c2: Config, w: World, items: seq<Item>, i1: Interrupt, i2: Interrupt)
    ensures var first := GradePacket(c1, w, items, i1).world;
      var second := GradePacket(c2, first, items, i2).world;
      && Extends(w, first, ItemIds(items)) && Extends(first, second, ItemIds(items)) && Extends(w, second, ItemIds(items))
  {
    hide GradeFrom;
    var ids := ItemIds(items);
    var first := GradePacket(c1, w, items, i1).world;
    ExtendsSelf(w, ids);
    ExtendsSelf(first, ids);
    if c1.maxAttempts >= 1 {
      RunExtends(c1, w, items, 0, [], [], i1);
    }
    if c2.maxAttempts >= 1 {
      RunExtends(c2, first, items, 0, [], [], i2);
    }
    ExtendsTransitive(w, first, GradePacket(c2, first, items, i2).world, ids);
  }

  /** A completed run splits the packet exactly between responses that are on disk and unresolved items. */
  lemma CompletedReturnsCheckpoints(c: Config, w: World, items: seq<Item>, intr: Interrupt)
    requires GradePacket(c, w, items, intr).outcome.Completed?
    ensures var r := GradePacket(c, w, items, intr);
      && Splits(items, |items|, r.outcome.items, r.outcome.unresolved)
      && OnDisk(c, r.world, r.outcome.items)
      && (!c.keepGoing ==> r.outcome.unresolved == [])
  {
    hide GradeFrom, ValidGrade;
    CompletedRun(c, w, items, 0, [], [], intr);
  }

  /** An item with a checkpoint never becomes unresolved. */
  lemma {:induction false} UnresolvedIsNew(c: Config, w0: World, w: World, items: seq<Item>, i: nat, done: seq<Response>, unresolved: seq<string>, intr: Interrupt)
    requires i <= |items| && c.maxAttempts >= 1
    requires w0.files.Keys <= w.files.Keys && forall u :: u in unresolved ==> u !in w0.files
    ensures var r := GradeFrom(c, w, items, i, done, unresolved, intr);
      r.outcome.Completed? ==> forall u :: u in r.outcome.unresolved ==> u !in w0.files
    decreases |items| - i
  {
    hide ValidGrade, Attempt;
    if i < |items| {
      var item := items[i];
      if item.id != "" && !Repeated(items, i) {
        if item.id in w.files {
          if ValidGrade(c, item.kind, w.files[item.id]) {
            UnresolvedIsNew(c, w0, w, items, i + 1, done + [Response(item.id, item.kind, w.files[item.id])], unresolved, intr);
          }
        } else if !item.kind.Unsupported? {
          AttemptExtends(c, w, item, 1, intr);
          var a := Attempt(c, w, item, 1, intr);
          if a.Graded? {
            UnresolvedIsNew(c, w0, a.world, items, i + 1, done + [Response(item.id, item.kind, a.grade)], unresolved, intr);
          } else if a.Exhausted? && c.keepGoing {
            UnresolvedIsNew(c, w0, a.world, items, i + 1, done, unresolved + [item.id], intr);
          }
        }
      }
    }
  }

  lemma {:induction false} SplitsCovers(items: seq<Item>, n: nat, done: seq<Response>, unresolved: seq<string>, k: nat)
    requires k < n <= |items| && Splits(items, n, done, unresolved)
    ensures items[k].id in unresolved || exists j :: 0 <= j < |done| && done[j].id == items[k].id
  {
    if done != [] && done[|done| - 1].id == items[n - 1].id && Splits(items, n - 1, done[..|done| - 1], unresolved) {
      if k < n - 1 {
        SplitsCovers(items, n - 1, done[..|done| - 1], unresolved, k);
      }
    } else {
      if k < n - 1 {
        SplitsCovers(items, n - 1, done, unresolved[..|unresolved| - 1], k);
      }
    }
  }

  /** A completed run returns, for every item that had a checkpoint before it, exactly the checkpointed grade. */
  lemma CheckpointIsReturned(c: Config, w: World, items: seq<Item>, intr: Interrupt, k: nat) returns (j: nat)
    requires GradePacket(c, w, items, intr).outcome.Completed? && k < |items| && items[k].id in w.files
    ensures var responses := GradePacket(c, w, items, intr).outcome.items;
      j < |responses| && responses[j].id == items[k].id && responses[j].grade == w.files[items[k].id]
  {
    hide GradeFrom, ValidGrade, Splits;
    var r := GradePacket(c, w, items, intr);
    CompletedReturnsCheckpoints(c, w, items, intr);
    UnresolvedIsNew(c, w, w, items, 0, [], [], intr);
    SplitsCovers(items, |items|, r.outcome.items, r.outcome.unresolved, k);
    j :| 0 <= j < |r.outcome.items| && r.outcome.items[j].id == items[k].id;
    RunExtends(c, w, items, 0, [], [], intr);
  }

  lemma SameValidity(c1: Config, c2: Config, w: World, done: seq<Response>)
    requires c1.blank == c2.blank && OnDisk(c1, w, done)
    ensures OnDisk(c2, w, done)
  {
    forall k | 0 <= k < |done|
      ensures ValidGrade(c2, done[k].kind, done[k].grade)
    {
      assert ValidGrade(c1, done[k].kind, done[k].grade);
    }
  }

  /** After a run that left nothing unresolved, a rerun with any Hermes makes no invocation and returns the same result. */
  lemma RerunIsFree(c1: Config, c2: Config, w: World, items: seq<Item>, i1: Interrupt, i2: Interrupt)
    requires GradePacket(c1, w, items, i1).outcome.Completed? && GradePacket(c1, w, items, i1).outcome.unresolved == []
    requires c2.blank == c1.blank && c2.maxAttempts >= 1
    ensures var first := GradePacket(c1, w, items, i1); GradePacket(c2, first.world, items, i2) == first
  {
    hide GradeFrom, OnDisk;
    CompletedReturnsCheckpoints(c1, w, items, i1);
    AllDistinct(c1, w, items, i1);
    var first := GradePacket(c1, w, items, i1);
    SplitsAll(items, |items|, first.outcome.items);
    SameValidity(c1, c2, first.world, first.outcome.items);
    Replay(c2, first.world, items, 0, first.outcome.items, i2);
    assert first.outcome.items[..0] == [];
  }

  lemma AllDistinct(c: Config, w: World, items: seq<Item>, intr: Interrupt)
    requires GradePacket(c, w, items, intr).outcome.Completed?
    ensures forall j :: 0 <= j < |items| ==> items[j].id != "" && !Repeated(items, j)
  {
    hide GradeFrom, ValidGrade;
    CompletedRun(c, w, items, 0, [], [], intr);
  }

  // ---- Exactly when a run completes ----

  /** Item `j` has an identifier of its own, and a valid checkpoint or else a supported type. */
  predicate Gradable(c: Config, w: World, items: seq<Item>, j: nat)
    requires j < |items|
  {
    && items[j].id != "" && (forall k :: 0 <= k < j ==> items[k].id != items[j].id)
    && if items[j].id in w.files then ValidGrade(c, items[j].kind, w.files[items[j].id]) else !items[j].kind.Unsupported?
  }

  /** Grading one item leaves the later ones as gradable as they were. */
  lemma GradableLater(c: Config, w: World, w1: World, items: seq<Item>, i: nat, j: nat)
    requires i < j < |items| && Extends(w, w1, {items[i].id})
    ensures Gradable(c, w1, items, j) <==> Gradable(c, w, items, j)
  {
    hide ValidGrade;
  }

  lemma {:induction false} AttemptEnds(c: Config, w: World, item: Item, attempt: nat)
    requires 1 <= attempt <= c.maxAttempts
    ensures !Attempt(c, w, item, attempt, Never).Stopped?
    decreases c.maxAttempts - attempt
  {
    hide ValidGrade;
    var w1 := Invoke(c, w, item, attempt, Never);
    if attempt < c.maxAttempts {
      AttemptEnds(c, w1, item, attempt + 1);
    }
  }

  lemma {:induction false} LenientFrom(c: Config, w: World, items: seq<Item>, i: nat, done: seq<Response>, unresolved: seq<string>)
    requires i <= |items| && c.maxAttempts >= 1 && c.keepGoing
    ensures GradeFrom(c, w, items, i, done, unresolved, Never).outcome.Completed? <==>
      forall j :: i <= j < |items| ==> Gradable(c, w, items, j)
    decreases |items| - i
  {
    hide ValidGrade, Attempt, Extends;
    if i < |items| {
      var item := items[i];
      if !Gradable(c, w, items, i) {
        assert !GradeFrom(c, w, items, i, done, unresolved, Never).outcome.Completed?;
      } else if item.id in w.files {
        LenientFrom(c, w, items, i + 1, done + [Response(item.id, item.kind, w.files[item.id])], unresolved);
      } else {
        AttemptExtends(c, w, item, 1, Never);
        AttemptEnds(c, w, item, 1);
        var a := Attempt(c, w, item, 1, Never);
        if a.Graded? {
          LenientFrom(c, a.world, items, i + 1, done + [Response(item.id, item.kind, a.grade)], unresolved);
        } else {
          LenientFrom(c, a.world, items, i + 1, done, unresolved + [item.id]);
        }
        forall j | i < j < |items|
          ensures Gradable(c, a.world, items, j) <==> Gradable(c, w, items, j)
        {
          GradableLater(c, w, a.world, items, i, j);
        }
      }
    }
  }

  /** An uninterrupted run that keeps going completes if and only if at least one attempt is allowed and every item is
      gradable, judged before it starts: whatever Hermes answers. */
  lemma CompletesExactly(c: Config, w: World, items: seq<Item>)
    requires c.keepGoing
    ensures GradePacket(c, w, items, Never).outcome.Completed? <==>
      c.maxAttempts >= 1 && forall j :: 0 <= j < |items| ==> Gradable(c, w, items, j)
  {
    hide GradeFrom, Gradable;
    if c.maxAttempts >= 1 {
      LenientFrom(c, w, items, 0, [], []);
    }
  }

  lemma {:induction false} UnresolvedGrows(c: Config, w: World, items: seq<Item>, i: nat, done: seq<Response>, unresolved: seq<string>, intr: Interrupt)
    requires i <= |items| && c.maxAttempts >= 1
    ensures var r := GradeFrom(c, w, items, i, done, unresolved, intr);
      r.outcome.Completed? ==> unresolved <= r.outcome.unresolved
    decreases |items| - i
  {
    hide ValidGrade, Attempt;
    if i < |items| {
      var item := items[i];
      if item.id in w.files {
        UnresolvedGrows(c, w, items, i + 1, done + [Response(item.id, item.kind, w.files[item.id])], unresolved, intr);
      } else {
        var a := Attempt(c, w, item, 1, intr);
        if a.Graded? {
          UnresolvedGrows(c, a.world, items, i + 1, done + [Response(item.id, item.kind, a.grade)], unresolved, intr);
        } else {
          UnresolvedGrows(c, a.world, items, i + 1, done, unresolved + [item.id], intr);
        }
      }
    }
  }

  lemma {:induction false} SameAttempt(c1: Config, c2: Config, w: World, item: Item, attempt: nat, intr: Interrupt)
    requires 1 <= attempt <= c1.maxAttempts && c2 == c1.(keepGoing := c2.keepGoing)
    ensures Attempt(c1, w, item, attempt, intr) == Attempt(c2, w, item, attempt, intr)
    decreases c1.maxAttempts - attempt
  {
    if attempt < c1.maxAttempts {
      SameAttempt(c1, c2, Invoke(c1, w, item, attempt, intr), item, attempt + 1, intr);
    }
  }

  lemma {:induction false} StrictFrom(strict: Config, lenient: Config, w: World, items: seq<Item>, i: nat, done: seq<Response>, intr: Interrupt)
    requires i <= |items| && strict.maxAttempts >= 1 && !strict.keepGoing && lenient == strict.(keepGoing := true)
    ensures var s, l := GradeFrom(strict, w, items, i, done, [], intr), GradeFrom(lenient, w, items, i, done, [], intr);
      && (s.outcome.Completed? <==> l.outcome.Completed? && l.outcome.unresolved == [])
      && (s.outcome.Completed? ==> s == l)
    decreases |items| - i
  {
    hide Attempt;
    if i < |items| {
      var item := items[i];
      SameAttempt(strict, lenient, w, item, 1, intr);
      if item.id in w.files {
        StrictFrom(strict, lenient, w, items, i + 1, done + [Response(item.id, item.kind, w.files[item.id])], intr);
      } else {
        var a := Attempt(strict, w, item, 1, intr);
        if a.Graded? {
          StrictFrom(strict, lenient, a.world, items, i + 1, done + [Response(item.id, item.kind, a.grade)], intr);
        } else {
          UnresolvedGrows(lenient, a.world, items, i + 1, done, [item.id], intr);
          assert [] + [item.id] == [item.id];
        }
      }
    }
  }

  /** A run that stops at the first unresolved item completes exactly when the one that keeps going completes with nothing
      unresolved, and then they are the same run. */
  lemma StrictExactly(c: Config, w: World, items: seq<Item>, intr: Interrupt)
    ensures var s, l := GradePacket(c.(keepGoing := false), w, items, intr), GradePacket(c.(keepGoing := true), w, items, intr);
      && (s.outcome.Completed? <==> l.outcome.Completed? && l.outcome.unresolved == [])
      && (s.outcome.Completed? ==> s == l)
  {
    hide GradeFrom;
    if c.maxAttempts >= 1 {
      StrictFrom(c.(keepGoing := false), c.(keepGoing := true), w, items, 0, [], intr);
    }
  }

  // ---- The rubric ----

  /** What a field of a grade may hold. */
  datatype Domain = Score | Choice(words: set<string>) | YesNo | Prose

  /** The rubric of each item type, field by field. */
  function DomainOf(kind: Kind, field: string): Option<Domain> {
    if kind.Unsupported? then None
    else if field == "rationale" then Some(Prose)
    else if kind.ClaimClosure? then
      if field == "claim_status" then Some(Choice({"closed", "partial", "open", "ambiguous"}))
      else if field == "contradiction_handling" then Some(Choice({"adequate", "inadequate", "not_applicable", "ambiguous"}))
      else None
    else if field == "passage_support" then Some(Choice({"supports", "challenges", "mixed", "irrelevant", "ambiguous"}))
    else if field == "useful" || field == "derivative_or_copied" then Some(YesNo)
    else if field == "currency" || field == "relevance" || field == "authority" || field == "accuracy" || field == "purpose" then Some(Score)
    else None
  }

  predicate InDomain(c: Config, v: Field, d: Domain) {
    match d
    case Score => v == Number(0) || v == Number(1) || v == Number(2)
    case Choice(words) => v.Word? && v.s in words
    case YesNo => v == Flag(true) || v == Flag(false)
    case Prose => v.Word? && !c.blank(v.s)
  }

  /** Exactly the fields of the rubric, each with a value it allows. */
  ghost predicate FollowsRubric(c: Config, kind: Kind, g: Grade) {
    && !kind.Unsupported?
    && (forall f :: f in g <==> DomainOf(kind, f).Some?)
    && (forall f :: f in g ==> InDomain(c, g[f], DomainOf(kind, f).value))
  }

  lemma ClaimDomains()
    ensures forall f :: f in CLAIM_FIELDS <==> DomainOf(ClaimClosure, f).Some?
    ensures DomainOf(ClaimClosure, "rationale") == Some(Prose)
    ensures DomainOf(ClaimClosure, "claim_status") == Some(Choice({"closed", "partial", "open", "ambiguous"}))
    ensures DomainOf(ClaimClosure, "contradiction_handling")
      == Some(Choice({"adequate", "inadequate", "not_applicable", "ambiguous"}))
  {
    assert "rationale"[0] != "claim_status"[0] && "rationale"[0] != "contradiction_handling"[0];
    assert |"claim_status"| != |"contradiction_handling"|;
  }

  lemma ClaimExactly(c: Config, g: Grade)
    ensures ValidGrade(c, ClaimClosure, g) <==> FollowsRubric(c, ClaimClosure, g)
  {
    hide DomainOf;
    ClaimDomains();
    if FollowsRubric(c, ClaimClosure, g) {
      assert g.Keys == CLAIM_FIELDS;
    }
  }

  lemma SourceDomains(f: string)
    ensures f in SOURCE_FIELDS <==> DomainOf(SourceGrade, f).Some?
    ensures f in SCORES <==> DomainOf(SourceGrade, f) == Some(Score)
    ensures f in {"useful", "derivative_or_copied"} <==> DomainOf(SourceGrade, f) == Some(YesNo)
  {
    assert "rationale"[1] == 'a' && "relevance"[1] == 'e' && "authority"[0] == 'a';
  }

  lemma SourceWords()
    ensures DomainOf(SourceGrade, "rationale") == Some(Prose)
    ensures DomainOf(SourceGrade, "passage_support")
      == Some(Choice({"supports", "challenges", "mixed", "irrelevant", "ambiguous"}))
  {
  }

  /** The nine fields of a source grade. */
  lemma SourceFieldsAre(f: string)
    ensures f in SOURCE_FIELDS <==>
      f in SCORES || f in {"useful", "derivative_or_copied"} || f == "passage_support" || f == "rationale"
  {
  }

  lemma SourceGradeExactly(c: Config, g: Grade)
    ensures ValidGrade(c, SourceGrade, g) <==> FollowsRubric(c, SourceGrade, g)
  {
    hide DomainOf, SCORES, SOURCE_FIELDS;
    SourceWords();
    forall f
      ensures f in SOURCE_FIELDS <==> DomainOf(SourceGrade, f).Some?
      ensures f in SCORES <==> DomainOf(SourceGrade, f) == Some(Score)
      ensures f in {"useful", "derivative_or_copied"} <==> DomainOf(SourceGrade, f) == Some(YesNo)
      ensures f in SOURCE_FIELDS <==>
        f in SCORES || f in {"useful", "derivative_or_copied"} || f == "passage_support" || f == "rationale"
    {
      SourceDomains(f);
      SourceFieldsAre(f);
    }
    if FollowsRubric(c, SourceGrade, g) {
      assert g.Keys == SOURCE_FIELDS;
    }
  }

  /** Validation accepts exactly the grades that follow the rubric of the item's type. */
  lemma ValidGradeExactly(c: Config, kind: Kind, g: Grade)
    ensures ValidGrade(c, kind, g) <==> FollowsRubric(c, kind, g)
  {
    hide ValidGrade, FollowsRubric;
    match kind
    case SourceGrade => SourceGradeExactly(c, g);
    case ClaimClosure => ClaimExactly(c, g);
    case Unsupported => UnsupportedNever(c, g);
  }

  lemma UnsupportedNever(c: Config, g: Grade)
    ensures !ValidGrade(c, Unsupported, g) && !FollowsRubric(c, Unsupported, g)
  {
  }
}
