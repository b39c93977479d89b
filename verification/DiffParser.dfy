/** Reading changed lines out of a unified diff, with or without context, against the printer of such diffs. */
module DiffParser {
  import opened Options
  import opened Json

  // ---- The parser ----

  /** The variables of `parse_changed_lines` between two lines of input. */
  datatype State = State(changed: map<string, set<int>>, path: Option<string>, line: int, inHunk: bool)

  predicate StartsWith(s: string, prefix: string) {
    prefix <= s
  }

  /** Length of the leading run of digits. */
  function DigitSpan(s: string): (n: nat)
    ensures n <= |s| && AllDigits(s[..n])
  {
    if s != [] && IsDigit(s[0]) then
      assert s[..1 + DigitSpan(s[1..])] == [s[0]] + s[1..][..DigitSpan(s[1..])];
      1 + DigitSpan(s[1..])
    else 0
  }

  /** `\d+(?:,\d+)?`: the value of the first group and what follows. */
  function MatchRange(s: string): Option<(nat, string)> {
    var n := DigitSpan(s);
    if n == 0 then None
    else
      var rest := s[n..];
      if rest != [] && rest[0] == ',' && DigitSpan(rest[1..]) > 0 then
        Some((DigitsValue(s[..n]), rest[1..][DigitSpan(rest[1..])..]))
      else Some((DigitsValue(s[..n]), rest))
  }

  function After(s: string, prefix: string): Option<string> {
    if StartsWith(s, prefix) then Some(s[|prefix|..]) else None
  }

  /** The hunk pattern at the start of `s`: the destination line. */
  function MatchHunk(s: string): Option<nat> {
    match After(s, "@@ -")
    case None => None
    case Some(source) =>
      match MatchRange(source)
      case None => None
      case Some((_, plus)) =>
        match After(plus, " +")
        case None => None
        case Some(target) =>
          match MatchRange(target)
          case None => None
          case Some((start, end)) => if StartsWith(end, " @@") then Some(start) else None
  }

  /** `HUNK_RE.search`: the leftmost match. */
  function SearchHunk(s: string): Option<nat> {
    if MatchHunk(s).Some? then MatchHunk(s)
    else if s == [] then None
    else SearchHunk(s[1..])
  }

  const NO_NEWLINE := "\\ No newline at end of file"

  /** One iteration of the parsing loop. */
  function Step(st: State, line: string): State {
    if StartsWith(line, "diff --git ") then st.(inHunk := false)
    else if StartsWith(line, "+++ b/") && !st.inHunk then
      var p := line[6..];
      st.(path := Some(p), changed := if p in st.changed then st.changed else st.changed[p := {}])
    else if StartsWith(line, "+++ ") && !st.inHunk then st.(path := None)
    else if StartsWith(line, "@@") then
      var m := SearchHunk(line);
      st.(inHunk := true, line := if m.Some? then m.value else st.line)
    else if st.path.None? || line == [] then st
    else if StartsWith(line, NO_NEWLINE) then st
    else if StartsWith(line, "+") then
      var p := st.path.value;
      var lines := if p in st.changed then st.changed[p] else {};
      st.(changed := st.changed[p := lines + {st.line}], line := st.line + 1)
    else if StartsWith(line, "-") then st
    else st.(line := st.line + 1)
  }

  function Run(st: State, lines: seq<string>): State {
    if lines == [] then st else Step(Run(st, lines[..|lines| - 1]), lines[|lines| - 1])
  }

  const START: State := State(map[], None, 0, false)

  function NonEmpty(changed: map<string, set<int>>): map<string, set<int>> {
    map p | p in changed && changed[p] != {} :: changed[p]
  }

  /** `parse_changed_lines` on the lines of a diff. */
  method ParseChangedLines(lines: seq<string>) returns (r: map<string, set<int>>)
    ensures r == NonEmpty(Run(START, lines).changed)
  {
    hide Step;
    var st := START;
    for i := 0 to |lines|
      invariant st == Run(START, lines[..i])
    {
      assert lines[..i + 1][..i] == lines[..i];
      st := Step(st, lines[i]);
    }
    assert lines[..|lines|] == lines;
    r := NonEmpty(st.changed);
  }

  // ---- Lines of text ----

  /** The characters at which `str.splitlines` breaks. */
  predicate IsBreak(c: char) {
    var n := c as int;
    (0x0A <= n <= 0x0D) || (0x1C <= n <= 0x1E) || n == 0x85 || n == 0x2028 || n == 0x2029
  }

  predicate OneLine(s: string) {
    forall i :: 0 <= i < |s| ==> !IsBreak(s[i])
  }

  function Span(s: string): (n: nat)
    ensures n <= |s|
  {
    if s != [] && !IsBreak(s[0]) then 1 + Span(s[1..]) else 0
  }

  function SplitLines(s: string): seq<string>
    decreases |s|
  {
    if s == [] then []
    else
      var n := Span(s);
      if n == |s| then [s]
      else if s[n] == '\r' && n + 1 < |s| && s[n + 1] == '\n' then [s[..n]] + SplitLines(s[n + 2..])
      else [s[..n]] + SplitLines(s[n + 1..])
  }

  function Unlines(lines: seq<string>): string {
    if lines == [] then [] else lines[0] + "\n" + Unlines(lines[1..])
  }

  lemma {:induction false} SpanLine(line: string, rest: string)
    requires OneLine(line)
    ensures Span(line + "\n" + rest) == |line|
  {
    if line == [] {
      assert line + "\n" + rest == "\n" + rest;
    } else {
      SpanLine(line[1..], rest);
      assert (line + "\n" + rest)[1..] == line[1..] + "\n" + rest;
    }
  }

  lemma {:induction false} SplitUnlines(lines: seq<string>)
    requires forall i :: 0 <= i < |lines| ==> OneLine(lines[i])
    ensures SplitLines(Unlines(lines)) == lines
  {
    if lines != [] {
      var rest := Unlines(lines[1..]);
      var text := lines[0] + "\n" + rest;
      SpanLine(lines[0], rest);
      SplitUnlines(lines[1..]);
      var n := |lines[0]|;
      assert text[..n] == lines[0] && text[n] == '\n' && text[n + 1..] == rest;
      assert lines == [lines[0]] + lines[1..];
    }
  }

  // ---- The printer ----

  datatype BodyLine = Removed(text: string) | Added(text: string) | Kept(text: string) | Unterminated

  /** A hunk, with or without context lines. Counts of one may be left out of the header; `section` is the text after it. */
  datatype Hunk = Hunk(oldStart: nat, oldCount: Option<nat>, newStart: nat, newCount: Option<nat>, section: string, body: seq<BodyLine>)

  /** One file section; `newPath` is `None` for a deleted file. */
  datatype FileDiff = FileDiff(opening: string, headers: seq<string>, oldName: string, newPath: Option<string>, hunks: seq<Hunk>)

  function RangeText(start: nat, count: Option<nat>): string {
    Digits(start) + if count.Some? then "," + Digits(count.value) else ""
  }

  function HunkHeader(h: Hunk): string {
    "@@ -" + RangeText(h.oldStart, h.oldCount) + " +" + RangeText(h.newStart, h.newCount) + " @@" + h.section
  }

  function BodyText(b: BodyLine): string {
    match b
    case Removed(text) => "-" + text
    case Added(text) => "+" + text
    case Kept(text) => " " + text
    case Unterminated => NO_NEWLINE
  }

  function BodyLines(body: seq<BodyLine>): seq<string> {
    if body == [] then [] else BodyLines(body[..|body| - 1]) + [BodyText(body[|body| - 1])]
  }

  function HunkLines(h: Hunk): seq<string> {
    [HunkHeader(h)] + BodyLines(h.body)
  }

  function HunksLines(hs: seq<Hunk>): seq<string> {
    if hs == [] then [] else HunksLines(hs[..|hs| - 1]) + HunkLines(hs[|hs| - 1])
  }

  function NewName(path: Option<string>): string {
    if path.Some? then "+++ b/" + path.value else "+++ /dev/null"
  }

  function Opening(f: FileDiff): seq<string> {
    ["diff --git " + f.opening] + f.headers
  }

  function FileLines(f: FileDiff): seq<string> {
    Opening(f) + if f.hunks == [] then [] else ["--- " + f.oldName, NewName(f.newPath)] + HunksLines(f.hunks)
  }

  function DiffLines(fs: seq<FileDiff>): seq<string> {
    if fs == [] then [] else DiffLines(fs[..|fs| - 1]) + FileLines(fs[|fs| - 1])
  }

  /** An extended header line, such as `index` or `rename to`: it cannot be taken for anything else. */
  predicate IsHeader(line: string) {
    !StartsWith(line, "+") && !StartsWith(line, "@@") && !StartsWith(line, "diff --git ")
  }

  predicate WellFormed(f: FileDiff) {
    forall i :: 0 <= i < |f.headers| ==> IsHeader(f.headers[i])
  }

  // ---- What a diff adds ----

  /** How many destination lines a body holds. */
  function NewLines(body: seq<BodyLine>): nat {
    if body == [] then 0
    else NewLines(body[..|body| - 1]) + if body[|body| - 1].Added? || body[|body| - 1].Kept? then 1 else 0
  }

  /** The numbers of the added ones, if the first destination line has number `start`. */
  function AddedFrom(start: int, body: seq<BodyLine>): (r: set<int>)
    ensures forall n :: n in r <==> exists k :: 0 <= k < |body| && body[k].Added? && n == start + NewLines(body[..k])
  {
    if body == [] then {}
    else
      var front := body[..|body| - 1];
      assert forall k :: 0 <= k < |front| ==> front[..k] == body[..k];
      AddedFrom(start, front) + if body[|body| - 1].Added? then {start + NewLines(front)} else {}
  }

  /** The destination lines that a hunk adds. */
  function HunkAdds(h: Hunk): set<int> {
    AddedFrom(h.newStart, h.body)
  }

  /** Line `n` of `path` is added by some hunk of some file section. */
  predicate Adds(fs: seq<FileDiff>, path: string, n: int) {
    exists i, j :: 0 <= i < |fs| && fs[i].newPath == Some(path) && 0 <= j < |fs[i].hunks| && n in HunkAdds(fs[i].hunks[j])
  }

  /** The map holds exactly the added lines, per path. */
  ghost predicate Exactly(changed: map<string, set<int>>, fs: seq<FileDiff>) {
    forall p, n :: (p in changed && n in changed[p]) <==> Adds(fs, p, n)
  }

  // ---- Parsing what was printed ----

  lemma {:induction false} RunConcat(st: State, a: seq<string>, b: seq<string>)
    ensures Run(st, a + b) == Run(Run(st, a), b)
  {
    hide Step;
    if b == [] {
      assert a + b == a;
    } else {
      var last := |b| - 1;
      RunConcat(st, a, b[..last]);
      assert (a + b)[..|a + b| - 1] == a + b[..last];
    }
  }

  lemma RunOne(st: State, line: string)
    ensures Run(st, [line]) == Step(st, line)
  {
    hide Step;
    assert [line][..0] == [];
  }

  lemma {:induction false} DigitSpanStops(d: string, rest: string)
    requires AllDigits(d) && (rest == [] || !IsDigit(rest[0]))
    ensures DigitSpan(d + rest) == |d|
  {
    if d == [] {
      assert d + rest == rest;
    } else {
      DigitSpanStops(d[1..], rest);
      assert (d + rest)[1..] == d[1..] + rest;
    }
  }

  lemma MatchRangeText(start: nat, count: Option<nat>, rest: string)
    requires rest != [] && !IsDigit(rest[0]) && rest[0] != ','
    ensures MatchRange(RangeText(start, count) + rest) == Some((start, rest))
  {
    var d := Digits(start);
    var tail := (if count.Some? then "," + Digits(count.value) else "") + rest;
    var s := RangeText(start, count) + rest;
    assert s == d + tail;
    DigitSpanStops(d, tail);
    assert s[..|d|] == d && s[|d|..] == tail;
    DigitsInverse(start);
    if count.Some? {
      var c := Digits(count.value);
      assert tail[1..] == c + rest;
      DigitSpanStops(c, rest);
      assert (c + rest)[|c|..] == rest;
    } else {
      assert tail == rest;
    }
  }

  /** The hunk pattern finds the destination line in every printed header. */
  lemma HeaderMatches(h: Hunk)
    ensures SearchHunk(HunkHeader(h)) == Some(h.newStart)
  {
    hide RangeText, MatchRange;
    var end := " @@" + h.section;
    var target := RangeText(h.newStart, h.newCount) + end;
    var plus := " +" + target;
    var source := RangeText(h.oldStart, h.oldCount) + plus;
    var s := HunkHeader(h);
    assert s == "@@ -" + source;
    assert s[4..] == source && s[..4] == "@@ -";
    MatchRangeText(h.oldStart, h.oldCount, plus);
    assert plus[2..] == target && plus[..2] == " +";
    MatchRangeText(h.newStart, h.newCount, end);
    assert end[..3] == " @@";
  }

  /** The state after a hunk's body, or a part of it, from a state inside the hunk. */
  function AfterBody(st: State, body: seq<BodyLine>): State
    requires st.path.Some? ==> st.path.value in st.changed
  {
    if st.path.None? then st
    else
      var p := st.path.value;
      st.(changed := st.changed[p := st.changed[p] + AddedFrom(st.line, body)], line := st.line + NewLines(body))
  }

  lemma BodyStep(st: State, b: BodyLine)
    requires st.inHunk && (st.path.Some? ==> st.path.value in st.changed)
    ensures Step(st, BodyText(b)) ==
      if b.Added? && st.path.Some? then
        st.(changed := st.changed[st.path.value := st.changed[st.path.value] + {st.line}], line := st.line + 1)
      else if b.Kept? && st.path.Some? then st.(line := st.line + 1)
      else st
  {
    var s := BodyText(b);
    assert s[0] == (match b case Removed(_) => '-' case Added(_) => '+' case Kept(_) => ' ' case Unterminated => '\\');
    assert "diff --git "[0] == 'd' && "@@"[0] == '@' && "+++ "[0] == '+' && "+++ b/"[0] == '+';
    assert s[..1] == [s[0]];
  }

  lemma {:induction false} BodyRun(st: State, body: seq<BodyLine>)
    requires st.inHunk && (st.path.Some? ==> st.path.value in st.changed)
    ensures Run(st, BodyLines(body)) == AfterBody(st, body)
  {
    hide Step, BodyText;
    if body == [] {
      if st.path.Some? {
        assert st.changed[st.path.value := st.changed[st.path.value]] == st.changed;
        assert st.changed[st.path.value] + AddedFrom(st.line, []) == st.changed[st.path.value];
      }
    } else {
      var init, b := body[..|body| - 1], body[|body| - 1];
      BodyRun(st, init);
      RunConcat(st, BodyLines(init), [BodyText(b)]);
      var mid := AfterBody(st, init);
      RunOne(mid, BodyText(b));
      BodyStep(mid, b);
      AfterBodySnoc(st, init, b, body);
    }
  }

  lemma AfterBodySnoc(st: State, init: seq<BodyLine>, b: BodyLine, body: seq<BodyLine>)
    requires st.path.Some? ==> st.path.value in st.changed
    requires body != [] && init == body[..|body| - 1] && b == body[|body| - 1]
    ensures var mid := AfterBody(st, init);
      AfterBody(st, body) ==
        if b.Added? && mid.path.Some? then
          mid.(changed := mid.changed[mid.path.value := mid.changed[mid.path.value] + {mid.line}], line := mid.line + 1)
        else if b.Kept? && mid.path.Some? then mid.(line := mid.line + 1)
        else mid
  {
    hide AddedFrom, NewLines;
    if st.path.Some? {
      AddedSnoc(st.line, init, b, body);
      var p, before := st.path.value, AddedFrom(st.line, init);
      if b.Added? {
        var line := {st.line + NewLines(init)};
        SetTwice(st.changed, p, st.changed[p] + before, st.changed[p] + (before + line));
        assert st.changed[p] + before + line == st.changed[p] + (before + line);
      }
    }
  }

  lemma SetTwice(m: map<string, set<int>>, p: string, a: set<int>, b: set<int>)
    ensures m[p := a][p := b] == m[p := b]
  {
  }

  lemma AddedSnoc(start: int, init: seq<BodyLine>, b: BodyLine, body: seq<BodyLine>)
    requires body != [] && init == body[..|body| - 1] && b == body[|body| - 1]
    ensures AddedFrom(start, body) == if b.Added? then AddedFrom(start, init) + {start + NewLines(init)} else AddedFrom(start, init)
    ensures NewLines(body) == NewLines(init) + if b.Added? || b.Kept? then 1 else 0
  {
  }

  lemma HeaderStep(st: State, h: Hunk)
    ensures Step(st, HunkHeader(h)) == st.(inHunk := true, line := h.newStart)
  {
    hide SearchHunk, RangeText;
    HeaderMatches(h);
    var s := HunkHeader(h);
    assert s[0] == '@' && s[1] == '@' && s[..2] == "@@";
    assert "diff --git "[0] == 'd' && "+++ "[0] == '+' && "+++ b/"[0] == '+';
  }

  lemma HunkRun(st: State, h: Hunk)
    requires st.path.Some? ==> st.path.value in st.changed
    ensures Run(st, HunkLines(h)) == AfterBody(st.(inHunk := true, line := h.newStart), h.body)
  {
    hide Step, HunkHeader, AfterBody;
    RunConcat(st, [HunkHeader(h)], BodyLines(h.body));
    RunOne(st, HunkHeader(h));
    HeaderStep(st, h);
    BodyRun(st.(inHunk := true, line := h.newStart), h.body);
  }

  /** The lines a file section's first hunks add. */
  function HunksAdd(hs: seq<Hunk>): (r: set<int>)
    ensures forall n :: n in r <==> exists j :: 0 <= j < |hs| && n in HunkAdds(hs[j])
  {
    if hs == [] then {}
    else
      var init, h := hs[..|hs| - 1], hs[|hs| - 1];
      assert hs == init + [h];
      HunksAdd(init) + HunkAdds(h)
  }

  /** Hunks add their lines to the current path and to nothing else, whatever their content looks like. */
  lemma {:induction false} HunksRun(st: State, hs: seq<Hunk>)
    requires st.path.Some? ==> st.path.value in st.changed
    ensures Run(st, HunksLines(hs)).path == st.path
    ensures Run(st, HunksLines(hs)).changed ==
      if st.path.None? then st.changed else st.changed[st.path.value := st.changed[st.path.value] + HunksAdd(hs)]
  {
    hide Step, HunkLines, AddedFrom;
    if hs == [] {
      if st.path.Some? {
        assert st.changed[st.path.value] + HunksAdd(hs) == st.changed[st.path.value];
        assert st.changed[st.path.value := st.changed[st.path.value]] == st.changed;
      }
    } else {
      var init, h := hs[..|hs| - 1], hs[|hs| - 1];
      HunksRun(st, init);
      var mid := Run(st, HunksLines(init));
      RunConcat(st, HunksLines(init), HunkLines(h));
      HunkRun(mid, h);
      if st.path.Some? {
        var p := st.path.value;
        assert st.changed[p] + HunksAdd(init) + HunkAdds(h) == st.changed[p] + HunksAdd(hs);
      }
    }
  }

  /** Header lines add nothing. */
  lemma {:induction false} HeadersRun(st: State, headers: seq<string>)
    requires !st.inHunk && forall i :: 0 <= i < |headers| ==> IsHeader(headers[i])
    ensures var r := Run(st, headers); r.changed == st.changed && r.path == st.path && !r.inHunk
  {
    if headers != [] {
      var init, line := headers[..|headers| - 1], headers[|headers| - 1];
      HeadersRun(st, init);
      HeaderLineStep(Run(st, init), line);
    }
  }

  lemma HeaderLineStep(st: State, line: string)
    requires !st.inHunk && IsHeader(line)
    ensures var r := Step(st, line); r.changed == st.changed && r.path == st.path && !r.inHunk
  {
    NotPlus(line);
  }

  lemma NotPlus(line: string)
    requires !StartsWith(line, "+")
    ensures !StartsWith(line, "+++ b/") && !StartsWith(line, "+++ ")
  {
    assert "+++ b/"[0] == '+' && "+++ "[0] == '+';
  }

  lemma OpeningRun(st: State, f: FileDiff)
    requires WellFormed(f)
    ensures var r := Run(st, Opening(f)); r.changed == st.changed && !r.inHunk
  {
    hide Step, IsHeader;
    var line := "diff --git " + f.opening;
    RunConcat(st, [line], f.headers);
    RunOne(st, line);
    OpeningStep(st, f.opening);
    HeadersRun(Step(st, line), f.headers);
  }

  lemma OpeningStep(st: State, opening: string)
    ensures Step(st, "diff --git " + opening) == st.(inHunk := false)
  {
    assert ("diff --git " + opening)[..11] == "diff --git ";
  }

  /** The `---` and `+++` lines open the destination path. */
  lemma NamesRun(st: State, oldName: string, path: Option<string>)
    requires !st.inHunk
    ensures var r := Run(st, ["--- " + oldName, NewName(path)]);
      && r.path == path && !r.inHunk
      && r.changed == (if path.Some? && path.value !in st.changed then st.changed[path.value := {}] else st.changed)
  {
    var a, b := "--- " + oldName, NewName(path);
    assert [a, b] == [a] + [b];
    RunConcat(st, [a], [b]);
    RunOne(st, a);
    assert a[0] == '-' && a[..1] == "-";
    assert IsHeader(a) by {
      assert "+"[0] == '+' && "@@"[0] == '@' && "diff --git "[0] == 'd';
    }
    HeaderLineStep(st, a);
    RunOne(Step(st, a), b);
    NewNameStep(Step(st, a), path);
  }

  lemma NewNameStep(st: State, path: Option<string>)
    requires !st.inHunk
    ensures var r := Step(st, NewName(path));
      && r.path == path && !r.inHunk
      && r.changed == (if path.Some? && path.value !in st.changed then st.changed[path.value := {}] else st.changed)
  {
    var b := NewName(path);
    assert b[0] == '+' && "diff --git "[0] == 'd';
    if path.Some? {
      assert b[..6] == "+++ b/" && b[6..] == path.value;
    } else {
      assert b[4] == '/' && "+++ b/"[4] == 'b' && b[..4] == "+++ ";
    }
  }

  /** One file section adds its hunks' lines to its destination path. */
  lemma FileRun(st: State, f: FileDiff, p: string, n: int)
    requires WellFormed(f)
    ensures var r := Run(st, FileLines(f)).changed;
      (p in r && n in r[p]) <==>
        (p in st.changed && n in st.changed[p]) || (f.newPath == Some(p) && n in HunksAdd(f.hunks))
  {
    hide Step, Opening, HunksLines, NewName, WellFormed;
    var st1 := Run(st, Opening(f));
    OpeningRun(st, f);
    if f.hunks == [] {
      assert FileLines(f) == Opening(f);
    } else {
      var names := ["--- " + f.oldName, NewName(f.newPath)];
      NamesRun(st1, f.oldName, f.newPath);
      var st2 := Run(st1, names);
      HunksRun(st2, f.hunks);
      RunConcat(st1, names, HunksLines(f.hunks));
      RunConcat(st, Opening(f), names + HunksLines(f.hunks));
    }
  }

  lemma AddsSnoc(fs: seq<FileDiff>, p: string, n: int)
    requires fs != []
    ensures var last := fs[|fs| - 1];
      Adds(fs, p, n) <==> Adds(fs[..|fs| - 1], p, n) || (last.newPath == Some(p) && n in HunksAdd(last.hunks))
  {
    var init, last := fs[..|fs| - 1], fs[|fs| - 1];
    if Adds(init, p, n) {
      var i, j :| 0 <= i < |init| && init[i].newPath == Some(p) && 0 <= j < |init[i].hunks| && n in HunkAdds(init[i].hunks[j]);
      assert fs[i] == init[i];
    }
    if Adds(fs, p, n) {
      var i, j :| 0 <= i < |fs| && fs[i].newPath == Some(p) && 0 <= j < |fs[i].hunks| && n in HunkAdds(fs[i].hunks[j]);
      assert i < |init| ==> init[i] == fs[i];
    }
  }

  lemma {:induction false} DiffRun(fs: seq<FileDiff>)
    requires forall i :: 0 <= i < |fs| ==> WellFormed(fs[i])
    ensures Exactly(Run(START, DiffLines(fs)).changed, fs)
  {
    hide Step, FileLines, WellFormed, Adds;
    if fs == [] {
      NothingAdded();
    } else {
      var init, last := fs[..|fs| - 1], fs[|fs| - 1];
      DiffRun(init);
      RunConcat(START, DiffLines(init), FileLines(last));
      var mid := Run(START, DiffLines(init));
      var r := Run(mid, FileLines(last)).changed;
      assert r == Run(START, DiffLines(fs)).changed;
      forall p, n
        ensures (p in r && n in r[p]) <==> Adds(fs, p, n)
      {
        AddsSnoc(fs, p, n);
        FileRun(mid, last, p, n);
        assert (p in mid.changed && n in mid.changed[p]) <==> Adds(init, p, n);
      }
    }
  }

  lemma NothingAdded()
    ensures forall p, n :: !Adds([], p, n)
  {
  }

  /** Parsing a printed diff gives, for every path, exactly the added destination lines. */
  lemma ParseInvertsPrint(fs: seq<FileDiff>)
    requires forall i :: 0 <= i < |fs| ==> WellFormed(fs[i])
    ensures var r := NonEmpty(Run(START, DiffLines(fs)).changed);
      Exactly(r, fs) && forall p :: p in r ==> r[p] != {}
  {
    DiffRun(fs);
  }

  /** The same from the text of the diff, when no printed line contains a line separator. */
  lemma ParseInvertsText(fs: seq<FileDiff>)
    requires forall i :: 0 <= i < |fs| ==> WellFormed(fs[i])
    requires forall i :: 0 <= i < |DiffLines(fs)| ==> OneLine(DiffLines(fs)[i])
    ensures Exactly(NonEmpty(Run(START, SplitLines(Unlines(DiffLines(fs)))).changed), fs)
  {
    ParseInvertsPrint(fs);
    SplitUnlines(DiffLines(fs));
  }
}
