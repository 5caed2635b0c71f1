/** Fenced code, sections, and the entries grouped under change types inside a section. */
module ChangelogSections {
  import opened Options
  import opened ChangelogText

  // ----- Fences

  /** Inside a fenced block, the mark that opened it and how many of them. */
  datatype Fence = Closed | Open(mark: char, length: nat)

  function RunLength(s: string, c: char): nat {
    if s != [] && s[0] == c then 1 + RunLength(s[1..], c) else 0
  }

  /** The fence a line could open or close. */
  function Delimiter(line: string): Fence {
    var t := SkipSpaces(line);
    if RunLength(t, '`') >= 3 then Open('`', RunLength(t, '`'))
    else if RunLength(t, '~') >= 3 then Open('~', RunLength(t, '~'))
    else Closed
  }

  /** A block is closed by the same mark, at least as many of them, whatever follows on that line. */
  function NextFence(f: Fence, line: string): Fence {
    var d := Delimiter(line);
    match f
    case Closed => d
    case Open(mark, length) => if d.Open? && d.mark == mark && d.length >= length then Closed else f
  }

  function FenceAfter(f: Fence, lines: seq<string>): Fence
    decreases lines
  {
    if lines == [] then f else FenceAfter(NextFence(f, lines[0]), lines[1..])
  }

  /** Line `i` is inside a block, or opens or closes one. */
  predicate Fenced(lines: seq<string>, i: nat)
    requires i < |lines|
  {
    FenceAfter(Closed, lines[..i]).Open? || Delimiter(lines[i]).Open?
  }

  lemma {:induction false} FenceAfterConcat(f: Fence, a: seq<string>, b: seq<string>)
    ensures FenceAfter(f, a + b) == FenceAfter(FenceAfter(f, a), b)
    decreases a
  {
    if a == [] {
      assert a + b == b;
    } else {
      assert (a + b)[1..] == a[1..] + b;
      FenceAfterConcat(NextFence(f, a[0]), a[1..], b);
    }
  }

  lemma FenceAfterOneMore(lines: seq<string>, i: nat)
    requires i < |lines|
    ensures FenceAfter(Closed, lines[..i + 1]) == NextFence(FenceAfter(Closed, lines[..i]), lines[i])
  {
    assert lines[..i + 1] == lines[..i] + [lines[i]];
    FenceAfterConcat(Closed, lines[..i], [lines[i]]);
    var f := FenceAfter(Closed, lines[..i]);
    assert FenceAfter(f, [lines[i]]) == FenceAfter(NextFence(f, lines[i]), []);
  }

  lemma FencedPrefix(a: seq<string>, b: seq<string>, i: nat)
    requires i < |a|
    ensures Fenced(a + b, i) == Fenced(a, i)
  {
    assert (a + b)[..i] == a[..i];
  }

  /** Lines after a stretch that leaves no block open are fenced as they would be on their own. */
  lemma FencedSuffix(a: seq<string>, b: seq<string>, i: nat)
    requires FenceAfter(Closed, a) == Closed && i < |b|
    ensures Fenced(a + b, |a| + i) == Fenced(b, i)
  {
    assert (a + b)[..|a| + i] == a + b[..i];
    FenceAfterConcat(Closed, a, b[..i]);
  }

  /** An unfenced line has no block open before it, nor after it. */
  lemma UnfencedClosed(lines: seq<string>, i: nat)
    requires i < |lines| && !Fenced(lines, i)
    ensures FenceAfter(Closed, lines[..i]) == Closed && FenceAfter(Closed, lines[..i + 1]) == Closed
  {
    FenceAfterOneMore(lines, i);
  }

  method MarkFenced(lines: seq<string>) returns (fenced: seq<bool>)
    ensures |fenced| == |lines| && forall i :: 0 <= i < |lines| ==> fenced[i] == Fenced(lines, i)
  {
    fenced := [];
    var fence := Closed;
    for i := 0 to |lines|
      invariant |fenced| == i && fence == FenceAfter(Closed, lines[..i])
      invariant forall k :: 0 <= k < i ==> fenced[k] == Fenced(lines, k)
    {
      FenceAfterOneMore(lines, i);
      var delimiter := Delimiter(lines[i]);
      if fence == Closed {
        fence := delimiter;
        fenced := fenced + [delimiter.Open?];
        continue;
      }
      if delimiter.Open? && delimiter.mark == fence.mark && delimiter.length >= fence.length {
        fence := Closed;
      }
      fenced := fenced + [true];
    }
    assert lines[..|lines|] == lines;
  }

  // ----- Finding lines

  ghost predicate IsFirst(lines: seq<string>, p: string -> bool, lo: nat, hi: nat, i: int)
    requires lo <= hi <= |lines|
  {
    && lo <= i < hi && !Fenced(lines, i) && p(lines[i])
    && forall j :: lo <= j < i ==> Fenced(lines, j) || !p(lines[j])
  }

  /** The first unfenced line from `lo` to `hi` that satisfies `p`, or -1. */
  function First(lines: seq<string>, p: string -> bool, lo: nat, hi: nat): (r: int)
    requires lo <= hi <= |lines|
    ensures r == -1 || IsFirst(lines, p, lo, hi, r)
    ensures r == -1 ==> forall j :: lo <= j < hi ==> Fenced(lines, j) || !p(lines[j])
    decreases hi - lo
  {
    if lo == hi then -1
    else if !Fenced(lines, lo) && p(lines[lo]) then lo
    else First(lines, p, lo + 1, hi)
  }

  lemma FirstIs(lines: seq<string>, p: string -> bool, lo: nat, hi: nat, i: int)
    requires lo <= hi <= |lines| && IsFirst(lines, p, lo, hi, i)
    ensures First(lines, p, lo, hi) == i
  {
  }

  function SectionEnd(lines: seq<string>, heading: nat): (end: nat)
    requires heading < |lines|
    ensures heading < end <= |lines|
  {
    var r := First(lines, EndsSection, heading + 1, |lines|);
    if r == -1 then |lines| else r
  }

  predicate HasVersion(version: string, line: string) {
    VersionHeading(line).Some? && VersionHeading(line).value.version == version
  }

  function VersionIndex(lines: seq<string>, version: string): int {
    First(lines, line => HasVersion(version, line), 0, |lines|)
  }

  method Find(lines: seq<string>, fenced: seq<bool>, p: string -> bool, start: nat, end: nat) returns (r: int)
    requires start <= end <= |lines| == |fenced| && forall i :: 0 <= i < |lines| ==> fenced[i] == Fenced(lines, i)
    ensures r == First(lines, p, start, end)
  {
    for i := start to end
      invariant forall j :: start <= j < i ==> Fenced(lines, j) || !p(lines[j])
    {
      if !fenced[i] && p(lines[i]) {
        FirstIs(lines, p, start, end, i);
        return i;
      }
    }
    r := -1;
  }

  method FindSectionEnd(lines: seq<string>, fenced: seq<bool>, heading: nat) returns (end: nat)
    requires heading < |lines| == |fenced| && forall i :: 0 <= i < |lines| ==> fenced[i] == Fenced(lines, i)
    ensures end == SectionEnd(lines, heading)
  {
    for i := heading + 1 to |lines|
      invariant forall j :: heading < j < i ==> Fenced(lines, j) || !EndsSection(lines[j])
    {
      if fenced[i] { continue; }
      if SectionHeading(lines[i]) || LinkDefinition(lines[i]).Some? {
        FirstIs(lines, EndsSection, heading + 1, |lines|, i);
        return i;
      }
    }
    end := |lines|;
  }

  // ----- Entries

  /** The lines of one entry. */
  type Entry = seq<string>

  type Grouped = map<string, seq<Entry>>

  datatype FoldError = NoHeading | StrayLine | NoType | UnknownType

  datatype Result<+T> = Ok(value: T) | Err(error: FoldError) {
    predicate IsFailure() { Err? }
    function PropagateFailure<U>(): Result<U>
      requires Err?
    {
      Err(error)
    }
    function Extract(): T
      requires Ok?
    {
      value
    }
  }

  function Listed(g: Grouped, name: string): seq<Entry> {
    if name in g then g[name] else []
  }

  function Added(g: Grouped, name: string, es: seq<Entry>): Grouped {
    if es == [] then g else g[name := Listed(g, name) + es]
  }

  function DropBlankTail(e: Entry): Entry {
    if e != [] && Blank(e[|e| - 1]) then DropBlankTail(e[..|e| - 1]) else e
  }

  /** Closing the entry being read, without the blank lines that trail it. */
  function Append(g: Grouped, name: Option<string>, e: Entry): Result<Grouped> {
    var kept := DropBlankTail(e);
    if kept == [] then Ok(g)
    else
      match name
      case None => Err(NoType)
      case Some(n) => Ok(Added(g, n, [kept]))
  }

  /** The entries of a section's lines, read from fence state `f` under change type `name` with entry `e` open. */
  function Group(lines: seq<string>, f: Fence, name: Option<string>, e: Entry, g: Grouped): Result<Grouped>
    decreases lines
  {
    if lines == [] then Append(g, name, e)
    else
      var line, rest, next := lines[0], lines[1..], NextFence(f, lines[0]);
      var structural := f == Closed && Delimiter(line) == Closed;
      if structural && TypeHeading(line) then
        var g' :- Append(g, name, e);
        Group(rest, next, Some(TypeName(line)), [], g')
      else if structural && TopLevelEntry(line) then
        var g' :- Append(g, name, e);
        Group(rest, next, name, [line], g')
      else if e != [] then
        Group(rest, next, name, e + [line], g)
      else if !Blank(line) && !CommentLine(line) then Err(StrayLine)
      else Group(rest, next, name, [], g)
  }

  function EntriesOf(body: seq<string>): Result<Grouped> {
    Group(body, Closed, None, [], map[])
  }

  method GroupEntries(lines: seq<string>, fenced: seq<bool>, start: nat, end: nat) returns (r: Result<Grouped>)
    requires start <= end <= |lines| == |fenced| && forall i :: 0 <= i < |lines| ==> fenced[i] == Fenced(lines, i)
    requires FenceAfter(Closed, lines[..start]) == Closed
    ensures r == EntriesOf(lines[start..end])
  {
    hide Append, Delimiter, TypeHeading, TopLevelEntry, TypeName, Blank, CommentLine;
    var grouped: Grouped, name: Option<string>, entry: Entry := map[], None, [];
    for i := start to end
      invariant Group(lines[i..end], FenceAfter(Closed, lines[..i]), name, entry, grouped) == EntriesOf(lines[start..end])
    {
      var line := lines[i];
      assert lines[i..end][0] == line && lines[i..end][1..] == lines[i + 1..end];
      FenceAfterOneMore(lines, i);
      var structural := !fenced[i];
      if structural && TypeHeading(line) {
        var g := Append(grouped, name, entry);
        if g.Err? { return g; }
        grouped, entry, name := g.value, [], Some(TypeName(line));
      } else if structural && TopLevelEntry(line) {
        var g := Append(grouped, name, entry);
        if g.Err? { return g; }
        grouped, entry := g.value, [line];
      } else if entry != [] {
        entry := entry + [line];
      } else if !Blank(line) && !CommentLine(line) {
        return Err(StrayLine);
      }
    }
    r := Append(grouped, name, entry);
  }

  // ----- Printing entries

  predicate IsBreaking(e: Entry) {
    e != [] && BreakingLine(e[0])
  }

  function Only(es: seq<Entry>, breaking: bool): seq<Entry> {
    if es == [] then []
    else (if IsBreaking(es[0]) == breaking then [es[0]] else []) + Only(es[1..], breaking)
  }

  /** The stable sort: breaking changes first, the order otherwise kept. */
  function BreakingFirst(es: seq<Entry>): seq<Entry> {
    Only(es, true) + Only(es, false)
  }

  function Concat(es: seq<Entry>): seq<string> {
    if es == [] then [] else es[0] + Concat(es[1..])
  }

  function FormatTypes(types: seq<string>, g: Grouped): seq<string> {
    if types == [] then [""]
    else if Listed(g, types[0]) == [] then FormatTypes(types[1..], g)
    else ["", "### " + types[0], ""] + Concat(BreakingFirst(Listed(g, types[0]))) + FormatTypes(types[1..], g)
  }

  /** Grouped entries laid out as section lines. */
  function Format(g: Grouped): seq<string> {
    FormatTypes(CHANGE_TYPES, g)
  }

  lemma {:induction false} ConcatAppends(a: seq<Entry>, b: seq<Entry>)
    ensures Concat(a + b) == Concat(a) + Concat(b)
  {
    if a == [] {
      assert a + b == b;
    } else {
      assert (a + b)[1..] == a[1..] + b;
      ConcatAppends(a[1..], b);
    }
  }

  method LinesOf(entries: seq<Entry>) returns (lines: seq<string>)
    ensures lines == Concat(entries)
  {
    lines := [];
    for k := 0 to |entries|
      invariant lines == Concat(entries[..k])
    {
      assert entries[..k + 1] == entries[..k] + [entries[k]];
      ConcatAppends(entries[..k], [entries[k]]);
      assert Concat([entries[k]]) == entries[k] + Concat([]);
      lines := lines + entries[k];
    }
    assert entries[..|entries|] == entries;
  }

  method FormatEntries(g: Grouped) returns (section: seq<string>)
    ensures section == Format(g)
  {
    section := [];
    for i := 0 to |CHANGE_TYPES|
      invariant section + FormatTypes(CHANGE_TYPES[i..], g) == Format(g)
    {
      assert CHANGE_TYPES[i..][1..] == CHANGE_TYPES[i + 1..];
      var entries := Listed(g, CHANGE_TYPES[i]);
      if entries == [] { continue; }
      var lines := LinesOf(BreakingFirst(entries));
      section := section + ["", "### " + CHANGE_TYPES[i], ""] + lines;
    }
    section := section + [""];
  }
}
