/** Folding entry files into the Unreleased section, and what folding again does. */
module ChangelogFold {
  import opened Options
  import opened ChangelogText
  import opened ChangelogSections
  import opened ChangelogEntries

  // ----- Stretches of lines no section ends in

  ghost predicate FencedFrom(f: Fence, lines: seq<string>, i: nat)
    requires i < |lines|
  {
    FenceAfter(f, lines[..i]).Open? || Delimiter(lines[i]).Open?
  }

  /** Read from fence state `f`, no line ends a section. */
  ghost predicate NoEnds(f: Fence, lines: seq<string>) {
    forall i :: 0 <= i < |lines| && EndsSection(lines[i]) ==> FencedFrom(f, lines, i)
  }

  lemma NoEndsTail(f: Fence, lines: seq<string>)
    requires lines != [] && NoEnds(f, lines)
    ensures NoEnds(NextFence(f, lines[0]), lines[1..])
    ensures f == Closed && Delimiter(lines[0]) == Closed ==> !EndsSection(lines[0])
  {
    var rest, next := lines[1..], NextFence(f, lines[0]);
    forall i | 0 <= i < |rest| && EndsSection(rest[i]) ensures FencedFrom(next, rest, i) {
      assert FencedFrom(f, lines, i + 1);
      assert lines[..i + 1][0] == lines[0] && lines[..i + 1][1..] == rest[..i];
    }
    if EndsSection(lines[0]) {
      assert FencedFrom(f, lines, 0);
      assert lines[..0] == [];
    }
  }

  /** A stretch that starts and ends outside a block and ends no section. */
  ghost predicate Inner(lines: seq<string>) {
    NoEnds(Closed, lines) && FenceAfter(Closed, lines) == Closed
  }

  lemma InnerConcat(a: seq<string>, b: seq<string>)
    requires Inner(a) && Inner(b)
    ensures Inner(a + b)
  {
    var lines := a + b;
    FenceAfterConcat(Closed, a, b);
    forall i | 0 <= i < |lines| && EndsSection(lines[i]) ensures FencedFrom(Closed, lines, i) {
      if i < |a| {
        assert FencedFrom(Closed, a, i);
        FencedPrefix(a, b, i);
      } else {
        assert FencedFrom(Closed, b, i - |a|);
        FencedSuffix(a, b, i - |a|);
      }
    }
  }

  lemma InnerLine(line: string)
    requires Delimiter(line) == Closed && !EndsSection(line)
    ensures Inner([line])
  {
    assert FenceAfter(Closed, [line]) == FenceAfter(Closed, []);
  }

  lemma ShapedInner(e: Entry)
    requires Shaped(e)
    ensures Inner(e)
  {
    TopLevelIsPlain(e[0]);
    forall i | 0 <= i < |e| && EndsSection(e[i]) ensures FencedFrom(Closed, e, i) {
      assert i >= 1;
      assert Fenced(e, i);
    }
  }

  lemma {:induction false} ConcatInner(es: seq<Entry>)
    requires AllEntries(es)
    ensures Inner(Concat(es))
  {
    if es != [] {
      assert AllEntries(es[1..]);
      ShapedInner(es[0]);
      ConcatInner(es[1..]);
      InnerConcat(es[0], Concat(es[1..]));
    }
  }

  lemma InnerHeadings(t: string)
    requires MakesHeading(t)
    ensures Inner(["", "### " + t, ""])
  {
    BlankIsPlain("");
    InnerLine("");
    var line := "### " + t;
    assert line[2] == '#';
    InnerLine(line);
    InnerConcat([""], [line]);
    InnerConcat([""] + [line], [""]);
    assert [""] + [line] + [""] == ["", line, ""];
  }

  lemma {:induction false} FormatInner(types: seq<string>, g: Grouped)
    requires KnownTypes(types) && AllShaped(g)
    ensures Inner(FormatTypes(types, g))
    decreases types
  {
    if types == [] {
      BlankIsPlain("");
      InnerLine("");
    } else {
      assert KnownTypes(types[1..]);
      FormatInner(types[1..], g);
      var es := Listed(g, types[0]);
      if es != [] {
        SortedShaped(es);
        ConcatInner(BreakingFirst(es));
        InnerHeadings(types[0]);
        InnerConcat(["", "### " + types[0], ""], Concat(BreakingFirst(es)));
        InnerConcat(["", "### " + types[0], ""] + Concat(BreakingFirst(es)), FormatTypes(types[1..], g));
      }
    }
  }

  // ----- What grouping yields

  /** The entry being read: none, with no block open, or one whose block state is the current one. */
  ghost predicate Reading(f: Fence, e: Entry) {
    if e == [] then f == Closed else OpenShape(e) && FenceAfter(Closed, e) == f
  }

  lemma ReadingMore(f: Fence, e: Entry, line: string)
    requires e != [] && Reading(f, e)
    requires f == Closed && Delimiter(line) == Closed ==> Continues(line)
    ensures Reading(NextFence(f, line), e + [line])
  {
    var more := e + [line];
    assert more[..|e|] == e;
    FenceAfterOneMore(more, |e|);
    assert more[..|more|] == more;
    forall i | 1 <= i < |more| && !Fenced(more, i) ensures Continues(more[i]) {
      if i < |e| { FencedPrefix(e, [line], i); }
    }
  }

  lemma AppendShaped(g: Grouped, name: Option<string>, e: Entry)
    requires AllShaped(g) && AllUntailed(g) && NoneEmpty(g) && Reading(Closed, e) && Append(g, name, e).Ok?
    ensures var r := Append(g, name, e).value; AllShaped(r) && AllUntailed(r) && NoneEmpty(r)
  {
    if e != [] {
      DropTailShape(e);
      var kept := DropBlankTail(e);
      var r := Append(g, name, e).value;
      forall t, i | t in r && 0 <= i < |r[t]| ensures Shaped(r[t][i]) && Untailed(r[t][i]) {
        if t in g && i < |g[t]| {
          assert Shaped(g[t][i]);
          assert g[t][i] in g[t];
        }
      }
    }
  }

  /** The entries a section yields are entries: each starts in column one, holds no heading, second entry or
      section end outside a block, leaves no block open, and has no blank lines trailing it. */
  lemma {:induction false} GroupShaped(lines: seq<string>, f: Fence, name: Option<string>, e: Entry, g: Grouped)
    requires NoEnds(f, lines) && FenceAfter(f, lines) == Closed && Reading(f, e)
    requires AllShaped(g) && AllUntailed(g) && NoneEmpty(g) && Group(lines, f, name, e, g).Ok?
    ensures var r := Group(lines, f, name, e, g).value; AllShaped(r) && AllUntailed(r) && NoneEmpty(r)
    decreases lines
  {
    if lines == [] {
      AppendShaped(g, name, e);
    } else {
      hide AllShaped, AllUntailed, NoneEmpty, NoEnds;
      var line, rest, next := lines[0], lines[1..], NextFence(f, lines[0]);
      NoEndsTail(f, lines);
      var structural := f == Closed && Delimiter(line) == Closed;
      if structural && TypeHeading(line) {
        AppendShaped(g, name, e);
        GroupShaped(rest, next, Some(TypeName(line)), [], Append(g, name, e).value);
      } else if structural && TopLevelEntry(line) {
        AppendShaped(g, name, e);
        OneLineReading(line);
        GroupShaped(rest, next, name, [line], Append(g, name, e).value);
      } else if e != [] {
        ReadingMore(f, e, line);
        GroupShaped(rest, next, name, e + [line], g);
      } else {
        PlainWhenAccepted(line);
        GroupShaped(rest, next, name, [], g);
      }
    }
  }

  lemma OneLineReading(line: string)
    requires TopLevelEntry(line)
    ensures Reading(Closed, [line])
  {
    TopLevelIsPlain(line);
    assert FenceAfter(Closed, [line]) == FenceAfter(Closed, []);
  }

  /** The only lines accepted outside an entry open no block. */
  lemma PlainWhenAccepted(line: string)
    requires Blank(line) || CommentLine(line)
    ensures Delimiter(line) == Closed
  {
    if Blank(line) {
      BlankIsPlain(line);
    } else {
      TrimKeepsFirst(SkipSpaces(line));
      assert Trim(line)[0] == '<';
    }
  }

  lemma {:induction false} TrimKeepsFirst(s: string)
    ensures |SkipEndSpaces(s)| <= |s| && SkipEndSpaces(s) == s[..|SkipEndSpaces(s)|]
  {
    if s != [] && IsSpace(s[|s| - 1]) { TrimKeepsFirst(s[..|s| - 1]); }
  }

  /** An empty last line changes nothing that is read. */
  lemma {:induction false} GroupTrailingEmpty(lines: seq<string>, f: Fence, name: Option<string>, e: Entry,
                                              g: Grouped)
    ensures Group(lines + [""], f, name, e, g) == Group(lines, f, name, e, g)
    decreases lines
  {
    if lines == [] {
      assert (lines + [""])[1..] == [];
      BlankIsPlain("");
      DropBlankTailStays(e);
    } else {
      assert (lines + [""])[0] == lines[0] && (lines + [""])[1..] == lines[1..] + [""];
      var line, rest, next := lines[0], lines[1..], NextFence(f, lines[0]);
      var structural := f == Closed && Delimiter(line) == Closed;
      if structural && (TypeHeading(line) || TopLevelEntry(line)) {
        var a := Append(g, name, e);
        if a.Ok? {
          if TypeHeading(line) {
            GroupTrailingEmpty(rest, next, Some(TypeName(line)), [], a.value);
          } else {
            GroupTrailingEmpty(rest, next, name, [line], a.value);
          }
        }
      } else if e != [] {
        GroupTrailingEmpty(rest, next, name, e + [line], g);
      } else {
        GroupTrailingEmpty(rest, next, name, [], g);
      }
    }
  }

  // ----- Entry files

  /** One entry file: its change type, from the file's name, and its text without newlines at either end. */
  datatype Fragment = Fragment(changeType: string, body: string)

  datatype BodyProblem = NotAnEntry | NoText | SecondEntry | HasHeading | NotIndented

  datatype LineProblem = LineProblem(line: nat, problem: BodyProblem)

  /** What is wrong with one line of an entry file; the first line is the entry, the others continue it. */
  function ProblemAt(lines: seq<string>, i: nat): Option<BodyProblem>
    requires i < |lines|
  {
    var line := lines[i];
    if i == 0 then
      if !TopLevelEntry(line) then Some(NotAnEntry) else if Blank(line[2..]) then Some(NoText) else None
    else if TopLevelEntry(line) then Some(SecondEntry)
    else if "#" <= line then Some(HasHeading)
    else if !Blank(line) && !("  " <= line) then Some(NotIndented)
    else None
  }

  /** The text holds one entry and nothing else. */
  predicate BodyOk(lines: seq<string>)
    requires lines != []
  {
    && TopLevelEntry(lines[0]) && !Blank(lines[0][2..])
    && forall i :: 1 <= i < |lines| ==>
         !TopLevelEntry(lines[i]) && !("#" <= lines[i]) && (Blank(lines[i]) || "  " <= lines[i])
  }

  /** The problems of the first `n` lines, and of no others, by line. */
  ghost predicate ProblemsOf(problems: seq<LineProblem>, lines: seq<string>, n: nat)
    requires n <= |lines|
  {
    && (forall p :: p in problems <==> 1 <= p.line <= n && ProblemAt(lines, p.line - 1) == Some(p.problem))
    && forall i, j :: 0 <= i < j < |problems| ==> problems[i].line < problems[j].line
  }

  lemma ProblemsMore(problems: seq<LineProblem>, lines: seq<string>, n: nat)
    requires n < |lines| && ProblemsOf(problems, lines, n)
    ensures var more := match ProblemAt(lines, n) case Some(p) => [LineProblem(n + 1, p)] case None => [];
      ProblemsOf(problems + more, lines, n + 1)
  {
    hide ProblemAt;
    var more := match ProblemAt(lines, n) case Some(p) => [LineProblem(n + 1, p)] case None => [];
    forall i, j | 0 <= i < j < |problems + more| ensures (problems + more)[i].line < (problems + more)[j].line {
      assert problems[i] in problems;
    }
  }

  lemma ProblemIsListed(problems: seq<LineProblem>, lines: seq<string>, i: nat)
    requires ProblemsOf(problems, lines, |lines|) && i < |lines| && ProblemAt(lines, i).Some?
    ensures problems != []
  {
    assert LineProblem(i + 1, ProblemAt(lines, i).value) in problems;
  }

  lemma NoProblemIff(problems: seq<LineProblem>, lines: seq<string>)
    requires lines != [] && ProblemsOf(problems, lines, |lines|)
    ensures problems == [] <==> BodyOk(lines)
  {
    if problems != [] {
      assert problems[0] in problems;
    } else {
      forall i | 0 <= i < |lines| ensures ProblemAt(lines, i) == None {
        if ProblemAt(lines, i).Some? { ProblemIsListed(problems, lines, i); }
      }
      assert ProblemAt(lines, 0) == None;
      forall i | 1 <= i < |lines|
        ensures !TopLevelEntry(lines[i]) && !("#" <= lines[i]) && (Blank(lines[i]) || "  " <= lines[i])
      {
        assert ProblemAt(lines, i) == None;
      }
    }
  }

  method EntryBodyProblems(lines: seq<string>) returns (problems: seq<LineProblem>)
    requires lines != []
    ensures ProblemsOf(problems, lines, |lines|) && (problems == [] <==> BodyOk(lines))
  {
    hide ProblemsOf, BodyOk;
    problems := [];
    NoneYet(lines);
    ProblemsMore([], lines, 0);
    if !TopLevelEntry(lines[0]) {
      problems := problems + [LineProblem(1, NotAnEntry)];
    } else if Blank(lines[0][2..]) {
      problems := problems + [LineProblem(1, NoText)];
    }
    assert [] + problems == problems;
    for i := 1 to |lines|
      invariant ProblemsOf(problems, lines, i)
    {
      ProblemsMore(problems, lines, i);
      var line := lines[i];
      if TopLevelEntry(line) {
        problems := problems + [LineProblem(i + 1, SecondEntry)];
      } else if "#" <= line {
        problems := problems + [LineProblem(i + 1, HasHeading)];
      } else if !Blank(line) && !("  " <= line) {
        problems := problems + [LineProblem(i + 1, NotIndented)];
      } else {
        assert problems + [] == problems;
      }
    }
    NoProblemIff(problems, lines);
  }

  lemma NoneYet(lines: seq<string>)
    ensures ProblemsOf([], lines, 0)
  {
  }

  /** What reading an entry file guarantees of it. */
  ghost predicate Loaded(f: Fragment) {
    && f.changeType in CHANGE_TYPES && '\r' !in f.body
    && (f.body != [] ==> f.body[|f.body| - 1] != '\n')
    && BodyOk(Split(f.body))
  }

  /** Every block the entry opens it closes. */
  ghost predicate Balanced(f: Fragment) {
    FenceAfter(Closed, Split(f.body)) == Closed
  }

  lemma LoadedShaped(f: Fragment)
    requires Loaded(f)
    ensures OpenShape(Split(f.body)) && AllClean(Split(f.body)) && Split(f.body)[|Split(f.body)| - 1] != []
    ensures Balanced(f) ==> Shaped(Split(f.body))
  {
    var e := Split(f.body);
    SplitHasNoNewline(f.body);
    assert f.body != [];
    SplitLastLine(f.body);
    forall i | 1 <= i < |e| ensures Continues(e[i]) {
      if Blank(e[i]) { BlankIsPlain(e[i]); }
    }
  }

  function WithFragments(g: Grouped, fragments: seq<Fragment>): Grouped
    decreases fragments
  {
    if fragments == [] then g
    else WithFragments(Added(g, fragments[0].changeType, [Split(fragments[0].body)]), fragments[1..])
  }

  /** The entries of one type among the files, in file order. */
  function FragmentsOf(fragments: seq<Fragment>, t: string): seq<Entry> {
    if fragments == [] then []
    else (if fragments[0].changeType == t then [Split(fragments[0].body)] else []) + FragmentsOf(fragments[1..], t)
  }

  lemma {:induction false} WithFragmentsListed(g: Grouped, fragments: seq<Fragment>, t: string)
    ensures Listed(WithFragments(g, fragments), t) == Listed(g, t) + FragmentsOf(fragments, t)
    decreases fragments
  {
    if fragments == [] {
      assert Listed(g, t) + [] == Listed(g, t);
    } else {
      var g' := Added(g, fragments[0].changeType, [Split(fragments[0].body)]);
      WithFragmentsListed(g', fragments[1..], t);
      if fragments[0].changeType == t {
        assert Listed(g, t) + [Split(fragments[0].body)] + FragmentsOf(fragments[1..], t)
            == Listed(g, t) + FragmentsOf(fragments, t);
      }
    }
  }

  ghost predicate AllLoaded(fragments: seq<Fragment>) {
    forall i :: 0 <= i < |fragments| ==> Loaded(fragments[i])
  }

  ghost predicate AllReady(fragments: seq<Fragment>) {
    forall i :: 0 <= i < |fragments| ==> Loaded(fragments[i]) && Balanced(fragments[i])
  }

  lemma {:induction false} WithFragmentsShaped(g: Grouped, fragments: seq<Fragment>)
    requires AllShaped(g) && NoneEmpty(g) && KeysKnown(g) && AllReady(fragments)
    ensures var r := WithFragments(g, fragments); AllShaped(r) && NoneEmpty(r) && KeysKnown(r)
    decreases fragments
  {
    if fragments != [] {
      var f := fragments[0];
      LoadedShaped(f);
      var g' := Added(g, f.changeType, [Split(f.body)]);
      forall t, i | t in g' && 0 <= i < |g'[t]| ensures Shaped(g'[t][i]) {
        if t in g && i < |g[t]| { assert Shaped(g[t][i]); }
      }
      WithFragmentsShaped(g', fragments[1..]);
    }
  }

  // ----- The fold

  function HeadingIndex(lines: seq<string>): int {
    First(lines, IsUnreleasedHeading, 0, |lines|)
  }

  function SectionLines(lines: seq<string>, heading: nat): seq<string>
    requires heading < |lines|
  {
    lines[heading + 1..SectionEnd(lines, heading)]
  }

  /** The grouped entries the fold prints: the section's own, then the files'. */
  function FoldedEntries(lines: seq<string>, fragments: seq<Fragment>): Result<Grouped> {
    var h := HeadingIndex(lines);
    if h == -1 then Err(NoHeading)
    else
      var g :- EntriesOf(SectionLines(lines, h));
      if exists t :: t in g && t !in CHANGE_TYPES then Err(UnknownType)
      else Ok(WithFragments(g, fragments))
  }

  function FoldLines(lines: seq<string>, fragments: seq<Fragment>): Result<seq<string>> {
    var g :- FoldedEntries(lines, fragments);
    var h := HeadingIndex(lines);
    Ok(lines[..h + 1] + Format(g) + lines[SectionEnd(lines, h)..])
  }

  function FoldText(source: string, fragments: seq<Fragment>): Result<string> {
    var folded :- FoldLines(Document(source), fragments);
    Ok(Text(folded))
  }

  method AddFragments(g: Grouped, fragments: seq<Fragment>) returns (grouped: Grouped)
    ensures grouped == WithFragments(g, fragments)
  {
    grouped := g;
    for i := 0 to |fragments|
      invariant WithFragments(grouped, fragments[i..]) == WithFragments(g, fragments)
    {
      assert fragments[i..][0] == fragments[i] && fragments[i..][1..] == fragments[i + 1..];
      grouped := Added(grouped, fragments[i].changeType, [Split(fragments[i].body)]);
    }
  }

  method Fold(source: string, fragments: seq<Fragment>) returns (r: Result<string>)
    ensures r == FoldText(source, fragments)
  {
    var lines := Document(source);
    var fenced := MarkFenced(lines);
    var h := Find(lines, fenced, IsUnreleasedHeading, 0, |lines|);
    if h == -1 { return Err(NoHeading); }
    UnfencedClosed(lines, h);
    var end := FindSectionEnd(lines, fenced, h);
    var g := GroupEntries(lines, fenced, h + 1, end);
    if g.Err? { return Err(g.error); }
    if exists t :: t in g.value && t !in CHANGE_TYPES { return Err(UnknownType); }
    var grouped := AddFragments(g.value, fragments);
    var section := FormatEntries(grouped);
    r := Ok(Text(lines[..h + 1] + section + lines[end..]));
  }
}
