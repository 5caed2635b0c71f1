/** What a folded changelog reads back as: the same entries, sorted; and folding it again changes nothing. */
module ChangelogFoldTwice {
  import opened Options
  import opened ChangelogText
  import opened ChangelogSections
  import opened ChangelogEntries
  import opened ChangelogFold

  /** Lines as a file is read. */
  ghost predicate IsDocument(lines: seq<string>) {
    |lines| >= 1 && AllClean(lines) && TrimEnd(lines) == lines
  }

  /** The Unreleased section leaves no block open. It always does when another section or a link follows it. */
  ghost predicate SectionClosed(lines: seq<string>) {
    var h := HeadingIndex(lines);
    h >= 0 ==> FenceAfter(Closed, lines[..SectionEnd(lines, h)]) == Closed
  }

  lemma FollowedIsClosed(lines: seq<string>)
    requires HeadingIndex(lines) >= 0 && SectionEnd(lines, HeadingIndex(lines)) < |lines|
    ensures SectionClosed(lines)
  {
    var h := HeadingIndex(lines);
    UnfencedClosed(lines, SectionEnd(lines, h));
  }

  /** A successful fold of the lines `d` into `f`, with all its parts. */
  ghost predicate Folds(d: seq<string>, fragments: seq<Fragment>, h: int, e: nat, g0: Grouped, g: Grouped,
                        f: seq<string>) {
    && IsDocument(d) && AllReady(fragments) && SectionClosed(d)
    && 0 <= h < |d| && h == HeadingIndex(d) && e == SectionEnd(d, h)
    && EntriesOf(SectionLines(d, h)) == Ok(g0) && KeysKnown(g0) && g == WithFragments(g0, fragments)
    && f == d[..h + 1] + Format(g) + d[e..]
  }

  lemma FoldsIs(d: seq<string>, fragments: seq<Fragment>, f: seq<string>) returns (h: int, e: nat, g0: Grouped,
                g: Grouped)
    requires IsDocument(d) && AllReady(fragments) && SectionClosed(d) && FoldLines(d, fragments) == Ok(f)
    ensures Folds(d, fragments, h, e, g0, g, f)
  {
    h := HeadingIndex(d);
    e := SectionEnd(d, h);
    g0 := EntriesOf(SectionLines(d, h)).value;
    g := WithFragments(g0, fragments);
  }

  /** The parts that say where things are. */
  lemma Parts(d: seq<string>, fragments: seq<Fragment>, h: int, e: nat, g0: Grouped, g: Grouped, f: seq<string>)
    requires Folds(d, fragments, h, e, g0, g, f)
    ensures 0 <= h < e <= |d| && d[h] == UNRELEASED_HEADING && f == d[..h + 1] + Format(g) + d[e..]
    ensures AllClean(d) && (e < |d| ==> d[|d| - 1] != [])
  {
    if e < |d| && d[|d| - 1] == [] { TrimEndShape(d[..|d| - 1]); }
  }

  // ----- The section's own entries

  /** A stretch inside a section, starting outside any block: nothing in it ends a section. */
  lemma SectionStretch(d: seq<string>, h: nat, i: nat, j: nat)
    requires h < |d| && h < i <= j <= SectionEnd(d, h) && FenceAfter(Closed, d[..i]) == Closed
    ensures NoEnds(Closed, d[i..j]) && FenceAfter(Closed, d[i..j]) == FenceAfter(Closed, d[..j])
  {
    hide Delimiter, EndsSection, FenceAfter;
    var head, body := d[..i], d[i..j];
    assert d[..j] == head + body;
    FenceAfterConcat(Closed, head, body);
    forall k | 0 <= k < |body| && EndsSection(body[k]) ensures FencedFrom(Closed, body, k) {
      assert Fenced(d, i + k);
      FencedSuffix(head, body, k);
      FencedPrefix(d[..j], d[j..], i + k);
      assert d == d[..j] + d[j..];
    }
  }

  lemma SectionInner(d: seq<string>, h: nat)
    requires h < |d| && !Fenced(d, h) && FenceAfter(Closed, d[..SectionEnd(d, h)]) == Closed
    ensures Inner(SectionLines(d, h)) && FenceAfter(Closed, d[..h + 1]) == Closed
  {
    UnfencedClosed(d, h);
    SectionStretch(d, h, h + 1, SectionEnd(d, h));
  }

  ghost predicate AllCleanEntries(g: Grouped) {
    forall t, i :: t in g && 0 <= i < |g[t]| ==> AllClean(g[t][i])
  }

  lemma {:induction false} DropTailPrefix(e: Entry)
    ensures |DropBlankTail(e)| <= |e| && DropBlankTail(e) == e[..|DropBlankTail(e)|]
    decreases |e|
  {
    if e != [] && Blank(e[|e| - 1]) { DropTailPrefix(e[..|e| - 1]); }
  }

  lemma AppendClean(g: Grouped, name: Option<string>, e: Entry)
    requires AllCleanEntries(g) && AllClean(e) && Append(g, name, e).Ok?
    ensures AllCleanEntries(Append(g, name, e).value)
  {
    DropTailPrefix(e);
    var r := Append(g, name, e).value;
    forall t, i | t in r && 0 <= i < |r[t]| ensures AllClean(r[t][i]) {
      if t in g && i < |g[t]| { assert AllClean(g[t][i]); }
    }
  }

  lemma {:induction false} GroupClean(lines: seq<string>, f: Fence, name: Option<string>, e: Entry, g: Grouped)
    requires AllClean(lines) && AllClean(e) && AllCleanEntries(g) && Group(lines, f, name, e, g).Ok?
    ensures AllCleanEntries(Group(lines, f, name, e, g).value)
    decreases lines
  {
    if lines == [] {
      AppendClean(g, name, e);
    } else {
      hide AllCleanEntries;
      var line, rest, next := lines[0], lines[1..], NextFence(f, lines[0]);
      assert Clean(line);
      assert AllClean(rest);
      var structural := f == Closed && Delimiter(line) == Closed;
      if structural && TypeHeading(line) {
        AppendClean(g, name, e);
        GroupClean(rest, next, Some(TypeName(line)), [], Append(g, name, e).value);
      } else if structural && TopLevelEntry(line) {
        AppendClean(g, name, e);
        GroupClean(rest, next, name, [line], Append(g, name, e).value);
      } else if e != [] {
        GroupClean(rest, next, name, e + [line], g);
      } else {
        GroupClean(rest, next, name, [], g);
      }
    }
  }

  /** No entry ends in an empty line. */
  ghost predicate LastsFilled(g: Grouped) {
    forall t, i :: t in g && 0 <= i < |g[t]| ==> g[t][i] != [] && g[t][i][|g[t][i]| - 1] != []
  }

  lemma {:induction false} WithFragmentsClean(g: Grouped, fragments: seq<Fragment>)
    requires AllCleanEntries(g) && AllLoaded(fragments)
    ensures AllCleanEntries(WithFragments(g, fragments))
    decreases fragments
  {
    if fragments != [] {
      var f := fragments[0];
      LoadedShaped(f);
      var g' := Added(g, f.changeType, [Split(f.body)]);
      forall t, i | t in g' && 0 <= i < |g'[t]| ensures AllClean(g'[t][i]) {
        if t in g && i < |g[t]| { assert AllClean(g[t][i]); }
      }
      WithFragmentsClean(g', fragments[1..]);
    }
  }

  lemma {:induction false} WithFragmentsFilled(g: Grouped, fragments: seq<Fragment>)
    requires LastsFilled(g) && AllLoaded(fragments)
    ensures LastsFilled(WithFragments(g, fragments))
    decreases fragments
  {
    if fragments != [] {
      var f := fragments[0];
      LoadedShaped(f);
      WithFragmentsFilled(Added(g, f.changeType, [Split(f.body)]), fragments[1..]);
    }
  }

  lemma UntailedFilled(g: Grouped)
    requires AllUntailed(g)
    ensures LastsFilled(g)
  {
    forall t, i | t in g && 0 <= i < |g[t]| ensures g[t][i] != [] && g[t][i][|g[t][i]| - 1] != [] {
      assert g[t][i] in g[t];
      assert Untailed(g[t][i]);
    }
  }

  lemma EntriesReady(d: seq<string>, fragments: seq<Fragment>, h: int, e: nat, g0: Grouped, g: Grouped,
                     f: seq<string>)
    requires Folds(d, fragments, h, e, g0, g, f)
    ensures AllShaped(g0) && AllUntailed(g0) && NoneEmpty(g0)
    ensures AllShaped(g) && NoneEmpty(g) && KeysKnown(g) && AllCleanEntries(g) && LastsFilled(g)
  {
    hide Group, Format, Delimiter, SectionEnd, Shaped, WithFragments, Split;
    SectionInner(d, h);
    var body := SectionLines(d, h);
    GroupShaped(body, Closed, None, [], map[]);
    assert AllClean(body);
    GroupClean(body, Closed, None, [], map[]);
    UntailedFilled(g0);
    WithFragmentsShaped(g0, fragments);
    WithFragmentsClean(g0, fragments);
    WithFragmentsFilled(g0, fragments);
  }

  /** The folded entries have blank tails exactly when some entry file does. */
  lemma TailsFromFragments(g0: Grouped, g: Grouped, fragments: seq<Fragment>)
    requires AllUntailed(g0) && g == WithFragments(g0, fragments) && NoneEmpty(g)
    ensures AllUntailed(g) <==> forall i :: 0 <= i < |fragments| ==> Untailed(Split(fragments[i].body))
  {
    forall i | 0 <= i < |fragments|
      ensures Split(fragments[i].body) in Listed(g, fragments[i].changeType)
    {
      WithFragmentsListed(g0, fragments, fragments[i].changeType);
      FragmentListed(fragments, i);
    }
    if forall i :: 0 <= i < |fragments| ==> Untailed(Split(fragments[i].body)) {
      forall t | t in g ensures NoTails(g[t]) {
        WithFragmentsListed(g0, fragments, t);
        FragmentsUntailed(fragments, t);
        assert Listed(g, t) == g[t];
      }
    }
  }

  lemma {:induction false} FragmentListed(fragments: seq<Fragment>, i: nat)
    requires i < |fragments|
    ensures Split(fragments[i].body) in FragmentsOf(fragments, fragments[i].changeType)
  {
    if i > 0 { FragmentListed(fragments[1..], i - 1); }
  }

  lemma {:induction false} FragmentsUntailed(fragments: seq<Fragment>, t: string)
    requires forall i :: 0 <= i < |fragments| ==> Untailed(Split(fragments[i].body))
    ensures NoTails(FragmentsOf(fragments, t))
  {
    if fragments != [] { FragmentsUntailed(fragments[1..], t); }
  }

  // ----- Where things are in the folded lines

  /** Lines that agree up to the heading have it in the same place. */
  lemma SameHeading(d: seq<string>, h: int, t: seq<string>)
    requires 0 <= h < |d| && h == HeadingIndex(d) && h + 1 <= |t| && t[..h + 1] == d[..h + 1]
    ensures HeadingIndex(t) == h
    ensures forall i :: 0 <= i <= h ==> t[i] == d[i] && Fenced(t, i) == Fenced(d, i)
  {
    assert IsFirst(d, IsUnreleasedHeading, 0, |d|, h);
    forall i | 0 <= i <= h ensures t[i] == d[i] && Fenced(t, i) == Fenced(d, i) {
      assert t[i] == t[..h + 1][i] && d[i] == d[..h + 1][i];
      FencedPrefix(d[..h + 1], d[h + 1..], i);
      FencedPrefix(t[..h + 1], t[h + 1..], i);
      assert d == d[..h + 1] + d[h + 1..] && t == t[..h + 1] + t[h + 1..];
    }
    FirstIs(t, IsUnreleasedHeading, 0, |t|, h);
  }

  /** A stretch that ends no section, after a heading, followed by a line that does or by nothing. */
  lemma SectionIs(head: seq<string>, body: seq<string>, after: seq<string>)
    requires head != [] && FenceAfter(Closed, head) == Closed && NoEnds(Closed, body)
    requires after == [] || (FenceAfter(Closed, body) == Closed && Delimiter(after[0]) == Closed && EndsSection(after[0]))
    ensures SectionEnd(head + body + after, |head| - 1) == |head| + |body|
    ensures SectionLines(head + body + after, |head| - 1) == body
  {
    var lines := head + body + after;
    assert lines == head + (body + after);
    forall j | |head| <= j < |head| + |body| && EndsSection(lines[j]) ensures Fenced(lines, j) {
      var i := j - |head|;
      assert lines[j] == body[i];
      assert FencedFrom(Closed, body, i);
      FencedPrefix(body, after, i);
      FencedSuffix(head, body + after, i);
    }
    if after != [] {
      FencedSuffix(head, body + after, |body|);
      assert (body + after)[..|body|] == body;
      FirstIs(lines, EndsSection, |head|, |lines|, |head| + |body|);
    }
  }

  lemma FoldedSection(d: seq<string>, fragments: seq<Fragment>, h: int, e: nat, g0: Grouped, g: Grouped,
                      f: seq<string>)
    requires Folds(d, fragments, h, e, g0, g, f)
    ensures HeadingIndex(f) == h && SectionLines(f, h) == Format(g) && SectionEnd(f, h) == h + 1 + |Format(g)|
    ensures FenceAfter(Closed, f[..h + 1 + |Format(g)|]) == Closed
  {
    hide AllShaped, AllReady, EntriesOf, KeysKnown, WithFragments, AllClean, AllCleanEntries, LastsFilled,
         FormatTypes,
         NoneEmpty, KnownTypes, FenceAfter, Delimiter, EndsSection, TrimEnd;
    EntriesReady(d, fragments, h, e, g0, g, f);
    ChangeTypesKnown();
    FormatInner(CHANGE_TYPES, g);
    SectionInner(d, h);
    assert f[..h + 1] == d[..h + 1];
    SameHeading(d, h, f);
    if e < |d| {
      UnfencedClosed(d, e);
      assert d[e..][0] == d[e];
    }
    SectionIs(d[..h + 1], Format(g), d[e..]);
    assert f[..h + 1 + |Format(g)|] == d[..h + 1] + Format(g);
    FenceAfterConcat(Closed, d[..h + 1], Format(g));
  }

  lemma {:induction false} FormatEndsEmpty(types: seq<string>, g: Grouped) returns (x: seq<string>)
    requires NoneEmpty(g) && LastsFilled(g)
    ensures FormatTypes(types, g) == x + [""] && (x == [] || x[|x| - 1] != [])
    decreases types
  {
    if types == [] {
      x := [];
    } else {
      var y := FormatEndsEmpty(types[1..], g);
      var es := Listed(g, types[0]);
      if es == [] {
        x := y;
      } else {
        OnlyPartition(es);
        var sorted := BreakingFirst(es);
        SortedFilled(es);
        ConcatLast(sorted);
        x := ["", "### " + types[0], ""] + Concat(sorted) + y;
        assert FormatTypes(types, g) == x + [""];
      }
    }
  }

  lemma SortedFilled(es: seq<Entry>)
    requires forall i :: 0 <= i < |es| ==> es[i] != [] && es[i][|es[i]| - 1] != []
    ensures forall i :: 0 <= i < |BreakingFirst(es)| ==> BreakingFirst(es)[i] != [] && BreakingFirst(es)[i][|BreakingFirst(es)[i]| - 1] != []
  {
    BreakingFirstIsStable(es);
    var b := BreakingFirst(es);
    forall i | 0 <= i < |b| ensures b[i] != [] && b[i][|b[i]| - 1] != [] {
      assert b[i] in multiset(b);
      assert b[i] in multiset(es);
    }
  }

  lemma {:induction false} ConcatLast(es: seq<Entry>)
    requires es != [] && forall i :: 0 <= i < |es| ==> es[i] != [] && es[i][|es[i]| - 1] != []
    ensures Concat(es) != [] && Concat(es)[|Concat(es)| - 1] != []
  {
    if |es| == 1 {
      assert Concat(es[1..]) == [];
    } else {
      ConcatLast(es[1..]);
    }
  }

  lemma LastOfConcat<T>(a: seq<T>, b: seq<T>)
    requires b != []
    ensures (a + b)[|a + b| - 1] == b[|b| - 1]
  {
  }

  lemma EntriesTrailingEmpty(lines: seq<string>)
    ensures EntriesOf(lines + [""]) == EntriesOf(lines)
  {
    GroupTrailingEmpty(lines, Closed, None, [], map[]);
  }

  lemma TrimConcat(a: seq<string>, b: seq<string>)
    requires b != [] && b[|b| - 1] != []
    ensures TrimEnd(a + b) == a + b
  {
    LastOfConcat(a, b);
    TrimNothing(a + b);
  }

  lemma TrimNothing(lines: seq<string>)
    requires lines != [] && lines[|lines| - 1] != []
    ensures TrimEnd(lines) == lines
  {
  }

  lemma TrimOneEmpty(lines: seq<string>)
    requires lines != [] && lines[|lines| - 1] != []
    ensures TrimEnd(lines + [""]) == lines
  {
    assert (lines + [""])[..|lines|] == lines;
    TrimNothing(lines);
  }

  /** The folded lines as they are read back: without the empty last line when the section was the last. */
  lemma FoldedTrimmed(d: seq<string>, fragments: seq<Fragment>, h: int, e: nat, g0: Grouped, g: Grouped,
                      f: seq<string>)
    returns (x: seq<string>)
    requires Folds(d, fragments, h, e, g0, g, f)
    ensures Format(g) == x + [""] && TrimEnd(f) == if e < |d| then f else d[..h + 1] + x
  {
    hide Folds, AllShaped, KeysKnown, AllClean, AllCleanEntries, FormatTypes, TrimEnd;
    EntriesReady(d, fragments, h, e, g0, g, f);
    Parts(d, fragments, h, e, g0, g, f);
    x := FormatEndsEmpty(CHANGE_TYPES, g);
    var head := d[..h + 1];
    assert head[h] == UNRELEASED_HEADING;
    if e < |d| {
      assert d[e..][|d| - e - 1] == d[|d| - 1];
      TrimConcat(head + Format(g), d[e..]);
    } else {
      if x == [] { assert head + x == head; } else { LastOfConcat(head, x); }
      TrimOneEmpty(head + x);
      assert f == (head + x) + [""];
    }
  }

  // ----- Reading the fold back

  /** The folded section holds exactly the section's entries and the files', without the blank lines that trail a
      file's entry, each type's sorted breaking first. */
  lemma FoldKeepsEntries(d: seq<string>, fragments: seq<Fragment>, h: int, e: nat, g0: Grouped, g: Grouped,
                         f: seq<string>, t: string)
    requires Folds(d, fragments, h, e, g0, g, f)
    ensures EntriesOf(SectionLines(f, h)) == Ok(Sorted(g))
    ensures multiset(Listed(Sorted(g), t)) == multiset(Listed(g0, t)) + multiset(Trimmed(FragmentsOf(fragments, t)))
    ensures forall b :: Only(Listed(Sorted(g), t), b) == Only(Listed(g0, t), b) + Only(Trimmed(FragmentsOf(fragments, t)), b)
  {
    hide Group, Format, Delimiter, SectionEnd, Shaped, WithFragments, Split, HeadingIndex, Only, Trimmed, Sorted,
         DropBlankTail;
    EntriesReady(d, fragments, h, e, g0, g, f);
    FoldedSection(d, fragments, h, e, g0, g, f);
    ReadBackSorted(g);
    ListedSorted(g0, fragments, g, t);
  }

  lemma ListedSorted(g0: Grouped, fragments: seq<Fragment>, g: Grouped, t: string)
    requires g == WithFragments(g0, fragments) && AllShaped(g0) && AllUntailed(g0) && AllShaped(g)
    ensures var now, files := Listed(Sorted(g), t), Trimmed(FragmentsOf(fragments, t));
      && multiset(now) == multiset(Listed(g0, t)) + multiset(files)
      && forall b :: Only(now, b) == Only(Listed(g0, t), b) + Only(files, b)
  {
    hide Group, Format, Delimiter, Shaped, WithFragments, Split, Only, DropBlankTail, OpenShape;
    var old0, new0 := Listed(g0, t), FragmentsOf(fragments, t);
    var all, files := Listed(g, t), Trimmed(new0);
    WithFragmentsListed(g0, fragments, t);
    assert AllEntries(old0) && AllEntries(all);
    TrimmedConcat(old0, new0);
    TrimmedSize(old0);
    SortedTrimmed(all);
    BreakingFirstIsStable(old0 + files);
    forall b ensures Only(old0 + files, b) == Only(old0, b) + Only(files, b) { OnlyConcat(old0, files, b); }
    if t !in g { SortedNothing(); }
  }

  lemma SortedNothing()
    ensures Trimmed(BreakingFirst([])) == []
  {
  }

  /** Sorting and dropping the blank tails can be done in either order. */
  lemma SortedTrimmed(es: seq<Entry>)
    requires AllEntries(es)
    ensures Trimmed(BreakingFirst(es)) == BreakingFirst(Trimmed(es))
  {
    TrimmedOnly(es, true);
    TrimmedOnly(es, false);
    TrimmedConcat(Only(es, true), Only(es, false));
  }

  /** Folding the lines again, as they are read back, with no further files. */
  lemma FoldLinesAgain(d: seq<string>, fragments: seq<Fragment>, h: int, e: nat, g0: Grouped, g: Grouped,
                       f: seq<string>)
    requires Folds(d, fragments, h, e, g0, g, f)
    ensures FoldLines(TrimEnd(f), []) == Ok(d[..h + 1] + Format(Sorted(g)) + d[e..])
  {
    hide Folds, AllClean, AllCleanEntries, FormatTypes, TrimEnd, EntriesOf, FoldLines, HeadingIndex, SectionEnd,
         LastsFilled;
    EntriesReady(d, fragments, h, e, g0, g, f);
    Parts(d, fragments, h, e, g0, g, f);
    var x := FoldedTrimmed(d, fragments, h, e, g0, g, f);
    ReadBackSorted(g);
    SortedKeeps(g);
    var t := TrimEnd(f);
    if e < |d| {
      FoldedSection(d, fragments, h, e, g0, g, f);
      assert f[h + 1 + |Format(g)|..] == d[e..] && f[..h + 1] == d[..h + 1];
      FoldsTo(t, h, Sorted(g), d[..h + 1], d[e..]);
    } else {
      EntriesTrailingEmpty(x);
      FoldedLast(d, fragments, h, e, g0, g, f, x);
      assert d[e..] == [] && t[|t|..] == [];
      FoldsTo(t, h, Sorted(g), d[..h + 1], d[e..]);
    }
  }

  /** Folding in no files, when the parts are known. */
  lemma FoldsTo(t: seq<string>, h: int, g: Grouped, head: seq<string>, after: seq<string>)
    requires 0 <= h < |t| && HeadingIndex(t) == h && EntriesOf(SectionLines(t, h)) == Ok(g) && KeysKnown(g)
    requires t[..h + 1] == head && t[SectionEnd(t, h)..] == after
    ensures FoldLines(t, []) == Ok(head + Format(g) + after)
  {
    assert WithFragments(g, []) == g;
  }

  /** When the section was the last, what is read back still has it there. */
  lemma FoldedLast(d: seq<string>, fragments: seq<Fragment>, h: int, e: nat, g0: Grouped, g: Grouped,
                   f: seq<string>, x: seq<string>)
    requires Folds(d, fragments, h, e, g0, g, f) && e == |d| && Format(g) == x + [""]
    ensures var t := d[..h + 1] + x;
      HeadingIndex(t) == h && SectionEnd(t, h) == |t| && SectionLines(t, h) == x && t[..h + 1] == d[..h + 1]
  {
    hide AllShaped, AllReady, EntriesOf, KeysKnown, WithFragments, AllClean, AllCleanEntries, LastsFilled,
         FormatTypes,
         NoneEmpty, KnownTypes, FenceAfter, Delimiter, EndsSection, TrimEnd;
    EntriesReady(d, fragments, h, e, g0, g, f);
    ChangeTypesKnown();
    FormatInner(CHANGE_TYPES, g);
    SectionInner(d, h);
    var t := d[..h + 1] + x;
    NoEndsPrefix(x, [""]);
    assert t == d[..h + 1] + x + [];
    SectionIs(d[..h + 1], x, []);
    SameHeading(d, h, t);
  }

  lemma NoEndsPrefix(a: seq<string>, b: seq<string>)
    requires NoEnds(Closed, a + b)
    ensures NoEnds(Closed, a)
  {
    forall i | 0 <= i < |a| && EndsSection(a[i]) ensures FencedFrom(Closed, a, i) {
      assert FencedFrom(Closed, a + b, i);
      assert (a + b)[..i] == a[..i];
    }
  }

  lemma FormatSortedWhole(g: Grouped)
    requires AllShaped(g) && NoneEmpty(g) && KeysKnown(g)
    ensures AllUntailed(g) ==> Format(Sorted(g)) == Format(g)
    ensures !AllUntailed(g) ==> |Format(Sorted(g))| < |Format(g)|
  {
    FormatSorted(CHANGE_TYPES, g);
    NothingTailed();
    if !AllUntailed(g) {
      var t :| t in g && !NoTails(g[t]);
      assert t in CHANGE_TYPES && !NoTails(Listed(g, t));
    }
  }

  lemma {:induction false} FormatClean(types: seq<string>, g: Grouped)
    requires AllCleanEntries(g) && forall i :: 0 <= i < |types| ==> Clean(types[i])
    ensures AllClean(FormatTypes(types, g))
    decreases types
  {
    if types != [] {
      hide AllCleanEntries, BreakingFirst, Concat;
      FormatClean(types[1..], g);
      var es := Listed(g, types[0]);
      if es != [] {
        SortedClean(g, types[0]);
        ConcatClean(BreakingFirst(es));
        CleanConcat(["", "### " + types[0], ""], Concat(BreakingFirst(es)));
        CleanConcat(["", "### " + types[0], ""] + Concat(BreakingFirst(es)), FormatTypes(types[1..], g));
      }
    }
  }

  lemma SortedClean(g: Grouped, t: string)
    requires AllCleanEntries(g)
    ensures forall x :: x in BreakingFirst(Listed(g, t)) ==> AllClean(x)
  {
    var es := Listed(g, t);
    OnlyMembers(es, true);
    OnlyMembers(es, false);
    forall x | x in BreakingFirst(es) ensures AllClean(x) {
      assert x in es;
      var i :| 0 <= i < |es| && es[i] == x;
      assert AllClean(g[t][i]);
    }
  }

  lemma CleanConcat(a: seq<string>, b: seq<string>)
    requires AllClean(a) && AllClean(b)
    ensures AllClean(a + b)
  {
  }

  lemma {:induction false} ConcatClean(es: seq<Entry>)
    requires forall x :: x in es ==> AllClean(x)
    ensures AllClean(Concat(es))
  {
    if es != [] {
      ConcatClean(es[1..]);
      assert AllClean(es[0]);
      CleanConcat(es[0], Concat(es[1..]));
    }
  }

  lemma FoldedClean(d: seq<string>, fragments: seq<Fragment>, h: int, e: nat, g0: Grouped, g: Grouped, f: seq<string>)
    requires Folds(d, fragments, h, e, g0, g, f)
    ensures AllClean(f)
  {
    hide Folds, FormatTypes, AllCleanEntries, LastsFilled, AllShaped, KeysKnown;
    EntriesReady(d, fragments, h, e, g0, g, f);
    Parts(d, fragments, h, e, g0, g, f);
    FormatClean(CHANGE_TYPES, g);
    hide Clean;
    assert AllClean(d[..h + 1]) && AllClean(d[e..]);
    CleanConcat(d[..h + 1], Format(g));
    CleanConcat(d[..h + 1] + Format(g), d[e..]);
  }

  lemma TextInjective(a: seq<string>, b: seq<string>)
    requires a != [] && b != [] && AllClean(a) && Text(a) == Text(b)
    requires forall i :: 0 <= i < |b| ==> '\n' !in b[i]
    ensures a == b
  {
    assert forall i :: 0 <= i < |a| ==> Clean(a[i]);
    assert Join(a) == Text(a)[..|Text(a)| - 1] == Join(b);
    SplitJoin(a);
    SplitJoin(b);
  }

  // ----- Folding twice

  /** Entry files whose text does not end in a blank line. */
  ghost predicate NoBlankEnds(fragments: seq<Fragment>) {
    forall i :: 0 <= i < |fragments| ==> Untailed(Split(fragments[i].body))
  }

  lemma FoldsGrouped(d: seq<string>, fragments: seq<Fragment>, h: int, e: nat, g0: Grouped, g: Grouped,
                     f: seq<string>)
    requires Folds(d, fragments, h, e, g0, g, f)
    ensures g == WithFragments(g0, fragments)
  {
  }

  lemma RefoldedSame(d: seq<string>, fragments: seq<Fragment>, h: int, e: nat, g0: Grouped, g: Grouped,
                     f: seq<string>)
    requires Folds(d, fragments, h, e, g0, g, f)
    ensures d[..h + 1] + Format(Sorted(g)) + d[e..] == f <==> NoBlankEnds(fragments)
  {
    hide Folds, Format, AllCleanEntries, LastsFilled;
    EntriesReady(d, fragments, h, e, g0, g, f);
    Parts(d, fragments, h, e, g0, g, f);
    FormatSortedWhole(g);
    assert AllUntailed(g) <==> NoBlankEnds(fragments) by {
      FoldsGrouped(d, fragments, h, e, g0, g, f);
      TailsFromFragments(g0, g, fragments);
    }
  }

  lemma FoldedFirstLine(d: seq<string>, fragments: seq<Fragment>, h: int, e: nat, g0: Grouped, g: Grouped,
                        f: seq<string>)
    requires Folds(d, fragments, h, e, g0, g, f)
    ensures f != [] && f[0] == d[0]
  {
    hide Folds, Format;
    Parts(d, fragments, h, e, g0, g, f);
    assert d[..h + 1][0] == d[0];
  }

  /** A byte order mark left at the start of the first line is taken away when the text is read back. */
  lemma ReadBackMarked(lines: seq<string>)
    requires lines != [] && AllClean(lines) && StartsWithBom(lines)
    ensures Document(Text(lines))[0] == lines[0][1..]
  {
    var bare := [lines[0][1..]] + lines[1..];
    forall i | 0 <= i < |bare| ensures Clean(bare[i]) {
      assert Clean(lines[i]);
    }
    assert Text(lines)[1..] == Text(bare) by {
      if |lines| > 1 { assert bare[1..] == lines[1..]; }
    }
    CleanJoin(bare);
    WithoutCrUnchanged(Text(bare));
    assert Text(bare)[..|Text(bare)| - 1] == Join(bare);
    StripJoined(bare);
    TrimEndShape(bare);
    SplitJoin(TrimEnd(bare));
  }

  /** Folding a changelog a second time, with no further entry files, changes nothing, exactly when no entry file
      ended in a blank line and the first line did not start with a second byte order mark. Entry files are
      taken to be well formed and to close the blocks they open, and so is the section. */
  lemma FoldTwiceIff(source: string, fragments: seq<Fragment>, once: string)
    requires FoldText(source, fragments) == Ok(once) && AllReady(fragments) && SectionClosed(Document(source))
    ensures FoldText(once, []) == Ok(once) <==> NoBlankEnds(fragments) && !StartsWithBom(Document(source))
  {
    var d := Document(source);
    DocumentShape(source);
    var f := FoldLines(d, fragments).value;
    var h, e, g0, g := FoldsIs(d, fragments, f);
    FoldedClean(d, fragments, h, e, g0, g, f);
    FoldedFirstLine(d, fragments, h, e, g0, g, f);
    hide Folds, FoldLines, Document, AllReady, SectionClosed, NoBlankEnds;
    if StartsWithBom(d) {
      ReadBackMarked(f);
      if FoldText(once, []).Ok? { MarkedDiffers(once, f); }
    } else {
      ReadBack(f);
      FoldLinesAgain(d, fragments, h, e, g0, g, f);
      RefoldedSame(d, fragments, h, e, g0, g, f);
      var again := d[..h + 1] + Format(Sorted(g)) + d[e..];
      RefoldedClean(d, fragments, h, e, g0, g, f);
      if Text(again) == Text(f) { TextInjective(again, f); }
    }
  }

  lemma MarkedDiffers(once: string, f: seq<string>)
    requires f != [] && AllClean(f) && f[0] != [] && once == Text(f) && Document(once)[0] == f[0][1..]
    requires FoldText(once, []).Ok?
    ensures FoldText(once, []) != Ok(once)
  {
    DocumentShape(once);
    var again := FoldLines(Document(once), []).value;
    var h := HeadingIndex(Document(once));
    assert again[0] == Document(once)[..h + 1][0];
    assert |again[0]| < |f[0]|;
    if Text(again) == Text(f) {
      FirstLineOfText(again, f);
    }
  }

  lemma FirstLineOfText(a: seq<string>, b: seq<string>)
    requires a != [] && b != [] && '\n' !in a[0] && '\n' !in b[0] && |a[0]| < |b[0]|
    ensures Text(a) != Text(b)
  {
    assert Text(a)[|a[0]|] == '\n';
    assert Text(b)[|a[0]|] == b[0][|a[0]|];
  }

  lemma RefoldedClean(d: seq<string>, fragments: seq<Fragment>, h: int, e: nat, g0: Grouped, g: Grouped,
                      f: seq<string>)
    requires Folds(d, fragments, h, e, g0, g, f)
    ensures AllClean(d[..h + 1] + Format(Sorted(g)) + d[e..])
  {
    hide Folds, Format, LastsFilled, Clean;
    EntriesReady(d, fragments, h, e, g0, g, f);
    Parts(d, fragments, h, e, g0, g, f);
    SortedEntriesClean(g);
    TypesClean();
    FormatClean(CHANGE_TYPES, Sorted(g));
    assert AllClean(d[..h + 1]) && AllClean(d[e..]);
    FormatIs(Sorted(g));
    CleanConcat(d[..h + 1], Format(Sorted(g)));
    CleanConcat(d[..h + 1] + Format(Sorted(g)), d[e..]);
  }

  lemma FormatIs(g: Grouped)
    ensures Format(g) == FormatTypes(CHANGE_TYPES, g)
  {
  }

  lemma TypesClean()
    ensures forall i :: 0 <= i < |CHANGE_TYPES| ==> Clean(CHANGE_TYPES[i])
  {
  }

  lemma SortedEntriesClean(g: Grouped)
    requires AllCleanEntries(g)
    ensures AllCleanEntries(Sorted(g))
  {
    forall t, i | t in g && 0 <= i < |Sorted(g)[t]| ensures AllClean(Sorted(g)[t][i]) {
      SortedClean(g, t);
      TrimmedAt(BreakingFirst(g[t]), i);
    }
  }

  lemma {:induction false} TrimmedAt(es: seq<Entry>, i: nat)
    requires i < |Trimmed(es)|
    ensures i < |es| && Trimmed(es)[i] == DropBlankTail(es[i])
    ensures AllClean(es[i]) ==> AllClean(Trimmed(es)[i])
  {
    DropTailPrefix(es[0]);
    if i > 0 { TrimmedAt(es[1..], i - 1); }
  }
}
