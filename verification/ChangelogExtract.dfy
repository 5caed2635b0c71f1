/** Extracting the version a roll has just released gives back what rendering showed before it. */
module ChangelogExtract {
  import opened Options
  import opened Sequences
  import opened ChangelogText
  import opened ChangelogSections
  import opened ChangelogEntries
  import opened ChangelogFold
  import opened ChangelogFoldTwice
  import opened ChangelogRelease

  // ----- What a roll starts from

  lemma {:induction false} TrimKeeps(lines: seq<string>, k: nat)
    requires k < |lines| && lines[k] != []
    ensures k < |TrimEnd(lines)|
  {
    if |lines| > 1 && lines[|lines| - 1] == [] {
      TrimKeeps(lines[..|lines| - 1], k);
    }
  }

  lemma SlicesClean(d: seq<string>)
    requires AllClean(d)
    ensures forall i, j :: 0 <= i <= j <= |d| ==> AllClean(d[i..j])
    ensures forall i :: 0 <= i <= |d| ==> AllClean(d[..i]) && AllClean(d[i..])
  {
    hide Clean;
  }

  lemma FoldParts(d: seq<string>, fragments: seq<Fragment>, f: seq<string>) returns (g0: Grouped)
    requires FoldLines(d, fragments) == Ok(f)
    ensures HeadingIndex(d) >= 0 && EntriesOf(SectionLines(d, HeadingIndex(d))) == Ok(g0)
    ensures f == d[..HeadingIndex(d) + 1] + Format(WithFragments(g0, fragments)) + d[SectionEnd(d, HeadingIndex(d))..]
  {
    hide EntriesOf, Format, SectionEnd, First, Group;
    g0 := EntriesOf(SectionLines(d, HeadingIndex(d))).value;
  }

  lemma FoldClean(d: seq<string>, fragments: seq<Fragment>, f: seq<string>)
    requires AllClean(d) && AllLoaded(fragments) && FoldLines(d, fragments) == Ok(f)
    ensures AllClean(f) && HeadingIndex(d) >= 0 && HeadingIndex(d) < |f|
    ensures f[..HeadingIndex(d) + 1] == d[..HeadingIndex(d) + 1]
  {
    hide Group, FormatTypes, AllLoaded, Clean, FoldLines, SectionEnd, First, WithFragments, AllClean, AllCleanEntries;
    var g0 := FoldParts(d, fragments, f);
    var h := HeadingIndex(d);
    var body, head, rest := SectionLines(d, h), d[..h + 1], d[SectionEnd(d, h)..];
    SlicesClean(d);
    NoneClean();
    GroupClean(body, Closed, None, [], map[]);
    WithFragmentsClean(g0, fragments);
    TypesClean();
    var g := WithFragments(g0, fragments);
    FormatClean(CHANGE_TYPES, g);
    CleanConcat(head, Format(g));
    CleanConcat(head + Format(g), rest);
  }

  lemma NoneClean()
    ensures AllClean([]) && AllCleanEntries(map[])
  {
  }

  /** The folded lines as the roll reads them back: up to the heading they are the source's. */
  lemma FoldedStart(source: string, fragments: seq<Fragment>, folded: string)
    requires FoldText(source, fragments) == Ok(folded) && AllLoaded(fragments) && !StartsWithBom(Document(source))
    ensures var d := Document(source); var t := Document(folded); var h := HeadingIndex(d);
      && 0 <= h < |d| && h < |t| && HeadingIndex(t) == h && IsDocument(t) && !StartsWithBom(t)
      && t[..h + 1] == d[..h + 1]
      && forall i :: 0 <= i <= h ==> t[i] == d[i] && Fenced(t, i) == Fenced(d, i)
  {
    hide Document, FoldLines;
    DocumentShape(source);
    DocumentShape(folded);
    var d := Document(source);
    var f := FoldLines(d, fragments).value;
    FoldClean(d, fragments, f);
    var h := HeadingIndex(d);
    assert f[h] == f[..h + 1][h] == d[h] == UNRELEASED_HEADING;
    assert f[0] == f[..h + 1][0] == d[0];
    ReadBack(f);
    TrimKeeps(f, h);
    TrimEndShape(f);
    assert TrimEnd(f)[..h + 1] == f[..h + 1];
    SameHeading(d, h, TrimEnd(f));
  }

  /** A successful roll: the folded lines `d`, the heading `h`, the definition `k` and its comparison. */
  ghost predicate Rolls(d: seq<string>, h: nat, k: nat, c: Comparison, version: string, date: string,
                        r: seq<string>) {
    && IsDocument(d) && !StartsWithBom(d) && IsVersion(version) && IsDate(date)
    && h < |d| && HeadingIndex(d) == h && k < |d| && DefinitionIndex(d) == k
    && UnreleasedDefinition(d[k]) && UnreleasedCompare(DefinedUrl(d[k])) == Some(c)
    && (forall i :: 0 <= i < h ==> Fenced(d, i) || !HasVersion(version, d[i]))
    && r == Rolled(d, h, k, c, version, date)
  }

  lemma RollsWhen(source: string, version: string, date: string, fragments: seq<Fragment>, allowEmpty: bool,
                  rolled: string)
    returns (d: seq<string>, h: nat, k: nat, c: Comparison, r: seq<string>)
    requires RollText(source, version, date, fragments, allowEmpty) == Done(rolled)
    requires IsVersion(version) && IsDate(date) && AllLoaded(fragments) && !StartsWithBom(Document(source))
    ensures d == Document(FoldText(source, fragments).value) && rolled == Text(r)
    ensures Rolls(d, h, k, c, version, date, r)
  {
    hide Document, FoldText, IsVersion, IsDate;
    FoldedStart(source, fragments, FoldText(source, fragments).value);
    d := Document(FoldText(source, fragments).value);
    h := HeadingIndex(d);
    k := DefinitionIndex(d);
    c := UnreleasedCompare(DefinedUrl(d[k])).value;
    r := Rolled(d, h, k, c, version, date);
  }

  // ----- Where the new section is

  lemma {:induction false} StaysClosed(lines: seq<string>)
    requires forall i :: 0 <= i < |lines| ==> Delimiter(lines[i]) == Closed
    ensures FenceAfter(Closed, lines) == Closed
    ensures forall i :: 0 <= i < |lines| ==> !Fenced(lines, i)
  {
    forall i | 0 <= i <= |lines| ensures FenceAfter(Closed, lines[..i]) == Closed {
      StaysClosedTo(lines, i);
    }
    assert lines[..|lines|] == lines;
  }

  lemma {:induction false} StaysClosedTo(lines: seq<string>, n: nat)
    requires n <= |lines| && forall i :: 0 <= i < |lines| ==> Delimiter(lines[i]) == Closed
    ensures FenceAfter(Closed, lines[..n]) == Closed
  {
    if n == 0 {
      assert lines[..0] == [];
    } else {
      StaysClosedTo(lines, n - 1);
      FenceAfterOneMore(lines, n - 1);
    }
  }

  lemma OpeningPlain(version: string, date: string)
    requires IsVersion(version) && IsDate(date)
    ensures forall i :: 0 <= i < 5 ==>
      Delimiter(OpeningLines(version, date)[i]) == Closed && Clean(OpeningLines(version, date)[i])
    ensures forall i :: 0 <= i < 4 ==> VersionHeading(OpeningLines(version, date)[i]) == None
  {
    hide IsVersion, IsDate, VersionHeading;
    UnreleasedPlain();
    CommentPlain();
    NewHeadingPlain(version, date);
    BlankIsPlain("");
    EmptyHeadsNothing();
  }

  lemma EmptyHeadsNothing()
    ensures VersionHeading("") == None
  {
  }

  lemma VersionIndexIs(lines: seq<string>, version: string, i: nat)
    requires i < |lines| && !Fenced(lines, i) && HasVersion(version, lines[i])
    requires forall j :: 0 <= j < i ==> Fenced(lines, j) || !HasVersion(version, lines[j])
    ensures VersionIndex(lines, version) == i
  {
    hide VersionHeading;
    FirstIs(lines, line => HasVersion(version, line), 0, |lines|, i);
  }

  /** Lines that open no block, the last of them the version's heading. */
  ghost predicate Opens(opening: seq<string>, version: string) {
    && |opening| == 5 && (forall i :: 0 <= i < 5 ==> Delimiter(opening[i]) == Closed)
    && (forall i :: 0 <= i < 4 ==> !HasVersion(version, opening[i])) && HasVersion(version, opening[4])
  }

  lemma OpeningOpens(version: string, date: string)
    requires IsVersion(version) && IsDate(date)
    ensures Opens(OpeningLines(version, date), version) && AllClean(OpeningLines(version, date))
  {
    hide IsVersion, IsDate, VersionHeading;
    OpeningPlain(version, date);
    NewHeadingReads(version, date);
  }

  /** After lines that head no such version, the heading is the version's first, wherever the lines stand. */
  lemma OpeningStands(head: seq<string>, version: string, opening: seq<string>, rest: seq<string>)
    requires Opens(opening, version) && FenceAfter(Closed, head) == Closed
    requires forall i :: 0 <= i < |head| ==> Fenced(head, i) || !HasVersion(version, head[i])
    ensures FenceAfter(Closed, head + opening) == Closed
    ensures VersionIndex(head + opening + rest, version) == |head| + 4
  {
    hide HasVersion, Delimiter;
    var r := head + opening + rest;
    StaysClosed(opening);
    FenceAfterConcat(Closed, head, opening);
    assert r == head + (opening + rest);
    forall i | 0 <= i < |head| + 4 ensures Fenced(r, i) || !HasVersion(version, r[i]) {
      if i < |head| {
        FencedPrefix(head, opening + rest, i);
      } else {
        assert r[i] == opening[i - |head|];
      }
    }
    FencedSuffix(head, opening + rest, 4);
    FencedPrefix(opening, rest, 4);
    assert r[|head| + 4] == opening[4];
    VersionIndexIs(r, version, |head| + 4);
  }

  lemma NewSection(head: seq<string>, version: string, opening: seq<string>, body: seq<string>, after: seq<string>)
    requires Opens(opening, version) && FenceAfter(Closed, head) == Closed
    requires forall i :: 0 <= i < |head| ==> Fenced(head, i) || !HasVersion(version, head[i])
    requires NoEnds(Closed, body)
    requires after == [] || (FenceAfter(Closed, body) == Closed && Delimiter(after[0]) == Closed && EndsSection(after[0]))
    ensures var r := head + opening + body + after;
      VersionIndex(r, version) == |head| + 4 && SectionLines(r, |head| + 4) == body
  {
    hide EndsSection, HasVersion, Delimiter, VersionIndex, NoEnds;
    var top := head + opening;
    OpeningStands(head, version, opening, body + after);
    assert top + (body + after) == top + body + after;
    SectionIs(top, body, after);
  }

  // ----- The rolled lines

  /** The two definitions a roll writes for one. */
  function NewLinks(c: Comparison, version: string): seq<string> {
    [NewUnreleased(c.base, version), NewDefinition(c.base, c.previous, version)]
  }

  /** With the definition below the heading, every other line survives, in order. */
  lemma RolledBelow(d: seq<string>, h: nat, k: nat, c: Comparison, version: string, date: string)
    requires h < k < |d|
    ensures Rolled(d, h, k, c, version, date)
         == d[..h] + OpeningLines(version, date) + d[h + 1..k] + NewLinks(c, version) + d[k + 1..]
  {
    var links := Spliced(d, k, NewLinks(c, version));
    assert links[..h] == d[..h] && links[h + 1..] == d[h + 1..k] + NewLinks(c, version) + d[k + 1..];
  }

  /** With the definition above the heading, the line before the heading is lost instead of the heading itself,
      which then stands twice. */
  lemma RolledAbove(d: seq<string>, h: nat, k: nat, c: Comparison, version: string, date: string)
    requires k < h < |d|
    ensures Rolled(d, h, k, c, version, date)
         == (d[..k] + NewLinks(c, version) + d[k + 1..h])[..h] + OpeningLines(version, date) + d[h..]
  {
    var links := Spliced(d, k, NewLinks(c, version));
    assert links == d[..k] + NewLinks(c, version) + d[k + 1..h] + d[h..];
  }

  lemma LinksPlain(d: seq<string>, k: nat, c: Comparison, version: string)
    requires AllClean(d) && k < |d| && UnreleasedDefinition(d[k]) && IsVersion(version)
    requires UnreleasedCompare(DefinedUrl(d[k])) == Some(c)
    ensures var links := NewLinks(c, version); |links| == 2 && forall i :: 0 <= i < 2 ==>
        Delimiter(links[i]) == Closed && !HasVersion(version, links[i]) && Clean(links[i])
        && links[i] != [] && links[i][0] != BOM
    ensures EndsSection(NewLinks(c, version)[0]) <==> NoSpaces(c.base)
    ensures EndsSection(NewLinks(c, version)[1]) <==> NoSpaces(c.base) && NoSpaces(c.previous)
    ensures EndsSection(d[k]) <==> NoSpaces(c.base) && NoSpaces(c.previous)
  {
    assert Clean(d[k]) && d[k][0] == '[';
    hide VersionHeading, IsVersion, UnreleasedCompare, LinkDefinition, UnreleasedDefinition, Delimiter, EndsSection,
         Clean, NoSpaces,
         NewUnreleased, NewDefinition;
    ComparisonClean(d[k], c);
    NewLinksPlain(c.base, c.previous, version);
    NewUnreleasedReads(c.base, version);
    NewDefinitionReads(c.base, c.previous, version);
    BracketPlain(d[k]);
    BracketPlain(NewUnreleased(c.base, version));
    BracketPlain(NewDefinition(c.base, c.previous, version));
    DefinitionEnds(d[k], c);
  }

  lemma DefinitionEnds(line: string, c: Comparison)
    requires UnreleasedDefinition(line) && UnreleasedCompare(DefinedUrl(line)) == Some(c)
    ensures LinkDefinition(line).Some? <==> NoSpaces(c.base) && NoSpaces(c.previous)
  {
    hide UnreleasedCompare, LinkDefinition;
    DefinitionParts(line);
    CompareParts(DefinedUrl(line), c);
    NoSpacesConcat(c.base + COMPARE + c.previous, TO_HEAD);
    NoSpacesConcat(c.base + COMPARE, c.previous);
    NoSpacesConcat(c.base, COMPARE);
    assert NoSpaces(COMPARE) && NoSpaces(TO_HEAD);
  }

  /** The facts about the folded lines that the proofs below use. */
  lemma Around(d: seq<string>, h: nat, k: nat, c: Comparison, version: string, date: string, r: seq<string>)
    requires Rolls(d, h, k, c, version, date, r)
    ensures h != k && d[h] == UNRELEASED_HEADING && !Fenced(d, h) && !Fenced(d, k)
    ensures FenceAfter(Closed, d[..h]) == Closed && FenceAfter(Closed, d[..k]) == Closed
    ensures SectionEnd(d, h) < |d| ==> !Fenced(d, SectionEnd(d, h)) && EndsSection(d[SectionEnd(d, h)])
    ensures FenceAfter(Closed, d[..h + 1]) == Closed && FenceAfter(Closed, d[..k + 1]) == Closed
    ensures |d| > 1 && d[|d| - 1] != []
  {
    hide IsVersion, IsDate, UnreleasedCompare;
    UnfencedClosed(d, h);
    UnfencedClosed(d, k);
    assert d[h][0] == '#' && d[k][0] == '[';
    if d[|d| - 1] == [] { TrimEndShape(d[..|d| - 1]); }
  }

  lemma TopHoldsNone(d: seq<string>, k: nat, p: string -> bool)
    requires k <= |d| && forall i :: 0 <= i < k ==> Fenced(d, i) || !p(d[i])
    ensures forall i :: 0 <= i < k ==> Fenced(d[..k], i) || !p(d[..k][i])
  {
    assert d == d[..k] + d[k..];
    forall i | 0 <= i < k ensures Fenced(d[..k], i) == Fenced(d, i) { FencedPrefix(d[..k], d[k..], i); }
  }

  lemma RestHoldsNone(d: seq<string>, k: nat, h: nat, p: string -> bool)
    requires k < h <= |d| && !Fenced(d, k) && forall i :: 0 <= i < h ==> Fenced(d, i) || !p(d[i])
    ensures var rest := d[k + 1..h]; forall i :: 0 <= i < |rest| ==> Fenced(rest, i) || !p(rest[i])
  {
    UnfencedClosed(d, k);
    hide FenceAfter, Delimiter;
    var rest := d[k + 1..h];
    assert d == d[..k + 1] + rest + d[h..];
    forall i | 0 <= i < |rest| ensures Fenced(rest, i) == Fenced(d, k + 1 + i) {
      FencedPrefix(d[..k + 1] + rest, d[h..], k + 1 + i);
      FencedSuffix(d[..k + 1], rest, i);
    }
  }

  lemma HoldNoneConcat(a: seq<string>, b: seq<string>, p: string -> bool)
    requires FenceAfter(Closed, a) == Closed
    requires forall i :: 0 <= i < |a| ==> Fenced(a, i) || !p(a[i])
    requires forall i :: 0 <= i < |b| ==> Fenced(b, i) || !p(b[i])
    ensures forall i :: 0 <= i < |a + b| ==> Fenced(a + b, i) || !p((a + b)[i])
  {
    forall i | 0 <= i < |a + b| ensures Fenced(a + b, i) || !p((a + b)[i]) {
      if i < |a| { FencedPrefix(a, b, i); } else { FencedSuffix(a, b, i - |a|); }
    }
  }

  /** Where the lines a roll changes are, and what the lines it writes are like. */
  ghost predicate Replaces(d: seq<string>, h: nat, k: nat, version: string, opening: seq<string>,
                           links: seq<string>) {
    && h < k < |d| && !Fenced(d, h) && !Fenced(d, k) && FenceAfter(Closed, d[..h]) == Closed
    && (forall i :: 0 <= i < h ==> Fenced(d[..h], i) || !HasVersion(version, d[..h][i]))
    && Opens(opening, version) && |links| == 2 && Delimiter(links[0]) == Delimiter(links[1]) == Closed
  }

  lemma RollReplaces(d: seq<string>, h: nat, k: nat, c: Comparison, version: string, date: string, r: seq<string>)
    requires Rolls(d, h, k, c, version, date, r) && h < k
    ensures Replaces(d, h, k, version, OpeningLines(version, date), NewLinks(c, version))
    ensures r == d[..h] + OpeningLines(version, date) + d[h + 1..k] + NewLinks(c, version) + d[k + 1..]
  {
    Around(d, h, k, c, version, date, r);
    OpeningOpens(version, date);
    LinksPlain(d, k, c, version);
    TopHoldsNone(d, h, line => HasVersion(version, line));
    RolledBelow(d, h, k, c, version, date);
  }

  lemma Regroup<T>(a: seq<T>, b: seq<T>, c: seq<T>, d: seq<T>)
    ensures a + b + c + d == a + (b + c + d) && a + b + c + d == a + b + (c + d)
  {
  }

  /** The end of the section, when something ends it. */
  lemma EndsHere(d: seq<string>, h: nat)
    requires h < |d| && SectionEnd(d, h) < |d|
    ensures var e := SectionEnd(d, h); Delimiter(d[e]) == Closed && EndsSection(d[e]) && FenceAfter(Closed, d[..e]) == Closed
  {
    UnfencedClosed(d, SectionEnd(d, h));
  }

  lemma FirstOf<T>(a: seq<T>, b: seq<T>, c: seq<T>)
    requires b != []
    ensures a + b + c != [] && (a + b + c)[0] == if a != [] then a[0] else b[0]
  {
  }

  /** The definition past the section: the new section holds the lines of the old one. */
  lemma PastSection(d: seq<string>, h: nat, k: nat, version: string, opening: seq<string>, links: seq<string>)
    requires Replaces(d, h, k, version, opening, links) && SectionEnd(d, h) <= k
    requires EndsSection(d[k]) ==> EndsSection(links[0])
    ensures var r := d[..h] + opening + d[h + 1..k] + links + d[k + 1..];
      VersionIndex(r, version) == h + 4 && SectionLines(r, h + 4) == SectionLines(d, h)
  {
    hide HasVersion, EndsSection, Delimiter, Opens, VersionIndex, FenceAfter;
    var e := SectionEnd(d, h);
    EndsHere(d, h);
    UnfencedClosed(d, h);
    SectionStretch(d, h, h + 1, e);
    var head, body, between, end := d[..h], d[h + 1..e], d[e..k], d[k + 1..];
    var after := between + links + end;
    assert d[h + 1..k] == body + between;
    FirstOf(between, links, end);
    assert e < k ==> between[0] == d[e];
    NewSection(head, version, opening, body, after);
    assert head + opening + (body + between) + links + end == head + opening + body + after by {
      Regroup(head + opening, body, between, links + end);
      Regroup(head + opening, body + between, links, end);
      Regroup(body, between, links, end);
    }
  }

  /** The definition inside the section, and the first new line ends the section: the new section stops there. */
  lemma InsideStops(d: seq<string>, h: nat, k: nat, version: string, opening: seq<string>, links: seq<string>)
    requires Replaces(d, h, k, version, opening, links) && k < SectionEnd(d, h) && EndsSection(links[0])
    ensures var r := d[..h] + opening + d[h + 1..k] + links + d[k + 1..];
      VersionIndex(r, version) == h + 4 && SectionLines(r, h + 4) == d[h + 1..k]
  {
    UnfencedClosed(d, k);
    hide HasVersion, EndsSection, Delimiter, Opens, VersionIndex, FenceAfter;
    UnfencedClosed(d, h);
    SectionStretch(d, h, h + 1, k);
    NewSection(d[..h], version, opening, d[h + 1..k], links + d[k + 1..]);
    Regroup(d[..h] + opening, d[h + 1..k], links, d[k + 1..]);
  }

  /** The section with both new lines in it is still one stretch. */
  lemma HoldsStretch(d: seq<string>, h: nat, k: nat, links: seq<string>)
    requires h < |d| && h < k < SectionEnd(d, h) && !Fenced(d, h) && !Fenced(d, k)
    requires |links| == 2 && Delimiter(links[0]) == Delimiter(links[1]) == Closed
    requires !EndsSection(links[0]) && !EndsSection(links[1])
    ensures var body := d[h + 1..k] + links + d[k + 1..SectionEnd(d, h)];
      NoEnds(Closed, body) && FenceAfter(Closed, body) == FenceAfter(Closed, d[..SectionEnd(d, h)])
  {
    hide EndsSection, Delimiter;
    UnfencedClosed(d, k);
    UnfencedClosed(d, h);
    SectionStretch(d, h, h + 1, k);
    LinksInner(links);
    InnerConcat(d[h + 1..k], links);
    SectionStretch(d, h, k + 1, SectionEnd(d, h));
    NoEndsConcat(d[h + 1..k] + links, d[k + 1..SectionEnd(d, h)]);
  }

  /** The definition inside the section, and neither new line ends it: the new section holds both in its place. */
  lemma InsideHolds(d: seq<string>, h: nat, k: nat, version: string, opening: seq<string>, links: seq<string>)
    requires Replaces(d, h, k, version, opening, links) && k < SectionEnd(d, h)
    requires !EndsSection(links[0]) && !EndsSection(links[1])
    ensures var r := d[..h] + opening + d[h + 1..k] + links + d[k + 1..];
      VersionIndex(r, version) == h + 4 && SectionLines(r, h + 4) == d[h + 1..k] + links + d[k + 1..SectionEnd(d, h)]
  {
    hide HasVersion, EndsSection, Delimiter, Opens, VersionIndex, FenceAfter, NoEnds, Fenced, SectionEnd,
         SectionLines;
    HoldsStretch(d, h, k, links);
    var e := SectionEnd(d, h);
    if e < |d| { EndsHere(d, h); }
    HoldsLines(d, h, k, e, opening, links);
    NewSection(d[..h], version, opening, d[h + 1..k] + links + d[k + 1..e], d[e..]);
  }

  lemma HoldsLines<T>(d: seq<T>, h: nat, k: nat, e: nat, opening: seq<T>, links: seq<T>)
    requires h < k < e <= |d|
    ensures d[..h] + opening + d[h + 1..k] + links + d[k + 1..]
         == d[..h] + opening + (d[h + 1..k] + links + d[k + 1..e]) + d[e..]
  {
    assert d[k + 1..] == d[k + 1..e] + d[e..];
    Nested(d[..h] + opening, d[h + 1..k], links, d[k + 1..e], d[e..]);
  }

  lemma Nested<T>(a: seq<T>, b: seq<T>, c: seq<T>, d: seq<T>, e: seq<T>)
    ensures a + b + c + (d + e) == a + (b + c + d) + e
  {
    Regroup(a, b, c, d + e);
    Regroup(a, b + c, d, e);
    Regroup(b, c, d, e);
  }

  lemma LinksInner(links: seq<string>)
    requires |links| == 2 && Delimiter(links[0]) == Delimiter(links[1]) == Closed
    requires !EndsSection(links[0]) && !EndsSection(links[1])
    ensures Inner(links)
  {
    InnerLine(links[0]);
    InnerLine(links[1]);
    InnerConcat([links[0]], [links[1]]);
    assert [links[0]] + [links[1]] == links;
  }

  lemma NoEndsConcat(a: seq<string>, b: seq<string>)
    requires Inner(a) && NoEnds(Closed, b)
    ensures NoEnds(Closed, a + b) && FenceAfter(Closed, a + b) == FenceAfter(Closed, b)
  {
    var lines := a + b;
    FenceAfterConcat(Closed, a, b);
    forall i | 0 <= i < |lines| && EndsSection(lines[i]) ensures FencedFrom(Closed, lines, i) {
      if i < |a| {
        assert FencedFrom(Closed, a, i);
        FencedPrefix(a, b, i);
      } else {
        assert FencedFrom(Closed, b, i - |a|);
        FencedSuffix(a, b, i - |a|);
      }
    }
  }

  /** The definition above the heading: the new section is empty, provided the line that is lost closed no block. */
  lemma AboveHeading(d: seq<string>, h: nat, k: nat, c: Comparison, version: string, date: string, r: seq<string>)
    requires Rolls(d, h, k, c, version, date, r) && k < h && !Fenced(d, h - 1)
    ensures VersionIndex(r, version) == h + 4 && SectionLines(r, h + 4) == []
  {
    hide Rolled, Delimiter, HasVersion, UnreleasedCompare, UnreleasedDefinition, NewLinks, OpeningLines,
         EndsSection, IsVersion,
         IsDate, Clean, FenceAfter, Fenced, TrimEnd, VersionIndex, SectionLines, HeadingIndex, DefinitionIndex;
    Around(d, h, k, c, version, date, r);
    OpeningOpens(version, date);
    LinksPlain(d, k, c, version);
    RolledAbove(d, h, k, c, version, date);
    UnreleasedPlain();
    var head := AboveHead(d, h, k, NewLinks(c, version), line => HasVersion(version, line));
    EmptySection(head, version, OpeningLines(version, date), d[h..]);
  }

  lemma EmptySection(head: seq<string>, version: string, opening: seq<string>, after: seq<string>)
    requires Opens(opening, version) && FenceAfter(Closed, head) == Closed
    requires forall i :: 0 <= i < |head| ==> Fenced(head, i) || !HasVersion(version, head[i])
    requires after != [] && Delimiter(after[0]) == Closed && EndsSection(after[0])
    ensures VersionIndex(head + opening + after, version) == |head| + 4 && SectionLines(head + opening + after, |head| + 4) == []
  {
    hide HasVersion, EndsSection, Delimiter, VersionIndex, Opens, SectionLines;
    NewSection(head, version, opening, [], after);
    assert head + opening + [] + after == head + opening + after;
  }

  /** The block is open before the line that ends it. */
  lemma EndsABlock(d: seq<string>, h: nat)
    requires 0 < h < |d| && Fenced(d, h - 1) && !Fenced(d, h)
    ensures FenceAfter(Closed, d[..h - 1]).Open?
  {
    hide Delimiter;
    FenceAfterOneMore(d, h - 1);
    UnfencedClosed(d, h);
  }

  /** What is left above the heading holds no line of a kind that stood there only in code; and it leaves a block open
      when the line that is lost ended one. */
  lemma AboveHead(d: seq<string>, h: nat, k: nat, links: seq<string>, p: string -> bool) returns (head: seq<string>)
    requires k < h < |d| && |links| == 2 && !Fenced(d, k)
    requires forall i :: 0 <= i < 2 ==> Delimiter(links[i]) == Closed && !p(links[i])
    requires forall i :: 0 <= i < h ==> Fenced(d, i) || !p(d[i])
    ensures head == (d[..k] + links + d[k + 1..h])[..h] && |head| == h
    ensures forall i :: 0 <= i < h ==> Fenced(head, i) || !p(head[i])
    ensures !Fenced(d, h - 1) ==> FenceAfter(Closed, head) == Closed
    ensures Fenced(d, h - 1) && !Fenced(d, h) ==> FenceAfter(Closed, head).Open?
  {
    hide Delimiter;
    var top := d[..k];
    TopHoldsNone(d, k, p);
    UnfencedClosed(d, k);
    if k == h - 1 {
      head := top + [links[0]];
      StaysClosed([links[0]]);
      FenceAfterConcat(Closed, top, [links[0]]);
      HoldNoneConcat(top, [links[0]], p);
    } else {
      var rest := d[k + 1..h - 1];
      head := top + links + rest;
      assert head == (d[..k] + links + d[k + 1..h])[..h];
      StaysClosed(links);
      FenceAfterConcat(Closed, top, links);
      HoldNoneConcat(top, links, p);
      if Fenced(d, h - 1) { if !Fenced(d, h) { EndsABlock(d, h); } } else { UnfencedClosed(d, h - 1); }
      assert d[..h - 1] == d[..k + 1] + rest;
      FenceAfterConcat(Closed, d[..k + 1], rest);
      FenceAfterConcat(Closed, top + links, rest);
      RestHoldsNone(d, k, h - 1, p);
      HoldNoneConcat(top + links, rest, p);
    }
  }

  // ----- The definition above the heading, and a block that ends right before the heading

  lemma {:induction false} StaysOpen(f: Fence, lines: seq<string>)
    requires forall i :: 0 <= i < |lines| ==> Delimiter(lines[i]) == Closed
    ensures FenceAfter(f, lines) == f
    decreases lines
  {
    hide Delimiter;
    if lines != [] { StaysOpen(f, lines[1..]); }
  }

  /** After an open block nothing in lines that are no delimiters is outside code, nor is such a line after them. */
  lemma SwallowedLines(head: seq<string>, opening: seq<string>, z: seq<string>, j: nat)
    requires FenceAfter(Closed, head).Open? && (forall i :: 0 <= i < |opening| ==> Delimiter(opening[i]) == Closed)
    requires |head| <= j <= |head| + |opening| && j < |head| + |opening| + |z|
    ensures Fenced(head + opening + z, j)
  {
    hide Delimiter;
    var part := opening[..j - |head|];
    assert (head + opening + z)[..j] == head + part;
    StaysOpen(FenceAfter(Closed, head), part);
    FenceAfterConcat(Closed, head, part);
  }

  /** The lost line ended a block, so the block swallows both headings, and what follows is read with code and text
      exchanged: a line that then counts stands below the heading. */
  lemma SwallowedOpening(d: seq<string>, h: nat, k: nat, links: seq<string>, opening: seq<string>, p: string -> bool,
                         j: nat)
    requires k < h < |d| && |links| == 2 && !Fenced(d, k) && Fenced(d, h - 1) && !Fenced(d, h)
    requires forall i :: 0 <= i < 2 ==> Delimiter(links[i]) == Closed && !p(links[i])
    requires |opening| == 5 && (forall i :: 0 <= i < 5 ==> Delimiter(opening[i]) == Closed)
    requires forall i :: 0 <= i < h ==> Fenced(d, i) || !p(d[i])
    requires var r := (d[..k] + links + d[k + 1..h])[..h] + opening + d[h..]; j < |r| && !Fenced(r, j) && p(r[j])
    ensures h < j - 5 < |d| && p(d[j - 5])
  {
    hide Delimiter;
    var head := AboveHead(d, h, k, links, p);
    var r := head + opening + d[h..];
    if j < h {
      assert r == head + (opening + d[h..]);
      FencedPrefix(head, opening + d[h..], j);
    }
    if h <= j <= h + 5 { SwallowedLines(head, opening, d[h..], j); }
  }

  lemma LinksAreNoHeadings(d: seq<string>, k: nat, c: Comparison, version: string)
    requires AllClean(d) && k < |d| && UnreleasedDefinition(d[k]) && IsVersion(version)
    requires UnreleasedCompare(DefinedUrl(d[k])) == Some(c)
    ensures var links := NewLinks(c, version); |links| == 2 && forall i :: 0 <= i < 2 ==>
      links[i] != UNRELEASED_HEADING && links[i] != [] && Delimiter(links[i]) == Closed && !HasVersion(version, links[i])
  {
    hide UnreleasedCompare, UnreleasedDefinition, IsVersion, Delimiter, HasVersion;
    LinksPlain(d, k, c, version);
    assert NewLinks(c, version)[0][0] == '[' && NewLinks(c, version)[1][0] == '[';
    assert UNRELEASED_HEADING[0] == '#';
  }

  /** Then extracting finds the version only if a line below the heading, in code or not, is a heading of it. */
  lemma AboveBlock(d: seq<string>, h: nat, k: nat, c: Comparison, version: string, date: string, r: seq<string>)
    requires Rolls(d, h, k, c, version, date, r) && k < h && Fenced(d, h - 1)
    ensures VersionIndex(r, version) != -1 ==> exists i :: h < i < |d| && HasVersion(version, d[i])
  {
    hide Rolled, Delimiter, HasVersion, UnreleasedCompare, UnreleasedDefinition, NewLinks, OpeningLines,
         EndsSection, IsVersion, IsDate, Clean, FenceAfter, Fenced, TrimEnd, SectionLines;
    Around(d, h, k, c, version, date, r);
    OpeningOpens(version, date);
    LinksAreNoHeadings(d, k, c, version);
    RolledAbove(d, h, k, c, version, date);
    var j := VersionIndex(r, version);
    if j != -1 {
      SwallowedOpening(d, h, k, NewLinks(c, version), OpeningLines(version, date), line => HasVersion(version, line), j);
      assert HasVersion(version, d[j - 5]);
    }
  }

  // ----- The rolled text

  ghost predicate Fine(lines: seq<string>) {
    AllClean(lines) && !StartsWithBom(lines)
  }

  lemma BelowIsDocument(a: seq<string>, opening: seq<string>, b: seq<string>, links: seq<string>, z: seq<string>)
    requires AllClean(a) && AllClean(opening) && AllClean(b) && AllClean(links) && AllClean(z)
    requires !StartsWithBom(a) && opening != [] && opening[0] == UNRELEASED_HEADING
    requires |links| == 2 && links[1] != [] && (z != [] ==> z[|z| - 1] != [])
    ensures var r := a + opening + b + links + z; r != [] && Fine(r) && TrimEnd(r) == r
  {
    hide Clean, TrimEnd;
    var r := a + opening + b + links + z;
    assert r[0] == if a != [] then a[0] else opening[0];
    if z == [] {
      assert r == a + opening + b + links;
      TrimConcat(a + opening + b, links);
    } else {
      TrimConcat(a + opening + b + links, z);
    }
  }

  lemma AboveIsDocument(a: seq<string>, links: seq<string>, b: seq<string>, opening: seq<string>, z: seq<string>,
                        h: nat)
    requires AllClean(a) && AllClean(opening) && AllClean(b) && AllClean(links) && AllClean(z)
    requires h == |a| + 1 + |b| && |links| == 2 && z != [] && z[|z| - 1] != []
    requires !StartsWithBom(a) && !StartsWithBom(links)
    ensures var r := (a + links + b)[..h] + opening + z; r != [] && Fine(r) && TrimEnd(r) == r
  {
    hide Clean, TrimEnd;
    var top := (a + links + b)[..h];
    var r := top + opening + z;
    assert r[0] == top[0] == if a != [] then a[0] else links[0];
    TrimConcat(top + opening, z);
  }

  /** What the pieces of the rolled lines are like. */
  lemma RolledPieces(d: seq<string>, h: nat, k: nat, c: Comparison, version: string, date: string, r: seq<string>)
    requires Rolls(d, h, k, c, version, date, r)
    ensures var opening, links := OpeningLines(version, date), NewLinks(c, version);
      && AllClean(opening) && opening != [] && opening[0] == UNRELEASED_HEADING
      && AllClean(links) && |links| == 2 && links[1] != [] && !StartsWithBom(links)
      && AllClean(d) && !StartsWithBom(d) && h != k && d[|d| - 1] != []
  {
    hide HasVersion, Delimiter, UnreleasedCompare, UnreleasedDefinition, Clean, EndsSection, FenceAfter;
    Around(d, h, k, c, version, date, r);
    OpeningOpens(version, date);
    LinksPlain(d, k, c, version);
    var links := NewLinks(c, version);
    assert Clean(links[0]) && Clean(links[1]);
  }

  /** Reading the rolled text back loses nothing. */
  lemma RolledReadsBack(d: seq<string>, h: nat, k: nat, c: Comparison, version: string, date: string, r: seq<string>)
    requires Rolls(d, h, k, c, version, date, r)
    ensures Document(Text(r)) == r
  {
    RolledPieces(d, h, k, c, version, date, r);
    var opening, links := OpeningLines(version, date), NewLinks(c, version);
    assert r == Rolled(d, h, k, c, version, date);
    hide AllClean, NewLinks, OpeningLines, TrimEnd, Document, Rolled, Rolls;
    SlicesClean(d);
    if h < k {
      RolledBelow(d, h, k, c, version, date);
      BelowIsDocument(d[..h], opening, d[h + 1..k], links, d[k + 1..]);
    } else {
      RolledAbove(d, h, k, c, version, date);
      AboveIsDocument(d[..k], links, d[k + 1..h], opening, d[h..], h);
    }
    ReadBack(r);
  }

  /** Extracting the version from the rolled text reads the rolled lines. */
  lemma ExtractReads(d: seq<string>, h: nat, k: nat, c: Comparison, version: string, date: string, r: seq<string>)
    requires Rolls(d, h, k, c, version, date, r) && VersionIndex(r, version) == h + 4 && h + 4 < |r|
    ensures Extract(Text(r), version) == Done(SectionBody(r, h + 4))
  {
    hide Rolls, SectionBody, Document, VersionIndex;
    RolledReadsBack(d, h, k, c, version, date, r);
  }

  lemma ExtractIsMissing(d: seq<string>, h: nat, k: nat, c: Comparison, version: string, date: string, r: seq<string>)
    requires Rolls(d, h, k, c, version, date, r) && VersionIndex(r, version) == -1
    ensures Extract(Text(r), version) == Failed(NoSuchVersion)
  {
    hide Rolls, SectionBody, Document, VersionIndex;
    RolledReadsBack(d, h, k, c, version, date, r);
  }

  // ----- When two sections have the same text

  lemma {:induction false} JoinConcat(a: seq<string>, b: seq<string>)
    requires a != [] && b != []
    ensures Join(a + b) == Join(a) + "\n" + Join(b)
  {
    if |a| == 1 {
      assert (a + b)[1..] == b;
    } else {
      assert (a + b)[1..] == a[1..] + b;
      JoinConcat(a[1..], b);
      assert a[0] + "\n" + (Join(a[1..]) + "\n" + Join(b)) == (a[0] + "\n" + Join(a[1..])) + "\n" + Join(b);
    }
  }

  lemma {:induction false} StripStartConcat(a: string, b: string)
    requires b != [] && b[0] != '\n'
    ensures StripStartNewlines(a + b) == StripStartNewlines(a) + b
  {
    if a == [] {
      assert a + b == b;
    } else {
      assert (a + b)[1..] == a[1..] + b;
      StripStartConcat(a[1..], b);
    }
  }

  lemma {:induction false} StripEndConcat(a: string, b: string)
    requires a != [] && a[|a| - 1] != '\n'
    ensures StripEndNewlines(a + b) == a + StripEndNewlines(b)
    decreases |b|
  {
    if b == [] {
      assert a + b == a;
    } else {
      assert (a + b)[..|a + b| - 1] == a + b[..|b| - 1];
      StripEndConcat(a, b[..|b| - 1]);
    }
  }

  function Lead(a: seq<string>): string {
    if a == [] then "" else Join(a) + "\n"
  }

  function Tail(b: seq<string>): string {
    if b == [] then "" else "\n" + Join(b)
  }

  lemma JoinAround(a: seq<string>, m: seq<string>, b: seq<string>)
    requires m != []
    ensures Join(a + m + b) == Lead(a) + Join(m) + Tail(b)
  {
    if a == [] { assert a + m == m; } else { JoinConcat(a, m); }
    if b == [] { assert a + m + b == a + m; } else { JoinConcat(a + m, b); }
  }

  /** Newlines are stripped from what is around text that neither starts nor ends with one. */
  lemma StripBoth(a: string, m: string, b: string)
    requires m != [] && m[0] != '\n' && m[|m| - 1] != '\n'
    ensures StripNewlines(a + m + b) == StripStartNewlines(a) + m + StripEndNewlines(b)
  {
    Assoc(a, m, b);
    StripStartConcat(a, m + b);
    Assoc(StripStartNewlines(a), m, b);
    StripEndConcat(StripStartNewlines(a) + m, b);
  }

  lemma StripAround(a: seq<string>, m: seq<string>, b: seq<string>)
    requires m != [] && AllClean(m) && m[0] != [] && m[|m| - 1] != []
    ensures StripNewlines(Join(a + m + b)) == StripStartNewlines(Lead(a)) + Join(m) + StripEndNewlines(Tail(b))
  {
    hide StripNewlines, StripStartNewlines, StripEndNewlines, Lead, Tail;
    JoinAround(a, m, b);
    JoinLastChar(m);
    assert Join(m)[0] == m[0][0] && Clean(m[0]);
    StripBoth(Lead(a), Join(m), Tail(b));
  }

  lemma {:induction false} StripLengths(s: string)
    ensures |StripEndNewlines(s)| <= |s| && |StripStartNewlines(s)| <= |StripStartNewlines(s + "\n")|
  {
    if s != [] {
      assert (s + "\n")[1..] == s[1..] + "\n";
      StripLengths(s[1..]);
      StripEndShorter(s);
    }
  }

  lemma {:induction false} StripEndShorter(s: string)
    ensures |StripEndNewlines(s)| <= |s|
  {
    if s != [] && s[|s| - 1] == '\n' { StripEndShorter(s[..|s| - 1]); }
  }

  // ----- What is printed

  ghost predicate AllEmpty(lines: seq<string>) {
    forall k :: 0 <= k < |lines| ==> lines[k] == []
  }

  /** The first line that is not empty, and the last. */
  ghost predicate Holding(lines: seq<string>, i: nat, j: nat) {
    && i <= j < |lines| && lines[i] != [] && lines[j] != []
    && AllEmpty(lines[..i]) && AllEmpty(lines[j + 1..])
  }

  /** The text is the lines from the first to the last that is not empty, each with its newline; or nothing. */
  ghost predicate Prints(text: string, lines: seq<string>) {
    if AllEmpty(lines) then text == ""
    else exists i: nat, j: nat :: Holding(lines, i, j) && Split(text) == lines[i..j + 1] + [""]
  }

  lemma {:induction false} EmptyJoin(lines: seq<string>)
    requires AllEmpty(lines)
    ensures forall k :: 0 <= k < |Join(lines)| ==> Join(lines)[k] == '\n'
  {
    if |lines| > 1 {
      assert AllEmpty(lines[1..]);
      EmptyJoin(lines[1..]);
    }
  }

  lemma {:induction false} OnlyNewlines(s: string)
    requires forall k :: 0 <= k < |s| ==> s[k] == '\n'
    ensures StripStartNewlines(s) == [] && StripEndNewlines(s) == []
    decreases |s|
  {
    if s != [] {
      OnlyNewlines(s[1..]);
      OnlyNewlines(s[..|s| - 1]);
    }
  }

  lemma EmptyAround(a: seq<string>, b: seq<string>)
    requires AllEmpty(a) && AllEmpty(b)
    ensures StripStartNewlines(Lead(a)) == [] && StripEndNewlines(Tail(b)) == []
  {
    EmptyJoin(a);
    EmptyJoin(b);
    OnlyNewlines(Lead(a));
    OnlyNewlines(Tail(b));
  }

  lemma {:induction false} SomeHolding(lines: seq<string>) returns (i: nat, j: nat)
    requires !AllEmpty(lines)
    ensures Holding(lines, i, j)
  {
    i := 0;
    while lines[i] == []
      invariant i < |lines| && forall k :: 0 <= k < i ==> lines[k] == []
      decreases |lines| - i
    {
      i := i + 1;
    }
    j := |lines| - 1;
    while lines[j] == []
      invariant i <= j < |lines| && AllEmpty(lines[j + 1..])
      decreases j
    {
      assert lines[j..] == [lines[j]] + lines[j + 1..];
      j := j - 1;
    }
  }

  /** What is between the first and the last line that is not empty is printed as it is, and no newline more. */
  lemma StrippedIs(body: seq<string>, i: nat, j: nat)
    requires AllClean(body) && Holding(body, i, j)
    ensures StripNewlines(Join(body)) == Join(body[i..j + 1]) != []
    ensures Split(Join(body[i..j + 1]) + "\n") == body[i..j + 1] + [""]
  {
    var a, m, b := body[..i], body[i..j + 1], body[j + 1..];
    assert a + m + b == body;
    assert forall k :: 0 <= k < |m| ==> Clean(m[k]) && '\n' !in m[k];
    assert m[0] == body[i] && m[|m| - 1] == body[j];
    hide StripNewlines, StripStartNewlines, StripEndNewlines, Lead, Tail, Join, Split;
    StripAround(a, m, b);
    EmptyAround(a, b);
    assert "" + Join(m) + "" == Join(m);
    JoinLastChar(m);
    JoinAppendsEmpty(m);
    SplitJoin(m + [[]]);
  }

  lemma NothingIn(body: seq<string>)
    requires AllEmpty(body)
    ensures StripNewlines(Join(body)) == ""
  {
    EmptyJoin(body);
    OnlyNewlines(Join(body));
  }

  lemma BodyPrints(lines: seq<string>, heading: nat)
    requires heading < |lines| && AllClean(lines)
    ensures Prints(SectionBody(lines, heading), lines[heading + 1..SectionEnd(lines, heading)])
  {
    var body := lines[heading + 1..SectionEnd(lines, heading)];
    assert AllClean(body);
    hide StripNewlines, Join, Split, SectionEnd, AllEmpty, Holding;
    if AllEmpty(body) {
      NothingIn(body);
    } else {
      var i, j := SomeHolding(body);
      StrippedIs(body, i, j);
    }
  }

  /** Rendering prints the lines of the folded document between its heading and the first heading or link below. */
  lemma RenderPrints(source: string, fragments: seq<Fragment>, text: string) returns (h: nat, e: nat)
    requires Render(source, fragments) == Done(text)
    ensures FoldText(source, fragments).Ok?
    ensures var d := Document(FoldText(source, fragments).value);
      && h < |d| && !Fenced(d, h) && d[h] == UNRELEASED_HEADING
      && (forall i :: 0 <= i < h ==> Fenced(d, i) || d[i] != UNRELEASED_HEADING)
      && IsSection(d, h, e) && Prints(text, d[h + 1..e])
  {
    hide SectionBody, Document, FoldText, Prints, IsSection, Fenced;
    var d := Document(FoldText(source, fragments).value);
    DocumentShape(FoldText(source, fragments).value);
    h := HeadingIndex(d);
    e := SectionEnd(d, h);
    BodyPrints(d, h);
    SectionIsSection(d, h);
  }

  /** A section reaches from its heading to the first heading or link definition below it, outside code, or the end. */
  ghost predicate IsSection(d: seq<string>, h: nat, e: nat) {
    && h < e <= |d| && (e < |d| ==> !Fenced(d, e) && EndsSection(d[e]))
    && forall i :: h < i < e ==> Fenced(d, i) || !EndsSection(d[i])
  }

  lemma SectionIsSection(d: seq<string>, h: nat)
    requires h < |d|
    ensures IsSection(d, h, SectionEnd(d, h))
  {
    hide Fenced, EndsSection;
  }

  /** Extracting prints the lines of the first section of the version; it fails exactly when there is none. */
  lemma ExtractPrints(source: string, version: string) returns (h: nat, e: nat)
    ensures var d := Document(source);
      (exists i :: 0 <= i < |d| && !Fenced(d, i) && HasVersion(version, d[i])) <==> Extract(source, version).Done?
    ensures Extract(source, version).Done? ==>
      var d := Document(source);
      && h < |d| && !Fenced(d, h) && HasVersion(version, d[h])
      && (forall i :: 0 <= i < h ==> Fenced(d, i) || !HasVersion(version, d[i]))
      && IsSection(d, h, e) && Prints(Extract(source, version).value, d[h + 1..e])
    ensures Extract(source, version).Failed? ==> Extract(source, version) == Failed(NoSuchVersion)
  {
    hide SectionBody, Document, Prints, IsSection, Fenced, HasVersion;
    var d := Document(source);
    DocumentShape(source);
    var i := VersionIndex(d, version);
    h, e := 0, 0;
    if i != -1 {
      h, e := i, SectionEnd(d, i);
      BodyPrints(d, h);
      SectionIsSection(d, h);
    }
  }

  // ----- Extract undoes roll

  /** The text of section lines, without newlines at either end. */
  function Stripped(lines: seq<string>): string {
    StripNewlines(Join(lines))
  }

  lemma BodiesDiffer(a: seq<string>, i: nat, b: seq<string>, j: nat)
    requires i < |a| && j < |b|
    ensures SectionLines(a, i) == SectionLines(b, j) ==> SectionBody(a, i) == SectionBody(b, j)
    ensures |Stripped(SectionLines(a, i))| != |Stripped(SectionLines(b, j))| ==> SectionBody(a, i) != SectionBody(b, j)
  {
    hide StripNewlines, Join, SectionLines;
  }

  lemma NewLinksLonger(line: string, c: Comparison, version: string)
    requires UnreleasedDefinition(line) && UnreleasedCompare(DefinedUrl(line)) == Some(c)
    ensures |Join(NewLinks(c, version))| > |line|
  {
    hide UnreleasedCompare, UnreleasedDefinition;
    CompareParts(DefinedUrl(line), c);
    var links := NewLinks(c, version);
    assert Join(links) == links[0] + "\n" + Join(links[1..]);
    assert links[1..] == [links[1]];
  }

  /** One line in the section or two in its place: the texts differ. */
  lemma HoldsDiffer(a: seq<string>, line: string, links: seq<string>, b: seq<string>)
    requires AllClean([line]) && line != [] && AllClean(links) && |links| == 2 && links[0] != [] && links[1] != []
    requires |Join(links)| > |line|
    ensures |Stripped(a + links + b)| != |Stripped(a + [line] + b)|
  {
    hide StripNewlines, Lead, Tail;
    StripAround(a, links, b);
    StripAround(a, [line], b);
  }

  /** A line in the section or the section cut off before it: the texts differ. */
  lemma StopsDiffer(a: seq<string>, line: string, b: seq<string>)
    requires AllClean([line]) && line != []
    ensures |Stripped(a)| < |Stripped(a + [line] + b)|
  {
    StripAround(a, [line], b);
    hide StripStartNewlines, StripEndNewlines;
    StripLengths(Join(a));
    StripEndShorter(StripStartNewlines(Join(a)));
    assert a == [] ==> Stripped(a) == [] by { NothingStripped(); }
  }

  lemma NothingStripped()
    ensures StripNewlines(Join([])) == []
  {
  }

  /** The definition inside the section: the released section's text is not the old one's. */
  lemma InsideDiffers(d: seq<string>, h: nat, k: nat, version: string, opening: seq<string>, links: seq<string>,
                      r: seq<string>)
    requires Replaces(d, h, k, version, opening, links) && k < SectionEnd(d, h)
    requires r == d[..h] + opening + d[h + 1..k] + links + d[k + 1..]
    requires EndsSection(links[1]) ==> EndsSection(links[0])
    requires AllClean([d[k]]) && d[k] != [] && AllClean(links) && links[0] != [] && links[1] != []
    requires |Join(links)| > |d[k]|
    ensures VersionIndex(r, version) == h + 4 && h + 4 < |r|
    ensures |Stripped(SectionLines(r, h + 4))| != |Stripped(SectionLines(d, h))|
  {
    hide HasVersion, EndsSection, SectionEnd, SectionLines, Stripped, VersionIndex, Clean;
    SectionWithLine(d, h, k);
    if EndsSection(links[0]) {
      InsideStops(d, h, k, version, opening, links);
      StopsDiffer(d[h + 1..k], d[k], d[k + 1..SectionEnd(d, h)]);
    } else {
      InsideHolds(d, h, k, version, opening, links);
      HoldsDiffer(d[h + 1..k], d[k], links, d[k + 1..SectionEnd(d, h)]);
    }
  }

  lemma BelowFacts(d: seq<string>, h: nat, k: nat, c: Comparison, version: string, date: string, r: seq<string>)
    requires Rolls(d, h, k, c, version, date, r) && h < k
    ensures var opening, links := OpeningLines(version, date), NewLinks(c, version);
      && Replaces(d, h, k, version, opening, links) && r == d[..h] + opening + d[h + 1..k] + links + d[k + 1..]
      && (EndsSection(links[1]) ==> EndsSection(links[0])) && (EndsSection(d[k]) ==> EndsSection(links[0]))
      && AllClean([d[k]]) && d[k] != [] && AllClean(links) && links[0] != [] && links[1] != []
      && |Join(links)| > |d[k]| && |opening| == 5
  {
    hide Rolled, Delimiter, HasVersion, UnreleasedCompare, UnreleasedDefinition, NewLinks, OpeningLines,
         EndsSection, IsVersion,
         IsDate, Clean, FenceAfter, Fenced, TrimEnd, HeadingIndex, DefinitionIndex, NoSpaces, Join;
    RollReplaces(d, h, k, c, version, date, r);
    LinksPlain(d, k, c, version);
    NewLinksLonger(d[k], c, version);
    BracketFirst(d[k]);
    OpeningOpens(version, date);
  }

  lemma BracketFirst(line: string)
    requires UnreleasedDefinition(line)
    ensures line != []
  {
  }

  /** With the definition below the heading, the released section is what rendering showed exactly when the
      definition is not inside the section. */
  lemma ExtractedBelow(d: seq<string>, h: nat, k: nat, c: Comparison, version: string, date: string, r: seq<string>)
    requires Rolls(d, h, k, c, version, date, r) && h < k
    ensures VersionIndex(r, version) == h + 4 && h + 4 < |r|
    ensures SectionBody(r, h + 4) == SectionBody(d, h) <==> SectionEnd(d, h) <= k
  {
    hide NewLinks, OpeningLines, EndsSection, SectionEnd, SectionLines, SectionBody, Stripped, VersionIndex, Rolled,
         Replaces, AllClean, Join, UnreleasedCompare, UnreleasedDefinition, IsVersion, IsDate, TrimEnd, Fenced;
    BelowFacts(d, h, k, c, version, date, r);
    var opening, links := OpeningLines(version, date), NewLinks(c, version);
    if SectionEnd(d, h) <= k {
      PastSection(d, h, k, version, opening, links);
    } else {
      InsideDiffers(d, h, k, version, opening, links, r);
    }
    BodiesDiffer(r, h + 4, d, h);
  }

  lemma SectionWithLine(d: seq<string>, h: nat, k: nat)
    requires h < |d| && h < k < SectionEnd(d, h)
    ensures SectionLines(d, h) == d[h + 1..k] + [d[k]] + d[k + 1..SectionEnd(d, h)]
  {
    hide SectionEnd;
  }

  /** Extracting the version a roll released gives what rendering showed before it, if and only if the definition
      does not stand inside the section; a link definition never does. That is with the definition below the
      heading. With the definition above it the released section is empty; or, when the line before the heading ends a
      code block, there is none, unless a heading of the version stood below, in another block, say. */
  lemma ExtractInvertsRoll(source: string, version: string, date: string, fragments: seq<Fragment>,
                           allowEmpty: bool, rolled: string)
    requires RollText(source, version, date, fragments, allowEmpty) == Done(rolled)
    requires IsVersion(version) && IsDate(date) && AllLoaded(fragments) && !StartsWithBom(Document(source))
    ensures var d := Document(FoldText(source, fragments).value); var h, k := HeadingIndex(d), DefinitionIndex(d);
      && 0 <= h < |d| && 0 <= k < |d| && h != k
      && (h < k ==> (Extract(rolled, version) == Render(source, fragments) <==> SectionEnd(d, h) <= k))
      && (h < k && LinkDefinition(d[k]).Some? ==> SectionEnd(d, h) <= k)
      && (k < h && !Fenced(d, h - 1) ==> Extract(rolled, version) == Done(""))
      && (k < h && Fenced(d, h - 1) && Extract(rolled, version) != Failed(NoSuchVersion) ==>
            exists i :: h < i < |d| && HasVersion(version, d[i]))
  {
    hide Rolls, RollText, Render, Extract, SectionBody, VersionIndex, EndsSection, LinkDefinition, IsVersion,
         IsDate, Document,
         FoldText, HeadingIndex, DefinitionIndex, SectionEnd, Fenced;
    var d, h, k, c, r := RollsWhen(source, version, date, fragments, allowEmpty, rolled);
    RollsPlaces(d, h, k, c, version, date, r);
    RenderedIs(source, version, date, fragments, allowEmpty, rolled, h);
    if h < k {
      ExtractedBelow(d, h, k, c, version, date, r);
      ExtractReads(d, h, k, c, version, date, r);
    } else if !Fenced(d, h - 1) {
      AboveHeading(d, h, k, c, version, date, r);
      ExtractReads(d, h, k, c, version, date, r);
      EmptyBody(r, h + 4);
    } else {
      AboveBlock(d, h, k, c, version, date, r);
      if VersionIndex(r, version) == -1 { ExtractIsMissing(d, h, k, c, version, date, r); }
    }
  }

  lemma RenderedIs(source: string, version: string, date: string, fragments: seq<Fragment>, allowEmpty: bool,
                   rolled: string, h: nat)
    requires RollText(source, version, date, fragments, allowEmpty) == Done(rolled)
    requires var d := Document(FoldText(source, fragments).value); h == HeadingIndex(d) && h < |d|
    ensures Render(source, fragments) == Done(SectionBody(Document(FoldText(source, fragments).value), h))
  {
    hide FoldText, Document, HeadingIndex, SectionBody, VersionIndex, RollFolded;
  }

  lemma RollsPlaces(d: seq<string>, h: nat, k: nat, c: Comparison, version: string, date: string, r: seq<string>)
    requires Rolls(d, h, k, c, version, date, r)
    ensures 0 <= h < |d| && 0 <= k < |d| && h != k && h == HeadingIndex(d) && k == DefinitionIndex(d)
    ensures h < k && LinkDefinition(d[k]).Some? ==> SectionEnd(d, h) <= k
  {
    Around(d, h, k, c, version, date, r);
    hide LinkDefinition, UnreleasedDefinition, UnreleasedCompare, IsVersion, IsDate, Rolled;
    assert h < k && LinkDefinition(d[k]).Some? ==> EndsSection(d[k]);
  }

  lemma EmptyBody(lines: seq<string>, i: nat)
    requires i < |lines| && SectionLines(lines, i) == []
    ensures SectionBody(lines, i) == ""
  {
    NothingStripped();
  }
}
