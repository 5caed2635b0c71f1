/** Releasing keeps a changelog well formed. */
module ChangelogWellFormed {
  import opened Options
  import opened Sequences
  import opened ChangelogText
  import opened ChangelogSections
  import opened ChangelogCheck
  import opened ChangelogFold
  import opened ChangelogFoldTwice
  import opened ChangelogRelease
  import opened ChangelogExtract

  // ----- Problems are never taken back

  lemma SeeGrows(s: Findings, index: nat, line: string, first: int)
    ensures s.problems <= See(s, index, line, first).problems
    ensures s.unreleased.Some? ==> See(s, index, line, first).unreleased.Some?
  {
    hide VersionHeading, LinkDefinition, EntryLine, TypeName, UnreleasedCompare, Lowered, TypeHeading,
         SectionHeading, SeeSection,
         SeeType;
    SectionGrows(s, index, line, first);
    if TypeHeading(line) { TypeGrows(s, index, TypeName(line)); }
  }

  lemma SectionGrows(s: Findings, index: nat, line: string, first: int)
    ensures s.problems <= SeeSection(s, index, line, first).problems
    ensures s.unreleased.Some? ==> SeeSection(s, index, line, first).unreleased.Some?
  {
    hide VersionHeading;
  }

  lemma TypeGrows(s: Findings, index: nat, name: string)
    ensures s.problems <= SeeType(s, index, name).problems && s.unreleased == SeeType(s, index, name).unreleased
  {
  }

  lemma {:induction false} SeenGrows(lines: seq<string>, m: nat, n: nat)
    requires lines != [] && m <= n <= |lines|
    ensures Seen(lines, m).problems <= Seen(lines, n).problems
    ensures Seen(lines, m).unreleased.Some? ==> Seen(lines, n).unreleased.Some?
  {
    hide See, Fenced, First;
    if m < n {
      SeenGrows(lines, m, n - 1);
      SeeGrows(Seen(lines, n - 1), n - 1, lines[n - 1], FirstSection(lines));
    }
  }

  lemma {:induction false} OrderGrows(s: Findings, n: nat)
    requires AllVersions(s) && n <= |s.versions|
    ensures s.problems <= SeeOrder(s, n).problems
  {
    hide IsVersion, VersionKey;
    if n > 0 { OrderGrows(s, n - 1); }
  }

  // ----- What it takes to finish without problems

  ghost predicate InOrder(s: Findings) {
    AllVersions(s) && forall i :: 0 < i < |s.versions| ==>
      KeyLess(VersionKey(s.versions[i].version), VersionKey(s.versions[i - 1].version))
  }

  ghost predicate AllLinked(s: Findings) {
    forall i :: 0 <= i < |s.versions| ==> Lowered(s.versions[i].version) in s.labels
  }

  lemma {:induction false} OrderQuiet(s: Findings, n: nat)
    requires AllVersions(s) && n <= |s.versions|
    ensures SeeOrder(s, n).problems == [] <==>
      s.problems == [] && forall i :: 0 <= i < n ==>
        Lowered(s.versions[i].version) in s.labels
        && (i > 0 ==> KeyLess(VersionKey(s.versions[i].version), VersionKey(s.versions[i - 1].version)))
  {
    hide IsVersion, VersionKey, KeyLess;
    if n > 0 { OrderQuiet(s, n - 1); }
  }

  lemma FinishedQuiet(s: Findings)
    requires AllVersions(s)
    ensures Finished(s) == [] <==>
      && s.problems == [] && (s.open.Some? ==> s.open.value.entries > 0) && InOrder(s) && AllLinked(s)
      && s.unreleased.Some? && UNRELEASED_LABEL in s.labels
  {
    hide IsVersion, VersionKey, KeyLess;
    var t := CloseType(s);
    OrderQuiet(t, |t.versions|);
  }

  // ----- Seeing a block of lines on its own

  /** The findings after the first `n` lines of a block that starts outside code, at line `base`. */
  function Over(s: Findings, block: seq<string>, n: nat, base: nat, first: int): Findings
    requires n <= |block|
  {
    if n == 0 then s
    else if Fenced(block, n - 1) then Over(s, block, n - 1, base, first)
    else See(Over(s, block, n - 1, base, first), base + n - 1, block[n - 1], first)
  }

  lemma {:induction false} SeenOver(a: seq<string>, b: seq<string>, n: nat)
    requires a + b != [] && FenceAfter(Closed, a) == Closed && n <= |b|
    ensures Seen(a + b, |a| + n) == Over(Seen(a + b, |a|), b, n, |a|, FirstSection(a + b))
  {
    hide See, Fenced, First;
    if n > 0 {
      SeenOver(a, b, n - 1);
      FencedSuffix(a, b, n - 1);
      assert (a + b)[|a| + n - 1] == b[n - 1];
    }
  }

  lemma {:induction false} OverConcat(s: Findings, a: seq<string>, b: seq<string>, n: nat, base: nat, first: int)
    requires FenceAfter(Closed, a) == Closed && n <= |b|
    ensures Over(s, a + b, |a| + n, base, first) == Over(Over(s, a, |a|, base, first), b, n, base + |a|, first)
  {
    hide See, Fenced;
    if n > 0 {
      OverConcat(s, a, b, n - 1, base, first);
      FencedSuffix(a, b, n - 1);
      assert (a + b)[|a| + n - 1] == b[n - 1];
    } else {
      OverPrefix(s, a, b, |a|, base, first);
    }
  }

  lemma {:induction false} OverPrefix(s: Findings, a: seq<string>, b: seq<string>, n: nat, base: nat, first: int)
    requires n <= |a|
    ensures Over(s, a + b, n, base, first) == Over(s, a, n, base, first)
  {
    hide See, Fenced;
    if n > 0 {
      OverPrefix(s, a, b, n - 1, base, first);
      FencedPrefix(a, b, n - 1);
    }
  }

  lemma {:induction false} OverGrows(s: Findings, block: seq<string>, n: nat, base: nat, first: int)
    requires n <= |block|
    ensures s.problems <= Over(s, block, n, base, first).problems
  {
    hide See, Fenced;
    if n > 0 {
      OverGrows(s, block, n - 1, base, first);
      SeeGrows(Over(s, block, n - 1, base, first), base + n - 1, block[n - 1], first);
    }
  }

  // ----- The same lines, seen in both documents

  function Names(versions: seq<ListedVersion>): seq<string> {
    seq(|versions|, i requires 0 <= i < |versions| => versions[i].version)
  }

  /** Neither walk has found a problem; the second lists `version` before the others, and has a link for it if
      `gained`. */
  ghost predicate Alike(s: Findings, t: Findings, version: string, gained: bool) {
    && s.problems == [] && t.problems == [] && s.unreleased.Some? && t.unreleased.Some?
    && t.section.Some? == s.section.Some? && t.types == s.types
    && t.open.Some? == s.open.Some? && (s.open.Some? ==> t.open.value.entries == s.open.value.entries)
    && Names(t.versions) == [version] + Names(s.versions) && SameLinks(s.labels, t.labels, version, gained)
  }

  ghost predicate SameLinks(a: set<string>, b: set<string>, version: string, gained: bool) {
    && (UNRELEASED_LABEL in a ==> UNRELEASED_LABEL in b)
    && forall x :: IsVersion(x) ==> (x in b <==> x in a || (gained && x == version))
  }

  lemma NamesMore(versions: seq<ListedVersion>, v: ListedVersion)
    ensures Names(versions + [v]) == Names(versions) + [v.version]
  {
  }

  /** A line that reports nothing in the one reports nothing in the other, and leaves them alike. */
  lemma SeeAlike(s: Findings, t: Findings, version: string, gained: bool, i: nat, j: nat, line: string, f: int)
    requires Alike(s, t, version, gained) && See(s, i, line, f).problems == []
    ensures Alike(See(s, i, line, f), See(t, j, line, f), version, gained)
  {
    hide VersionHeading, LinkDefinition, EntryLine, TypeName, UnreleasedCompare, Lowered, Names;
    if SectionHeading(line) && VersionHeading(line).Some? {
      NamesMore(s.versions, ListedVersion(VersionHeading(line).value.version, i));
      NamesMore(t.versions, ListedVersion(VersionHeading(line).value.version, j));
    }
  }

  lemma {:induction false} OverAlike(s: Findings, t: Findings, version: string, gained: bool, block: seq<string>,
                                     n: nat,
                                     i: nat, j: nat, f: int)
    requires Alike(s, t, version, gained) && n <= |block| && Over(s, block, n, i, f).problems == []
    ensures Alike(Over(s, block, n, i, f), Over(t, block, n, j, f), version, gained)
  {
    hide See, Fenced, Alike;
    if n > 0 {
      OverGrows(s, block, n, i, f);
      if Fenced(block, n - 1) {
        OverAlike(s, t, version, gained, block, n - 1, i, j, f);
      } else {
        SeeGrows(Over(s, block, n - 1, i, f), i + n - 1, block[n - 1], f);
        OverAlike(s, t, version, gained, block, n - 1, i, j, f);
        SeeAlike(Over(s, block, n - 1, i, f), Over(t, block, n - 1, j, f), version, gained, i + n - 1, j + n - 1,
                 block[n - 1], f);
      }
    }
  }

  // ----- The heading, and the lines a roll opens a section with

  lemma {:induction false} NoVersionsYet(lines: seq<string>, n: nat)
    requires lines != [] && n <= |lines|
    requires forall i :: 0 <= i < n ==> Fenced(lines, i) || !SectionHeading(lines[i])
    ensures Seen(lines, n).versions == []
  {
    hide Fenced, First;
    if n > 0 {
      NoVersionsYet(lines, n - 1);
      if !Fenced(lines, n - 1) { SeeNoSection(Seen(lines, n - 1), n - 1, lines[n - 1], FirstSection(lines)); }
    }
  }

  lemma SeeNoSection(s: Findings, index: nat, line: string, first: int)
    requires !SectionHeading(line)
    ensures See(s, index, line, first).versions == s.versions
    ensures See(s, index, line, first).unreleased == s.unreleased
  {
    hide VersionHeading, LinkDefinition, EntryLine, TypeName, UnreleasedCompare, Lowered, TypeHeading;
  }

  lemma SeeHeading(s: Findings, index: nat, first: int)
    ensures See(s, index, UNRELEASED_HEADING, first) == SeeUnreleased(CloseType(s).(types := {}), index, first)
  {
    assert UNRELEASED_HEADING[0] == '#';
  }

  /** In a well-formed changelog the Unreleased section is the first. */
  lemma UnreleasedIsFirst(d: seq<string>, h: nat)
    requires d != [] && CheckLines(d) == [] && HeadingIndex(d) == h
    ensures h < |d| && FirstSection(d) == h && Seen(d, h).versions == [] && Seen(d, |d|).problems == []
    ensures Seen(d, h + 1) == See(Seen(d, h), h, UNRELEASED_HEADING, h)
    ensures See(Seen(d, h), h, UNRELEASED_HEADING, h).problems == [] && Seen(d, h).unreleased.None?
  {
    hide See, First;
    SeenVersions(d, |d|);
    FinishedQuiet(Seen(d, |d|));
    SeenGrows(d, h + 1, |d|);
    assert d[h] == UNRELEASED_HEADING && !Fenced(d, h);
    SeeHeading(Seen(d, h), h, FirstSection(d));
    NoVersionsYet(d, h);
  }

  lemma PlainUnseen(s: Findings, index: nat, line: string, first: int)
    requires line == "" || line == UNRELEASED_COMMENT
    ensures See(s, index, line, first) == s
  {
    if line != "" {
      assert line[0] == '<' && SkipSpaces(line) == line;
    }
  }

  lemma SeeNewHeading(s: Findings, index: nat, line: string, version: string, first: int)
    requires VersionHeading(line) == Some(Version(version, true)) && s.open.None?
    ensures See(s, index, line, first)
         == s.(types := {}, versions := s.versions + [ListedVersion(version, index)], section := Some(version))
  {
    UnreleasedPlain();
    assert line[..3] == "## " && line[0] == '#';
  }

  /** One more line of a block outside code. */
  lemma OverNext(s: Findings, block: seq<string>, n: nat, base: nat, first: int)
    requires n < |block| && !Fenced(block, n)
    ensures Over(s, block, n + 1, base, first) == See(Over(s, block, n, base, first), base + n, block[n], first)
  {
  }

  lemma OpeningUnseen(s: Findings, o: seq<string>, h: nat)
    requires |o| == 5 && (forall i :: 0 <= i < 5 ==> !Fenced(o, i))
    requires o[0] == UNRELEASED_HEADING && o[1] == o[3] == "" && o[2] == UNRELEASED_COMMENT
    ensures Over(s, o, 4, h, h) == See(s, h, UNRELEASED_HEADING, h)
  {
    hide See, Fenced;
    OverNext(s, o, 0, h, h);
    var s1 := See(s, h, UNRELEASED_HEADING, h);
    OverNext(s, o, 1, h, h);
    PlainUnseen(s1, h + 1, "", h);
    OverNext(s, o, 2, h, h);
    PlainUnseen(s1, h + 2, UNRELEASED_COMMENT, h);
    OverNext(s, o, 3, h, h);
    PlainUnseen(s1, h + 3, "", h);
  }

  lemma OpeningIs(version: string, date: string)
    ensures var o := OpeningLines(version, date);
      && |o| == 5 && o[0] == UNRELEASED_HEADING && o[1] == o[3] == ""
      && o[2] == UNRELEASED_COMMENT && o[4] == NewHeading(version, date)
  {
  }

  /** The opening lines: the heading as before, then a version that is listed first. */
  lemma OpeningAlike(s: Findings, h: nat, version: string, date: string)
    requires IsVersion(version) && IsDate(date) && s.versions == [] && s.unreleased.None?
    requires See(s, h, UNRELEASED_HEADING, h).problems == []
    ensures Alike(See(s, h, UNRELEASED_HEADING, h), Over(s, OpeningLines(version, date), 5, h, h), version, false)
  {
    hide IsVersion, IsDate, OpeningLines, VersionHeading, Delimiter, NewHeading, HasVersion, See, Fenced, Over, Alike;
    var o := OpeningLines(version, date);
    OpeningOpens(version, date);
    NewHeadingReads(version, date);
    OpeningIs(version, date);
    StaysClosed(o);
    OpeningUnseen(s, o, h);
    OverNext(s, o, 4, h, h);
    HeadingAlike(s, h, o[4], version);
  }

  /** After the heading, the new version's heading. */
  lemma HeadingAlike(s: Findings, h: nat, heading: string, version: string)
    requires s.versions == [] && s.unreleased.None? && VersionHeading(heading) == Some(Version(version, true))
    requires See(s, h, UNRELEASED_HEADING, h).problems == []
    ensures Alike(See(s, h, UNRELEASED_HEADING, h), See(See(s, h, UNRELEASED_HEADING, h), h + 4, heading, h), version, false)
  {
    hide VersionHeading, See;
    SeeHeading(s, h, h);
    SeeNewHeading(See(s, h, UNRELEASED_HEADING, h), h + 4, heading, version, h);
    assert Names([ListedVersion(version, h + 4)]) == [version] + Names([]);
  }

  // ----- The definitions

  /** A line that starts with a bracket is a link definition or nothing. */
  lemma SeeBracket(s: Findings, index: nat, line: string, first: int)
    requires line != [] && line[0] == '['
    ensures See(s, index, line, first)
         == match LinkDefinition(line) case Some(link) => SeeLink(s, index, link) case None => s
  {
    assert SkipSpaces(line) == line;
  }

  lemma LoweredVersion(version: string)
    requires IsVersion(version)
    ensures Lowered(version) == version && version != UNRELEASED_LABEL && version != "Unreleased"
    ensures Lowered("Unreleased") == UNRELEASED_LABEL
  {
    VersionChars(version);
    assert forall i :: 0 <= i < |version| ==> version[i] in version;
    assert Lowered("Unreleased") == UNRELEASED_LABEL;
  }

  lemma DefinitionLink(line: string, c: Comparison)
    requires UnreleasedDefinition(line) && UnreleasedCompare(DefinedUrl(line)) == Some(c)
    ensures LinkDefinition(line).Some? <==> NoSpaces(c.base) && NoSpaces(c.previous)
    ensures LinkDefinition(line).Some? ==>
      UnreleasedCompare(LinkDefinition(line).value.url).Some? && !IsVersion(Lowered(LinkDefinition(line).value.name))
  {
    hide UnreleasedCompare, IsVersion;
    DefinitionEnds(line, c);
    DefinitionParts(line);
    if LinkDefinition(line).Some? {
      var name := LinkDefinition(line).value.name;
      assert MatchesLetter(line[0 + 1], UNRELEASED_LABEL[0]);
      assert name == line[1..11] && Lowered(name)[0] == Lower(line[1]) == 'u';
      NotAVersion(Lowered(name));
    }
  }

  /** The labels a line that starts with a bracket gives. */
  function LabelOf(line: string): set<string> {
    match LinkDefinition(line)
    case Some(link) => {Lowered(link.name)}
    case None => {}
  }

  predicate GoodLink(line: string) {
    LinkDefinition(line).Some? && Lowered(LinkDefinition(line).value.name) == UNRELEASED_LABEL ==>
      UnreleasedCompare(LinkDefinition(line).value.url).Some?
  }

  lemma SeeLinkQuiet(s: Findings, index: nat, line: string, first: int)
    requires line != [] && line[0] == '[' && GoodLink(line)
    ensures See(s, index, line, first) == s.(labels := s.labels + LabelOf(line))
  {
    SeeBracket(s, index, line, first);
    hide LinkDefinition, UnreleasedCompare, Lowered, See;
    assert s.labels + {} == s.labels;
  }

  lemma BracketStarts(line: string, c: Comparison, version: string)
    requires UnreleasedDefinition(line)
    ensures line[0] == '[' && NewUnreleased(c.base, version) != [] && NewDefinition(c.base, c.previous, version) != []
    ensures NewUnreleased(c.base, version)[0] == '[' && NewDefinition(c.base, c.previous, version)[0] == '['
  {
  }

  /** What the three definitions give: the old one its label, the new ones theirs. */
  lemma LinkLabels(version: string, line: string, c: Comparison)
    requires IsVersion(version) && UnreleasedDefinition(line) && UnreleasedCompare(DefinedUrl(line)) == Some(c)
    ensures var l0, l1 := NewUnreleased(c.base, version), NewDefinition(c.base, c.previous, version);
      && l0 != [] && l0[0] == '[' && l1 != [] && l1[0] == '[' && line[0] == '['
      && GoodLink(line) && GoodLink(l0) && GoodLink(l1)
      && LabelOf(l0) == (if NoSpaces(c.base) then {UNRELEASED_LABEL} else {})
      && LabelOf(l1) == (if LinkDefinition(line).Some? then {version} else {})
      && (LinkDefinition(line).Some? ==> NoSpaces(c.base))
      && (forall x :: x in LabelOf(line) ==> !IsVersion(x)) && (LinkDefinition(line).None? ==> LabelOf(line) == {})
  {
    DefinitionLink(line, c);
    BracketStarts(line, c, version);
    NewUnreleasedReads(c.base, version);
    NewDefinitionReads(c.base, c.previous, version);
    LoweredVersion(version);
    hide LinkDefinition, UnreleasedCompare, UnreleasedDefinition, NewUnreleased, NewDefinition, Lowered, NoSpaces,
         IsVersion;
  }

  lemma MoreLabels(s: Findings, t: Findings, version: string, gained: bool, a: set<string>, b: set<string>)
    requires Alike(s, t, version, false) && SameLinks(s.labels + a, t.labels + b, version, gained)
    ensures Alike(s.(labels := s.labels + a), t.(labels := t.labels + b), version, gained)
  {
    hide SameLinks, Names;
  }

  lemma GainsLink(a: set<string>, b: set<string>, version: string, before: set<string>, after: set<string>,
                  gained: bool)
    requires SameLinks(a, b, version, false) && IsVersion(version)
    requires gained || before == {}
    requires forall x :: x in before ==> !IsVersion(x)
    requires after == (if gained then {UNRELEASED_LABEL, version} else {UNRELEASED_LABEL}) || (!gained && after == {})
    ensures SameLinks(a + before, b + after, version, gained)
  {
    NotAVersion(UNRELEASED_LABEL);
    hide IsVersion;
  }

  /** The definition in the one document and the two in its place in the other. */
  lemma LinksAlike(s: Findings, t: Findings, version: string, line: string, c: Comparison, i: nat, j: nat, f: int)
    requires Alike(s, t, version, false) && IsVersion(version) && UnreleasedDefinition(line)
    requires UnreleasedCompare(DefinedUrl(line)) == Some(c)
    ensures var u := See(See(t, j, NewUnreleased(c.base, version), f), j + 1, NewDefinition(c.base, c.previous,
                         version), f);
      Alike(See(s, i, line, f), u, version, LinkDefinition(line).Some?)
  {
    var l0, l1 := NewUnreleased(c.base, version), NewDefinition(c.base, c.previous, version);
    LinkLabels(version, line, c);
    hide See, LinkDefinition, UnreleasedCompare, UnreleasedDefinition, NewUnreleased, NewDefinition, NoSpaces,
         Names, LabelOf,
         IsVersion, GoodLink, SameLinks;
    SeeLinkQuiet(s, i, line, f);
    SeeLinkQuiet(t, j, l0, f);
    SeeLinkQuiet(See(t, j, l0, f), j + 1, l1, f);
    var more := LabelOf(l0) + LabelOf(l1);
    assert t.labels + LabelOf(l0) + LabelOf(l1) == t.labels + more;
    AlikeLinks(s, t, version, false);
    GainsLink(s.labels, t.labels, version, LabelOf(line), more, LinkDefinition(line).Some?);
    MoreLabels(s, t, version, LinkDefinition(line).Some?, LabelOf(line), more);
  }

  lemma AlikeLinks(s: Findings, t: Findings, version: string, gained: bool)
    requires Alike(s, t, version, gained)
    ensures SameLinks(s.labels, t.labels, version, gained)
  {
  }

  // ----- The two walks

  /** Three stretches seen one after the other. */
  function After(s: Findings, block: seq<string>, links: seq<string>, z: seq<string>, base: nat, f: int): Findings {
    Over(Over(Over(s, block, |block|, base, f), links, |links|, base + |block|, f), z, |z|, base + |block| + |links|, f)
  }

  lemma AfterIs(s: Findings, block: seq<string>, links: seq<string>, z: seq<string>, base: nat, f: int)
    requires FenceAfter(Closed, block) == FenceAfter(Closed, links) == Closed
    ensures Over(s, block + (links + z), |block + (links + z)|, base, f) == After(s, block, links, z, base, f)
  {
    hide Over, FenceAfter;
    OverConcat(s, block, links + z, |links + z|, base, f);
    OverConcat(Over(s, block, |block|, base, f), links, z, |z|, base + |block|, f);
  }

  lemma WalkStretches(head: seq<string>, mid: seq<string>, block: seq<string>, links: seq<string>, z: seq<string>)
    requires mid != [] && FenceAfter(Closed, head) == FenceAfter(Closed, mid) == FenceAfter(Closed, block) == Closed
    requires FenceAfter(Closed, links) == Closed
    ensures var lines := head + mid + block + links + z; var f, h := FirstSection(lines), |head|;
      lines != [] && Seen(lines, |lines|) == After(Over(Seen(lines, h), mid, |mid|, h, f), block, links, z, h + |mid|, f)
  {
    hide *;
    var rest := block + (links + z);
    ThreeLast(head, mid, block, links, z);
    var lines := head + (mid + rest);
    var f := FirstSection(lines);
    SeenOver(head, mid + rest, |mid + rest|);
    OverConcat(Seen(lines, |head|), mid, rest, |rest|, |head|, f);
    AfterIs(Over(Seen(lines, |head|), mid, |mid|, |head|, f), block, links, z, |head| + |mid|, f);
  }

  lemma ThreeLast<T>(head: seq<T>, mid: seq<T>, block: seq<T>, links: seq<T>, z: seq<T>)
    ensures head + mid + block + links + z == head + (mid + (block + (links + z)))
  {
    Assoc(head + mid + block, links, z);
    Assoc(head + mid, block, links + z);
    Assoc(head, mid, block + (links + z));
  }

  lemma {:induction false} SeenPrefix(d: seq<string>, r: seq<string>, n: nat)
    requires d != [] && r != [] && n <= |d| && n <= |r| && d[..n] == r[..n]
    requires Opened(d) == Opened(r) && FirstSection(d) == FirstSection(r)
    ensures Seen(d, n) == Seen(r, n)
  {
    hide See, Opened, FirstSection;
    if n > 0 {
      assert d[..n - 1] == d[..n][..n - 1] && r[..n - 1] == r[..n][..n - 1];
      assert d[n - 1] == d[..n][n - 1] && r[n - 1] == r[..n][n - 1];
      SeenPrefix(d, r, n - 1);
    }
  }

  /** Lines that agree before the first section open alike. */
  lemma SameOpening(d: seq<string>, r: seq<string>, h: nat)
    requires 0 < h < |d| && h < |r| && d[..h] == r[..h] && FirstSection(d) == h
    requires !Fenced(r, h) && SectionHeading(r[h])
    ensures FirstSection(r) == h && Opened(d) == Opened(r) && Seen(d, h) == Seen(r, h)
  {
    hide Mentions, SectionHeading;
    forall i | 0 <= i < h ensures Fenced(r, i) || !SectionHeading(r[i]) {
      assert d[i] == d[..h][i] && r[i] == r[..h][i];
      assert d[..i] == d[..h][..i] && r[..i] == r[..h][..i];
      assert Fenced(d, i) || !SectionHeading(d[i]);
    }
    FirstIs(r, SectionHeading, 0, |r|, h);
    assert d[0] == d[..h][0] && r[0] == r[..h][0];
    assert Preamble(d) == Preamble(r);
    SeenPrefix(d, r, h);
  }

  lemma LinksOver(s: Findings, t: Findings, version: string, line: string, c: Comparison, i: nat, j: nat, f: int)
    requires Alike(s, t, version, false) && IsVersion(version) && UnreleasedDefinition(line) && Delimiter(line) == Closed
    requires UnreleasedCompare(DefinedUrl(line)) == Some(c) && Clean(line)
    ensures |NewLinks(c, version)| == 2
    ensures Alike(Over(s, [line], 1, i, f), Over(t, NewLinks(c, version), 2, j, f), version, LinkDefinition(line).Some?)
  {
    var links := NewLinks(c, version);
    ComparisonClean(line, c);
    NewLinksPlain(c.base, c.previous, version);
    StaysClosed(links);
    StaysClosed([line]);
    assert links[0] == NewUnreleased(c.base, version) && links[1] == NewDefinition(c.base, c.previous, version);
    hide See, Fenced, Alike, LinkDefinition, UnreleasedCompare, UnreleasedDefinition, NewLinks, NewUnreleased,
         NewDefinition,
         IsVersion, Delimiter, Clean;
    OverNext(s, [line], 0, i, f);
    OverNext(t, links, 0, j, f);
    OverNext(t, links, 1, j, f);
    LinksAlike(s, t, version, line, c, i, j, f);
  }

  lemma TwoStretches(s: Findings, t: Findings, block: seq<string>, line: string, z: seq<string>, version: string,
                     c: Comparison, i: nat, j: nat, f: int)
    requires Alike(s, t, version, false) && IsVersion(version) && UnreleasedDefinition(line) && Delimiter(line) == Closed
    requires UnreleasedCompare(DefinedUrl(line)) == Some(c) && Clean(line) && |NewLinks(c, version)| == 2
    requires After(s, block, [line], z, i, f).problems == []
    ensures Alike(After(s, block, [line], z, i, f), After(t, block, NewLinks(c, version), z, j, f), version, LinkDefinition(line).Some?)
  {
    hide Over, Alike, LinkDefinition, UnreleasedCompare, UnreleasedDefinition, NewLinks, IsVersion, Delimiter, Clean;
    var s1, t1 := Over(s, block, |block|, i, f), Over(t, block, |block|, j, f);
    var s2 := Over(s1, [line], 1, i + |block|, f);
    OverGrows(s2, z, |z|, i + |block| + 1, f);
    OverGrows(s1, [line], 1, i + |block|, f);
    OverAlike(s, t, version, false, block, |block|, i, j, f);
    LinksOver(s1, t1, version, line, c, i + |block|, j + |block|, f);
    OverAlike(s2, Over(t1, NewLinks(c, version), 2, j + |block|, f), version, LinkDefinition(line).Some?, z, |z|,
              i + |block| + 1, j + |block| + 2, f);
  }

  lemma TitleFirst(d: seq<string>)
    requires d != [] && CheckLines(d) == []
    ensures d[0] == TITLE && !StartsWithBom(d) && d[0] != UNRELEASED_HEADING
  {
    hide See;
    SeenVersions(d, |d|);
    FinishedQuiet(Seen(d, |d|));
    SeenGrows(d, 0, |d|);
    assert d[0][1] == ' ';
  }

  lemma HeadingStands(head: seq<string>, opening: seq<string>, block: seq<string>, links: seq<string>, z: seq<string>)
    requires FenceAfter(Closed, head) == Closed && opening != [] && Delimiter(opening[0]) == Closed
    ensures var r := head + opening + block + links + z;
      |head| < |r| && r[..|head|] == head && r[|head|] == opening[0] && !Fenced(r, |head|)
  {
    hide FenceAfter, Delimiter;
    var rest := block + links + z;
    Regroup(head + opening, block, links, z);
    Assoc(head, opening, rest);
    FencedSuffix(head, opening + rest, 0);
    StaysClosed([opening[0]]);
    assert opening + rest == [opening[0]] + (opening[1..] + rest);
    FencedPrefix([opening[0]], opening[1..] + rest, 0);
  }

  /** The stretches of the folded lines leave no block open. */
  lemma FoldedStretches(d: seq<string>, h: nat, k: nat)
    requires h < k < |d| && !Fenced(d, h) && !Fenced(d, k)
    ensures FenceAfter(Closed, d[..h]) == Closed && FenceAfter(Closed, d[h + 1..k]) == Closed
    ensures FenceAfter(Closed, [d[h]]) == Closed && FenceAfter(Closed, [d[k]]) == Closed && !Fenced([d[h]], 0)
    ensures d == d[..h] + [d[h]] + d[h + 1..k] + [d[k]] + d[k + 1..]
  {
    hide Delimiter;
    UnfencedClosed(d, h);
    UnfencedClosed(d, k);
    assert d[..k] == d[..h + 1] + d[h + 1..k];
    FenceAfterConcat(Closed, d[..h + 1], d[h + 1..k]);
    StaysClosed([d[h]]);
    StaysClosed([d[k]]);
  }

  lemma FoldedWalk(d: seq<string>, h: nat, k: nat)
    requires h < k < |d| && !Fenced(d, h) && !Fenced(d, k) && FirstSection(d) == h
    ensures Seen(d, |d|) == After(See(Seen(d, h), h, d[h], h), d[h + 1..k], [d[k]], d[k + 1..], h + 1, h)
  {
    hide Seen, See, Over, FirstSection, FenceAfter, Fenced;
    FoldedStretches(d, h, k);
    WalkStretches(d[..h], [d[h]], d[h + 1..k], [d[k]], d[k + 1..]);
    OverOne(Seen(d, h), d[h], h, h);
  }

  lemma OverOne(s: Findings, line: string, base: nat, first: int)
    requires !Fenced([line], 0)
    ensures Over(s, [line], 1, base, first) == See(s, base, line, first)
  {
    hide See, Fenced;
    OverNext(s, [line], 0, base, first);
  }

  lemma HeadingHeads()
    ensures SectionHeading(UNRELEASED_HEADING)
  {
  }

  /** The rolled lines up to the heading are seen as the folded ones are. */
  lemma RolledOpens(d: seq<string>, head: seq<string>, opening: seq<string>, block: seq<string>, links: seq<string>,
                    z: seq<string>)
    requires 0 < |head| < |d| && d[..|head|] == head && FirstSection(d) == |head| && FenceAfter(Closed, head) == Closed
    requires opening != [] && opening[0] == UNRELEASED_HEADING && Delimiter(opening[0]) == Closed
    ensures var r := head + opening + block + links + z;
      r != [] && |head| < |r| && FirstSection(r) == |head| && Seen(r, |head|) == Seen(d, |head|)
  {
    hide *;
    HeadingStands(head, opening, block, links, z);
    HeadingHeads();
    SameOpening(d, head + opening + block + links + z, |head|);
  }

  lemma RolledWalk(d: seq<string>, head: seq<string>, opening: seq<string>, block: seq<string>, links: seq<string>,
                   z: seq<string>)
    requires 0 < |head| < |d| && d[..|head|] == head && FirstSection(d) == |head| && FenceAfter(Closed, head) == Closed
    requires opening != [] && opening[0] == UNRELEASED_HEADING && Delimiter(opening[0]) == Closed
    requires FenceAfter(Closed, opening) == FenceAfter(Closed, block) == FenceAfter(Closed, links) == Closed
    ensures var r := head + opening + block + links + z; var h := |head|;
      r != [] && Seen(r, |r|) == After(Over(Seen(d, h), opening, |opening|, h, h), block, links, z, h + |opening|, h)
  {
    hide *;
    RolledOpens(d, head, opening, block, links, z);
    WalkStretches(head, opening, block, links, z);
  }

  /** What the rolled lines are made of. */
  lemma RolledMade(d: seq<string>, h: nat, k: nat, c: Comparison, version: string, date: string, r: seq<string>)
    requires Rolls(d, h, k, c, version, date, r) && h < k
    ensures d[h] == UNRELEASED_HEADING && !Fenced(d, h) && !Fenced(d, k) && Clean(d[k]) && Delimiter(d[k]) == Closed
    ensures var o, links := OpeningLines(version, date), NewLinks(c, version);
      && |o| == 5 && FenceAfter(Closed, o) == Closed && Delimiter(o[0]) == Closed && o[0] == UNRELEASED_HEADING
      && |links| == 2 && FenceAfter(Closed, links) == Closed
      && r == d[..h] + o + d[h + 1..k] + links + d[k + 1..]
  {
    hide See, Over, IsVersion, IsDate, UnreleasedCompare, UnreleasedDefinition, Delimiter, HasVersion, OpeningLines,
         NewLinks, Clean,
         FenceAfter, TrimEnd, HeadingIndex, DefinitionIndex, Rolled;
    Around(d, h, k, c, version, date, r);
    RollReplaces(d, h, k, c, version, date, r);
    OpeningIs(version, date);
    StaysClosed(OpeningLines(version, date));
    StaysClosed(NewLinks(c, version));
    DelimitersClosed(d, k);
  }

  lemma DelimitersClosed(d: seq<string>, k: nat)
    requires k < |d| && !Fenced(d, k)
    ensures Delimiter(d[k]) == Closed
  {
  }

  /** What the two walks start from. */
  lemma WalkFacts(d: seq<string>, h: nat, k: nat, c: Comparison, version: string, date: string, r: seq<string>)
    requires Rolls(d, h, k, c, version, date, r) && h < k && CheckLines(d) == []
    ensures 0 < h && FirstSection(d) == h && Seen(d, |d|).problems == []
    ensures Alike(See(Seen(d, h), h, UNRELEASED_HEADING, h), Over(Seen(d, h), OpeningLines(version, date), 5, h, h), version, false)
  {
    hide See, Over, IsVersion, IsDate, UnreleasedCompare, UnreleasedDefinition, Delimiter, Seen, Alike, CheckLines,
         HasVersion,
         OpeningLines, NewLinks, Rolled, First, TrimEnd, Fenced;
    TitleFirst(d);
    UnreleasedIsFirst(d, h);
    OpeningAlike(Seen(d, h), h, version, date);
  }

  /** The walk through the rolled lines finds what the walk through the folded lines does, and the new version. */
  lemma TwoWalks(d: seq<string>, h: nat, k: nat, c: Comparison, version: string, date: string, r: seq<string>)
    requires Rolls(d, h, k, c, version, date, r) && h < k && CheckLines(d) == []
    ensures r != [] && Alike(Seen(d, |d|), Seen(r, |r|), version, LinkDefinition(d[k]).Some?)
  {
    assert IsVersion(version) && UnreleasedDefinition(d[k]) && UnreleasedCompare(DefinedUrl(d[k])) == Some(c) && k < |d|;
    hide *;
    WalkFacts(d, h, k, c, version, date, r);
    RolledMade(d, h, k, c, version, date, r);
    var o, links, head, block, z := OpeningLines(version, date), NewLinks(c, version), d[..h], d[h + 1..k], d[k + 1..];
    FoldedStretches(d, h, k);
    FoldedWalk(d, h, k);
    RolledWalk(d, head, o, block, links, z);
    TwoStretches(See(Seen(d, h), h, d[h], h), Over(Seen(d, h), o, 5, h, h), block, d[k], z, version, c, h + 1,
                 h + 5, h);
  }

  // ----- What the two walks end in

  predicate NewerThan(versions: seq<ListedVersion>, version: string)
    requires IsVersion(version) && forall i :: 0 <= i < |versions| ==> IsVersion(versions[i].version)
  {
    versions == [] || KeyLess(VersionKey(versions[0].version), VersionKey(version))
  }

  lemma OrderAlike(s: Findings, t: Findings, version: string)
    requires AllVersions(s) && AllVersions(t) && IsVersion(version) && InOrder(s)
    requires Names(t.versions) == [version] + Names(s.versions)
    ensures InOrder(t) <==> NewerThan(s.versions, version)
  {
    hide IsVersion, VersionKey, KeyLess;
    assert |t.versions| == |Names(t.versions)| == 1 + |s.versions|;
    forall i | 0 <= i < |t.versions|
      ensures t.versions[i].version == if i == 0 then version else s.versions[i - 1].version
    {
      assert Names(t.versions)[i] == t.versions[i].version;
    }
    if NewerThan(s.versions, version) {
      forall i | 0 < i < |t.versions|
        ensures KeyLess(VersionKey(t.versions[i].version), VersionKey(t.versions[i - 1].version))
      {
        if i > 1 { assert 0 < i - 1 < |s.versions|; }
      }
    } else {
      assert !KeyLess(VersionKey(t.versions[1].version), VersionKey(t.versions[0].version));
    }
  }

  lemma LinkedAlike(s: Findings, t: Findings, version: string, gained: bool)
    requires AllVersions(s) && AllVersions(t) && IsVersion(version) && AllLinked(s)
    requires Names(t.versions) == [version] + Names(s.versions) && SameLinks(s.labels, t.labels, version, gained)
    ensures AllLinked(t) <==> gained || version in s.labels
  {
    hide IsVersion, Lowered;
    assert |t.versions| == |Names(t.versions)| == 1 + |s.versions|;
    LoweredVersion(version);
    assert t.versions[0].version == version by { assert Names(t.versions)[0] == t.versions[0].version; }
    forall i | 0 < i < |t.versions| ensures Lowered(t.versions[i].version) in t.labels {
      assert Names(t.versions)[i] == t.versions[i].version;
      assert t.versions[i].version == s.versions[i - 1].version;
      LoweredVersion(s.versions[i - 1].version);
      assert Lowered(s.versions[i - 1].version) in s.labels;
    }
    assert Lowered(t.versions[0].version) in t.labels <==> gained || version in s.labels;
  }

  lemma FinishAlike(s: Findings, t: Findings, version: string, gained: bool)
    requires Alike(s, t, version, gained) && AllVersions(s) && AllVersions(t) && IsVersion(version) && Finished(s) == []
    ensures Finished(t) == [] <==> NewerThan(s.versions, version) && (gained || version in s.labels)
  {
    hide IsVersion, Finished, NewerThan, InOrder, AllLinked, Names;
    FinishedQuiet(s);
    FinishedQuiet(t);
    OrderAlike(s, t, version);
    LinkedAlike(s, t, version, gained);
  }

  predicate IsVersionHeading(line: string) {
    VersionHeading(line).Some?
  }

  /** Newer than the first version the changelog lists, if it lists any. */
  predicate NewerThanListed(lines: seq<string>, version: string)
    requires IsVersion(version)
  {
    var i := First(lines, IsVersionHeading, 0, |lines|);
    i == -1 || KeyLess(VersionKey(VersionHeading(lines[i]).value.version), VersionKey(version))
  }

  /** Some link definition outside code has the label. */
  ghost predicate HasLink(lines: seq<string>, name: string, n: nat)
    requires n <= |lines|
  {
    exists i :: 0 <= i < n && !Fenced(lines, i) && name in LabelOf(lines[i])
  }

  lemma SeeVersionsAndLabels(s: Findings, index: nat, line: string, first: int)
    ensures See(s, index, line, first).versions ==
      s.versions + if IsVersionHeading(line) then [ListedVersion(VersionHeading(line).value.version, index)] else []
    ensures See(s, index, line, first).labels == s.labels + LabelOf(line)
  {
    hide VersionHeading, LinkDefinition, EntryLine, TypeName, UnreleasedCompare, Lowered, TypeHeading, SeeSection,
         SeeType, SeeLink,
         SectionHeading;
    SectionSees(s, index, line, first);
    NoLinkHeads(line);
    if TypeHeading(line) { TypeSees(s, index, TypeName(line)); }
    if LinkDefinition(line).Some? { LinkSees(s, index, LinkDefinition(line).value); }
    assert s.labels + {} == s.labels && s.versions + [] == s.versions;
  }

  lemma NoLinkHeads(line: string)
    ensures SectionHeading(line) ==> LinkDefinition(line).None?
    ensures VersionHeading(line).Some? ==> SectionHeading(line) && line != UNRELEASED_HEADING
  {
    UnreleasedPlain();
  }

  lemma SectionSees(s: Findings, index: nat, line: string, first: int)
    ensures SeeSection(s, index, line, first).labels == s.labels
    ensures SeeSection(s, index, line, first).versions == if line == UNRELEASED_HEADING || VersionHeading(line).None? then s.versions
      else s.versions + [ListedVersion(VersionHeading(line).value.version, index)]
  {
    hide VersionHeading;
  }

  lemma TypeSees(s: Findings, index: nat, name: string)
    ensures SeeType(s, index, name).labels == s.labels && SeeType(s, index, name).versions == s.versions
  {
  }

  lemma LinkSees(s: Findings, index: nat, link: Link)
    ensures SeeLink(s, index, link).labels == s.labels + {Lowered(link.name)} && SeeLink(s, index, link).versions == s.versions
  {
    hide UnreleasedCompare, Lowered;
  }

  /** The walk lists the first version heading first, and has exactly the labels of the link definitions. */
  lemma {:induction false} SeenListed(lines: seq<string>, n: nat)
    requires lines != [] && n <= |lines|
    ensures var i := First(lines, IsVersionHeading, 0, |lines|); var vs := Seen(lines, n).versions;
      (vs != [] <==> 0 <= i < n) && (vs != [] ==> vs[0].version == VersionHeading(lines[i]).value.version)
    ensures forall x :: x in Seen(lines, n).labels <==> HasLink(lines, x, n)
  {
    hide See, LabelOf, VersionHeading;
    var i := First(lines, IsVersionHeading, 0, |lines|);
    if n == 0 {
      hide First;
    } else {
      SeenListed(lines, n - 1);
      SeeVersionsAndLabels(Seen(lines, n - 1), n - 1, lines[n - 1], FirstSection(lines));
      forall x ensures x in Seen(lines, n).labels <==> HasLink(lines, x, n) {
        LinkStep(lines, x, n);
      }
    }
  }

  lemma LinkStep(lines: seq<string>, x: string, n: nat)
    requires 0 < n <= |lines|
    ensures HasLink(lines, x, n) <==> HasLink(lines, x, n - 1) || (!Fenced(lines, n - 1) && x in LabelOf(lines[n - 1]))
  {
    hide LabelOf, Fenced;
  }

  // ----- Release keeps the changelog well formed

  lemma {:induction false} UnreleasedSeen(lines: seq<string>, h: nat, n: nat)
    requires lines != [] && h < n <= |lines| && !Fenced(lines, h) && lines[h] == UNRELEASED_HEADING
    ensures Seen(lines, n).unreleased.Some?
  {
    hide See, Fenced;
    if n == h + 1 {
      SeeHeading(Seen(lines, h), h, FirstSection(lines));
    } else {
      UnreleasedSeen(lines, h, n - 1);
      SeenGrows(lines, n - 1, n);
    }
  }

  /** A second Unreleased heading is always reported. */
  lemma TwiceIsReported(lines: seq<string>, h: nat, i: nat)
    requires lines != [] && h < i < |lines| && !Fenced(lines, h) && !Fenced(lines, i)
    requires lines[h] == lines[i] == UNRELEASED_HEADING
    ensures CheckLines(lines) != []
  {
    hide See, Fenced;
    UnreleasedSeen(lines, h, i);
    SeeHeading(Seen(lines, i), i, FirstSection(lines));
    SeenGrows(lines, i + 1, |lines|);
    SeenVersions(lines, |lines|);
    FinishedQuiet(Seen(lines, |lines|));
  }

  lemma TwoHeadings(head: seq<string>, opening: seq<string>, z: seq<string>)
    requires FenceAfter(Closed, head) == Closed && |opening| == 5 && z != []
    requires (forall i :: 0 <= i < 5 ==> Delimiter(opening[i]) == Closed) && Delimiter(z[0]) == Closed
    requires opening[0] == z[0] == UNRELEASED_HEADING
    ensures CheckLines(head + opening + z) != []
  {
    hide Delimiter, CheckLines, FenceAfter, Fenced;
    var r := head + opening + z;
    StaysClosed(opening);
    FenceAfterConcat(Closed, head, opening);
    HeadingStands(head, opening, [], [], z);
    HeadingStands(head + opening, z, [], [], []);
    assert r == head + opening + [] + [] + z && r == (head + opening) + z + [] + [] + [];
    TwiceIsReported(r, |head|, |head| + 5);
  }

  lemma AboveTwice(d: seq<string>, h: nat, k: nat, c: Comparison, version: string, date: string, r: seq<string>)
    requires Rolls(d, h, k, c, version, date, r) && k < h && !Fenced(d, h - 1)
    ensures r != [] && CheckLines(r) != []
  {
    Around(d, h, k, c, version, date, r);
    OpeningOpens(version, date);
    OpeningIs(version, date);
    LinksPlain(d, k, c, version);
    RolledAbove(d, h, k, c, version, date);
    UnreleasedPlain();
    var opening := OpeningLines(version, date);
    hide Rolled, Delimiter, HasVersion, UnreleasedCompare, UnreleasedDefinition, NewLinks, OpeningLines,
         EndsSection, CheckLines, FenceAfter,
         Fenced, IsVersion, IsDate;
    var head := AboveHead(d, h, k, NewLinks(c, version), line => HasVersion(version, line));
    TwoHeadings(head, opening, d[h..]);
  }

  lemma {:induction false} SeenUnreleased(lines: seq<string>, n: nat) returns (i: nat)
    requires lines != [] && n <= |lines| && Seen(lines, n).unreleased.Some?
    ensures i < n && !Fenced(lines, i) && lines[i] == UNRELEASED_HEADING
  {
    hide See, Fenced, First;
    if Seen(lines, n - 1).unreleased.Some? {
      i := SeenUnreleased(lines, n - 1);
    } else {
      i := n - 1;
      SeesUnreleased(Seen(lines, i), i, lines[i], FirstSection(lines));
    }
  }

  lemma SeesUnreleased(s: Findings, index: nat, line: string, first: int)
    ensures See(s, index, line, first).unreleased.Some? ==> s.unreleased.Some? || line == UNRELEASED_HEADING
  {
    hide VersionHeading, LinkDefinition, EntryLine, TypeName, UnreleasedCompare, Lowered, TypeHeading;
  }

  /** A well-formed changelog has its heading. */
  lemma CheckedHasHeading(lines: seq<string>) returns (i: nat)
    requires lines != [] && CheckLines(lines) == []
    ensures i < |lines| && !Fenced(lines, i) && lines[i] == UNRELEASED_HEADING
  {
    hide See, Fenced;
    SeenVersions(lines, |lines|);
    FinishedQuiet(Seen(lines, |lines|));
    i := SeenUnreleased(lines, |lines|);
  }

  /** The definition above the heading, and a block that ends right before it: both headings are swallowed, so the
      result is well formed only if some code below holds another heading. */
  lemma AboveSwallowed(d: seq<string>, h: nat, k: nat, c: Comparison, version: string, date: string, r: seq<string>)
    requires Rolls(d, h, k, c, version, date, r) && k < h && Fenced(d, h - 1) && CheckLines(d) == []
    ensures r != []
    ensures CheckLines(r) == [] ==> exists i :: h < i < |d| && Fenced(d, i) && d[i] == UNRELEASED_HEADING
  {
    hide Rolled, Delimiter, HasVersion, UnreleasedCompare, UnreleasedDefinition, NewLinks, OpeningLines,
         EndsSection, CheckLines, FenceAfter, Fenced, IsVersion, IsDate;
    Around(d, h, k, c, version, date, r);
    OpeningOpens(version, date);
    LinksAreNoHeadings(d, k, c, version);
    RolledAbove(d, h, k, c, version, date);
    if CheckLines(r) == [] {
      var j := CheckedHasHeading(r);
      SwallowedOpening(d, h, k, NewLinks(c, version), OpeningLines(version, date), IsUnreleasedHeading, j);
      if !Fenced(d, j - 5) { TwiceIsReported(d, h, j - 5); }
    }
  }

  /** A roll whose folded lines are well formed. */
  lemma RollsWhenChecked(source: string, version: string, date: string, fragments: seq<Fragment>, allowEmpty: bool,
                         rolled: string)
    returns (d: seq<string>, h: nat, k: nat, c: Comparison, r: seq<string>)
    requires RollText(source, version, date, fragments, allowEmpty) == Done(rolled) && IsVersion(version) && IsDate(date)
    requires CheckText(FoldText(source, fragments).value) == []
    ensures d == Document(FoldText(source, fragments).value) && d != [] && CheckLines(d) == [] && rolled == Text(r)
    ensures Rolls(d, h, k, c, version, date, r) && h == HeadingIndex(d) && k == DefinitionIndex(d)
  {
    hide FoldText, IsVersion, IsDate, UnreleasedCompare, UnreleasedDefinition, See, HasVersion, Document, CheckLines;
    var folded := FoldText(source, fragments).value;
    DocumentShape(folded);
    d := Document(folded);
    h := HeadingIndex(d);
    k := DefinitionIndex(d);
    c := UnreleasedCompare(DefinedUrl(d[k])).value;
    r := Rolled(d, h, k, c, version, date);
    TitleFirst(d);
    UnreleasedIsFirst(d, h);
    forall i | 0 <= i < h ensures Fenced(d, i) || !HasVersion(version, d[i]) {
      assert Fenced(d, i) || !SectionHeading(d[i]);
      HasVersionHeads(version, d[i]);
    }
  }

  lemma HasVersionHeads(version: string, line: string)
    ensures HasVersion(version, line) ==> SectionHeading(line)
  {
  }

  lemma RolledBelowChecks(d: seq<string>, h: nat, k: nat, c: Comparison, version: string, date: string,
                          r: seq<string>)
    requires Rolls(d, h, k, c, version, date, r) && h < k && CheckLines(d) == []
    ensures r != []
    ensures CheckLines(r) == [] <==>
      NewerThanListed(d, version) && (LinkDefinition(d[k]).Some? || HasLink(d, version, |d|))
  {
    TwoWalks(d, h, k, c, version, date, r);
    SeenVersions(d, |d|);
    SeenVersions(r, |r|);
    SeenListed(d, |d|);
    hide Seen, Alike, Rolled, IsVersion, IsDate, UnreleasedCompare, UnreleasedDefinition, Finished, LinkDefinition,
         HasLink, VersionHeading,
         VersionKey, KeyLess;
    FinishAlike(Seen(d, |d|), Seen(r, |r|), version, LinkDefinition(d[k]).Some?);
  }

  /** Releasing a changelog whose folded form is well formed leaves it well formed if and only if the definition of
      the Unreleased link stands below the heading, the version is newer than the first one listed, and the definition
      is a link definition (or the version had a link already). With the definition above it never does, except that
      a code block may end right before the heading, and another one below hold a second such heading. */
  lemma ReleaseStaysWellFormedIff(source: string, version: string, date: string, fragments: seq<Fragment>,
                                  allowEmpty: bool,
                                  rolled: string)
    requires RollText(source, version, date, fragments, allowEmpty) == Done(rolled) && IsVersion(version) && IsDate(date)
    requires CheckText(FoldText(source, fragments).value) == []
    ensures var d := Document(FoldText(source, fragments).value); var h, k := HeadingIndex(d), DefinitionIndex(d);
      && 0 < h < |d| && 0 <= k < |d| && h != k
      && (h < k ==> (CheckText(rolled) == [] <==>
                       NewerThanListed(d, version) && (LinkDefinition(d[k]).Some? || HasLink(d, version, |d|))))
      && (k < h && CheckText(rolled) == [] ==>
            Fenced(d, h - 1) && exists i :: h < i < |d| && Fenced(d, i) && d[i] == UNRELEASED_HEADING)
  {
    var d, h, k, c, r := RollsWhenChecked(source, version, date, fragments, allowEmpty, rolled);
    RolledReadsBack(d, h, k, c, version, date, r);
    RolledSides(d, h, k, c, version, date, r);
    hide RollText, FoldText, Document, CheckLines, NewerThanListed, HasLink, LinkDefinition, IsVersion, IsDate, Fenced;
    if h < k {
      RolledBelowChecks(d, h, k, c, version, date, r);
    } else if Fenced(d, h - 1) {
      AboveSwallowed(d, h, k, c, version, date, r);
    } else {
      AboveTwice(d, h, k, c, version, date, r);
    }
  }

  lemma RolledSides(d: seq<string>, h: nat, k: nat, c: Comparison, version: string, date: string, r: seq<string>)
    requires Rolls(d, h, k, c, version, date, r) && CheckLines(d) == []
    ensures 0 < h && h != k
  {
    hide Rolled, CheckLines, IsVersion, IsDate, UnreleasedCompare, UnreleasedDefinition;
    Around(d, h, k, c, version, date, r);
    TitleFirst(d);
  }
}
