/** What it means for a changelog to be well formed, said of its lines, and that the check reports exactly the others. */
module ChangelogRules {
  import opened Options
  import opened ChangelogText
  import opened ChangelogSections
  import opened ChangelogRelease
  import opened ChangelogCheck
  import opened ChangelogWellFormed

  /** The last section heading above line `n`, outside code, or -1. */
  function SectionAbove(lines: seq<string>, n: nat): (i: int)
    requires n <= |lines|
    ensures -1 <= i < n
  {
    if n == 0 then -1
    else if !Fenced(lines, n - 1) && SectionHeading(lines[n - 1]) then n - 1
    else SectionAbove(lines, n - 1)
  }

  /** The change type heading that line `n` stands under, or -1: the last one above it in its section. */
  function TypeAbove(lines: seq<string>, n: nat): (i: int)
    requires n <= |lines|
    ensures -1 <= i < n
  {
    if n == 0 then -1
    else if Fenced(lines, n - 1) then TypeAbove(lines, n - 1)
    else if SectionHeading(lines[n - 1]) then -1
    else if TypeHeading(lines[n - 1]) then n - 1
    else TypeAbove(lines, n - 1)
  }

  /** Line `i` is a change type heading outside code. */
  predicate HeadsType(lines: seq<string>, i: nat)
    requires i < |lines|
  {
    !Fenced(lines, i) && TypeHeading(lines[i])
  }

  /** Above line `n`, an entry stands under the change type heading `t`. */
  ghost predicate HasEntry(lines: seq<string>, t: int, n: nat)
    requires n <= |lines|
  {
    exists i :: 0 <= i < n && !Fenced(lines, i) && EntryLine(lines[i]) && TypeAbove(lines, i) == t
  }

  /** The change types named in the section of line `n`, above it. */
  ghost predicate NamedAbove(lines: seq<string>, name: string, n: nat)
    requires n <= |lines|
  {
    exists i :: SectionAbove(lines, n) < i < n && HeadsType(lines, i) && TypeName(lines[i]) == name
  }

  /** The last Unreleased heading above line `n`, outside code, or -1. */
  function UnreleasedAbove(lines: seq<string>, n: nat): (i: int)
    requires n <= |lines|
    ensures -1 <= i < n
  {
    if n == 0 then -1
    else if HeadsUnreleased(lines, n - 1) then n - 1
    else UnreleasedAbove(lines, n - 1)
  }

  /** The last version heading above line `n`, outside code, or -1. */
  function VersionAbove(lines: seq<string>, n: nat): (i: int)
    requires n <= |lines|
    ensures -1 <= i < n && (i >= 0 ==> HeadsVersion(lines, i))
  {
    if n == 0 then -1
    else if HeadsVersion(lines, n - 1) then n - 1
    else VersionAbove(lines, n - 1)
  }

  /** Line `n` stands in a section whose heading can be read. */
  predicate InSection(lines: seq<string>, n: nat)
    requires n <= |lines|
  {
    var h := SectionAbove(lines, n);
    h != -1 && (lines[h] == UNRELEASED_HEADING || IsVersionHeading(lines[h]))
  }

  /** What is wrong with line `i`, outside code. */
  ghost predicate LineViolates(lines: seq<string>, i: nat, kind: Kind)
    requires i < |lines| && !Fenced(lines, i)
  {
    var line := lines[i];
    match kind
    case BadUnreleasedLink => !GoodLink(line)
    case NotABullet => "#### " <= line
    case DuplicateUnreleased => line == UNRELEASED_HEADING && UnreleasedAbove(lines, i) != -1
    case UnreleasedNotFirst =>
      line == UNRELEASED_HEADING && UnreleasedAbove(lines, i) == -1 && i != FirstSection(lines)
    case BadVersionHeading => SectionHeading(line) && line != UNRELEASED_HEADING && !IsVersionHeading(line)
    case NoDate => IsVersionHeading(line) && !DatedVersion(line)
    case TypeOutsideSection => TypeHeading(line) && !InSection(lines, i)
    case UnknownChangeType => TypeHeading(line) && TypeName(line) !in CHANGE_TYPES
    case DuplicateType => TypeHeading(line) && NamedAbove(lines, TypeName(line), i)
    case EmptyType => TypeHeading(line) && !HasEntry(lines, i, |lines|)
    case Ungrouped => EntryLine(line) && TypeAbove(lines, i) == -1 && InSection(lines, i)
    case VersionOrder =>
      HeadsVersion(lines, i) && VersionAbove(lines, i) != -1 &&
      !KeyLess(VersionKey(VersionAt(lines, i)), VersionKey(VersionAt(lines, VersionAbove(lines, i))))
    case VersionWithoutLink => HeadsVersion(lines, i) && !HasLink(lines, Lowered(VersionAt(lines, i)), |lines|)
    case _ => false
  }

  /** What is wrong with the changelog at line `i`; with the document as a whole, at the first. */
  ghost predicate Violates(lines: seq<string>, i: nat, kind: Kind)
    requires i < |lines|
  {
    match kind
    case NoTitle => i == 0 && lines[0] != TITLE
    case NoSpecification => i == 0 && !Mentions(Join(Preamble(lines)), SPEC_SITE)
    case MissingUnreleased => i == 0 && UnreleasedAbove(lines, |lines|) == -1
    case UnreleasedWithoutLink =>
      i == UnreleasedAbove(lines, |lines|) && !HasLink(lines, UNRELEASED_LABEL, |lines|)
    case _ => !Fenced(lines, i) && LineViolates(lines, i, kind)
  }

  /** What each line outside code must satisfy on its own and by its place. */
  ghost predicate Rule(lines: seq<string>, i: nat)
    requires i < |lines|
  {
    var line := lines[i];
    && GoodLink(line) && !("#### " <= line)
    && (SectionHeading(line) ==> if line == UNRELEASED_HEADING then i == FirstSection(lines) else DatedVersion(line))
    && (TypeHeading(line) ==>
          SectionAbove(lines, i) != -1 && TypeName(line) in CHANGE_TYPES && !NamedAbove(lines, TypeName(line), i))
    && (EntryLine(line) && SectionAbove(lines, i) != -1 ==> TypeAbove(lines, i) != -1)
  }

  predicate DatedVersion(line: string) {
    VersionHeading(line).Some? && VersionHeading(line).value.dated
  }

  predicate HeadsVersion(lines: seq<string>, i: nat)
    requires i < |lines|
  {
    !Fenced(lines, i) && IsVersionHeading(lines[i])
  }

  function VersionAt(lines: seq<string>, i: nat): (version: string)
    requires i < |lines| && HeadsVersion(lines, i)
    ensures IsVersion(version)
  {
    VersionHeading(lines[i]).value.version
  }

  ghost predicate HeaderOk(lines: seq<string>)
    requires lines != []
  {
    lines[0] == TITLE && Mentions(Join(Preamble(lines)), SPEC_SITE)
  }

  ghost predicate NewestFirst(lines: seq<string>) {
    forall i, j :: 0 <= i < j < |lines| && HeadsVersion(lines, i) && HeadsVersion(lines, j) ==>
      KeyLess(VersionKey(VersionAt(lines, j)), VersionKey(VersionAt(lines, i)))
  }

  /** A title and the specification; an Unreleased section, first of all, with its link; every other section a dated
      version, newest first, with its link; in a section only known change types, once each, with entries, and no
      entry outside one of them; no heading where an entry belongs. */
  ghost predicate WellFormed(lines: seq<string>)
    requires lines != []
  {
    && HeaderOk(lines)
    && (forall i :: 0 <= i < |lines| && !Fenced(lines, i) ==> Rule(lines, i))
    && (forall i :: 0 <= i < |lines| && HeadsType(lines, i) ==> HasEntry(lines, i, |lines|))
    && (exists i :: 0 <= i < |lines| && HeadsUnreleased(lines, i)) && HasLink(lines, UNRELEASED_LABEL, |lines|)
    && (forall i :: 0 <= i < |lines| && HeadsVersion(lines, i) ==> HasLink(lines, Lowered(VersionAt(lines, i)), |lines|))
    && NewestFirst(lines)
  }

  predicate HeadsUnreleased(lines: seq<string>, i: nat)
    requires i < |lines|
  {
    !Fenced(lines, i) && lines[i] == UNRELEASED_HEADING
  }

  // ----- What one line does to the findings

  lemma KindsDiffer(line: string)
    ensures SectionHeading(line) ==> !TypeHeading(line) && LinkDefinition(line).None? && !EntryLine(line) && !("#### " <= line)
    ensures TypeHeading(line) ==> LinkDefinition(line).None? && !EntryLine(line) && !("#### " <= line)
    ensures "#### " <= line ==> LinkDefinition(line).None? && !EntryLine(line)
    ensures LinkDefinition(line).Some? ==> !EntryLine(line)
  {
    assert SectionHeading(line) ==> line[0] == '#' && line[2] == ' ';
    assert TypeHeading(line) ==> line[0] == '#' && line[2] == '#' && line[3] == ' ';
    assert "#### " <= line ==> line[0] == '#' && line[3] == '#';
    assert LinkDefinition(line).Some? ==> line[0] == '[';
    if line != [] && (line[0] == '#' || line[0] == '[') { assert SkipSpaces(line) == line; }
  }

  /** The problem of a change type that ends without an entry. */
  predicate Unentered(s: Findings, p: Problem) {
    s.open.Some? && s.open.value.entries == 0 && p == Problem(s.open.value.line + 1, EmptyType)
  }

  /** How often the problem is reported. */
  function Times(problems: seq<Problem>, p: Problem): nat {
    multiset(problems)[p]
  }

  function Once(reported: bool): nat {
    if reported then 1 else 0
  }

  lemma ReportTimes(s: Findings, bad: bool, index: nat, kind: Kind, p: Problem)
    ensures Times(ReportIf(s, bad, index, kind).problems, p) == Times(s.problems, p) + Once(bad && p == Problem(index + 1, kind))
    ensures Times(Report(s, index, kind).problems, p) == Times(s.problems, p) + Once(p == Problem(index + 1, kind))
  {
  }

  lemma Closes(s: Findings, p: Problem)
    ensures Times(CloseType(s).problems, p) == Times(s.problems, p) + Once(Unentered(s, p))
    ensures CloseType(s) == s.(problems := CloseType(s).problems, open := None)
  {
  }

  predicate SectionBad(s: Findings, index: nat, line: string, first: int, kind: Kind) {
    match kind
    case DuplicateUnreleased => line == UNRELEASED_HEADING && s.unreleased.Some?
    case UnreleasedNotFirst => line == UNRELEASED_HEADING && s.unreleased.None? && index != first
    case BadVersionHeading => line != UNRELEASED_HEADING && !IsVersionHeading(line)
    case NoDate => line != UNRELEASED_HEADING && IsVersionHeading(line) && !DatedVersion(line)
    case _ => false
  }

  lemma SectionIsSeen(s: Findings, index: nat, line: string, first: int, p: Problem)
    requires SectionHeading(line)
    ensures var t := See(s, index, line, first);
      && Times(t.problems, p) ==
         Times(s.problems, p) + Once(Unentered(s, p) || (p.line == index + 1 && SectionBad(s, index, line, first, p.kind)))
      && (t.section.Some? <==> line == UNRELEASED_HEADING || IsVersionHeading(line)) && t.types == {} && t.open.None?
      && t.unreleased == (if line == UNRELEASED_HEADING then Some(index) else s.unreleased)
  {
    var t := CloseType(s).(types := {});
    SectionSeenAs(s, index, line, first);
    Closes(s, p);
    UnreleasedTimes(t, index, first, p);
    VersionTimes(t, index, line, p);
    hide See, Times, SectionHeading, CloseType, IsVersionHeading, DatedVersion, Once;
  }

  lemma SectionSeenAs(s: Findings, index: nat, line: string, first: int)
    requires SectionHeading(line)
    ensures var t := CloseType(s).(types := {});
      See(s, index, line, first) == if line == UNRELEASED_HEADING then SeeUnreleased(t, index, first) else SeeVersion(t, index, line)
  {
    KindsDiffer(line);
    hide VersionHeading, LinkDefinition, EntryLine, TypeName, UnreleasedCompare, Lowered, TypeHeading;
  }

  lemma UnreleasedTimes(t: Findings, index: nat, first: int, p: Problem)
    ensures var u := SeeUnreleased(t, index, first);
      && Times(u.problems, p) == Times(t.problems, p) + Once(
           (t.unreleased.Some? && p == Problem(index + 1, DuplicateUnreleased))
           || (t.unreleased.None? && index != first && p == Problem(index + 1, UnreleasedNotFirst)))
      && u.section.Some? && u.types == t.types && u.open == t.open && u.unreleased == Some(index)
  {
  }

  lemma VersionTimes(t: Findings, index: nat, line: string, p: Problem)
    ensures var u := SeeVersion(t, index, line);
      && Times(u.problems, p) == Times(t.problems, p) + Once(
           (!IsVersionHeading(line) && p == Problem(index + 1, BadVersionHeading))
           || (IsVersionHeading(line) && !DatedVersion(line) && p == Problem(index + 1, NoDate)))
      && (u.section.Some? <==> IsVersionHeading(line)) && u.types == t.types && u.open == t.open && u.unreleased == t.unreleased
  {
    hide VersionHeading;
  }

  predicate TypeBad(s: Findings, name: string, kind: Kind) {
    match kind
    case TypeOutsideSection => s.section.None?
    case UnknownChangeType => name !in CHANGE_TYPES
    case DuplicateType => name in s.types
    case _ => false
  }

  lemma TypeIsSeen(s: Findings, index: nat, line: string, first: int, p: Problem)
    requires TypeHeading(line)
    ensures var t := See(s, index, line, first);
      && Times(t.problems, p) ==
         Times(s.problems, p) + Once(Unentered(s, p) || (p.line == index + 1 && TypeBad(s, TypeName(line), p.kind)))
      && t.section == s.section && t.types == s.types + {TypeName(line)} && t.unreleased == s.unreleased
      && t.open == Some(OpenType(TypeName(line), index, 0))
  {
    TypeSeenAs(s, index, line, first);
    TypeTimes(s, index, TypeName(line), p);
    Closes(s, p);
    hide See, Times, TypeName, TypeHeading, CloseType, ReportIf, TypeBad, Once;
  }

  /** A change type heading, without the fields it sets. */
  function TypeReported(s: Findings, index: nat, name: string): Findings {
    var t := ReportIf(CloseType(s), s.section.None?, index, TypeOutsideSection);
    var t := ReportIf(t, name !in CHANGE_TYPES, index, UnknownChangeType);
    ReportIf(t, name in s.types, index, DuplicateType)
  }

  lemma TypeSeenAs(s: Findings, index: nat, line: string, first: int)
    requires TypeHeading(line)
    ensures See(s, index, line, first) == s.(problems := TypeReported(s, index, TypeName(line)).problems,
                                             types := s.types + {TypeName(line)},
                                             open := Some(OpenType(TypeName(line), index, 0)))
  {
    KindsDiffer(line);
    assert !SectionHeading(line);
    hide VersionHeading, LinkDefinition, EntryLine, TypeName, UnreleasedCompare, Lowered, TypeHeading, SectionHeading;
  }

  lemma TypeTimes(s: Findings, index: nat, name: string, p: Problem)
    ensures Times(TypeReported(s, index, name).problems, p) ==
      Times(s.problems, p) + Once(Unentered(s, p) || (p.line == index + 1 && TypeBad(s, name, p.kind)))
  {
    Closes(s, p);
    var t0 := CloseType(s);
    var t1 := ReportIf(t0, s.section.None?, index, TypeOutsideSection);
    var t2 := ReportIf(t1, name !in CHANGE_TYPES, index, UnknownChangeType);
    ReportTimes(t0, s.section.None?, index, TypeOutsideSection, p);
    ReportTimes(t1, name !in CHANGE_TYPES, index, UnknownChangeType, p);
    ReportTimes(t2, name in s.types, index, DuplicateType, p);
    hide ReportIf, Report, Times, CloseType;
  }

  lemma EntryIsSeen(s: Findings, index: nat, line: string, first: int, p: Problem)
    requires EntryLine(line)
    ensures var t := See(s, index, line, first);
      && Times(t.problems, p) ==
         Times(s.problems, p) + Once(s.open.None? && s.section.Some? && p == Problem(index + 1, Ungrouped))
      && t.section == s.section && t.types == s.types && t.unreleased == s.unreleased
      && (t.open.Some? <==> s.open.Some?)
      && (t.open.Some? ==> t.open.value.entries > 0 && t.open.value.line == s.open.value.line)
  {
    KindsDiffer(line);
    hide VersionHeading, LinkDefinition, EntryLine, TypeName, UnreleasedCompare, Lowered, TypeHeading, SectionHeading;
  }

  lemma OtherIsSeen(s: Findings, index: nat, line: string, first: int, p: Problem)
    requires !SectionHeading(line) && !TypeHeading(line) && !EntryLine(line)
    ensures var t := See(s, index, line, first);
      && Times(t.problems, p) ==
         Times(s.problems, p) + Once((!GoodLink(line) && p == Problem(index + 1, BadUnreleasedLink))
                                     || ("#### " <= line && p == Problem(index + 1, NotABullet)))
      && t.section == s.section && t.types == s.types && t.unreleased == s.unreleased && t.open == s.open
  {
    KindsDiffer(line);
    hide VersionHeading, LinkDefinition, EntryLine, TypeName, UnreleasedCompare, Lowered, TypeHeading, SectionHeading;
  }

  // ----- What the findings after the first lines say of them

  /** The findings hold the section, its change types so far, the open type, and the last Unreleased heading. */
  ghost predicate Holds(lines: seq<string>, n: nat, s: Findings)
    requires n <= |lines|
  {
    && (s.section.Some? <==> InSection(lines, n))
    && (forall x :: x in s.types <==> NamedAbove(lines, x, n))
    && (s.open.Some? <==> TypeAbove(lines, n) != -1)
    && (s.open.Some? ==> s.open.value.line == TypeAbove(lines, n))
    && (s.open.Some? ==> (s.open.value.entries > 0 <==> HasEntry(lines, TypeAbove(lines, n), n)))
    && s.unreleased == if UnreleasedAbove(lines, n) == -1 then None else Some(UnreleasedAbove(lines, n))
  }

  lemma FencedStep(lines: seq<string>, n: nat)
    requires n < |lines| && Fenced(lines, n)
    ensures SectionAbove(lines, n + 1) == SectionAbove(lines, n) && TypeAbove(lines, n + 1) == TypeAbove(lines, n)
    ensures forall x :: NamedAbove(lines, x, n + 1) <==> NamedAbove(lines, x, n)
    ensures forall t :: HasEntry(lines, t, n + 1) <==> HasEntry(lines, t, n)
  {
    hide Fenced;
  }

  lemma SectionStep(lines: seq<string>, n: nat)
    requires n < |lines| && !Fenced(lines, n) && SectionHeading(lines[n])
    ensures SectionAbove(lines, n + 1) == n && TypeAbove(lines, n + 1) == -1
    ensures forall x: string {:trigger NamedAbove(lines, x, n + 1)} :: !NamedAbove(lines, x, n + 1)
    ensures forall t :: HasEntry(lines, t, n + 1) <==> HasEntry(lines, t, n)
  {
    KindsDiffer(lines[n]);
    hide Fenced, SectionHeading, TypeHeading, EntryLine, TypeName;
  }

  lemma TypeStep(lines: seq<string>, n: nat)
    requires n < |lines| && !Fenced(lines, n) && TypeHeading(lines[n])
    ensures SectionAbove(lines, n + 1) == SectionAbove(lines, n) && TypeAbove(lines, n + 1) == n
    ensures forall x :: NamedAbove(lines, x, n + 1) <==> NamedAbove(lines, x, n) || x == TypeName(lines[n])
    ensures forall t :: HasEntry(lines, t, n + 1) <==> HasEntry(lines, t, n)
    ensures !HasEntry(lines, n, n + 1)
  {
    KindsDiffer(lines[n]);
    hide Fenced, SectionHeading, TypeHeading, EntryLine, TypeName;
    forall x ensures NamedAbove(lines, x, n + 1) <==> NamedAbove(lines, x, n) || x == TypeName(lines[n]) {
      assert HeadsType(lines, n);
    }
  }

  lemma EntryStep(lines: seq<string>, n: nat)
    requires n < |lines| && !Fenced(lines, n) && EntryLine(lines[n])
    ensures SectionAbove(lines, n + 1) == SectionAbove(lines, n) && TypeAbove(lines, n + 1) == TypeAbove(lines, n)
    ensures forall x :: NamedAbove(lines, x, n + 1) <==> NamedAbove(lines, x, n)
    ensures forall t :: HasEntry(lines, t, n + 1) <==> HasEntry(lines, t, n) || t == TypeAbove(lines, n)
  {
    KindsDiffer(lines[n]);
    hide Fenced, SectionHeading, TypeHeading, EntryLine, TypeName;
    forall t ensures HasEntry(lines, t, n + 1) <==> HasEntry(lines, t, n) || t == TypeAbove(lines, n) {
      if t == TypeAbove(lines, n) { assert 0 <= n < n + 1 && TypeAbove(lines, n) == t; }
    }
  }

  lemma OtherStep(lines: seq<string>, n: nat)
    requires n < |lines| && !Fenced(lines, n)
    requires !SectionHeading(lines[n]) && !TypeHeading(lines[n]) && !EntryLine(lines[n])
    ensures SectionAbove(lines, n + 1) == SectionAbove(lines, n) && TypeAbove(lines, n + 1) == TypeAbove(lines, n)
    ensures forall x :: NamedAbove(lines, x, n + 1) <==> NamedAbove(lines, x, n)
    ensures forall t :: HasEntry(lines, t, n + 1) <==> HasEntry(lines, t, n)
  {
    hide Fenced, SectionHeading, TypeHeading, EntryLine, TypeName;
  }

  /** Line `n` ends a change type that has no entry, the one that line `t` heads. */
  ghost predicate EndsEmpty(lines: seq<string>, t: int, n: nat)
    requires n < |lines|
  {
    t != -1 && t == TypeAbove(lines, n) && TypeAbove(lines, n + 1) != t && !HasEntry(lines, t, n)
  }

  /** Problems that are not reported when their line is met. */
  predicate Deferred(kind: Kind) {
    kind == EmptyType || kind == VersionOrder || kind == VersionWithoutLink
  }

  lemma UnreleasedStep(lines: seq<string>, n: nat)
    requires n < |lines|
    ensures UnreleasedAbove(lines, n + 1) == if HeadsUnreleased(lines, n) then n else UnreleasedAbove(lines, n)
    ensures HeadsUnreleased(lines, n) ==> SectionHeading(lines[n])
  {
    HeadingHeads();
  }

  lemma InSectionStep(lines: seq<string>, n: nat)
    requires n < |lines|
    ensures InSection(lines, n + 1) <==>
      if !Fenced(lines, n) && SectionHeading(lines[n]) then lines[n] == UNRELEASED_HEADING || IsVersionHeading(lines[n])
      else InSection(lines, n)
  {
    hide Fenced, SectionHeading, IsVersionHeading;
  }

  /** What the line does: the findings hold as much again, and which problems are added. */
  ghost predicate Stepped(lines: seq<string>, n: nat, s: Findings, p: Problem)
    requires n < |lines| && !Fenced(lines, n)
  {
    var t := See(s, n, lines[n], FirstSection(lines));
    && Holds(lines, n + 1, t)
    && Times(t.problems, p) ==
       Times(s.problems, p) + Once((p.kind == EmptyType && EndsEmpty(lines, p.line - 1, n))
                                   || (p.line == n + 1 && !Deferred(p.kind) && LineViolates(lines, n, p.kind)))
  }

  lemma SectionViolates(lines: seq<string>, n: nat, kind: Kind)
    requires n < |lines| && !Fenced(lines, n) && SectionHeading(lines[n]) && !Deferred(kind)
    ensures LineViolates(lines, n, kind) <==>
      var line := lines[n];
      match kind
      case DuplicateUnreleased => line == UNRELEASED_HEADING && UnreleasedAbove(lines, n) != -1
      case UnreleasedNotFirst => line == UNRELEASED_HEADING && UnreleasedAbove(lines, n) == -1 && n != FirstSection(lines)
      case BadVersionHeading => line != UNRELEASED_HEADING && !IsVersionHeading(line)
      case NoDate => line != UNRELEASED_HEADING && IsVersionHeading(line) && !DatedVersion(line)
      case _ => false
  {
    KindsDiffer(lines[n]);
    VersionHeads(lines[n]);
    NoLinkGood(lines[n]);
    hide Fenced, SectionHeading, TypeHeading, EntryLine, IsVersionHeading, DatedVersion, LinkDefinition;
  }

  lemma TypeViolates(lines: seq<string>, n: nat, kind: Kind)
    requires n < |lines| && !Fenced(lines, n) && TypeHeading(lines[n]) && !Deferred(kind)
    ensures LineViolates(lines, n, kind) <==>
      match kind
      case TypeOutsideSection => !InSection(lines, n)
      case UnknownChangeType => TypeName(lines[n]) !in CHANGE_TYPES
      case DuplicateType => NamedAbove(lines, TypeName(lines[n]), n)
      case _ => false
  {
    KindsDiffer(lines[n]);
    VersionHeads(lines[n]);
    NoLinkGood(lines[n]);
    hide Fenced, SectionHeading, EntryLine, IsVersionHeading, DatedVersion, LinkDefinition, InSection, TypeName, NamedAbove;
  }

  lemma EntryViolates(lines: seq<string>, n: nat, kind: Kind)
    requires n < |lines| && !Fenced(lines, n) && EntryLine(lines[n]) && !Deferred(kind)
    ensures LineViolates(lines, n, kind) <==> kind == Ungrouped && TypeAbove(lines, n) == -1 && InSection(lines, n)
  {
    KindsDiffer(lines[n]);
    VersionHeads(lines[n]);
    NoLinkGood(lines[n]);
    hide Fenced, SectionHeading, EntryLine, TypeHeading, IsVersionHeading, DatedVersion, LinkDefinition, InSection, TypeName,
         NamedAbove;
  }

  lemma OtherViolates(lines: seq<string>, n: nat, kind: Kind)
    requires n < |lines| && !Fenced(lines, n) && !Deferred(kind)
    requires !SectionHeading(lines[n]) && !TypeHeading(lines[n]) && !EntryLine(lines[n])
    ensures LineViolates(lines, n, kind) <==>
      (kind == BadUnreleasedLink && !GoodLink(lines[n])) || (kind == NotABullet && "#### " <= lines[n])
  {
    VersionHeads(lines[n]);
    hide Fenced, SectionHeading, EntryLine, TypeHeading, IsVersionHeading, DatedVersion, LinkDefinition, InSection, TypeName,
         NamedAbove, GoodLink;
  }

  lemma StepSection(lines: seq<string>, n: nat, s: Findings, p: Problem)
    requires n < |lines| && !Fenced(lines, n) && Holds(lines, n, s) && SectionHeading(lines[n])
    ensures Stepped(lines, n, s, p)
  {
    hide See, Fenced, SectionHeading, TypeHeading, EntryLine, TypeName, HasEntry, NamedAbove, SectionAbove, TypeAbove,
         GoodLink, DatedVersion, FirstSection, UnreleasedAbove, LinkDefinition, IsVersionHeading, InSection, VersionAbove,
         HasLink, LineViolates, KeyLess, VersionKey;
    var line, first := lines[n], FirstSection(lines);
    if !Deferred(p.kind) { SectionViolates(lines, n, p.kind); }
    UnreleasedStep(lines, n);
    InSectionStep(lines, n);
    VersionHeads(line);
    KindsDiffer(line);
    SectionIsSeen(s, n, line, first, p);
    SectionStep(lines, n);
  }

  lemma StepType(lines: seq<string>, n: nat, s: Findings, p: Problem)
    requires n < |lines| && !Fenced(lines, n) && Holds(lines, n, s) && TypeHeading(lines[n])
    ensures Stepped(lines, n, s, p)
  {
    hide See, Fenced, SectionHeading, TypeHeading, EntryLine, TypeName, HasEntry, NamedAbove, SectionAbove, TypeAbove,
         GoodLink, DatedVersion, FirstSection, UnreleasedAbove, LinkDefinition, IsVersionHeading, InSection, VersionAbove,
         HasLink, LineViolates, KeyLess, VersionKey;
    var line, first := lines[n], FirstSection(lines);
    if !Deferred(p.kind) { TypeViolates(lines, n, p.kind); }
    UnreleasedStep(lines, n);
    InSectionStep(lines, n);
    VersionHeads(line);
    KindsDiffer(line);
    TypeIsSeen(s, n, line, first, p);
    TypeStep(lines, n);
  }

  lemma StepEntry(lines: seq<string>, n: nat, s: Findings, p: Problem)
    requires n < |lines| && !Fenced(lines, n) && Holds(lines, n, s) && EntryLine(lines[n])
    ensures Stepped(lines, n, s, p)
  {
    hide See, Fenced, SectionHeading, TypeHeading, EntryLine, TypeName, HasEntry, NamedAbove, SectionAbove, TypeAbove,
         GoodLink, DatedVersion, FirstSection, UnreleasedAbove, LinkDefinition, IsVersionHeading, InSection, VersionAbove,
         HasLink, LineViolates, KeyLess, VersionKey;
    var line, first := lines[n], FirstSection(lines);
    if !Deferred(p.kind) { EntryViolates(lines, n, p.kind); }
    UnreleasedStep(lines, n);
    InSectionStep(lines, n);
    VersionHeads(line);
    KindsDiffer(line);
    EntryIsSeen(s, n, line, first, p);
    EntryStep(lines, n);
  }

  lemma StepOther(lines: seq<string>, n: nat, s: Findings, p: Problem)
    requires n < |lines| && !Fenced(lines, n) && Holds(lines, n, s)
    requires !SectionHeading(lines[n]) && !TypeHeading(lines[n]) && !EntryLine(lines[n])
    ensures Stepped(lines, n, s, p)
  {
    hide See, Fenced, SectionHeading, TypeHeading, EntryLine, TypeName, HasEntry, NamedAbove, SectionAbove, TypeAbove,
         GoodLink, DatedVersion, FirstSection, UnreleasedAbove, LinkDefinition, IsVersionHeading, InSection, VersionAbove,
         HasLink, LineViolates, KeyLess, VersionKey;
    var line, first := lines[n], FirstSection(lines);
    if !Deferred(p.kind) { OtherViolates(lines, n, p.kind); }
    UnreleasedStep(lines, n);
    InSectionStep(lines, n);
    VersionHeads(line);
    KindsDiffer(line);
    OtherIsSeen(s, n, line, first, p);
    OtherStep(lines, n);
  }

  lemma StepAdds(lines: seq<string>, n: nat, s: Findings, p: Problem)
    requires n < |lines| && !Fenced(lines, n) && Holds(lines, n, s)
    ensures Stepped(lines, n, s, p)
  {
    hide Stepped, Holds;
    if SectionHeading(lines[n]) {
      StepSection(lines, n, s, p);
    } else if TypeHeading(lines[n]) {
      StepType(lines, n, s, p);
    } else if EntryLine(lines[n]) {
      StepEntry(lines, n, s, p);
    } else {
      StepOther(lines, n, s, p);
    }
  }

  lemma VersionHeads(line: string)
    ensures IsVersionHeading(line) || line == UNRELEASED_HEADING ==> SectionHeading(line)
    ensures line == UNRELEASED_HEADING ==> !IsVersionHeading(line)
  {
    HeadingHeads();
    UnreleasedPlain();
  }

  lemma NoLinkGood(line: string)
    requires LinkDefinition(line).None?
    ensures GoodLink(line)
  {
  }

  // ----- Change types and their entries

  lemma {:induction false} EntryStays(lines: seq<string>, t: nat, m: nat, n: nat)
    requires t < m <= n <= |lines| && TypeAbove(lines, m) != t
    ensures HasEntry(lines, t, n) <==> HasEntry(lines, t, m)
    ensures TypeAbove(lines, n) != t
  {
    hide Fenced, TypeHeading, SectionHeading, EntryLine;
    if m < n { EntryStays(lines, t, m, n - 1); }
  }

  lemma {:induction false} TypeAboveHeads(lines: seq<string>, n: nat)
    requires n <= |lines|
    ensures TypeAbove(lines, n) != -1 ==> HeadsType(lines, TypeAbove(lines, n))
  {
    hide Fenced, TypeHeading, SectionHeading;
    if n > 0 { TypeAboveHeads(lines, n - 1); }
  }

  lemma TypeHeadsItself(lines: seq<string>, t: nat)
    requires t < |lines| && HeadsType(lines, t)
    ensures TypeAbove(lines, t + 1) == t
  {
    KindsDiffer(lines[t]);
  }

  /** The line a type ends at is no entry. */
  lemma LastIsNoEntry(lines: seq<string>, t: nat, i: nat)
    requires t < i < |lines| && TypeAbove(lines, i) == t && TypeAbove(lines, i + 1) != t
    ensures HasEntry(lines, t, i + 1) <==> HasEntry(lines, t, i)
  {
    if !Fenced(lines, i) && EntryLine(lines[i]) { EntryStep(lines, i); }
    hide Fenced, TypeAbove, EntryLine;
  }

  /** Line `t` heads a change type that has ended above line `n` without an entry. */
  ghost predicate EndedEmpty(lines: seq<string>, t: int, n: nat)
    requires n <= |lines|
  {
    0 <= t < n && HeadsType(lines, t) && TypeAbove(lines, n) != t && !HasEntry(lines, t, n)
  }

  lemma EndedStep(lines: seq<string>, t: int, n: nat)
    requires n < |lines|
    ensures EndedEmpty(lines, t, n + 1) <==> EndedEmpty(lines, t, n) || EndsEmpty(lines, t, n)
    ensures !(EndedEmpty(lines, t, n) && EndsEmpty(lines, t, n))
  {
    TypeAboveHeads(lines, n);
    hide Fenced, TypeAbove, HasEntry, HeadsType;
    if 0 <= t < n && TypeAbove(lines, n) != t { EntryStays(lines, t, n, n + 1); }
    if 0 <= t < n && TypeAbove(lines, n) == t != TypeAbove(lines, n + 1) { LastIsNoEntry(lines, t, n); }
    if t == n && HeadsType(lines, n) { TypeHeadsItself(lines, n); }
  }

  // ----- The whole walk

  lemma OpenedAdds(lines: seq<string>, p: Problem)
    requires lines != []
    ensures Times(Seen(lines, 0).problems, p) ==
      Once(p.line == 1 && (p.kind == NoTitle || p.kind == NoSpecification) && Violates(lines, 0, p.kind))
    ensures Holds(lines, 0, Seen(lines, 0))
  {
    hide First, Mentions, Join;
  }

  lemma FencedHolds(lines: seq<string>, n: nat, s: Findings)
    requires n < |lines| && Fenced(lines, n) && Holds(lines, n, s)
    ensures Holds(lines, n + 1, s) && forall t :: !EndsEmpty(lines, t, n)
  {
    FencedStep(lines, n);
    UnreleasedStep(lines, n);
    InSectionStep(lines, n);
    hide Fenced, SectionAbove, TypeAbove, HasEntry, NamedAbove, InSection, UnreleasedAbove;
  }

  /** Line `p.line` is one of the first `n`, and has that problem, reported when it is met. */
  ghost predicate MetAbove(lines: seq<string>, n: nat, p: Problem)
    requires n <= |lines|
  {
    1 <= p.line <= n && !Fenced(lines, p.line - 1) && !Deferred(p.kind) && LineViolates(lines, p.line - 1, p.kind)
  }

  lemma {:induction false} SeenAdds(lines: seq<string>, n: nat, p: Problem)
    requires lines != [] && n <= |lines|
    ensures Holds(lines, n, Seen(lines, n))
    ensures Times(Seen(lines, n).problems, p) ==
      Times(Seen(lines, 0).problems, p)
      + Once(MetAbove(lines, n, p) || (p.kind == EmptyType && EndedEmpty(lines, p.line - 1, n)))
  {
    hide See, Fenced, Holds, LineViolates, FirstSection, EndedEmpty, EndsEmpty, MetAbove, Times;
    if n == 0 {
      NoneMet(lines, p);
      OpenedAdds(lines, p);
      hide Seen;
      assert !EndedEmpty(lines, p.line - 1, 0) by { NoneEnded(lines, p.line - 1); }
    } else {
      SeenAdds(lines, n - 1, p);
      MetStep(lines, n - 1, p);
      EndedStep(lines, p.line - 1, n - 1);
      var s := Seen(lines, n - 1);
      if Fenced(lines, n - 1) {
        FencedHolds(lines, n - 1, s);
      } else {
        StepAdds(lines, n - 1, s, p);
      }
    }
  }

  lemma NoneMet(lines: seq<string>, p: Problem)
    ensures !MetAbove(lines, 0, p)
  {
  }

  lemma MetStep(lines: seq<string>, n: nat, p: Problem)
    requires n < |lines|
    ensures MetAbove(lines, n + 1, p) <==>
      || MetAbove(lines, n, p)
      || (!Fenced(lines, n) && p.line == n + 1 && !Deferred(p.kind) && LineViolates(lines, n, p.kind))
    ensures MetAbove(lines, n, p) ==> p.line != n + 1 && p.kind != EmptyType
  {
    hide Fenced, LineViolates;
  }

  lemma NoneEnded(lines: seq<string>, t: int)
    ensures !EndedEmpty(lines, t, 0)
  {
  }

  // ----- Versions

  /** The version headings above line `n`, in order. */
  ghost predicate Lists(lines: seq<string>, vs: seq<ListedVersion>, n: nat)
    requires n <= |lines|
  {
    && (forall k :: 0 <= k < |vs| ==>
          vs[k].line < n && HeadsVersion(lines, vs[k].line) && vs[k].version == VersionAt(lines, vs[k].line))
    && (forall j, k :: 0 <= j < k < |vs| ==> vs[j].line < vs[k].line)
    && forall i :: 0 <= i < n && HeadsVersion(lines, i) ==> exists k :: 0 <= k < |vs| && vs[k].line == i
  }

  lemma ListsMore(lines: seq<string>, vs: seq<ListedVersion>, n: nat)
    requires n < |lines| && Lists(lines, vs, n)
    ensures HeadsVersion(lines, n) ==> Lists(lines, vs + [ListedVersion(VersionAt(lines, n), n)], n + 1)
    ensures !HeadsVersion(lines, n) ==> Lists(lines, vs, n + 1)
  {
    hide HeadsVersion;
    if HeadsVersion(lines, n) {
      var ws := vs + [ListedVersion(VersionAt(lines, n), n)];
      forall i | 0 <= i < n + 1 && HeadsVersion(lines, i) ensures exists k :: 0 <= k < |ws| && ws[k].line == i {
        if i == n {
          assert ws[|vs|].line == n;
        } else {
          var k :| 0 <= k < |vs| && vs[k].line == i;
          assert ws[k].line == i;
        }
      }
    }
  }

  lemma {:induction false} SeenLists(lines: seq<string>, n: nat)
    requires lines != [] && n <= |lines|
    ensures Lists(lines, Seen(lines, n).versions, n)
  {
    hide See, Fenced, First, LabelOf, VersionHeading, Lists;
    if n > 0 {
      SeenLists(lines, n - 1);
      var s := Seen(lines, n - 1);
      SeeVersionsAndLabels(s, n - 1, lines[n - 1], FirstSection(lines));
      ListsMore(lines, s.versions, n - 1);
      assert s.versions + [] == s.versions;
    } else {
      NoneListed(lines);
    }
  }

  lemma NoneListed(lines: seq<string>)
    requires lines != []
    ensures Lists(lines, Seen(lines, 0).versions, 0)
  {
    hide First, Mentions;
  }

  lemma {:induction false} VersionAboveIs(lines: seq<string>, n: nat, m: int)
    requires -1 <= m < n <= |lines| && (m >= 0 ==> HeadsVersion(lines, m))
    requires forall i :: m < i < n ==> !HeadsVersion(lines, i)
    ensures VersionAbove(lines, n) == m
  {
    hide HeadsVersion;
    if m < n - 1 { VersionAboveIs(lines, n - 1, m); }
  }

  /** The version listed before another is the one above it. */
  lemma ListedBefore(lines: seq<string>, vs: seq<ListedVersion>, k: nat)
    requires Lists(lines, vs, |lines|) && k < |vs|
    ensures VersionAbove(lines, vs[k].line) == if k == 0 then -1 else vs[k - 1].line
  {
    hide HeadsVersion;
    var m := if k == 0 then -1 else vs[k - 1].line;
    forall i | m < i < vs[k].line ensures !HeadsVersion(lines, i) {
      if HeadsVersion(lines, i) { NotListed(lines, vs, k, i); }
    }
    VersionAboveIs(lines, vs[k].line, m);
  }

  lemma NotListed(lines: seq<string>, vs: seq<ListedVersion>, k: nat, i: nat)
    requires Lists(lines, vs, |lines|) && k < |vs| && i < vs[k].line < |lines| && (k > 0 ==> vs[k - 1].line < i)
    ensures !HeadsVersion(lines, i)
  {
    hide HeadsVersion, VersionAt;
    assert forall l :: 0 <= l < k - 1 ==> vs[l].line < vs[k - 1].line;
    assert forall l :: k < l < |vs| ==> vs[k].line < vs[l].line;
    assert forall l :: 0 <= l < |vs| ==> vs[l].line != i;
  }

  /** The problem that a listed version is not older than the one before it, or that it has no link. */
  ghost predicate OrderBad(vs: seq<ListedVersion>, labels: set<string>, k: nat, p: Problem)
    requires k < |vs| && forall i :: 0 <= i < |vs| ==> IsVersion(vs[i].version)
  {
    p.line == vs[k].line + 1 &&
    ((p.kind == VersionOrder && k > 0 && !KeyLess(VersionKey(vs[k].version), VersionKey(vs[k - 1].version)))
     || (p.kind == VersionWithoutLink && Lowered(vs[k].version) !in labels))
  }

  lemma {:induction false} OrderAdds(s: Findings, n: nat, p: Problem)
    requires AllVersions(s) && n <= |s.versions|
    requires forall j, k :: 0 <= j < k < |s.versions| ==> s.versions[j].line < s.versions[k].line
    ensures Times(SeeOrder(s, n).problems, p) ==
      Times(s.problems, p) + Once(exists k :: 0 <= k < n && OrderBad(s.versions, s.labels, k, p))
  {
    hide IsVersion, VersionKey, KeyLess, Lowered;
    if n > 0 {
      OrderAdds(s, n - 1, p);
      OrderStep(s, n, p);
      forall k | 0 <= k < n - 1 ensures !(OrderBad(s.versions, s.labels, k, p) && OrderBad(s.versions, s.labels, n - 1, p)) {}
      hide OrderBad, SeeOrder;
    }
  }

  lemma OrderStep(s: Findings, n: nat, p: Problem)
    requires AllVersions(s) && 0 < n <= |s.versions|
    ensures Times(SeeOrder(s, n).problems, p) ==
      Times(SeeOrder(s, n - 1).problems, p) + Once(OrderBad(s.versions, s.labels, n - 1, p))
  {
    hide IsVersion, VersionKey, KeyLess, Lowered;
  }

  lemma FinishAdds(s: Findings, p: Problem)
    requires AllVersions(s) && forall j, k :: 0 <= j < k < |s.versions| ==> s.versions[j].line < s.versions[k].line
    ensures Times(Finished(s), p) == Times(s.problems, p) + Once(
      || Unentered(s, p)
      || (exists k :: 0 <= k < |s.versions| && OrderBad(s.versions, s.labels, k, p))
      || (s.unreleased.None? && p == Problem(1, MissingUnreleased))
      || (s.unreleased.Some? && UNRELEASED_LABEL !in s.labels && p == Problem(s.unreleased.value + 1, UnreleasedWithoutLink)))
  {
    hide IsVersion, VersionKey, KeyLess, Lowered;
    Closes(s, p);
    var t := CloseType(s);
    assert t.versions == s.versions && t.labels == s.labels && t.unreleased == s.unreleased && AllVersions(t);
    OrderAdds(t, |t.versions|, p);
    hide OrderBad, CloseType, SeeOrder, Unentered;
  }

  /** Said of the lines: the versions' problems. */
  lemma OrderIs(lines: seq<string>, vs: seq<ListedVersion>, labels: set<string>, p: Problem)
    requires Lists(lines, vs, |lines|) && (forall x :: x in labels <==> HasLink(lines, x, |lines|))
    requires forall i :: 0 <= i < |vs| ==> IsVersion(vs[i].version)
    ensures (exists k :: 0 <= k < |vs| && OrderBad(vs, labels, k, p)) <==>
      1 <= p.line <= |lines| && !Fenced(lines, p.line - 1) && (p.kind == VersionOrder || p.kind == VersionWithoutLink)
      && LineViolates(lines, p.line - 1, p.kind)
  {
    hide HasLink, Lowered, VersionKey, KeyLess, IsVersion, VersionAbove, LineViolates, IsVersionHeading, Lists, OrderBad;
    if k :| 0 <= k < |vs| && OrderBad(vs, labels, k, p) { ListedBad(lines, vs, labels, k, p); }
    if 1 <= p.line <= |lines| && HeadsVersion(lines, p.line - 1) && !Fenced(lines, p.line - 1) {
      var k := ListedAt(lines, vs, p.line - 1);
      ListedBad(lines, vs, labels, k, p);
    }
    if 1 <= p.line <= |lines| && !Fenced(lines, p.line - 1) && (p.kind == VersionOrder || p.kind == VersionWithoutLink) {
      VersionViolates(lines, p.line - 1, p.kind);
    }
  }

  lemma ListedAt(lines: seq<string>, vs: seq<ListedVersion>, i: nat) returns (k: nat)
    requires Lists(lines, vs, |lines|) && i < |lines| && HeadsVersion(lines, i)
    ensures k < |vs| && vs[k].line == i
  {
    k :| 0 <= k < |vs| && vs[k].line == i;
  }

  lemma VersionViolates(lines: seq<string>, i: nat, kind: Kind)
    requires i < |lines| && !Fenced(lines, i) && (kind == VersionOrder || kind == VersionWithoutLink)
    ensures LineViolates(lines, i, kind) ==> HeadsVersion(lines, i)
  {
  }

  lemma ListedBad(lines: seq<string>, vs: seq<ListedVersion>, labels: set<string>, k: nat, p: Problem)
    requires Lists(lines, vs, |lines|) && (forall x :: x in labels <==> HasLink(lines, x, |lines|)) && k < |vs|
    requires forall i :: 0 <= i < |vs| ==> IsVersion(vs[i].version)
    ensures vs[k].line < |lines| && HeadsVersion(lines, vs[k].line)
    ensures OrderBad(vs, labels, k, p) <==>
      p.line == vs[k].line + 1 && (p.kind == VersionOrder || p.kind == VersionWithoutLink)
      && LineViolates(lines, vs[k].line, p.kind)
  {
    hide HasLink, Lowered, VersionKey, KeyLess, IsVersion, VersionAbove, Lists, VersionAt, IsVersionHeading, Fenced;
    ListedBefore(lines, vs, k);
    ListedOne(lines, vs, k);
    if k > 0 { ListedOne(lines, vs, k - 1); }
  }

  lemma ListedOne(lines: seq<string>, vs: seq<ListedVersion>, k: nat)
    requires Lists(lines, vs, |lines|) && k < |vs|
    ensures vs[k].line < |lines| && HeadsVersion(lines, vs[k].line) && vs[k].version == VersionAt(lines, vs[k].line)
  {
  }

  // ----- What the check reports

  /** The violations, by when they are reported. */
  ghost predicate Reported(lines: seq<string>, p: Problem) {
    var n, last := |lines|, UnreleasedAbove(lines, |lines|);
    || (p.line == 1 && (p.kind == NoTitle || p.kind == NoSpecification) && n > 0 && Violates(lines, 0, p.kind))
    || MetAbove(lines, n, p)
    || (p.kind == EmptyType && 1 <= p.line <= n && HeadsType(lines, p.line - 1) && !HasEntry(lines, p.line - 1, n))
    || (1 <= p.line <= n && !Fenced(lines, p.line - 1) && (p.kind == VersionOrder || p.kind == VersionWithoutLink)
        && LineViolates(lines, p.line - 1, p.kind))
    || (last == -1 && p == Problem(1, MissingUnreleased))
    || (last != -1 && !HasLink(lines, UNRELEASED_LABEL, n) && p == Problem(last + 1, UnreleasedWithoutLink))
  }

  lemma ReportedIff(lines: seq<string>, p: Problem)
    requires lines != []
    ensures Reported(lines, p) <==> 1 <= p.line <= |lines| && Violates(lines, p.line - 1, p.kind)
  {
    DeferredEntry(lines, p);
    if 1 <= p.line <= |lines| && !Fenced(lines, p.line - 1) { WholeKinds(lines, p.line - 1, p.kind); }
    hide LineViolates, HasLink, HasEntry, Fenced, HeadsType, Mentions, Preamble;
  }

  lemma WholeKinds(lines: seq<string>, i: nat, kind: Kind)
    requires i < |lines| && !Fenced(lines, i)
    ensures kind == NoTitle || kind == NoSpecification || kind == MissingUnreleased || kind == UnreleasedWithoutLink ==>
      !LineViolates(lines, i, kind)
  {
  }

  /** The check reports a problem at a line, once, exactly when the changelog has it there. */
  lemma ProblemsAre(lines: seq<string>, p: Problem)
    requires lines != []
    ensures multiset(CheckLines(lines))[p] == if 1 <= p.line <= |lines| && Violates(lines, p.line - 1, p.kind) then 1 else 0
    ensures p in CheckLines(lines) <==> 1 <= p.line <= |lines| && Violates(lines, p.line - 1, p.kind)
  {
    hide Fenced, LineViolates, HasLink, HasEntry, Violates, HeadsType, MetAbove, UnreleasedAbove, CheckLines, Once;
    var atFirst, met, ended, unentered, order, missing, unlinked := CountIs(lines, p);
    ReportedIff(lines, p);
    MetKinds(lines, |lines|, p);
    OnlyOne(p.kind, atFirst, met, ended, unentered, order, missing, unlinked);
    OnceIs(atFirst || met || ended || unentered || order || missing || unlinked);
    assert p in CheckLines(lines) <==> multiset(CheckLines(lines))[p] > 0;
  }

  lemma OnceIs(b: bool)
    ensures Once(b) == if b then 1 else 0
  {
  }

  lemma OnlyOne(kind: Kind, atFirst: bool, met: bool, ended: bool, unentered: bool, order: bool, missing: bool, unlinked: bool)
    requires atFirst ==> kind == NoTitle || kind == NoSpecification
    requires met ==> !Deferred(kind) && kind != NoTitle && kind != NoSpecification && kind != MissingUnreleased
                     && kind != UnreleasedWithoutLink
    requires (ended || unentered ==> kind == EmptyType) && !(ended && unentered)
    requires order ==> kind == VersionOrder || kind == VersionWithoutLink
    requires (missing ==> kind == MissingUnreleased) && (unlinked ==> kind == UnreleasedWithoutLink)
    ensures Once(atFirst) + Once(met || ended) + Once(unentered || order || missing || unlinked) ==
      Once(atFirst || met || ended || unentered || order || missing || unlinked)
  {
  }

  /** How often the problem is reported, by when. */
  lemma CountIs(lines: seq<string>, p: Problem)
    returns (atFirst: bool, met: bool, ended: bool, unentered: bool, order: bool, missing: bool, unlinked: bool)
    requires lines != []
    ensures multiset(CheckLines(lines))[p] ==
      Once(atFirst) + Once(met || ended) + Once(unentered || order || missing || unlinked)
    ensures atFirst <==> p.line == 1 && (p.kind == NoTitle || p.kind == NoSpecification) && Violates(lines, 0, p.kind)
    ensures met <==> MetAbove(lines, |lines|, p)
    ensures ended || unentered <==>
      p.kind == EmptyType && 1 <= p.line <= |lines| && HeadsType(lines, p.line - 1) && !HasEntry(lines, p.line - 1, |lines|)
    ensures !(ended && unentered)
    ensures order <==>
      1 <= p.line <= |lines| && !Fenced(lines, p.line - 1) && (p.kind == VersionOrder || p.kind == VersionWithoutLink)
      && LineViolates(lines, p.line - 1, p.kind)
    ensures missing <==> UnreleasedAbove(lines, |lines|) == -1 && p == Problem(1, MissingUnreleased)
    ensures unlinked <==>
      UnreleasedAbove(lines, |lines|) != -1 && !HasLink(lines, UNRELEASED_LABEL, |lines|)
      && p == Problem(UnreleasedAbove(lines, |lines|) + 1, UnreleasedWithoutLink)
  {
    var n := |lines|;
    var s := Seen(lines, n);
    hide Seen, Fenced, LineViolates, HasLink, Lists, IsVersion, VersionKey, KeyLess, Finished, OrderBad, Mentions, Preamble,
         HasEntry, TypeAbove, Violates, HeadsType, MetAbove, EndedEmpty, Unentered, InSection, NamedAbove, UnreleasedAbove,
         Once, CheckLines, AllVersions;
    CheckIs(lines);
    SeenLists(lines, n);
    ListsDown(lines, s.versions);
    VersionsAll(s);
    FinishAdds(s, p);
    SeenAdds(lines, n, p);
    OpenedAdds(lines, p);
    SeenListed(lines, n);
    OrderIs(lines, s.versions, s.labels, p);
    LastIsUnentered(lines, s, p);
    atFirst := p.line == 1 && (p.kind == NoTitle || p.kind == NoSpecification) && Violates(lines, 0, p.kind);
    met := MetAbove(lines, n, p);
    ended := p.kind == EmptyType && EndedEmpty(lines, p.line - 1, n);
    unentered := Unentered(s, p);
    order := exists k :: 0 <= k < |s.versions| && OrderBad(s.versions, s.labels, k, p);
    missing := s.unreleased.None? && p == Problem(1, MissingUnreleased);
    unlinked := s.unreleased.Some? && UNRELEASED_LABEL !in s.labels && p == Problem(s.unreleased.value + 1, UnreleasedWithoutLink);
  }

  lemma VersionsAll(s: Findings)
    requires AllVersions(s)
    ensures forall i :: 0 <= i < |s.versions| ==> IsVersion(s.versions[i].version)
  {
  }

  lemma CheckIs(lines: seq<string>)
    requires lines != []
    ensures AllVersions(Seen(lines, |lines|)) && CheckLines(lines) == Finished(Seen(lines, |lines|))
  {
    hide Finished, Seen;
    SeenVersions(lines, |lines|);
  }

  /** What is reported when its line is met is reported at no other time. */
  lemma MetKinds(lines: seq<string>, n: nat, p: Problem)
    requires n <= |lines|
    ensures MetAbove(lines, n, p) ==>
      !Deferred(p.kind) && p.kind != NoTitle && p.kind != NoSpecification && p.kind != MissingUnreleased
      && p.kind != UnreleasedWithoutLink
  {
    hide LineViolates, Fenced;
    if MetAbove(lines, n, p) { WholeKinds(lines, p.line - 1, p.kind); }
  }

  lemma ListsDown(lines: seq<string>, vs: seq<ListedVersion>)
    requires Lists(lines, vs, |lines|)
    ensures forall j, k :: 0 <= j < k < |vs| ==> vs[j].line < vs[k].line
  {
  }

  lemma LastIsUnentered(lines: seq<string>, s: Findings, p: Problem)
    requires Holds(lines, |lines|, s)
    ensures (p.kind == EmptyType && EndedEmpty(lines, p.line - 1, |lines|)) || Unentered(s, p) <==>
      p.kind == EmptyType && 1 <= p.line <= |lines| && HeadsType(lines, p.line - 1) && !HasEntry(lines, p.line - 1, |lines|)
    ensures !(EndedEmpty(lines, p.line - 1, |lines|) && Unentered(s, p)) && (Unentered(s, p) ==> p.kind == EmptyType)
  {
    TypeAboveHeads(lines, |lines|);
    hide HasEntry, TypeAbove, HeadsType, InSection, NamedAbove, UnreleasedAbove;
  }

  lemma DeferredEntry(lines: seq<string>, p: Problem)
    ensures 1 <= p.line <= |lines| && p.kind == EmptyType ==>
      (HeadsType(lines, p.line - 1) && !HasEntry(lines, p.line - 1, |lines|) <==>
       !Fenced(lines, p.line - 1) && LineViolates(lines, p.line - 1, EmptyType))
  {
    hide HasEntry, Fenced, TypeHeading;
  }

  // ----- And nothing exactly for well-formed lines

  lemma {:induction false} UnreleasedAboveHeads(lines: seq<string>, n: nat)
    requires n <= |lines|
    ensures UnreleasedAbove(lines, n) != -1 ==> HeadsUnreleased(lines, UnreleasedAbove(lines, n))
    ensures forall i :: UnreleasedAbove(lines, n) < i < n ==> !HeadsUnreleased(lines, i)
  {
    hide Fenced;
    if n > 0 { UnreleasedAboveHeads(lines, n - 1); }
  }

  lemma {:induction false} SectionAboveHeads(lines: seq<string>, n: nat)
    requires n <= |lines|
    ensures var h := SectionAbove(lines, n); h != -1 ==> !Fenced(lines, h) && SectionHeading(lines[h])
  {
    hide Fenced, SectionHeading;
    if n > 0 { SectionAboveHeads(lines, n - 1); }
  }

  lemma {:induction false} VersionAboveIsLast(lines: seq<string>, n: nat)
    requires n <= |lines|
    ensures forall i :: VersionAbove(lines, n) < i < n ==> !HeadsVersion(lines, i)
  {
    hide HeadsVersion;
    if n > 0 { VersionAboveIsLast(lines, n - 1); }
  }

  /** Each version is older than the one above it. */
  ghost predicate EachOlder(lines: seq<string>) {
    forall i :: 0 <= i < |lines| && HeadsVersion(lines, i) && VersionAbove(lines, i) != -1 ==>
      KeyLess(VersionKey(VersionAt(lines, i)), VersionKey(VersionAt(lines, VersionAbove(lines, i))))
  }

  lemma {:induction false} OlderPairs(lines: seq<string>, i: nat, j: nat)
    requires EachOlder(lines) && i < j < |lines| && HeadsVersion(lines, i) && HeadsVersion(lines, j)
    ensures KeyLess(VersionKey(VersionAt(lines, j)), VersionKey(VersionAt(lines, i)))
    decreases j
  {
    hide HeadsVersion, VersionKey, VersionAt;
    VersionAboveIsLast(lines, j);
    var m := VersionAbove(lines, j);
    if i < m { OlderPairs(lines, i, m); }
  }

  /** Each version is older than the one above it exactly when of any two the upper is the newer. */
  lemma NewestFirstIff(lines: seq<string>)
    ensures EachOlder(lines) <==> NewestFirst(lines)
  {
    hide HeadsVersion, VersionKey, VersionAt, KeyLess;
    if EachOlder(lines) {
      forall i, j | 0 <= i < j < |lines| && HeadsVersion(lines, i) && HeadsVersion(lines, j)
        ensures KeyLess(VersionKey(VersionAt(lines, j)), VersionKey(VersionAt(lines, i)))
      {
        OlderPairs(lines, i, j);
      }
    }
  }

  ghost predicate Violated(lines: seq<string>) {
    exists i, kind :: 0 <= i < |lines| && Violates(lines, i, kind)
  }

  lemma FirstUnreleased(lines: seq<string>, i: nat)
    requires i < |lines| && HeadsUnreleased(lines, i) && i == FirstSection(lines)
    ensures UnreleasedAbove(lines, i) == -1
  {
    HeadingHeads();
    UnreleasedAboveHeads(lines, i);
    hide Fenced, UnreleasedAbove;
  }

  /** Well-formed lines have nothing wrong on any of them, */
  lemma WellFormedLine(lines: seq<string>, i: nat, kind: Kind)
    requires lines != [] && WellFormed(lines) && i < |lines| && !Fenced(lines, i)
    ensures !LineViolates(lines, i, kind)
  {
    NewestFirstIff(lines);
    KindsDiffer(lines[i]);
    VersionHeads(lines[i]);
    SectionAboveHeads(lines, i);
    var h := SectionAbove(lines, i);
    hide Fenced, TypeHeading, EntryLine, LinkDefinition, IsVersionHeading, NamedAbove, HasEntry, HasLink, VersionKey, KeyLess,
         VersionAt, TypeAbove, SectionAbove, VersionAbove, UnreleasedAbove, GoodLink, NewestFirst, HeaderOk, TypeName;
    assert Rule(lines, i) && (h != -1 ==> Rule(lines, h));
    if lines[i] == UNRELEASED_HEADING { FirstUnreleased(lines, i); }
    DatedHeads(lines[i]);
    if h != -1 { DatedHeads(lines[h]); }
  }

  lemma DatedHeads(line: string)
    ensures DatedVersion(line) ==> IsVersionHeading(line)
  {
  }

  /** and lines with nothing wrong satisfy their rules. */
  lemma LineUnviolated(lines: seq<string>, i: nat, kind: Kind)
    requires i < |lines| && !Fenced(lines, i) && !Violated(lines)
    ensures !LineViolates(lines, i, kind)
  {
    if LineViolates(lines, i, kind) { LineIsViolated(lines, i, kind); }
  }

  lemma LineIsViolated(lines: seq<string>, i: nat, kind: Kind)
    requires i < |lines| && !Fenced(lines, i) && LineViolates(lines, i, kind)
    ensures Violated(lines)
  {
    WholeKinds(lines, i, kind);
    hide LineViolates;
    assert Violates(lines, i, kind);
  }

  lemma UnviolatedUnreleased(lines: seq<string>, i: nat)
    requires i < |lines| && !Fenced(lines, i) && !Violated(lines) && lines[i] == UNRELEASED_HEADING
    ensures i == FirstSection(lines)
  {
    hide Fenced, FirstSection, SectionHeading, TypeHeading, EntryLine, LinkDefinition, IsVersionHeading, NamedAbove, HasEntry, HasLink,
         VersionKey, KeyLess, VersionAt, TypeAbove, SectionAbove, VersionAbove, UnreleasedAbove, GoodLink, TypeName, Violated;
    LineUnviolated(lines, i, DuplicateUnreleased);
    LineUnviolated(lines, i, UnreleasedNotFirst);
  }

  lemma UnviolatedDate(lines: seq<string>, i: nat)
    requires i < |lines| && !Fenced(lines, i) && !Violated(lines)
    requires SectionHeading(lines[i]) && lines[i] != UNRELEASED_HEADING
    ensures DatedVersion(lines[i])
  {
    hide Fenced, DatedVersion, SectionHeading, TypeHeading, EntryLine, LinkDefinition, IsVersionHeading, NamedAbove, HasEntry, HasLink,
         VersionKey, KeyLess, VersionAt, TypeAbove, SectionAbove, VersionAbove, UnreleasedAbove, GoodLink, TypeName, Violated;
    LineUnviolated(lines, i, BadVersionHeading);
    LineUnviolated(lines, i, NoDate);
  }

  lemma UnviolatedSection(lines: seq<string>, i: nat)
    requires i < |lines| && !Fenced(lines, i) && !Violated(lines)
    ensures SectionHeading(lines[i]) ==>
      if lines[i] == UNRELEASED_HEADING then i == FirstSection(lines) else DatedVersion(lines[i])
  {
    hide Fenced, SectionHeading, DatedVersion, Violated, FirstSection;
    if SectionHeading(lines[i]) {
      if lines[i] == UNRELEASED_HEADING { UnviolatedUnreleased(lines, i); } else { UnviolatedDate(lines, i); }
    }
  }

  lemma UnviolatedLink(lines: seq<string>, i: nat)
    requires i < |lines| && !Fenced(lines, i) && !Violated(lines)
    ensures GoodLink(lines[i]) && !("#### " <= lines[i])
  {
    hide Fenced, GoodLink, Violated;
    LineUnviolated(lines, i, BadUnreleasedLink);
    LineUnviolated(lines, i, NotABullet);
  }

  lemma UnviolatedType(lines: seq<string>, i: nat)
    requires i < |lines| && !Fenced(lines, i) && !Violated(lines)
    ensures TypeHeading(lines[i]) ==>
      && SectionAbove(lines, i) != -1 && TypeName(lines[i]) in CHANGE_TYPES && !NamedAbove(lines, TypeName(lines[i]), i)
      && HasEntry(lines, i, |lines|)
  {
    hide Fenced, SectionHeading, TypeHeading, EntryLine, LinkDefinition, IsVersionHeading, NamedAbove, HasEntry, HasLink,
         VersionKey, KeyLess, VersionAt, TypeAbove, SectionAbove, VersionAbove, UnreleasedAbove, GoodLink, TypeName, Violated;
    LineUnviolated(lines, i, TypeOutsideSection);
    LineUnviolated(lines, i, UnknownChangeType);
    LineUnviolated(lines, i, DuplicateType);
    LineUnviolated(lines, i, EmptyType);
  }

  lemma UnviolatedEntry(lines: seq<string>, i: nat)
    requires i < |lines| && !Fenced(lines, i) && !Violated(lines)
    ensures EntryLine(lines[i]) && SectionAbove(lines, i) != -1 ==> TypeAbove(lines, i) != -1
  {
    var h := SectionAbove(lines, i);
    SectionAboveHeads(lines, i);
    if h != -1 { UnviolatedSection(lines, h); }
    LineUnviolated(lines, i, Ungrouped);
    hide Fenced, SectionHeading, TypeHeading, EntryLine, LinkDefinition, IsVersionHeading, NamedAbove, HasEntry, HasLink,
         VersionKey, KeyLess, VersionAt, TypeAbove, SectionAbove, VersionAbove, UnreleasedAbove, GoodLink, TypeName, Violated;
  }

  lemma UnviolatedVersion(lines: seq<string>, i: nat)
    requires i < |lines| && !Fenced(lines, i) && !Violated(lines) && HeadsVersion(lines, i)
    ensures HasLink(lines, Lowered(VersionAt(lines, i)), |lines|)
    ensures VersionAbove(lines, i) != -1 ==>
      KeyLess(VersionKey(VersionAt(lines, i)), VersionKey(VersionAt(lines, VersionAbove(lines, i))))
  {
    hide Fenced, SectionHeading, TypeHeading, EntryLine, LinkDefinition, IsVersionHeading, NamedAbove, HasEntry, HasLink,
         VersionKey, KeyLess, VersionAt, TypeAbove, SectionAbove, VersionAbove, UnreleasedAbove, GoodLink, TypeName, Violated;
    LineUnviolated(lines, i, VersionOrder);
    LineUnviolated(lines, i, VersionWithoutLink);
  }

  lemma UnviolatedRule(lines: seq<string>, i: nat)
    requires i < |lines| && !Fenced(lines, i) && !Violated(lines)
    ensures Rule(lines, i)
    ensures HeadsType(lines, i) ==> HasEntry(lines, i, |lines|)
    ensures HeadsVersion(lines, i) ==>
      HasLink(lines, Lowered(VersionAt(lines, i)), |lines|)
      && (VersionAbove(lines, i) != -1 ==>
            KeyLess(VersionKey(VersionAt(lines, i)), VersionKey(VersionAt(lines, VersionAbove(lines, i)))))
  {
    hide Fenced, SectionHeading, TypeHeading, EntryLine, LinkDefinition, IsVersionHeading, NamedAbove, HasEntry, HasLink,
         VersionKey, KeyLess, VersionAt, TypeAbove, SectionAbove, VersionAbove, UnreleasedAbove, GoodLink, TypeName, Violated;
    UnviolatedLink(lines, i);
    UnviolatedSection(lines, i);
    UnviolatedType(lines, i);
    UnviolatedEntry(lines, i);
    if HeadsVersion(lines, i) { UnviolatedVersion(lines, i); }
  }

  /** The check reports nothing exactly for well-formed lines. */
  lemma CheckIff(lines: seq<string>)
    requires lines != []
    ensures CheckLines(lines) == [] <==> WellFormed(lines)
  {
    NothingIff(lines);
    if WellFormed(lines) { WellFormedUnviolated(lines); }
    if !Violated(lines) { UnviolatedWellFormed(lines); }
  }

  lemma NothingIff(lines: seq<string>)
    requires lines != []
    ensures CheckLines(lines) == [] <==> !Violated(lines)
  {
    hide CheckLines, Violates;
    if CheckLines(lines) != [] {
      ProblemsAre(lines, CheckLines(lines)[0]);
      assert CheckLines(lines)[0] in CheckLines(lines);
    }
    if i, kind :| 0 <= i < |lines| && Violates(lines, i, kind) { ProblemsAre(lines, Problem(i + 1, kind)); }
  }

  lemma WellFormedUnviolated(lines: seq<string>)
    requires lines != [] && WellFormed(lines)
    ensures !Violated(lines)
  {
    hide LineViolates, Rule, Fenced, HasEntry, HeadsType, HeadsVersion, HasLink, Mentions, NewestFirst;
    UnreleasedAboveHeads(lines, |lines|);
    forall i, kind | 0 <= i < |lines| ensures !Violates(lines, i, kind) {
      if !Fenced(lines, i) { WellFormedLine(lines, i, kind); }
    }
  }

  lemma UnviolatedWellFormed(lines: seq<string>)
    requires lines != [] && !Violated(lines)
    ensures WellFormed(lines)
  {
    hide LineViolates, Rule, Fenced, HasEntry, HasLink, Mentions, VersionKey, KeyLess;
    assert !Violates(lines, 0, NoTitle) && !Violates(lines, 0, NoSpecification) && !Violates(lines, 0, MissingUnreleased);
    UnreleasedAboveHeads(lines, |lines|);
    var last := UnreleasedAbove(lines, |lines|);
    assert !Violates(lines, last, UnreleasedWithoutLink);
    hide Violates, Violated;
    forall i | 0 <= i < |lines| && !Fenced(lines, i)
      ensures Rule(lines, i) && (HeadsType(lines, i) ==> HasEntry(lines, i, |lines|))
      ensures HeadsVersion(lines, i) ==>
        HasLink(lines, Lowered(VersionAt(lines, i)), |lines|)
        && (VersionAbove(lines, i) != -1 ==>
              KeyLess(VersionKey(VersionAt(lines, i)), VersionKey(VersionAt(lines, VersionAbove(lines, i)))))
    {
      UnviolatedRule(lines, i);
    }
    NewestFirstIff(lines);
  }

  lemma MentionsIff(s: string, word: string)
    ensures Mentions(s, word) <==> exists before, after :: s == before + word + after
  {
    if i :| 0 <= i <= |s| && StandsAt(s, i, word) {
      assert s == s[..i] + word + s[i + |word|..];
    }
    if before, after :| s == before + word + after {
      assert s[|before|..|before| + |word|] == word;
      assert StandsAt(s, |before|, word);
    }
  }

  /** The specification is looked for in the lines above the first section, in all of them without one. */
  lemma PreambleIs(lines: seq<string>) returns (n: nat)
    ensures n <= |lines| && Preamble(lines) == lines[..n]
    ensures forall i :: 0 <= i < n ==> Fenced(lines, i) || !("## " <= lines[i])
    ensures n < |lines| ==> !Fenced(lines, n) && "## " <= lines[n]
  {
    hide Fenced;
    n := if FirstSection(lines) == -1 then |lines| else FirstSection(lines);
  }
}
