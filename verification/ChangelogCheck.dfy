/** The check of a changelog's structure. */
module ChangelogCheck {
  import opened Options
  import opened ChangelogText
  import opened ChangelogSections

  datatype Kind = NoTitle | NoSpecification | BadUnreleasedLink | DuplicateUnreleased | UnreleasedNotFirst
    | BadVersionHeading | NoDate | TypeOutsideSection | UnknownChangeType | DuplicateType | EmptyType | NotABullet
    | Ungrouped | VersionOrder | VersionWithoutLink | MissingUnreleased | UnreleasedWithoutLink

  datatype Problem = Problem(line: nat, kind: Kind)

  datatype OpenType = OpenType(name: string, line: nat, entries: nat)

  datatype ListedVersion = ListedVersion(version: string, line: nat)

  /** What a walk through the lines has found so far. */
  datatype Findings = Findings(problems: seq<Problem>, versions: seq<ListedVersion>, labels: set<string>,
                               unreleased: Option<nat>, section: Option<string>, types: set<string>,
                               open: Option<OpenType>)

  function Report(s: Findings, index: nat, kind: Kind): Findings {
    s.(problems := s.problems + [Problem(index + 1, kind)])
  }

  /** Reported when `bad`. */
  function ReportIf(s: Findings, bad: bool, index: nat, kind: Kind): Findings {
    if bad then Report(s, index, kind) else s
  }

  function CloseType(s: Findings): Findings {
    match s.open
    case Some(open) => ReportIf(s, open.entries == 0, open.line, EmptyType).(open := None)
    case None => s
  }

  function SeeLink(s: Findings, index: nat, link: Link): Findings {
    var name := Lowered(link.name);
    ReportIf(s.(labels := s.labels + {name}), name == UNRELEASED_LABEL && UnreleasedCompare(link.url).None?, index,
             BadUnreleasedLink)
  }

  function SeeUnreleased(s: Findings, index: nat, first: int): Findings {
    var t := if s.unreleased.Some? then Report(s, index, DuplicateUnreleased)
             else ReportIf(s, index != first, index, UnreleasedNotFirst);
    t.(unreleased := Some(index), section := Some("Unreleased"))
  }

  function SeeVersion(s: Findings, index: nat, line: string): Findings {
    match VersionHeading(line)
    case None => Report(s, index, BadVersionHeading).(section := None)
    case Some(v) =>
      var t := ReportIf(s, !v.dated, index, NoDate);
      t.(versions := t.versions + [ListedVersion(v.version, index)], section := Some(v.version))
  }

  function SeeSection(s: Findings, index: nat, line: string, first: int): Findings {
    var t := CloseType(s).(types := {});
    if line == UNRELEASED_HEADING then SeeUnreleased(t, index, first) else SeeVersion(t, index, line)
  }

  function SeeType(s: Findings, index: nat, name: string): Findings {
    var t := CloseType(s);
    var t := ReportIf(t, t.section.None?, index, TypeOutsideSection);
    var t := ReportIf(t, name !in CHANGE_TYPES, index, UnknownChangeType);
    var t := ReportIf(t, name in t.types, index, DuplicateType);
    t.(types := t.types + {name}, open := Some(OpenType(name, index, 0)))
  }

  function SeeEntry(s: Findings, index: nat): Findings {
    match s.open
    case Some(open) => s.(open := Some(open.(entries := open.entries + 1)))
    case None => ReportIf(s, s.section.Some?, index, Ungrouped)
  }

  /** One line outside code blocks; `first` is where the first section heading is. */
  function See(s: Findings, index: nat, line: string, first: int): Findings {
    if LinkDefinition(line).Some? then SeeLink(s, index, LinkDefinition(line).value)
    else if SectionHeading(line) then SeeSection(s, index, line, first)
    else if TypeHeading(line) then SeeType(s, index, TypeName(line))
    else if "#### " <= line then Report(s, index, NotABullet)
    else if EntryLine(line) then SeeEntry(s, index)
    else s
  }

  predicate StandsAt(s: string, i: nat, word: string) {
    i + |word| <= |s| && s[i..i + |word|] == word
  }

  predicate Mentions(s: string, word: string) {
    exists i :: 0 <= i <= |s| && StandsAt(s, i, word)
  }

  function FirstSection(lines: seq<string>): int {
    First(lines, SectionHeading, 0, |lines|)
  }

  function Preamble(lines: seq<string>): seq<string> {
    var first := FirstSection(lines);
    lines[..if first == -1 then |lines| else first]
  }

  function Opened(lines: seq<string>): Findings
    requires lines != []
  {
    var s := Findings([], [], {}, None, None, {}, None);
    var s := ReportIf(s, lines[0] != TITLE, 0, NoTitle);
    ReportIf(s, !Mentions(Join(Preamble(lines)), SPEC_SITE), 0, NoSpecification)
  }

  /** The findings after the first `n` lines. */
  function Seen(lines: seq<string>, n: nat): Findings
    requires lines != [] && n <= |lines|
  {
    if n == 0 then Opened(lines)
    else if Fenced(lines, n - 1) then Seen(lines, n - 1)
    else See(Seen(lines, n - 1), n - 1, lines[n - 1], FirstSection(lines))
  }

  /** Each version has a link, and is older than the one listed above it. */
  function SeeOrder(s: Findings, n: nat): Findings
    requires n <= |s.versions| && forall i :: 0 <= i < |s.versions| ==> IsVersion(s.versions[i].version)
    ensures SeeOrder(s, n).labels == s.labels && SeeOrder(s, n).unreleased == s.unreleased
  {
    if n == 0 then s
    else
      var t := SeeOrder(s, n - 1);
      var v := s.versions[n - 1];
      var t := ReportIf(t, n > 1 && !KeyLess(VersionKey(v.version), VersionKey(s.versions[n - 2].version)), v.line,
                        VersionOrder);
      ReportIf(t, Lowered(v.version) !in s.labels, v.line, VersionWithoutLink)
  }

  function Finished(s: Findings): seq<Problem>
    requires forall i :: 0 <= i < |s.versions| ==> IsVersion(s.versions[i].version)
  {
    var t := CloseType(s);
    var t := SeeOrder(t, |t.versions|);
    match t.unreleased
    case None => Report(t, 0, MissingUnreleased).problems
    case Some(line) => ReportIf(t, UNRELEASED_LABEL !in t.labels, line, UnreleasedWithoutLink).problems
  }

  ghost predicate AllVersions(s: Findings) {
    forall i :: 0 <= i < |s.versions| ==> IsVersion(s.versions[i].version)
  }

  lemma {:induction false} SeenVersions(lines: seq<string>, n: nat)
    requires lines != [] && n <= |lines|
    ensures AllVersions(Seen(lines, n))
  {
    hide See, AllVersions, Fenced, First;
    if n > 0 {
      SeenVersions(lines, n - 1);
      SeeKeepsVersions(Seen(lines, n - 1), n - 1, lines[n - 1], FirstSection(lines));
    } else {
      OpenedVersions(lines);
    }
  }

  lemma OpenedVersions(lines: seq<string>)
    requires lines != []
    ensures AllVersions(Opened(lines))
  {
  }

  lemma SeeKeepsVersions(s: Findings, index: nat, line: string, first: int)
    requires AllVersions(s)
    ensures AllVersions(See(s, index, line, first))
  {
    hide VersionHeading, LinkDefinition, IsVersion, EntryLine, TypeName, UnreleasedCompare, Lowered;
  }

  /** The problems of a changelog; none for a well-formed one. */
  function CheckLines(lines: seq<string>): seq<Problem>
    requires lines != []
  {
    SeenVersions(lines, |lines|);
    Finished(Seen(lines, |lines|))
  }

  function CheckText(source: string): seq<Problem> {
    CheckLines(Document(source))
  }

  // ----- The walk in place

  class Checker {
    const lines: seq<string>
    const fenced: seq<bool>
    var problems: seq<Problem>
    var versions: seq<ListedVersion>
    var labels: set<string>
    var unreleasedLine: Option<nat>
    var section: Option<string>
    var sectionTypes: set<string>
    var openType: Option<OpenType>

    ghost predicate Valid() {
      lines != [] && |fenced| == |lines| && forall i :: 0 <= i < |lines| ==> fenced[i] == Fenced(lines, i)
    }

    function Found(): Findings
      reads this
    {
      Findings(problems, versions, labels, unreleasedLine, section, sectionTypes, openType)
    }

    constructor (source: string)
      ensures Valid() && lines == Document(source) && Found() == Findings([], [], {}, None, None, {}, None)
    {
      var document := Document(source);
      var marks := MarkFenced(document);
      lines, fenced := document, marks;
      problems, versions, labels, unreleasedLine, section, sectionTypes, openType := [], [], {}, None, None, {}, None;
    }

    method Add(index: nat, kind: Kind)
      modifies `problems
      ensures Found() == Report(old(Found()), index, kind)
    {
      problems := problems + [Problem(index + 1, kind)];
    }

    method Close()
      modifies `problems, `openType
      ensures Found() == CloseType(old(Found()))
    {
      if openType.Some? && openType.value.entries == 0 {
        Add(openType.value.line, EmptyType);
      }
      openType := None;
    }

    method CheckLink(index: nat, link: Link)
      modifies `problems, `labels
      ensures Found() == SeeLink(old(Found()), index, link)
    {
      labels := labels + {Lowered(link.name)};
      if Lowered(link.name) == UNRELEASED_LABEL && UnreleasedCompare(link.url).None? {
        Add(index, BadUnreleasedLink);
      }
    }

    method CheckSectionHeading(index: nat, line: string, first: int)
      modifies this
      ensures Found() == SeeSection(old(Found()), index, line, first)
    {
      Close();
      sectionTypes := {};
      if line == UNRELEASED_HEADING {
        if unreleasedLine.Some? {
          Add(index, DuplicateUnreleased);
        } else if index != first {
          Add(index, UnreleasedNotFirst);
        }
        unreleasedLine, section := Some(index), Some("Unreleased");
        return;
      }
      var heading := VersionHeading(line);
      if heading.None? {
        Add(index, BadVersionHeading);
        section := None;
        return;
      }
      if !heading.value.dated {
        Add(index, NoDate);
      }
      versions := versions + [ListedVersion(heading.value.version, index)];
      section := Some(heading.value.version);
    }

    method CheckTypeHeading(index: nat, name: string)
      modifies this
      ensures Found() == SeeType(old(Found()), index, name)
    {
      Close();
      if section.None? { Add(index, TypeOutsideSection); }
      if name !in CHANGE_TYPES { Add(index, UnknownChangeType); }
      if name in sectionTypes { Add(index, DuplicateType); }
      sectionTypes := sectionTypes + {name};
      openType := Some(OpenType(name, index, 0));
    }

    method CheckEntry(index: nat)
      modifies `problems, `openType
      ensures Found() == SeeEntry(old(Found()), index)
    {
      if openType.Some? {
        openType := Some(openType.value.(entries := openType.value.entries + 1));
        return;
      }
      if section.Some? { Add(index, Ungrouped); }
    }

    method CheckLine(index: nat, line: string, first: int)
      modifies this
      ensures Found() == See(old(Found()), index, line, first)
    {
      var link := LinkDefinition(line);
      if link.Some? {
        CheckLink(index, link.value);
      } else if SectionHeading(line) {
        CheckSectionHeading(index, line, first);
      } else if TypeHeading(line) {
        CheckTypeHeading(index, TypeName(line));
      } else if "#### " <= line {
        Add(index, NotABullet);
      } else if EntryLine(line) {
        CheckEntry(index);
      }
    }

    method CheckVersions()
      requires AllVersions(Found())
      modifies `problems
      ensures Found() == SeeOrder(old(Found()), |old(versions)|)
    {
      for i := 0 to |versions|
        invariant versions == old(versions) && labels == old(labels)
        invariant Found() == SeeOrder(old(Found()), i)
      {
        var heading := versions[i];
        if i > 0 && !KeyLess(VersionKey(heading.version), VersionKey(versions[i - 1].version)) {
          Add(heading.line, VersionOrder);
        }
        if Lowered(heading.version) !in labels {
          Add(heading.line, VersionWithoutLink);
        }
      }
    }

    method Run() returns (found: seq<Problem>)
      requires Valid() && Found() == Findings([], [], {}, None, None, {}, None)
      modifies this
      ensures found == CheckLines(lines)
    {
      if lines[0] != TITLE { Add(0, NoTitle); }
      var first := Find(lines, fenced, SectionHeading, 0, |lines|);
      var preambleEnd := if first == -1 then |lines| else first;
      if !Mentions(Join(lines[..preambleEnd]), SPEC_SITE) { Add(0, NoSpecification); }
      for i := 0 to |lines|
        invariant Found() == Seen(lines, i)
      {
        if !fenced[i] { CheckLine(i, lines[i], first); }
      }
      Close();
      SeenVersions(lines, |lines|);
      CheckVersions();
      if unreleasedLine.None? {
        Add(0, MissingUnreleased);
      } else if UNRELEASED_LABEL !in labels {
        Add(unreleasedLine.value, UnreleasedWithoutLink);
      }
      found := problems;
    }
  }

  method Check(source: string) returns (problems: seq<Problem>)
    ensures problems == CheckText(source)
  {
    var checker := new Checker(source);
    DocumentShape(source);
    problems := checker.Run();
  }
}
