/** Rendering the Unreleased section, rolling it into a dated version, and extracting a version's section. */
module ChangelogRelease {
  import opened Options
  import opened ChangelogText
  import opened ChangelogSections
  import opened ChangelogEntries
  import opened ChangelogFold
  import opened ChangelogFoldTwice

  datatype ReleaseError = FoldFailed(error: FoldError) | NoUnreleased | AlreadyReleased | NothingToRelease
    | NoDefinition | NotAComparison | NoSuchVersion

  datatype Release<+T> = Done(value: T) | Failed(error: ReleaseError)

  function StripNewlines(s: string): string {
    StripEndNewlines(StripStartNewlines(s))
  }

  /** The text under a heading. */
  function SectionBody(lines: seq<string>, heading: nat): string
    requires heading < |lines|
  {
    var body := StripNewlines(Join(SectionLines(lines, heading)));
    if body == "" then "" else body + "\n"
  }

  function Render(source: string, fragments: seq<Fragment>): Release<string> {
    match FoldText(source, fragments)
    case Err(error) => Failed(FoldFailed(error))
    case Ok(folded) =>
      var lines := Document(folded);
      var h := HeadingIndex(lines);
      if h == -1 then Failed(NoUnreleased) else Done(SectionBody(lines, h))
  }

  function Extract(source: string, version: string): Release<string> {
    var lines := Document(source);
    var i := VersionIndex(lines, version);
    if i == -1 then Failed(NoSuchVersion) else Done(SectionBody(lines, i))
  }

  /** What follows the definition's colon and space. */
  function DefinedUrl(line: string): string
    requires UnreleasedDefinition(line)
  {
    line[14..]
  }

  function NewUnreleased(base: string, version: string): string {
    "[Unreleased]: " + base + "/compare/v" + version + "...HEAD"
  }

  function NewDefinition(base: string, previous: string, version: string): string {
    "[" + version + "]: " + base + "/compare/" + previous + "...v" + version
  }

  function NewHeading(version: string, date: string): string {
    "## [" + version + "] - " + date
  }

  function OpeningLines(version: string, date: string): seq<string> {
    [UNRELEASED_HEADING, "", UNRELEASED_COMMENT, "", NewHeading(version, date)]
  }

  /** Line `i` replaced by `instead`. */
  function Spliced(lines: seq<string>, i: nat, instead: seq<string>): seq<string>
    requires i < |lines|
  {
    lines[..i] + instead + lines[i + 1..]
  }

  /** The definition is replaced first, then whatever line stands at the heading's old position. */
  function Rolled(lines: seq<string>, h: nat, d: nat, c: Comparison, version: string, date: string): seq<string>
    requires h < |lines| && d < |lines|
  {
    var links := Spliced(lines, d, [NewUnreleased(c.base, version), NewDefinition(c.base, c.previous, version)]);
    Spliced(links, h, OpeningLines(version, date))
  }

  function HasEntries(lines: seq<string>, h: nat): bool
    requires h < |lines|
  {
    First(lines, EntryLine, h + 1, SectionEnd(lines, h)) != -1
  }

  function DefinitionIndex(lines: seq<string>): int {
    First(lines, UnreleasedDefinition, 0, |lines|)
  }

  /** The folded lines after the roll, or why there is none. */
  function RollFolded(lines: seq<string>, version: string, date: string, allowEmpty: bool): Release<seq<string>> {
    var h := HeadingIndex(lines);
    if h == -1 then Failed(NoUnreleased)
    else if !HasEntries(lines, h) && !allowEmpty then Failed(NothingToRelease)
    else
      var d := DefinitionIndex(lines);
      if d == -1 then Failed(NoDefinition)
      else
        match UnreleasedCompare(DefinedUrl(lines[d]))
        case None => Failed(NotAComparison)
        case Some(c) => Done(Rolled(lines, h, d, c, version, date))
  }

  function RollText(source: string, version: string, date: string, fragments: seq<Fragment>,
                    allowEmpty: bool): Release<string> {
    var lines := Document(source);
    if HeadingIndex(lines) == -1 then Failed(NoUnreleased)
    else if VersionIndex(lines, version) != -1 then Failed(AlreadyReleased)
    else
      match FoldText(source, fragments)
      case Err(error) => Failed(FoldFailed(error))
      case Ok(folded) =>
        match RollFolded(Document(folded), version, date, allowEmpty)
        case Failed(error) => Failed(error)
        case Done(rolled) => Done(Text(rolled))
  }

  method Roll(source: string, version: string, date: string, fragments: seq<Fragment>, allowEmpty: bool)
    returns (r: Release<string>)
    ensures r == RollText(source, version, date, fragments, allowEmpty)
  {
    hide Document, FoldText, UnreleasedDefinition, UnreleasedCompare, HasVersion, EntryLine, OpeningLines,
         NewUnreleased,
         NewDefinition, Fenced, First, SectionEnd;
    var before := Document(source);
    var fenced := MarkFenced(before);
    var found := Find(before, fenced, IsUnreleasedHeading, 0, |before|);
    if found == -1 { return Failed(NoUnreleased); }
    var existing := Find(before, fenced, line => HasVersion(version, line), 0, |before|);
    if existing != -1 { return Failed(AlreadyReleased); }

    var folded := Fold(source, fragments);
    if folded.Err? { return Failed(FoldFailed(folded.error)); }
    var lines := Document(folded.value);
    fenced := MarkFenced(lines);
    var h := Find(lines, fenced, IsUnreleasedHeading, 0, |lines|);
    if h == -1 { return Failed(NoUnreleased); }
    var end := FindSectionEnd(lines, fenced, h);
    var entry := Find(lines, fenced, EntryLine, h + 1, end);
    if entry == -1 && !allowEmpty { return Failed(NothingToRelease); }
    var d := Find(lines, fenced, UnreleasedDefinition, 0, |lines|);
    if d == -1 { return Failed(NoDefinition); }
    var compare := UnreleasedCompare(DefinedUrl(lines[d]));
    if compare.None? { return Failed(NotAComparison); }

    var base, previous := compare.value.base, compare.value.previous;
    var rolled := lines[..d] + [NewUnreleased(base, version), NewDefinition(base, previous, version)] + lines[d + 1..];
    rolled := rolled[..h] + OpeningLines(version, date) + rolled[h + 1..];
    r := Done(Text(rolled));
  }

  // ----- The lines a roll writes

  lemma VersionChars(v: string)
    requires IsVersion(v)
    ensures v != [] && IsDigit(v[0]) && forall c :: c in v ==> IsDigit(c) || c == '.'
  {
    var i := IndexOf(v, '.', 0);
    var j := IndexOf(v, '.', i + 1);
    assert v[..i][0] == v[0];
    forall k | 0 <= k < |v| ensures IsDigit(v[k]) || v[k] == '.' {
      if k < i {
        assert IsDigit(v[..i][k]);
      } else if i < k < j {
        assert IsDigit(v[i + 1..j][k - i - 1]);
      } else if j < k {
        assert IsDigit(v[j + 1..][k - j - 1]);
      }
    }
  }

  lemma DateChars(s: string)
    requires IsDate(s)
    ensures forall c :: c in s ==> IsDigit(c) || c == '-'
  {
    forall k | 0 <= k < |s| ensures IsDigit(s[k]) || s[k] == '-' {
      if k < 4 {
        assert IsDigit(s[..4][k]);
      } else if 4 < k < 7 {
        assert IsDigit(s[5..7][k - 5]);
      } else if 7 < k {
        assert IsDigit(s[8..][k - 8]);
      }
    }
  }

  lemma IndexOfIs(s: string, c: char, from: nat, k: nat)
    requires from <= k < |s| && s[k] == c && forall i :: from <= i < k ==> s[i] != c
    ensures IndexOf(s, c, from) == k
  {
  }

  lemma PlainStart(line: string)
    requires line != [] && !IsSpace(line[0]) && line[0] != '`' && line[0] != '~'
    ensures Delimiter(line) == Closed
  {
    assert SkipSpaces(line) == line;
  }

  /** The new heading is a dated heading of the version. */
  lemma NewHeadingReads(version: string, date: string)
    requires IsVersion(version) && IsDate(date)
    ensures VersionHeading(NewHeading(version, date)) == Some(Version(version, true))
  {
    hide IsVersion, IsDate;
    var line := NewHeading(version, date);
    VersionChars(version);
    DateLength(date);
    var k := 4 + |version|;
    assert line[..4] == "## [" && line[4..k] == version && line[k..k + 4] == "] - " && line[k + 4..] == date;
    assert line[k] == ']' by { assert line[k..k + 4][0] == line[k]; }
    forall i | 4 <= i < k ensures line[i] != ']' {
      assert line[4..k][i - 4] == line[i] && version[i - 4] in version;
    }
    IndexOfIs(line, ']', 4, k);
    var rest := line[k + 1..];
    assert rest == " - " + date;
    assert rest[3..13] == date && rest[13..] == "";
  }

  lemma DateLength(date: string)
    requires IsDate(date)
    ensures |date| == 10
  {
  }

  lemma NewHeadingPlain(version: string, date: string)
    requires IsVersion(version) && IsDate(date)
    ensures EndsSection(NewHeading(version, date)) && Delimiter(NewHeading(version, date)) == Closed
    ensures Clean(NewHeading(version, date))
  {
    var line := NewHeading(version, date);
    assert line[0] == '#' && line[..3] == "## ";
    PlainStart(line);
    VersionChars(version);
    DateChars(date);
  }

  lemma UnreleasedPlain()
    ensures Delimiter(UNRELEASED_HEADING) == Closed && EndsSection(UNRELEASED_HEADING) && Clean(UNRELEASED_HEADING)
    ensures VersionHeading(UNRELEASED_HEADING) == None
  {
    hide Delimiter, LinkDefinition, VersionHeading;
    assert UNRELEASED_HEADING[0] == '#' && UNRELEASED_HEADING[4] == 'U';
    HeadingClean();
    PlainStart(UNRELEASED_HEADING);
    NoVersionAt(UNRELEASED_HEADING);
  }

  lemma HeadingClean()
    ensures Clean(UNRELEASED_HEADING)
  {
    assert forall i :: 0 <= i < |UNRELEASED_HEADING| ==> UNRELEASED_HEADING[i] != '\n' && UNRELEASED_HEADING[i] != '\r';
  }

  lemma NoVersionAt(line: string)
    requires |line| > 4 && line[4] != ']' && !IsDigit(line[4])
    ensures VersionHeading(line) == None
  {
    hide IsVersion;
    var k := IndexOf(line, ']', 4);
    assert line[4..k][0] == line[4];
    NotAVersion(line[4..k]);
  }

  lemma NotAVersion(s: string)
    requires s != [] && !IsDigit(s[0])
    ensures !IsVersion(s)
  {
    var i := IndexOf(s, '.', 0);
    if i > 0 { assert s[..i][0] == s[0]; }
  }

  lemma CommentPlain()
    ensures Delimiter(UNRELEASED_COMMENT) == Closed && Clean(UNRELEASED_COMMENT)
    ensures VersionHeading(UNRELEASED_COMMENT) == None && !EndsSection(UNRELEASED_COMMENT)
  {
    CommentIs();
    AngleStart(UNRELEASED_COMMENT);
  }

  lemma CommentIs()
    ensures UNRELEASED_COMMENT != [] && UNRELEASED_COMMENT[0] == '<' && Clean(UNRELEASED_COMMENT)
  {
  }

  lemma AngleStart(line: string)
    requires line != [] && line[0] == '<'
    ensures Delimiter(line) == Closed && VersionHeading(line) == None && !EndsSection(line)
  {
    PlainStart(line);
  }

  // ----- The link definitions a roll writes

  predicate NoSpaces(s: string) {
    forall i :: 0 <= i < |s| ==> !IsSpace(s[i])
  }

  lemma CompareParts(url: string, c: Comparison)
    requires UnreleasedCompare(url) == Some(c)
    ensures url == c.base + COMPARE + c.previous + TO_HEAD && c.previous != []
  {
    var k := LastCompare(url, |url|).value;
    assert ComparesAt(url, k);
    assert url == url[..k] + url[k..k + |COMPARE|] + url[k + |COMPARE|..|url| - |TO_HEAD|] + url[|url| - |TO_HEAD|..];
  }

  /** The definition's label and URL, when it is a link definition as well. */
  lemma DefinitionParts(line: string)
    requires UnreleasedDefinition(line)
    ensures IndexOf(line, ']', 1) == 11 && line[0] == '['
    ensures LinkDefinition(line).Some? <==> 14 < |line| && NoSpaces(line[14..])
    ensures LinkDefinition(line).Some? ==> LinkDefinition(line).value == Link(line[1..11], line[14..])
  {
    forall i | 1 <= i < 11 ensures line[i] != ']' {
      assert MatchesLetter(line[i - 1 + 1], UNRELEASED_LABEL[i - 1]);
    }
    assert line[11] == ']' by { assert line[11..14][0] == line[11]; }
    IndexOfIs(line, ']', 1, 11);
  }

  lemma NoSpacesConcat(a: string, b: string)
    ensures NoSpaces(a + b) <==> NoSpaces(a) && NoSpaces(b)
  {
    if NoSpaces(a + b) {
      forall i | 0 <= i < |a| ensures !IsSpace(a[i]) { assert (a + b)[i] == a[i]; }
      forall i | 0 <= i < |b| ensures !IsSpace(b[i]) { assert (a + b)[|a| + i] == b[i]; }
    }
  }

  lemma CleanParts(a: string, b: string)
    ensures Clean(a + b) <==> Clean(a) && Clean(b)
  {
    assert forall c :: c in a + b <==> c in a || c in b;
  }

  /** A line that starts with a bracket can only be a link definition. */
  lemma BracketPlain(line: string)
    requires line != [] && line[0] == '['
    ensures Delimiter(line) == Closed && VersionHeading(line) == None && (EndsSection(line) <==> LinkDefinition(line).Some?)
  {
    hide LinkDefinition;
    PlainStart(line);
  }

  lemma LinkLineAt(line: string, k: nat)
    requires 2 <= k < |line| - 3 && line[0] == '[' && line[k..k + 3] == "]: " && forall i :: 1 <= i < k ==> line[i] != ']'
    ensures LinkDefinition(line) == if NoSpaces(line[k + 3..]) then Some(Link(line[1..k], line[k + 3..])) else None
  {
    assert line[k] == ']' by { assert line[k..k + 3][0] == line[k]; }
    IndexOfIs(line, ']', 1, k);
  }

  lemma LinkLine(name: string, url: string)
    requires name != [] && ']' !in name && url != []
    ensures LinkDefinition("[" + name + "]: " + url) == if NoSpaces(url) then Some(Link(name, url)) else None
    ensures EndsSection("[" + name + "]: " + url) <==> NoSpaces(url)
    ensures Delimiter("[" + name + "]: " + url) == Closed
    ensures VersionHeading("[" + name + "]: " + url) == None
  {
    hide LinkDefinition, EndsSection, Delimiter, VersionHeading, NoSpaces;
    var line := "[" + name + "]: " + url;
    var k := 1 + |name|;
    assert line[0] == '[' && line[1..k] == name && line[k..k + 3] == "]: " && line[k + 3..] == url;
    forall i | 1 <= i < k ensures line[i] != ']' {
      assert line[1..k][i - 1] == line[i] && name[i - 1] in name;
    }
    LinkLineAt(line, k);
    BracketPlain(line);
  }

  lemma ComparesAtBase(base: string, rest: string)
    requires |rest| > |TO_HEAD|
    ensures ComparesAt(base + COMPARE + rest, |base|)
  {
    var url := base + COMPARE + rest;
    assert url[|base|..|base| + |COMPARE|] == COMPARE;
  }

  lemma NewUnreleasedReads(base: string, version: string)
    requires IsVersion(version)
    ensures var url := base + COMPARE + ("v" + version + TO_HEAD);
      NewUnreleased(base, version) == "[Unreleased]: " + url && (NoSpaces(url) <==> NoSpaces(base))
      && LinkDefinition(NewUnreleased(base, version)) == (if NoSpaces(base) then Some(Link("Unreleased", url)) else None)
      && UnreleasedCompare(url).Some?
  {
    hide LinkDefinition, EndsSection, Delimiter, VersionHeading, NoSpaces, IsVersion;
    var rest := "v" + version + TO_HEAD;
    var url := base + COMPARE + rest;
    VersionNoSpaces(version);
    NoSpacesConcat("v" + version, TO_HEAD);
    NoSpacesConcat(base + COMPARE, rest);
    NoSpacesConcat(base, COMPARE);
    assert NewUnreleased(base, version) == "[Unreleased]: " + url;
    assert "[Unreleased]: " == "[" + "Unreleased" + "]: ";
    LinkLine("Unreleased", url);
    Compares(base, rest);
  }

  lemma VersionNoSpaces(version: string)
    requires IsVersion(version)
    ensures NoSpaces("v" + version) && NoSpaces(COMPARE) && NoSpaces(TO_HEAD) && NoSpaces("...v" + version)
  {
    VersionChars(version);
    hide IsVersion;
    assert NoSpaces("v") && NoSpaces("...v");
    NoSpacesConcat("v", version);
    NoSpacesConcat("...v", version);
  }

  lemma Compares(base: string, rest: string)
    requires |rest| > |TO_HEAD| && rest[|rest| - |TO_HEAD|..] == TO_HEAD
    ensures UnreleasedCompare(base + COMPARE + rest).Some?
  {
    var url := base + COMPARE + rest;
    ComparesAtBase(base, rest);
    assert url[|url| - |TO_HEAD|..] == rest[|rest| - |TO_HEAD|..];
  }

  lemma NewDefinitionReads(base: string, previous: string, version: string)
    requires IsVersion(version)
    ensures LinkDefinition(NewDefinition(base, previous, version)).Some? <==> NoSpaces(base) && NoSpaces(previous)
    ensures LinkDefinition(NewDefinition(base, previous, version)).Some? ==>
      LinkDefinition(NewDefinition(base, previous, version)).value.name == version
  {
    VersionChars(version);
    hide LinkDefinition, EndsSection, Delimiter, VersionHeading, NoSpaces, IsVersion;
    var end := "...v" + version;
    var url := base + COMPARE + previous + end;
    assert NewDefinition(base, previous, version) == "[" + version + "]: " + url;
    VersionNoSpaces(version);
    NoSpacesConcat(base + COMPARE + previous, end);
    NoSpacesConcat(base + COMPARE, previous);
    NoSpacesConcat(base, COMPARE);
    LinkLine(version, url);
  }

  /** Whatever the URL holds, the two lines open no block and head no version. */
  lemma NewLinksPlain(base: string, previous: string, version: string)
    requires Clean(base) && Clean(previous) && IsVersion(version)
    ensures var l0, l1 := NewUnreleased(base, version), NewDefinition(base, previous, version);
      && l0 != [] && l0[0] == '[' && Delimiter(l0) == Closed && VersionHeading(l0) == None && Clean(l0)
      && l1 != [] && l1[0] == '[' && Delimiter(l1) == Closed && VersionHeading(l1) == None && Clean(l1)
  {
    hide IsVersion, Delimiter, VersionHeading, EndsSection, LinkDefinition;
    VersionClean(version);
    BracketPlain(NewUnreleased(base, version));
    BracketPlain(NewDefinition(base, previous, version));
    hide Clean;
    CleanParts("[Unreleased]: " + base + "/compare/v" + version, "...HEAD");
    CleanParts("[Unreleased]: " + base + "/compare/v", version);
    CleanParts("[Unreleased]: " + base, "/compare/v");
    CleanParts("[Unreleased]: ", base);
    CleanParts("[" + version + "]: " + base + "/compare/" + previous + "...v", version);
    CleanParts("[" + version + "]: " + base + "/compare/" + previous, "...v");
    CleanParts("[" + version + "]: " + base + "/compare/", previous);
    CleanParts("[" + version + "]: " + base, "/compare/");
    CleanParts("[" + version + "]: ", base);
    CleanParts("[" + version, "]: ");
    CleanParts("[", version);
  }

  lemma VersionClean(version: string)
    requires IsVersion(version)
    ensures Clean(version) && Clean("[Unreleased]: ") && Clean("/compare/v") && Clean("...HEAD") && Clean("[")
    ensures Clean("]: ") && Clean("/compare/") && Clean("...v")
  {
    VersionChars(version);
  }

  lemma ComparisonClean(line: string, c: Comparison)
    requires UnreleasedDefinition(line) && UnreleasedCompare(DefinedUrl(line)) == Some(c) && Clean(line)
    ensures Clean(c.base) && Clean(c.previous)
  {
    hide UnreleasedCompare;
    var url := DefinedUrl(line);
    CompareParts(url, c);
    assert forall x :: x in c.base ==> x in url;
    assert forall x :: x in c.previous ==> x in url;
    assert forall x :: x in url ==> x in line;
  }
}
