/** A changelog as text and as lines, and the line patterns its tools recognise. */
module ChangelogText {
  import opened Options

  const BOM := '\U{FEFF}'

  // ----- Lines

  function Split(s: string): (lines: seq<string>)
    ensures |lines| >= 1
  {
    if s == [] then [[]]
    else
      var rest := Split(s[1..]);
      if s[0] == '\n' then [[]] + rest else [[s[0]] + rest[0]] + rest[1..]
  }

  function Join(lines: seq<string>): string {
    if lines == [] then []
    else if |lines| == 1 then lines[0]
    else lines[0] + "\n" + Join(lines[1..])
  }

  function DropBom(s: string): string {
    if s != [] && s[0] == BOM then s[1..] else s
  }

  function CrLfToLf(s: string): string {
    if |s| >= 2 && s[0] == '\r' && s[1] == '\n' then "\n" + CrLfToLf(s[2..])
    else if s == [] then [] else [s[0]] + CrLfToLf(s[1..])
  }

  function CrToLf(s: string): string {
    if s == [] then [] else [if s[0] == '\r' then '\n' else s[0]] + CrToLf(s[1..])
  }

  function StripEndNewlines(s: string): string {
    if s != [] && s[|s| - 1] == '\n' then StripEndNewlines(s[..|s| - 1]) else s
  }

  function StripStartNewlines(s: string): string {
    if s != [] && s[0] == '\n' then StripStartNewlines(s[1..]) else s
  }

  /** A source file as lines. */
  function Document(source: string): seq<string> {
    Split(StripEndNewlines(CrToLf(CrLfToLf(DropBom(source)))))
  }

  /** Lines as a file. */
  function Text(lines: seq<string>): string {
    Join(lines) + "\n"
  }

  predicate Clean(line: string) {
    '\n' !in line && '\r' !in line
  }

  predicate AllClean(lines: seq<string>) {
    forall i :: 0 <= i < |lines| ==> Clean(lines[i])
  }

  predicate StartsWithBom(lines: seq<string>) {
    lines != [] && lines[0] != [] && lines[0][0] == BOM
  }

  /** Trailing empty lines are lost when a file is read back, save a single line. */
  function TrimEnd(lines: seq<string>): seq<string> {
    if |lines| > 1 && lines[|lines| - 1] == [] then TrimEnd(lines[..|lines| - 1]) else lines
  }

  lemma {:induction false} SplitJoin(lines: seq<string>)
    requires lines != [] && forall i :: 0 <= i < |lines| ==> '\n' !in lines[i]
    ensures Split(Join(lines)) == lines
  {
    if |lines| == 1 {
      SplitOneLine(lines[0]);
    } else {
      SplitJoin(lines[1..]);
      SplitFirstLine(lines[0], Join(lines[1..]));
      assert lines[0] + "\n" + Join(lines[1..]) == lines[0] + ("\n" + Join(lines[1..]));
    }
  }

  lemma {:induction false} SplitOneLine(s: string)
    requires '\n' !in s
    ensures Split(s) == [s]
  {
    if s != [] {
      SplitOneLine(s[1..]);
      assert Split(s) == [[s[0]] + s[1..]] + [];
      assert [s[0]] + s[1..] == s;
    }
  }

  lemma {:induction false} SplitFirstLine(s: string, rest: string)
    requires '\n' !in s
    ensures Split(s + ("\n" + rest)) == [s] + Split(rest)
  {
    var all := s + ("\n" + rest);
    if s == [] {
      assert all == "\n" + rest;
      assert all[0] == '\n' && all[1..] == rest;
      assert Split(all) == [[]] + Split(all[1..]);
    } else {
      SplitFirstLine(s[1..], rest);
      assert all[1..] == s[1..] + ("\n" + rest);
      assert all[0] == s[0] && all[0] != '\n';
      var tail := Split(all[1..]);
      assert tail == [s[1..]] + Split(rest);
      assert Split(all) == [[all[0]] + tail[0]] + tail[1..];
      assert [s[0]] + s[1..] == s;
    }
  }

  lemma {:induction false} SplitHasNoNewline(s: string)
    ensures forall i :: 0 <= i < |Split(s)| ==> '\n' !in Split(s)[i]
    ensures '\r' !in s ==> forall i :: 0 <= i < |Split(s)| ==> '\r' !in Split(s)[i]
  {
    if s != [] {
      SplitHasNoNewline(s[1..]);
      var rest := Split(s[1..]);
      assert '\r' !in s ==> s[0] != '\r' && '\r' !in s[1..];
      assert Split(s) == if s[0] == '\n' then [[]] + rest else [[s[0]] + rest[0]] + rest[1..];
    }
  }

  /** The last line of text that does not end in a newline is not empty, unless it is the only one. */
  lemma {:induction false} SplitLastLine(s: string)
    requires s == [] || s[|s| - 1] != '\n'
    ensures |Split(s)| == 1 || Split(s)[|Split(s)| - 1] != []
    ensures s != [] ==> Split(s)[|Split(s)| - 1] != []
  {
    if |s| == 1 {
      assert Split(s[1..]) == [[]];
    } else if |s| > 1 {
      SplitLastLine(s[1..]);
      var rest := Split(s[1..]);
      assert s[1..][|s| - 2] == s[|s| - 1];
      if s[0] == '\n' {
        assert Split(s) == [[]] + rest;
      } else {
        assert Split(s) == [[s[0]] + rest[0]] + rest[1..];
      }
    }
  }

  lemma {:induction false} StripEndDone(s: string)
    ensures StripEndNewlines(s) == [] || StripEndNewlines(s)[|StripEndNewlines(s)| - 1] != '\n'
    ensures forall c :: c in StripEndNewlines(s) ==> c in s
  {
    if s != [] && s[|s| - 1] == '\n' {
      StripEndDone(s[..|s| - 1]);
    }
  }

  lemma {:induction false} CrToLfHasNoCr(s: string)
    ensures '\r' !in CrToLf(s)
  {
    if s != [] { CrToLfHasNoCr(s[1..]); }
  }

  lemma {:induction false} WithoutCrUnchanged(s: string)
    requires '\r' !in s
    ensures CrLfToLf(s) == s && CrToLf(s) == s
  {
    if s != [] { WithoutCrUnchanged(s[1..]); }
  }

  /** What reading a file gives: clean lines, the last of them not empty unless it is the only one. */
  lemma DocumentShape(source: string)
    ensures |Document(source)| >= 1 && AllClean(Document(source)) && TrimEnd(Document(source)) == Document(source)
  {
    var t := CrToLf(CrLfToLf(DropBom(source)));
    CrToLfHasNoCr(CrLfToLf(DropBom(source)));
    StripEndDone(t);
    SplitHasNoNewline(StripEndNewlines(t));
    SplitLastLine(StripEndNewlines(t));
    var lines := Document(source);
    assert '\r' !in StripEndNewlines(t);
    assert forall i :: 0 <= i < |lines| ==> Clean(lines[i]);
  }

  lemma {:induction false} JoinAppendsEmpty(lines: seq<string>)
    requires lines != []
    ensures Join(lines + [[]]) == Join(lines) + "\n"
  {
    if |lines| > 1 {
      assert (lines + [[]])[1..] == lines[1..] + [[]];
      JoinAppendsEmpty(lines[1..]);
    } else {
      assert (lines + [[]])[1..] == [[]];
    }
  }

  lemma {:induction false} JoinLastChar(lines: seq<string>)
    requires lines != [] && AllClean(lines) && lines[|lines| - 1] != []
    ensures Join(lines) != [] && Join(lines)[|Join(lines)| - 1] != '\n'
  {
    var last := lines[|lines| - 1];
    assert Clean(last);
    if |lines| > 1 {
      assert lines[1..][|lines| - 2] == last;
      JoinLastChar(lines[1..]);
    }
  }

  lemma {:induction false} StripJoined(lines: seq<string>)
    requires lines != [] && AllClean(lines)
    ensures StripEndNewlines(Join(lines)) == Join(TrimEnd(lines))
    decreases |lines|
  {
    var last := lines[|lines| - 1];
    if last != [] {
      JoinLastChar(lines);
    } else if |lines| > 1 {
      var rest := lines[..|lines| - 1];
      assert lines == rest + [[]];
      JoinAppendsEmpty(rest);
      assert Join(lines)[..|Join(lines)| - 1] == Join(rest);
      StripJoined(rest);
    }
  }

  lemma {:induction false} TrimEndShape(lines: seq<string>)
    requires lines != []
    ensures 0 < |TrimEnd(lines)| <= |lines| && TrimEnd(lines) == lines[..|TrimEnd(lines)|]
    ensures AllClean(lines) ==> AllClean(TrimEnd(lines))
  {
    if |lines| > 1 && lines[|lines| - 1] == [] {
      TrimEndShape(lines[..|lines| - 1]);
    }
  }

  lemma {:induction false} CleanJoin(lines: seq<string>)
    requires AllClean(lines)
    ensures '\r' !in Join(lines)
  {
    if |lines| > 1 {
      assert Clean(lines[0]);
      CleanJoin(lines[1..]);
    } else if |lines| == 1 {
      assert Clean(lines[0]);
    }
  }

  lemma JoinFirstChar(lines: seq<string>)
    requires lines != [] && !StartsWithBom(lines)
    ensures DropBom(Text(lines)) == Text(lines)
  {
  }

  /** Writing clean lines and reading them back loses only trailing empty lines, unless the first line starts with
      a byte order mark. */
  lemma ReadBack(lines: seq<string>)
    requires lines != [] && AllClean(lines) && !StartsWithBom(lines)
    ensures Document(Text(lines)) == TrimEnd(lines)
  {
    JoinFirstChar(lines);
    CleanJoin(lines);
    WithoutCrUnchanged(Text(lines));
    assert Text(lines)[..|Text(lines)| - 1] == Join(lines);
    StripJoined(lines);
    TrimEndShape(lines);
    SplitJoin(TrimEnd(lines));
  }

  // ----- Line endings

  /** The lines, each followed by its own ending. */
  function Ended(lines: seq<string>, ends: seq<string>): string
    requires |lines| == |ends|
  {
    if lines == [] then [] else lines[0] + ends[0] + Ended(lines[1..], ends[1..])
  }

  /** Newlines, carriage returns or both; but no line is only a newline after a carriage return, as that is one ending. */
  ghost predicate AreEndings(lines: seq<string>, ends: seq<string>) {
    && |lines| == |ends| && (forall k :: 0 <= k < |ends| ==> ends[k] == "\n" || ends[k] == "\r\n" || ends[k] == "\r")
    && forall k :: 0 <= k < |ends| - 1 && ends[k] == "\r" && lines[k + 1] == [] ==> ends[k + 1] != "\n"
  }

  lemma {:induction false} CrLfToLfPasses(a: string, b: string)
    requires '\r' !in a
    ensures CrLfToLf(a + b) == a + CrLfToLf(b)
  {
    if a == [] {
      assert a + b == b;
    } else {
      assert (a + b)[1..] == a[1..] + b && a == [a[0]] + a[1..];
      CrLfToLfPasses(a[1..], b);
      assert [a[0]] + (a[1..] + CrLfToLf(b)) == a + CrLfToLf(b);
    }
  }

  lemma {:induction false} CrToLfConcat(a: string, b: string)
    ensures CrToLf(a + b) == CrToLf(a) + CrToLf(b)
  {
    if a == [] {
      assert a + b == b;
    } else {
      assert (a + b)[1..] == a[1..] + b;
      CrToLfConcat(a[1..], b);
    }
  }

  lemma EndingRead(end: string, rest: string)
    requires end == "\n" || end == "\r\n" || (end == "\r" && (rest == [] || rest[0] != '\n'))
    ensures CrLfToLf(end + rest) == (if end == "\r" then "\r" else "\n") + CrLfToLf(rest)
    ensures CrToLf("\r") == "\n" && CrToLf("\n") == "\n"
  {
    assert (end + rest)[|end|..] == rest && end + rest != [];
    assert end == "\r\n" ==> (end + rest)[2..] == rest;
    assert |end| == 1 ==> (end + rest)[1..] == rest;
    assert CrToLf([]) == [];
  }

  lemma {:induction false} EndedRead(lines: seq<string>, ends: seq<string>)
    requires AllClean(lines) && AreEndings(lines, ends)
    ensures CrToLf(CrLfToLf(Ended(lines, ends))) == if lines == [] then [] else Text(lines)
  {
    if lines == [] {
      assert CrToLf(CrLfToLf([])) == [];
    } else {
      hide CrLfToLf, CrToLf, Text, AreEndings;
      var line, end, rest := lines[0], ends[0], Ended(lines[1..], ends[1..]);
      RestEnds(lines, ends);
      EndedRead(lines[1..], ends[1..]);
      RestStarts(lines, ends);
      assert Ended(lines, ends) == line + (end + rest);
      LineRead(line, end, rest);
      TextStarts(lines);
    }
  }

  lemma RestEnds(lines: seq<string>, ends: seq<string>)
    requires lines != [] && AllClean(lines) && AreEndings(lines, ends)
    ensures Clean(lines[0]) && AllClean(lines[1..]) && AreEndings(lines[1..], ends[1..])
    ensures ends[0] == "\n" || ends[0] == "\r\n" || ends[0] == "\r"
  {
  }

  lemma TextStarts(lines: seq<string>)
    requires lines != []
    ensures Text(lines) == lines[0] + ("\n" + if |lines| == 1 then [] else Text(lines[1..]))
  {
    if |lines| > 1 { assert lines[0] + "\n" + Join(lines[1..]) + "\n" == lines[0] + ("\n" + (Join(lines[1..]) + "\n")); }
  }

  lemma LineRead(line: string, end: string, rest: string)
    requires Clean(line)
    requires end == "\n" || end == "\r\n" || (end == "\r" && (rest == [] || rest[0] != '\n'))
    ensures CrToLf(CrLfToLf(line + (end + rest))) == line + ("\n" + CrToLf(CrLfToLf(rest)))
  {
    CrLfToLfPasses(line, end + rest);
    EndingRead(end, rest);
    var mark := if end == "\r" then "\r" else "\n";
    CrToLfConcat(line, mark + CrLfToLf(rest));
    CrToLfConcat(mark, CrLfToLf(rest));
    WithoutCrUnchanged(line);
    hide CrLfToLf, CrToLf;
  }

  lemma RestStarts(lines: seq<string>, ends: seq<string>)
    requires lines != [] && AllClean(lines) && AreEndings(lines, ends)
    ensures var rest := Ended(lines[1..], ends[1..]); ends[0] == "\r" ==> rest == [] || rest[0] != '\n'
  {
    if |lines| > 1 {
      assert Clean(lines[1]) && lines[1..][0] == lines[1] && ends[1..][0] == ends[1];
    }
  }

  /** A file is read as its lines whichever way each of them ends, with or without a byte order mark before the first;
      only empty lines at the end are lost. */
  lemma EndingsDoNotMatter(lines: seq<string>, ends: seq<string>, marked: bool)
    requires lines != [] && AllClean(lines) && AreEndings(lines, ends) && (!marked ==> !StartsWithBom(lines))
    ensures Document((if marked then [BOM] else "") + Ended(lines, ends)) == TrimEnd(lines)
  {
    var text := Ended(lines, ends);
    var source := (if marked then [BOM] else "") + text;
    if marked {
      assert source[1..] == text;
    } else {
      assert source == text;
      NoBomStarts(lines, ends);
    }
    assert DropBom(source) == text;
    EndedRead(lines, ends);
    assert Text(lines)[..|Text(lines)| - 1] == Join(lines);
    StripJoined(lines);
    TrimEndShape(lines);
    SplitJoin(TrimEnd(lines));
  }

  lemma NoBomStarts(lines: seq<string>, ends: seq<string>)
    requires lines != [] && AreEndings(lines, ends) && !StartsWithBom(lines)
    ensures DropBom(Ended(lines, ends)) == Ended(lines, ends)
  {
    assert Ended(lines, ends) == lines[0] + (ends[0] + Ended(lines[1..], ends[1..]));
  }

  /** Splitting and joining are inverse. */
  lemma {:induction false} JoinSplit(s: string)
    ensures Join(Split(s)) == s
  {
    if s != [] {
      JoinSplit(s[1..]);
      var rest := Split(s[1..]);
      assert s == [s[0]] + s[1..];
      if s[0] == '\n' {
        assert ([[]] + rest)[1..] == rest;
      } else {
        var lines := [[s[0]] + rest[0]] + rest[1..];
        assert lines[1..] == rest[1..];
        assert |rest| > 1 ==> [s[0]] + (rest[0] + "\n" + Join(rest[1..])) == ([s[0]] + rest[0]) + "\n" + Join(rest[1..]);
      }
    }
  }

  // ----- Characters

  predicate IsSpace(c: char) {
    var n := c as int;
    || 0x09 <= n <= 0x0D || 0x1C <= n <= 0x20 || n == 0x85 || n == 0xA0 || n == 0x1680
    || 0x2000 <= n <= 0x200A || n == 0x2028 || n == 0x2029 || n == 0x202F || n == 0x205F || n == 0x3000
  }

  predicate IsDigit(c: char) {
    '0' <= c <= '9'
  }

  function Lower(c: char): char {
    if 'A' <= c <= 'Z' then (c as int + 32) as char else c
  }

  function Lowered(s: string): (r: string)
    ensures |r| == |s|
  {
    seq(|s|, i requires 0 <= i < |s| => Lower(s[i]))
  }

  predicate Blank(line: string) {
    forall i :: 0 <= i < |line| ==> IsSpace(line[i])
  }

  function SkipSpaces(s: string): string {
    if s != [] && IsSpace(s[0]) then SkipSpaces(s[1..]) else s
  }

  function SkipEndSpaces(s: string): string {
    if s != [] && IsSpace(s[|s| - 1]) then SkipEndSpaces(s[..|s| - 1]) else s
  }

  function Trim(s: string): string {
    SkipEndSpaces(SkipSpaces(s))
  }

  predicate AllDigits(s: string) {
    s != [] && forall i :: 0 <= i < |s| ==> IsDigit(s[i])
  }

  /** The first position of `c` from `from` on, or the length. */
  function IndexOf(s: string, c: char, from: nat): (k: nat)
    requires from <= |s|
    ensures from <= k <= |s| && (k < |s| ==> s[k] == c) && forall i :: from <= i < k ==> s[i] != c
    decreases |s| - from
  {
    if from == |s| || s[from] == c then from else IndexOf(s, c, from + 1)
  }

  // ----- Line patterns

  const UNRELEASED_HEADING := "## [Unreleased]"
  const UNRELEASED_LABEL := "unreleased"
  const TITLE := "# Changelog"
  const FRAGMENT_DIR := "changelog.d"
  const FRAGMENT_DOC := "README.md"
  const UNRELEASED_COMMENT :=
    "<!-- Entries go in " + FRAGMENT_DIR + "/, one file each. See " + FRAGMENT_DIR + "/" + FRAGMENT_DOC + ". -->"
  const SPEC_SITE := "keepachangelog.com"
  const CHANGE_TYPES := ["Added", "Changed", "Deprecated", "Removed", "Fixed", "Security"]

  predicate IsUnreleasedHeading(line: string) {
    line == UNRELEASED_HEADING
  }

  predicate SectionHeading(line: string) {
    "## " <= line
  }

  predicate TypeHeading(line: string) {
    "### " <= line
  }

  function TypeName(line: string): string
    requires TypeHeading(line)
  {
    Trim(line[4..])
  }

  /** An entry starts in column one; its continuation lines are indented. */
  predicate TopLevelEntry(line: string) {
    |line| >= 2 && (line[0] == '-' || line[0] == '*') && line[1] == ' '
  }

  predicate EntryLine(line: string) {
    TopLevelEntry(SkipSpaces(line))
  }

  predicate BreakingLine(line: string) {
    "- **Breaking:**" <= line || "* **Breaking:**" <= line
  }

  predicate CommentLine(line: string) {
    var t := Trim(line);
    |t| >= 7 && "<!--" <= t && t[|t| - 3..] == "-->"
  }

  datatype Link = Link(name: string, url: string)

  /** A link definition: a label in brackets, a colon, a space, and a URL without white space. */
  function LinkDefinition(line: string): Option<Link> {
    if line == [] || line[0] != '[' then None
    else
      var k := IndexOf(line, ']', 1);
      if k < 2 || k + 3 >= |line| || line[k..k + 3] != "]: " then None
      else
        var url := line[k + 3..];
        if exists i :: 0 <= i < |url| && IsSpace(url[i]) then None else Some(Link(line[1..k], url))
  }

  predicate EndsSection(line: string) {
    SectionHeading(line) || LinkDefinition(line).Some?
  }

  /** Letters match whatever their case; the long s counts as an s. */
  predicate MatchesLetter(c: char, letter: char) {
    Lower(c) == letter || (letter == 's' && c == '\U{017F}')
  }

  /** The Unreleased definition as the release step looks for it. */
  predicate UnreleasedDefinition(line: string) {
    && |line| >= 14 && line[0] == '[' && line[11..14] == "]: "
    && forall i :: 0 <= i < 10 ==> MatchesLetter(line[i + 1], UNRELEASED_LABEL[i])
  }

  const COMPARE := "/compare/"
  const TO_HEAD := "...HEAD"

  datatype Comparison = Comparison(base: string, previous: string)

  predicate ComparesAt(url: string, k: nat) {
    && k + |COMPARE| < |url| - |TO_HEAD| && url[k..k + |COMPARE|] == COMPARE
  }

  /** The last place before `below` where the URL splits into a base and a comparison. */
  function LastCompare(url: string, below: nat): (k: Option<nat>)
    ensures k.Some? ==> k.value < below && ComparesAt(url, k.value)
    ensures k.Some? ==> forall j :: k.value < j < below ==> !ComparesAt(url, j)
    ensures k.None? ==> forall j :: 0 <= j < below ==> !ComparesAt(url, j)
  {
    if below == 0 then None
    else if ComparesAt(url, below - 1) then Some(below - 1)
    else LastCompare(url, below - 1)
  }

  /** A comparison of some tag with HEAD, split at the last place it can be. */
  function UnreleasedCompare(url: string): Option<Comparison> {
    if |url| < |TO_HEAD| || url[|url| - |TO_HEAD|..] != TO_HEAD then None
    else
      match LastCompare(url, |url|)
      case None => None
      case Some(k) => Some(Comparison(url[..k], url[k + |COMPARE|..|url| - |TO_HEAD|]))
  }

  /** Three numbers with dots between them. */
  predicate IsVersion(s: string) {
    var i := IndexOf(s, '.', 0);
    i < |s| &&
    var j := IndexOf(s, '.', i + 1);
    j < |s| && AllDigits(s[..i]) && AllDigits(s[i + 1..j]) && AllDigits(s[j + 1..])
  }

  predicate IsDate(s: string) {
    && |s| == 10 && AllDigits(s[..4]) && s[4] == '-' && AllDigits(s[5..7]) && s[7] == '-' && AllDigits(s[8..])
  }

  function Number(s: string): nat
    requires forall i :: 0 <= i < |s| ==> IsDigit(s[i])
  {
    if s == [] then 0 else assert IsDigit(s[|s| - 1]); Number(s[..|s| - 1]) * 10 + (s[|s| - 1] as int - '0' as int)
  }

  function VersionKey(s: string): (nat, nat, nat)
    requires IsVersion(s)
  {
    var i := IndexOf(s, '.', 0);
    var j := IndexOf(s, '.', i + 1);
    (Number(s[..i]), Number(s[i + 1..j]), Number(s[j + 1..]))
  }

  predicate KeyLess(a: (nat, nat, nat), b: (nat, nat, nat)) {
    a.0 < b.0 || (a.0 == b.0 && (a.1 < b.1 || (a.1 == b.1 && a.2 < b.2)))
  }

  datatype Version = Version(version: string, dated: bool)

  const YANKED := " [YANKED]"

  /** A version heading: the version in brackets, perhaps a date, perhaps a mark that it was withdrawn. */
  function VersionHeading(line: string): (v: Option<Version>)
    ensures v.Some? ==> IsVersion(v.value.version) && SectionHeading(line)
  {
    if !("## [" <= line) then None
    else
      var k := IndexOf(line, ']', 4);
      if k == |line| || !IsVersion(line[4..k]) then None
      else
        var rest := line[k + 1..];
        if rest == "" || rest == YANKED then Some(Version(line[4..k], false))
        else if DateSuffix(rest) then Some(Version(line[4..k], true))
        else None
  }

  predicate DateSuffix(rest: string) {
    |rest| >= 13 && " - " <= rest && IsDate(rest[3..13]) && (rest[13..] == "" || rest[13..] == YANKED)
  }
}
