/** What the changelog's line patterns accept and what they read out of a line, said of the characters. */
module ChangelogPatterns {
  import opened Options
  import opened Sequences
  import opened ChangelogText
  import opened ChangelogSections
  import opened ChangelogRelease

  // ----- Numbers and versions

  function Digit(n: nat): char
    requires n < 10
  {
    ('0' as int + n) as char
  }

  /** The number as one writes it. */
  function Decimal(n: nat): string {
    if n < 10 then [Digit(n)] else Decimal(n / 10) + [Digit(n % 10)]
  }

  lemma {:induction false} NumberDecimal(n: nat)
    ensures AllDigits(Decimal(n)) && Number(Decimal(n)) == n
  {
    if n >= 10 {
      NumberDecimal(n / 10);
      NumberMore(Decimal(n / 10), Digit(n % 10));
    } else {
      NumberMore("", Digit(n));
      assert "" + [Digit(n)] == [Digit(n)];
    }
  }

  lemma NumberMore(s: string, c: char)
    requires (forall i :: 0 <= i < |s| ==> IsDigit(s[i])) && IsDigit(c)
    ensures AllDigits(s + [c]) && Number(s + [c]) == Number(s) * 10 + (c as int - '0' as int)
  {
    assert (s + [c])[..|s|] == s;
  }

  /** Leading zeros do not matter. */
  lemma {:induction false} LeadingZeros(zeros: string, s: string)
    requires (forall i :: 0 <= i < |zeros| ==> zeros[i] == '0') && forall i :: 0 <= i < |s| ==> IsDigit(s[i])
    ensures Number(zeros + s) == Number(s)
    decreases |zeros| + |s|
  {
    if s != [] {
      var front, c := s[..|s| - 1], s[|s| - 1];
      assert s == front + [c];
      LeadingZeros(zeros, front);
      NumberMore(front, c);
      NumberMore(zeros + front, c);
      assert zeros + s == (zeros + front) + [c];
    } else if zeros != [] {
      var front := zeros[..|zeros| - 1];
      LeadingZeros(front, "");
      NumberMore(front, '0');
      assert front + "" == front && zeros + "" == front + ['0'];
    }
  }

  ghost predicate ThreeNumbers(s: string, a: string, b: string, c: string) {
    AllDigits(a) && AllDigits(b) && AllDigits(c) && s == a + "." + b + "." + c
  }

  lemma DotAfter(a: string, from: nat, s: string)
    requires AllDigits(a) && from + |a| < |s| && s[from..from + |a|] == a && s[from + |a|] == '.'
    ensures IndexOf(s, '.', from) == from + |a|
  {
    forall i | from <= i < from + |a| ensures s[i] != '.' {
      assert IsDigit(a[i - from]) && s[i] == s[from..from + |a|][i - from];
    }
    IndexOfIs(s, '.', from, from + |a|);
  }

  /** A version is three numbers with dots between them, and its key is the three. */
  lemma VersionIs(s: string, a: string, b: string, c: string)
    requires ThreeNumbers(s, a, b, c)
    ensures IsVersion(s) && VersionKey(s) == (Number(a), Number(b), Number(c))
  {
    hide AllDigits;
    var i, j := |a|, |a| + 1 + |b|;
    assert s[0..i] == a && s[i] == '.' && s[i + 1..j] == b && s[j] == '.' && s[j + 1..] == c;
    DotAfter(a, 0, s);
    DotAfter(b, i + 1, s);
    assert s[..i] == a;
  }

  lemma VersionSplits(s: string) returns (a: string, b: string, c: string)
    requires IsVersion(s)
    ensures ThreeNumbers(s, a, b, c)
  {
    var i := IndexOf(s, '.', 0);
    var j := IndexOf(s, '.', i + 1);
    a, b, c := s[..i], s[i + 1..j], s[j + 1..];
    assert s == a + "." + b + "." + c;
  }

  /** Versions are compared as numbers, the first that differs deciding, however they are written. */
  lemma NewerIff(a: nat, b: nat, c: nat, x: nat, y: nat, z: nat)
    ensures var v, w := Decimal(a) + "." + Decimal(b) + "." + Decimal(c), Decimal(x) + "." + Decimal(y) + "." + Decimal(z);
      && IsVersion(v) && IsVersion(w) && VersionKey(v) == (a, b, c) && VersionKey(w) == (x, y, z)
      && (KeyLess(VersionKey(v), VersionKey(w)) <==>
          if a != x then a < x else if b != y then b < y else c < z)
  {
    var v, w := Decimal(a) + "." + Decimal(b) + "." + Decimal(c), Decimal(x) + "." + Decimal(y) + "." + Decimal(z);
    NumberDecimal(a);
    NumberDecimal(b);
    NumberDecimal(c);
    NumberDecimal(x);
    NumberDecimal(y);
    NumberDecimal(z);
    hide Decimal, Number, AllDigits, IsVersion, VersionKey;
    VersionIs(v, Decimal(a), Decimal(b), Decimal(c));
    VersionIs(w, Decimal(x), Decimal(y), Decimal(z));
  }

  /** So 0.10.0 is newer than 0.9.0. */
  lemma TenIsNewerThanNine()
    ensures IsVersion("0.9.0") && IsVersion("0.10.0") && KeyLess(VersionKey("0.9.0"), VersionKey("0.10.0"))
  {
    NewerIff(0, 9, 0, 0, 10, 0);
    assert Decimal(0) == "0" && Decimal(9) == "9" && Decimal(1) == "1";
    assert Decimal(10) == Decimal(1) + [Digit(0)];
    assert Decimal(10) == "10";
    assert "0" + "." + "9" + "." + "0" == "0.9.0" && "0" + "." + "10" + "." + "0" == "0.10.0";
  }

  // ----- Dates and version headings

  ghost predicate YearMonthDay(s: string, y: string, m: string, d: string) {
    AllDigits(y) && AllDigits(m) && AllDigits(d) && |y| == 4 && |m| == 2 && |d| == 2 && s == y + "-" + m + "-" + d
  }

  lemma DateIff(s: string)
    ensures IsDate(s) <==> exists y, m, d :: YearMonthDay(s, y, m, d)
  {
    hide AllDigits;
    if IsDate(s) {
      assert s == s[..4] + "-" + s[5..7] + "-" + s[8..];
      assert YearMonthDay(s, s[..4], s[5..7], s[8..]);
    }
    if y, m, d :| YearMonthDay(s, y, m, d) {
      assert s[..4] == y && s[4] == '-' && s[5..7] == m && s[7] == '-' && s[8..] == d;
    }
  }

  /** A version in brackets, then perhaps a date, then perhaps the mark that it was withdrawn. */
  ghost predicate HeadingParts(line: string, version: string, dated: bool, date: string, mark: string) {
    && IsVersion(version) && (mark == "" || mark == " [YANKED]")
    && (if dated then |date| == 13 && date[..3] == " - " && IsDate(date[3..]) else date == "")
    && line == "## [" + version + "]" + date + mark
  }

  lemma VersionHeadingIff(line: string, version: string, dated: bool)
    ensures VersionHeading(line) == Some(Version(version, dated)) <==>
      exists date, mark :: HeadingParts(line, version, dated, date, mark)
  {
    hide VersionHeading, HeadingParts;
    if VersionHeading(line) == Some(Version(version, dated)) {
      var date, mark := HeadingSplits(line, version, dated);
    }
    if date, mark :| HeadingParts(line, version, dated, date, mark) {
      HeadingReads(line, version, dated, date, mark);
    }
  }

  lemma HeadingSplits(line: string, version: string, dated: bool) returns (date: string, mark: string)
    requires VersionHeading(line) == Some(Version(version, dated))
    ensures HeadingParts(line, version, dated, date, mark)
  {
    hide IsVersion, IsDate;
    var k := IndexOf(line, ']', 4);
    var rest := line[k + 1..];
    date, mark := if dated then rest[..13] else "", if dated then rest[13..] else rest;
    ThreeParts(line, k);
    assert rest == date + mark;
    assert dated ==> date[3..] == rest[3..13] && date[..3] == rest[..3];
    Assoc("## [" + version + "]", date, mark);
  }

  lemma ThreeParts(line: string, k: nat)
    requires 4 <= k < |line| && line[k] == ']' && line[..4] == "## ["
    ensures line == "## [" + line[4..k] + "]" + line[k + 1..]
  {
    assert line == line[..4] + line[4..k] + [line[k]] + line[k + 1..];
  }

  lemma HeadingReads(line: string, version: string, dated: bool, date: string, mark: string)
    requires HeadingParts(line, version, dated, date, mark)
    ensures VersionHeading(line) == Some(Version(version, dated))
  {
    VersionChars(version);
    hide IsVersion, IsDate;
    var k := 4 + |version|;
    var rest := date + mark;
    assert line[..4] == "## [" && line[4..k] == version && line[k] == ']' && line[k + 1..] == rest;
    forall i | 4 <= i < k ensures line[i] != ']' {
      assert line[4..k][i - 4] == line[i] && version[i - 4] in version;
    }
    IndexOfIs(line, ']', 4, k);
    if dated {
      assert rest[..3] == " - " && rest[3..13] == date[3..] && rest[13..] == mark;
    } else {
      assert rest == mark;
    }
  }

  // ----- Links

  lemma LinkIff(line: string, name: string, url: string)
    ensures LinkDefinition(line) == Some(Link(name, url)) <==>
      line == "[" + name + "]: " + url && name != [] && ']' !in name && url != [] && NoSpaces(url)
  {
    if LinkDefinition(line) == Some(Link(name, url)) {
      var k := IndexOf(line, ']', 1);
      assert line == line[..1] + line[1..k] + line[k..k + 3] + line[k + 3..];
      assert line[..1] == "[";
      assert "[" + name + "]: " + url == line;
    }
    if line == "[" + name + "]: " + url && name != [] && ']' !in name && url != [] {
      LinkLine(name, url);
    }
  }

  /** Ten letters that spell the label, whatever their case; a long s counts as an s. */
  predicate SpellsUnreleased(word: string) {
    |word| == 10 && forall i :: 0 <= i < 10 ==>
      (Lower(word[i]) == "unreleased"[i] || ("unreleased"[i] == 's' && word[i] == '\U{017F}'))
  }

  lemma UnreleasedDefinitionIff(line: string)
    ensures UnreleasedDefinition(line) <==>
      exists word, url :: SpellsUnreleased(word) && line == "[" + word + "]: " + url
    ensures UnreleasedDefinition(line) ==> exists word :: line == "[" + word + "]: " + DefinedUrl(line)
  {
    if UnreleasedDefinition(line) {
      var word, url := line[1..11], line[14..];
      assert line == line[..1] + word + line[11..14] + url;
      assert line[..1] == "[";
      assert forall i :: 0 <= i < 10 ==> word[i] == line[i + 1];
      assert SpellsUnreleased(word) && line == "[" + word + "]: " + url;
    }
    if word, url :| SpellsUnreleased(word) && line == "[" + word + "]: " + url {
      assert line[11..14] == "]: " && line[0] == '[';
      assert forall i :: 0 <= i < 10 ==> line[i + 1] == word[i];
    }
  }

  ghost predicate ComparesTo(url: string, base: string, previous: string) {
    url == base + "/compare/" + previous + "...HEAD" && previous != []
  }

  /** The URL compares with HEAD, and of the ways to split it the one with the longest base is taken. */
  lemma CompareIff(url: string, base: string, previous: string)
    ensures UnreleasedCompare(url) == Some(Comparison(base, previous)) <==>
      ComparesTo(url, base, previous) && forall b, p :: ComparesTo(url, b, p) ==> |b| <= |base|
    ensures UnreleasedCompare(url) == None <==> forall b, p :: !ComparesTo(url, b, p)
  {
    forall b, p | ComparesTo(url, b, p)
      ensures ComparesAt(url, |b|) && b == url[..|b|] && p == url[|b| + 9..|url| - 7] && url[|url| - 7..] == TO_HEAD
    {
      assert url == b + (COMPARE + (p + TO_HEAD));
      assert url[|b|..|b| + 9] == COMPARE;
    }
    if UnreleasedCompare(url).Some? {
      var c := UnreleasedCompare(url).value;
      CompareParts(url, c);
      assert ComparesTo(url, c.base, c.previous);
      forall b, p | ComparesTo(url, b, p) ensures |b| <= |c.base| {
        assert ComparesAt(url, |b|);
      }
    }
  }

  // ----- White space around text

  /** The text neither starts nor ends in white space. */
  predicate Bare(s: string) {
    s != [] ==> !IsSpace(s[0]) && !IsSpace(s[|s| - 1])
  }

  lemma {:induction false} SkipSpacesIs(spaces: string, rest: string)
    requires Blank(spaces) && (rest != [] ==> !IsSpace(rest[0]))
    ensures SkipSpaces(spaces + rest) == rest
  {
    if spaces == [] {
      assert spaces + rest == rest;
    } else {
      assert (spaces + rest)[1..] == spaces[1..] + rest;
      SkipSpacesIs(spaces[1..], rest);
    }
  }

  lemma {:induction false} SkipEndSpacesIs(rest: string, spaces: string)
    requires Blank(spaces) && (rest != [] ==> !IsSpace(rest[|rest| - 1]))
    ensures SkipEndSpaces(rest + spaces) == rest
    decreases |spaces|
  {
    if spaces == [] {
      assert rest + spaces == rest;
    } else {
      assert (rest + spaces)[..|rest + spaces| - 1] == rest + spaces[..|spaces| - 1];
      SkipEndSpacesIs(rest, spaces[..|spaces| - 1]);
    }
  }

  lemma {:induction false} SkipSpacesSplits(s: string) returns (spaces: string)
    ensures Blank(spaces) && s == spaces + SkipSpaces(s) && (SkipSpaces(s) != [] ==> !IsSpace(SkipSpaces(s)[0]))
  {
    if s != [] && IsSpace(s[0]) {
      var more := SkipSpacesSplits(s[1..]);
      spaces := [s[0]] + more;
      assert s == [s[0]] + s[1..];
    } else {
      spaces := [];
    }
  }

  lemma {:induction false} SkipEndSpacesSplits(s: string) returns (spaces: string)
    ensures var rest := SkipEndSpaces(s);
      Blank(spaces) && s == rest + spaces && (rest != [] ==> !IsSpace(rest[|rest| - 1]))
    decreases |s|
  {
    if s != [] && IsSpace(s[|s| - 1]) {
      var front, c := s[..|s| - 1], s[|s| - 1];
      var more := SkipEndSpacesSplits(front);
      spaces := more + [c];
      assert s == front + [c];
      Assoc(SkipEndSpaces(front), more, [c]);
    } else {
      spaces := [];
      assert s == s + spaces;
    }
  }

  ghost predicate SpacedAround(s: string, before: string, core: string, after: string) {
    Blank(before) && Blank(after) && s == before + core + after
  }

  /** Trimming leaves the text that is between the white space at either end. */
  lemma TrimIff(s: string, core: string)
    requires core != [] && Bare(core)
    ensures Trim(s) == core <==> exists before, after :: SpacedAround(s, before, core, after)
  {
    hide Blank;
    if Trim(s) == core {
      var before := SkipSpacesSplits(s);
      var after := SkipEndSpacesSplits(SkipSpaces(s));
      Assoc(before, core, after);
      assert SpacedAround(s, before, core, after);
    }
    if before, after :| SpacedAround(s, before, core, after) {
      Assoc(before, core, after);
      SkipSpacesIs(before, core + after);
      SkipEndSpacesIs(core, after);
    }
  }

  /** A change type heading names what is written after the marks, without the white space around it. */
  lemma TypeNameIff(line: string, name: string)
    requires name != [] && Bare(name)
    ensures TypeHeading(line) && TypeName(line) == name <==>
      exists before, after :: Blank(before) && Blank(after) && line == "### " + (before + name + after)
  {
    if TypeHeading(line) && TypeName(line) == name {
      TrimIff(line[4..], name);
      var before, after :| SpacedAround(line[4..], before, name, after);
      assert line == "### " + line[4..];
    }
    if before, after :| Blank(before) && Blank(after) && line == "### " + (before + name + after) {
      assert line[4..] == before + name + after;
      assert SpacedAround(line[4..], before, name, after);
      TrimIff(line[4..], name);
    }
  }

  ghost predicate CommentParts(line: string, before: string, middle: string, after: string) {
    SpacedAround(line, before, "<!--" + middle + "-->", after)
  }

  /** A comment on one line, and nothing but white space around it. */
  lemma CommentIff(line: string)
    ensures CommentLine(line) <==> exists before, middle, after :: CommentParts(line, before, middle, after)
  {
    hide Trim, SpacedAround;
    if CommentLine(line) {
      var t := Trim(line);
      var middle := t[4..|t| - 3];
      assert t == t[..4] + middle + t[|t| - 3..];
      var core := "<!--" + middle + "-->";
      assert t == core && core[0] == '<' && core[|core| - 1] == '>';
      TrimIff(line, core);
      var before, after :| SpacedAround(line, before, core, after);
      assert CommentParts(line, before, middle, after);
    }
    if before, middle, after :| CommentParts(line, before, middle, after) {
      var core := "<!--" + middle + "-->";
      assert core[0] == '<' && core[|core| - 1] == '>' && core[..4] == "<!--" && core[|core| - 3..] == "-->";
      TrimIff(line, core);
    }
  }

  /** An entry anywhere on a line: a bullet of either kind, after white space only, and a space. */
  lemma EntryIff(line: string)
    ensures EntryLine(line) <==>
      exists spaces, bullet, rest :: Blank(spaces) && (bullet == "- " || bullet == "* ") && line == spaces + (bullet + rest)
  {
    if EntryLine(line) {
      var spaces := SkipSpacesSplits(line);
      var t := SkipSpaces(line);
      assert t == t[..2] + t[2..];
      assert t[..2] == "- " || t[..2] == "* ";
    }
    if spaces, bullet, rest :| Blank(spaces) && (bullet == "- " || bullet == "* ") && line == spaces + (bullet + rest) {
      SkipSpacesIs(spaces, bullet + rest);
    }
  }

  // ----- Fences

  function Repeat(c: char, n: nat): (s: string)
    ensures |s| == n && forall i :: 0 <= i < n ==> s[i] == c
  {
    seq(n, i => c)
  }

  lemma {:induction false} RunLengthIs(c: char, n: nat, rest: string)
    requires rest != [] ==> rest[0] != c
    ensures RunLength(Repeat(c, n) + rest, c) == n
  {
    if n > 0 {
      assert (Repeat(c, n) + rest)[1..] == Repeat(c, n - 1) + rest;
      RunLengthIs(c, n - 1, rest);
    } else {
      assert Repeat(c, 0) + rest == rest;
    }
  }

  lemma {:induction false} RunLengthSplits(s: string, c: char)
    ensures var n := RunLength(s, c);
      n <= |s| && s == Repeat(c, n) + s[n..] && (n < |s| ==> s[n] != c)
  {
    var n := RunLength(s, c);
    if n > 0 {
      RunLengthSplits(s[1..], c);
      assert s == [s[0]] + s[1..];
      assert Repeat(c, n) == [c] + Repeat(c, n - 1);
      assert s[n..] == s[1..][n - 1..];
    } else {
      assert Repeat(c, 0) + s[0..] == s;
    }
  }

  /** White space, a run of marks, and something else. */
  ghost predicate FenceParts(line: string, mark: char, n: nat, spaces: string, rest: string) {
    Blank(spaces) && (rest != [] ==> rest[0] != mark) && line == spaces + (Repeat(mark, n) + rest)
  }

  /** A fence is three or more backticks or tildes in a row, after white space only. */
  lemma DelimiterIff(line: string, mark: char, n: nat)
    ensures Delimiter(line) == Open(mark, n) <==>
      (mark == '`' || mark == '~') && n >= 3 && exists spaces, rest :: FenceParts(line, mark, n, spaces, rest)
  {
    if Delimiter(line) == Open(mark, n) {
      var spaces := SkipSpacesSplits(line);
      RunLengthSplits(SkipSpaces(line), mark);
      assert FenceParts(line, mark, n, spaces, SkipSpaces(line)[n..]);
    }
    if (mark == '`' || mark == '~') && n >= 3 {
      if spaces, rest :| FenceParts(line, mark, n, spaces, rest) {
        DelimiterReads(line, mark, n, spaces, rest);
      }
    }
  }

  lemma DelimiterReads(line: string, mark: char, n: nat, spaces: string, rest: string)
    requires (mark == '`' || mark == '~') && n >= 3 && FenceParts(line, mark, n, spaces, rest)
    ensures Delimiter(line) == Open(mark, n)
  {
    var t := Repeat(mark, n) + rest;
    assert t[0] == mark && !IsSpace(mark);
    SkipSpacesIs(spaces, t);
    RunLengthIs(mark, n, rest);
    assert mark == '~' ==> RunLength(t, '`') == 0;
  }

  /** The line ends a block that a run of `n` marks opened: it has as many of them, or more. */
  predicate Ends(line: string, mark: char, n: nat) {
    Delimiter(line).Open? && Delimiter(line).mark == mark && Delimiter(line).length >= n
  }

  lemma {:induction false} StaysInside(lines: seq<string>, mark: char, n: nat)
    requires forall k :: 0 <= k < |lines| ==> !Ends(lines[k], mark, n)
    ensures FenceAfter(Open(mark, n), lines) == Open(mark, n)
    decreases lines
  {
    if lines != [] { StaysInside(lines[1..], mark, n); }
  }

  lemma InsideAt(lines: seq<string>, i: nat, mark: char, n: nat, k: nat)
    requires i < k <= |lines| && FenceAfter(Closed, lines[..i]) == Closed && Delimiter(lines[i]) == Open(mark, n)
    requires forall m :: i < m < k ==> !Ends(lines[m], mark, n)
    ensures FenceAfter(Closed, lines[..k]) == Open(mark, n)
  {
    FenceAfterOneMore(lines, i);
    assert lines[..k] == lines[..i + 1] + lines[i + 1..k];
    FenceAfterConcat(Closed, lines[..i + 1], lines[i + 1..k]);
    StaysInside(lines[i + 1..k], mark, n);
  }

  /** A fence outside code opens a block. The block is fenced up to the first line below that ends it, and code is left
      after that line; without one everything below is fenced. */
  lemma BlockIs(lines: seq<string>, i: nat, mark: char, n: nat, j: nat)
    requires i < j <= |lines| && FenceAfter(Closed, lines[..i]) == Closed && Delimiter(lines[i]) == Open(mark, n)
    requires forall k :: i < k < j ==> !Ends(lines[k], mark, n)
    ensures forall k :: i <= k < j ==> Fenced(lines, k)
    ensures j < |lines| && Ends(lines[j], mark, n) ==> Fenced(lines, j) && FenceAfter(Closed, lines[..j + 1]) == Closed
  {
    hide Delimiter;
    forall k | i < k <= j ensures FenceAfter(Closed, lines[..k]) == Open(mark, n) {
      InsideAt(lines, i, mark, n, k);
    }
    if j < |lines| { FenceAfterOneMore(lines, j); }
  }

  /** Outside code, a line that is no fence is not fenced and leaves code closed. So a document is read block by block. */
  lemma OutsideIs(lines: seq<string>, i: nat)
    requires i < |lines| && FenceAfter(Closed, lines[..i]) == Closed && Delimiter(lines[i]) == Closed
    ensures !Fenced(lines, i) && FenceAfter(Closed, lines[..i + 1]) == Closed && FenceAfter(Closed, lines[..0]) == Closed
  {
    FenceAfterOneMore(lines, i);
  }
}
