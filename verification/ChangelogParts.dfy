/** What reading a section's entries, printing them and rolling come to, said of the lines. */
module ChangelogParts {
  import opened Options
  import opened Sequences
  import opened ChangelogText
  import opened ChangelogSections
  import opened ChangelogEntries
  import opened ChangelogFold
  import opened ChangelogFoldTwice
  import opened ChangelogRelease
  import opened ChangelogExtract
  import opened ChangelogPatterns

  // ----- Which lines make up an entry

  predicate NamesType(lines: seq<string>, i: nat)
    requires i < |lines|
  {
    !Fenced(lines, i) && TypeHeading(lines[i])
  }

  predicate StartsEntry(lines: seq<string>, i: nat)
    requires i < |lines|
  {
    !Fenced(lines, i) && TopLevelEntry(lines[i])
  }

  predicate Structural(lines: seq<string>, i: nat)
    requires i < |lines|
  {
    NamesType(lines, i) || StartsEntry(lines, i)
  }

  /** The last change type heading above line `n`, or -1. */
  function TypeOver(lines: seq<string>, n: nat): (i: int)
    requires n <= |lines|
    ensures -1 <= i < n && (i >= 0 ==> NamesType(lines, i))
  {
    if n == 0 then -1 else if NamesType(lines, n - 1) then n - 1 else TypeOver(lines, n - 1)
  }

  /** The first line of the entry that line `n` continues, or -1: no heading or other entry stands between. */
  function EntryOver(lines: seq<string>, n: nat): (i: int)
    requires n <= |lines|
    ensures -1 <= i < n && (i >= 0 ==> StartsEntry(lines, i) && forall k :: i < k < n ==> !Structural(lines, k))
  {
    if n == 0 then -1
    else if StartsEntry(lines, n - 1) then n - 1
    else if NamesType(lines, n - 1) then -1
    else EntryOver(lines, n - 1)
  }

  /** Where the next entry or heading starts from line `i` on, or the end. */
  function NextStructure(lines: seq<string>, i: nat): (n: nat)
    requires i <= |lines|
    ensures i <= n <= |lines| && (n < |lines| ==> Structural(lines, n)) && forall k :: i <= k < n ==> !Structural(lines, k)
    decreases |lines| - i
  {
    if i == |lines| || Structural(lines, i) then i else NextStructure(lines, i + 1)
  }

  /** The entry that starts at line `i`: up to the next one or the next heading, without trailing blank lines. */
  function EntryAt(lines: seq<string>, i: nat): Entry
    requires i < |lines|
  {
    DropBlankTail(lines[i..NextStructure(lines, i + 1)])
  }

  predicate StandsUnder(lines: seq<string>, i: nat, name: string)
    requires i <= |lines|
  {
    TypeOver(lines, i) != -1 && TypeName(lines[TypeOver(lines, i)]) == name
  }

  /** The entries that start above line `n` under a heading of that name, in order. */
  function EntriesUnder(lines: seq<string>, name: string, n: nat): seq<Entry>
    requires n <= |lines|
  {
    if n == 0 then []
    else
      EntriesUnder(lines, name, n - 1)
      + (if StartsEntry(lines, n - 1) && StandsUnder(lines, n - 1, name) then [EntryAt(lines, n - 1)] else [])
  }

  /** The line belongs to something: a heading, an entry that stands under one, or it is blank or a comment. */
  ghost predicate Attached(lines: seq<string>, i: nat)
    requires i < |lines|
  {
    && (StartsEntry(lines, i) ==> TypeOver(lines, i) != -1)
    && (Structural(lines, i) || EntryOver(lines, i) != -1 || Blank(lines[i]) || CommentLine(lines[i]))
  }

  /** The reasons a section cannot be read: an entry without a heading above it, or a line that belongs to nothing. */
  ghost predicate Unreadable(lines: seq<string>, error: FoldError) {
    exists i :: 0 <= i < |lines| &&
      if error == NoType then StartsEntry(lines, i) && TypeOver(lines, i) == -1
      else
        error == StrayLine && !Structural(lines, i) && EntryOver(lines, i) == -1
        && !Blank(lines[i]) && !CommentLine(lines[i])
  }

  lemma {:induction false} NoneBetween(lines: seq<string>, name: string, m: nat, n: nat)
    requires m <= n <= |lines| && forall k :: m <= k < n ==> !Structural(lines, k)
    ensures EntriesUnder(lines, name, n) == EntriesUnder(lines, name, m)
  {
    hide StartsEntry, NamesType;
    if m < n {
      assert !Structural(lines, n - 1);
      NoneBetween(lines, name, m, n - 1);
    }
  }

  lemma {:induction false} NextStructureIs(lines: seq<string>, i: nat, n: nat)
    requires i <= n <= |lines| && (n < |lines| ==> Structural(lines, n)) && forall k :: i <= k < n ==> !Structural(lines, k)
    ensures NextStructure(lines, i) == n
    decreases n - i
  {
    hide Structural;
    if i < n { NextStructureIs(lines, i + 1, n); }
  }

  /** What has been read above line `i`: the type, the entry still open, and the entries that have ended. */
  ghost predicate ReadAbove(lines: seq<string>, i: nat, name: Option<string>, e: Entry, g: Grouped)
    requires i <= |lines|
  {
    var t, b := TypeOver(lines, i), EntryOver(lines, i);
    && name == (if t == -1 then None else Some(TypeName(lines[t])))
    && e == (if b == -1 then [] else lines[b..i])
    && GroupedAs(g, lines, if b == -1 then i else b)
  }

  ghost predicate GroupedAs(g: Grouped, lines: seq<string>, n: nat)
    requires n <= |lines|
  {
    forall t :: Listed(g, t) == EntriesUnder(lines, t, n) && (t in g ==> g[t] != [])
  }

  /** The open entry is attached, if there is one, and every line from `i` on is. */
  ghost predicate AttachedFrom(lines: seq<string>, i: nat)
    requires i <= |lines|
  {
    && (EntryOver(lines, i) != -1 ==> TypeOver(lines, EntryOver(lines, i)) != -1)
    && forall k :: i <= k < |lines| ==> Attached(lines, k)
  }

  lemma EntryHasText(lines: seq<string>, i: nat, n: nat)
    requires i < n <= |lines| && StartsEntry(lines, i)
    ensures DropBlankTail(lines[i..n]) != []
  {
    TopLevelIsPlain(lines[i]);
    KeepsFirst(lines[i..n]);
  }

  lemma {:induction false} KeepsFirst(e: Entry)
    requires e != [] && !Blank(e[0])
    ensures DropBlankTail(e) != []
  {
    if Blank(e[|e| - 1]) { KeepsFirst(e[..|e| - 1]); }
  }

  lemma {:induction false} TypeStays(lines: seq<string>, m: nat, n: nat)
    requires m <= n <= |lines| && forall k :: m <= k < n ==> !NamesType(lines, k)
    ensures TypeOver(lines, n) == TypeOver(lines, m)
  {
    hide NamesType;
    if m < n { TypeStays(lines, m, n - 1); }
  }

  lemma EntryAdded(lines: seq<string>, b: nat, i: nat, g: Grouped, name: string, t: string)
    requires b < i <= |lines| && StartsEntry(lines, b) && StandsUnder(lines, b, name) && GroupedAs(g, lines, b)
    requires forall k :: b < k < i ==> !Structural(lines, k)
    ensures var r := Added(g, name, [EntryAt(lines, b)]); Listed(r, t) == EntriesUnder(lines, t, i) && (t in r ==> r[t] != [])
  {
    hide Structural, StartsEntry, EntryAt, NamesType, StandsUnder, TypeOver, EntryOver, EntriesUnder;
    UnderOne(lines, b, name, t);
    OneMoreUnder(lines, t, b);
    NoneBetween(lines, t, b + 1, i);
    assert Listed(g, t) == EntriesUnder(lines, t, b) && EntriesUnder(lines, t, b) + [] == EntriesUnder(lines, t, b);
  }

  lemma OneMoreUnder(lines: seq<string>, name: string, b: nat)
    requires b < |lines| && StartsEntry(lines, b)
    ensures EntriesUnder(lines, name, b + 1) ==
      EntriesUnder(lines, name, b) + if StandsUnder(lines, b, name) then [EntryAt(lines, b)] else []
  {
  }

  lemma UnderOne(lines: seq<string>, b: nat, name: string, t: string)
    requires b <= |lines| && StandsUnder(lines, b, name)
    ensures StandsUnder(lines, b, t) <==> t == name
  {
  }

  /** Where the open entry ends, it is added under its type, or refused without one. */
  lemma EntryEnds(lines: seq<string>, i: nat, name: Option<string>, e: Entry, g: Grouped)
    requires i <= |lines| && ReadAbove(lines, i, name, e, g) && (i < |lines| ==> Structural(lines, i))
    ensures var b, r := EntryOver(lines, i), Append(g, name, e);
      && (r.Ok? <==> (b != -1 ==> TypeOver(lines, b) != -1))
      && (r.Err? ==> r.error == NoType && Unreadable(lines, NoType))
      && (r.Ok? ==> GroupedAs(r.value, lines, i))
  {
    var b := EntryOver(lines, i);
    if b == -1 {
      assert DropBlankTail(e) == [];
    } else {
      hide Structural, StartsEntry, NamesType, GroupedAs, DropBlankTail, EntriesUnder, EntryOver, TypeOver;
      EntryHasText(lines, b, i);
      NextStructureIs(lines, b + 1, i);
      NotBoth(lines, b, i);
      TypeStays(lines, b, i);
      assert e == lines[b..i] && DropBlankTail(e) == EntryAt(lines, b);
      hide EntryAt;
      if TypeOver(lines, b) == -1 { assert StartsEntry(lines, b); }
      if name.Some? { AllAdded(lines, b, i, g, name.value); }
    }
  }

  lemma AllAdded(lines: seq<string>, b: nat, i: nat, g: Grouped, name: string)
    requires b < i <= |lines| && StartsEntry(lines, b) && StandsUnder(lines, b, name) && GroupedAs(g, lines, b)
    requires forall k :: b < k < i ==> !Structural(lines, k)
    ensures GroupedAs(Added(g, name, [EntryAt(lines, b)]), lines, i)
  {
    hide Structural, StartsEntry, EntryAt, NamesType, Added, EntriesUnder, StandsUnder;
    var r := Added(g, name, [EntryAt(lines, b)]);
    forall t ensures Listed(r, t) == EntriesUnder(lines, t, i) && (t in r ==> r[t] != []) {
      EntryAdded(lines, b, i, g, name, t);
    }
  }

  lemma NotBoth(lines: seq<string>, b: nat, i: nat)
    requires b < i <= |lines| && StartsEntry(lines, b) && forall k :: b < k < i ==> !Structural(lines, k)
    ensures forall k :: b <= k < i ==> !NamesType(lines, k)
  {
    TopLevelIsPlain(lines[b]);
    forall k | b < k < i ensures !NamesType(lines, k) { assert !Structural(lines, k); }
  }

  lemma StructuralRead(lines: seq<string>, i: nat, name: Option<string>, g: Grouped)
    requires i < |lines| && Structural(lines, i) && GroupedAs(g, lines, i)
    requires name == var t := TypeOver(lines, i); if t == -1 then None else Some(TypeName(lines[t]))
    ensures NamesType(lines, i) ==> ReadAbove(lines, i + 1, Some(TypeName(lines[i])), [], g)
    ensures !NamesType(lines, i) ==> ReadAbove(lines, i + 1, name, [lines[i]], g)
  {
    NotBothHere(lines, i);
    assert lines[i..i + 1] == [lines[i]];
    hide StartsEntry, NamesType, TypeName, EntriesUnder;
    if NamesType(lines, i) { GroupedOn(g, lines, i); }
  }

  lemma NotBothHere(lines: seq<string>, i: nat)
    requires i < |lines|
    ensures !(StartsEntry(lines, i) && NamesType(lines, i))
  {
    if StartsEntry(lines, i) { TopLevelIsPlain(lines[i]); }
  }

  lemma GroupedOn(g: Grouped, lines: seq<string>, i: nat)
    requires i < |lines| && !StartsEntry(lines, i) && GroupedAs(g, lines, i)
    ensures GroupedAs(g, lines, i + 1)
  {
    hide StartsEntry;
  }

  lemma PlainRead(lines: seq<string>, i: nat, name: Option<string>, e: Entry, g: Grouped)
    requires i < |lines| && !Structural(lines, i) && ReadAbove(lines, i, name, e, g)
    ensures ReadAbove(lines, i + 1, name, if e == [] then [] else e + [lines[i]], g)
  {
    hide StartsEntry, NamesType, TypeName, EntriesUnder, EntryOver, TypeOver, Structural;
    var b := EntryOver(lines, i);
    OverStep(lines, i);
    if b == -1 {
      GroupedOn(g, lines, i);
    } else {
      assert lines[b..i + 1] == lines[b..i] + [lines[i]];
    }
    hide GroupedAs;
  }

  lemma OverStep(lines: seq<string>, i: nat)
    requires i < |lines| && !Structural(lines, i)
    ensures EntryOver(lines, i + 1) == EntryOver(lines, i) && TypeOver(lines, i + 1) == TypeOver(lines, i)
    ensures !StartsEntry(lines, i)
  {
    hide StartsEntry, NamesType;
  }

  lemma AttachedStep(lines: seq<string>, i: nat)
    requires i < |lines|
    ensures AttachedFrom(lines, i) <==>
      && (Structural(lines, i) && EntryOver(lines, i) != -1 ==> TypeOver(lines, EntryOver(lines, i)) != -1)
      && (Structural(lines, i) || EntryOver(lines, i) != -1 || Blank(lines[i]) || CommentLine(lines[i]))
      && AttachedFrom(lines, i + 1)
  {
    NotBothHere(lines, i);
    hide StartsEntry, NamesType, Blank, CommentLine;
    assert AttachedFrom(lines, i) ==> Attached(lines, i);
  }

  /** One line of the walk. */
  lemma GroupStep(lines: seq<string>, i: nat, name: Option<string>, e: Entry, g: Grouped)
    requires i < |lines|
    ensures var a, line := Append(g, name, e), lines[i];
      var f := FenceAfter(Closed, lines[..i + 1]);
      Group(lines[i..], FenceAfter(Closed, lines[..i]), name, e, g) ==
        if Structural(lines, i) then
          if a.Err? then Err(a.error)
          else if NamesType(lines, i) then Group(lines[i + 1..], f, Some(TypeName(line)), [], a.value)
          else Group(lines[i + 1..], f, name, [line], a.value)
        else if e == [] && !Blank(line) && !CommentLine(line) then Err(StrayLine)
        else Group(lines[i + 1..], f, name, if e == [] then [] else e + [line], g)
  {
    hide Append, Blank, CommentLine, TypeHeading, TopLevelEntry, TypeName, Delimiter;
    FenceAfterOneMore(lines, i);
    assert lines[i..][0] == lines[i] && lines[i..][1..] == lines[i + 1..];
  }

  /** Grouping reads exactly those entries, and refuses a section with a line that belongs to nothing. */
  lemma {:induction false} GroupReads(lines: seq<string>, i: nat, name: Option<string>, e: Entry, g: Grouped)
    requires i <= |lines| && ReadAbove(lines, i, name, e, g)
    ensures var r := Group(lines[i..], FenceAfter(Closed, lines[..i]), name, e, g);
      && (r.Ok? <==> AttachedFrom(lines, i)) && (r.Ok? ==> GroupedAs(r.value, lines, |lines|))
      && (r.Err? ==> Unreadable(lines, r.error))
    decreases |lines| - i
  {
    hide Group, Append, FenceAfter, GroupedAs, AttachedFrom, Structural, Fenced, TypeHeading, TypeName, Blank, CommentLine,
         Unreadable, ReadAbove, EntryOver, TypeOver;
    ReadIs(lines, i, name, e, g);
    if i == |lines| {
      GroupEnds(lines, name, e, g);
    } else {
      AttachedStep(lines, i);
      GroupStep(lines, i, name, e, g);
      if Structural(lines, i) {
        EntryEnds(lines, i, name, e, g);
        var r := Append(g, name, e);
        if r.Ok? {
          StructuralRead(lines, i, name, r.value);
          if NamesType(lines, i) {
            GroupReads(lines, i + 1, Some(TypeName(lines[i])), [], r.value);
          } else {
            GroupReads(lines, i + 1, name, [lines[i]], r.value);
          }
        }
      } else if e != [] || Blank(lines[i]) || CommentLine(lines[i]) {
        PlainRead(lines, i, name, e, g);
        GroupReads(lines, i + 1, name, if e == [] then [] else e + [lines[i]], g);
      } else {
        StrayHere(lines, i);
      }
    }
  }

  lemma ReadIs(lines: seq<string>, i: nat, name: Option<string>, e: Entry, g: Grouped)
    requires i <= |lines| && ReadAbove(lines, i, name, e, g)
    ensures e == [] <==> EntryOver(lines, i) == -1
    ensures name == var t := TypeOver(lines, i); if t == -1 then None else Some(TypeName(lines[t]))
  {
  }

  lemma GroupEnds(lines: seq<string>, name: Option<string>, e: Entry, g: Grouped)
    requires ReadAbove(lines, |lines|, name, e, g)
    ensures var r := Group(lines[|lines|..], FenceAfter(Closed, lines[..|lines|]), name, e, g);
      && (r.Ok? <==> AttachedFrom(lines, |lines|)) && (r.Ok? ==> GroupedAs(r.value, lines, |lines|))
      && (r.Err? ==> Unreadable(lines, r.error))
  {
    hide Append, GroupedAs, Unreadable, ReadAbove;
    EntryEnds(lines, |lines|, name, e, g);
  }

  lemma StrayHere(lines: seq<string>, i: nat)
    requires i < |lines| && !Structural(lines, i) && EntryOver(lines, i) == -1 && !Blank(lines[i]) && !CommentLine(lines[i])
    ensures Unreadable(lines, StrayLine)
  {
  }

  /** A section is read when each of its lines belongs to something, and then as exactly the entries that stand under
      each heading, in order, with all their lines. */
  lemma EntriesAre(lines: seq<string>)
    ensures EntriesOf(lines).Ok? <==> forall i :: 0 <= i < |lines| ==> Attached(lines, i)
    ensures EntriesOf(lines).Err? ==> Unreadable(lines, EntriesOf(lines).error)
    ensures EntriesOf(lines).Ok? ==>
      var g := EntriesOf(lines).value;
      forall t :: Listed(g, t) == EntriesUnder(lines, t, |lines|) && (t in g <==> EntriesUnder(lines, t, |lines|) != [])
  {
    assert lines[0..] == lines && lines[..0] == [];
    GroupReads(lines, 0, None, [], map[]);
  }

  // ----- How entries are laid out

  function WithoutLast<T>(s: seq<T>): seq<T> {
    if s == [] then [] else s[..|s| - 1]
  }

  lemma {:induction false} FormatTypesSplits(types: seq<string>, g: Grouped, k: nat)
    requires k <= |types|
    ensures FormatTypes(types, g) == WithoutLast(FormatTypes(types[..k], g)) + FormatTypes(types[k..], g)
  {
    FormatTypesEnd(types[..k], g);
    if k > 0 {
      var rest := types[1..];
      FormatTypesEnd(rest[..k - 1], g);
      assert types[..k][1..] == rest[..k - 1] && types[k..] == rest[k - 1..] && types[..k][0] == types[0];
      FormatTypesSplits(rest, g, k - 1);
      if Listed(g, types[0]) != [] {
        var first := ["", "### " + types[0], ""] + Concat(BreakingFirst(Listed(g, types[0])));
        var before := FormatTypes(rest[..k - 1], g);
        assert WithoutLast(first + before) == first + WithoutLast(before);
        Assoc(first, WithoutLast(before), FormatTypes(types[k..], g));
      }
    }
  }

  lemma {:induction false} FormatTypesEnd(types: seq<string>, g: Grouped)
    ensures FormatTypes(types, g) != [] && FormatTypes(types, g)[|FormatTypes(types, g)| - 1] == ""
  {
    if types != [] { FormatTypesEnd(types[1..], g); }
  }

  /** A section shows each type that has entries under a heading with a blank line on either side, its entries breaking
      first; before it come only the types that precede it in the fixed order, after it the others. */
  lemma FormatLays(g: Grouped, k: nat)
    requires k < |CHANGE_TYPES| && Listed(g, CHANGE_TYPES[k]) != []
    ensures var t := CHANGE_TYPES[k];
      Format(g) == WithoutLast(FormatTypes(CHANGE_TYPES[..k], g))
                   + (["", "### " + t, ""] + Concat(BreakingFirst(Listed(g, t)))) + FormatTypes(CHANGE_TYPES[k + 1..], g)
  {
    FormatTypesSplits(CHANGE_TYPES, g, k);
    assert CHANGE_TYPES[k..][1..] == CHANGE_TYPES[k + 1..];
    hide BreakingFirst, Concat;
    var first := ["", "### " + CHANGE_TYPES[k], ""] + Concat(BreakingFirst(Listed(g, CHANGE_TYPES[k])));
    Assoc(WithoutLast(FormatTypes(CHANGE_TYPES[..k], g)), first, FormatTypes(CHANGE_TYPES[k + 1..], g));
  }

  lemma FormatEnds(g: Grouped)
    ensures Format(g) != [] && Format(g)[|Format(g)| - 1] == ""
  {
    var types := CHANGE_TYPES;
    FormatTypesEnd(types, g);
    var f, all := Format(g), FormatTypes(types, g);
    assert f == all && f[|f| - 1] == all[|all| - 1];
  }

  /** For example: types in their order, breaking changes first, each entry with all its lines. */
  lemma FormatExample(g: Grouped, plain: Entry, breaking: Entry, added: Entry)
    requires g == map["Fixed" := [plain, breaking], "Added" := [added]]
    requires breaking != [] && "- **Breaking:**" <= breaking[0]
    requires plain != [] && plain[0] == "- b" && added != [] && added[0] == "- c"
    ensures Format(g) == ["", "### Added", ""] + added + (["", "### Fixed", ""] + (breaking + plain) + [""])
  {
    assert IsBreaking(breaking) && !IsBreaking(plain) && !IsBreaking(added);
    OnlyOfTwo(plain, breaking);
    OnlyOfOne(added);
    ConcatOfTwo(breaking, plain);
    ConcatOfOne(added);
    FormatSixTypes(g);
    hide FormatTypes, BreakingFirst, Concat, IsBreaking;
    FormatNone(g);
    var later := ["Changed", "Deprecated", "Removed", "Fixed", "Security"];
    FormatStep(g, "Fixed", ["Security"]);
    FormatStep(g, "Added", later);
  }

  lemma FormatNone(g: Grouped)
    ensures FormatTypes([], g) == [""] && "### " + "Added" == "### Added" && "### " + "Fixed" == "### Fixed"
  {
  }

  lemma FormatSixTypes(g: Grouped)
    requires g.Keys == {"Fixed", "Added"}
    ensures var later := ["Changed", "Deprecated", "Removed", "Fixed", "Security"];
      && Format(g) == FormatTypes(["Added"] + later, g)
      && FormatTypes(later, g) == FormatTypes(["Fixed"] + ["Security"], g) && FormatTypes(["Security"], g) == FormatTypes([], g)
  {
    hide FormatTypes;
    FormatSkip(g, "Security", []);
    assert ["Security"] + [] == ["Security"];
    assert ["Fixed"] + ["Security"] == ["Fixed", "Security"];
    FormatSkip(g, "Removed", ["Fixed", "Security"]);
    assert ["Removed"] + ["Fixed", "Security"] == ["Removed", "Fixed", "Security"];
    FormatSkip(g, "Deprecated", ["Removed", "Fixed", "Security"]);
    assert ["Deprecated"] + ["Removed", "Fixed", "Security"] == ["Deprecated", "Removed", "Fixed", "Security"];
    FormatSkip(g, "Changed", ["Deprecated", "Removed", "Fixed", "Security"]);
    var later := ["Changed", "Deprecated", "Removed", "Fixed", "Security"];
    assert ["Changed"] + ["Deprecated", "Removed", "Fixed", "Security"] == later;
    assert CHANGE_TYPES == ["Added"] + later;
  }

  lemma FormatStep(g: Grouped, t: string, types: seq<string>)
    requires Listed(g, t) != []
    ensures FormatTypes([t] + types, g) == ["", "### " + t, ""] + Concat(BreakingFirst(Listed(g, t))) + FormatTypes(types, g)
  {
    assert ([t] + types)[1..] == types;
  }

  lemma FormatSkip(g: Grouped, t: string, types: seq<string>)
    requires Listed(g, t) == []
    ensures FormatTypes([t] + types, g) == FormatTypes(types, g)
  {
    assert ([t] + types)[1..] == types;
  }

  lemma OnlyOfOne(e: Entry)
    requires !IsBreaking(e)
    ensures BreakingFirst([e]) == [e]
  {
    OnlyOne(e);
  }

  lemma OnlyOne(e: Entry)
    ensures forall b :: Only([e], b) == if IsBreaking(e) == b then [e] else []
  {
    assert [e][1..] == [];
    assert forall b :: Only([], b) == [];
  }

  lemma OnlyOfTwo(e: Entry, breaking: Entry)
    requires !IsBreaking(e) && IsBreaking(breaking)
    ensures BreakingFirst([e, breaking]) == [breaking, e]
  {
    assert [e, breaking][1..] == [breaking];
    OnlyOne(breaking);
    assert Only([e, breaking], true) == [] + Only([breaking], true);
    assert Only([e, breaking], false) == [e] + Only([breaking], false);
  }

  lemma ConcatOfOne(e: Entry)
    ensures Concat([e]) == e
  {
    assert [e][1..] == [];
  }

  lemma ConcatOfTwo(a: Entry, b: Entry)
    ensures Concat([a, b]) == a + b
  {
    assert [a, b][1..] == [b];
    ConcatOfOne(b);
  }

  // ----- What a roll comes to

  ghost predicate HasUnreleased(lines: seq<string>) {
    exists i :: 0 <= i < |lines| && !Fenced(lines, i) && lines[i] == UNRELEASED_HEADING
  }

  ghost predicate HasSection(lines: seq<string>, version: string) {
    exists i :: 0 <= i < |lines| && !Fenced(lines, i) && HasVersion(version, lines[i])
  }

  /** An entry line stands in the section from `h` to `e`, outside code. */
  ghost predicate HoldsEntry(lines: seq<string>, h: nat, e: nat)
    requires h < e <= |lines|
  {
    exists i :: h < i < e && !Fenced(lines, i) && EntryLine(lines[i])
  }

  ghost predicate FirstUnreleased(lines: seq<string>, h: nat) {
    && h < |lines| && !Fenced(lines, h) && lines[h] == UNRELEASED_HEADING
    && forall i :: 0 <= i < h ==> Fenced(lines, i) || lines[i] != UNRELEASED_HEADING
  }

  /** A fold fails when there is no heading, when the section cannot be read, or when entries stand under a heading that
      is no change type. Otherwise only the section's lines change, to its entries and the files', laid out. */
  lemma FoldIff(lines: seq<string>, fragments: seq<Fragment>) returns (h: nat, e: nat, g: Grouped)
    ensures !HasUnreleased(lines) ==> FoldLines(lines, fragments) == Err(NoHeading)
    ensures HasUnreleased(lines) ==>
      FirstUnreleased(lines, h) && IsSection(lines, h, e) &&
      var section, r := lines[h + 1..e], FoldLines(lines, fragments);
      if exists i :: 0 <= i < |section| && !Attached(section, i) then r.Err? && Unreadable(section, r.error)
      else if exists t :: EntriesUnder(section, t, |section|) != [] && t !in CHANGE_TYPES then r == Err(UnknownType)
      else
        && r == Ok(lines[..h + 1] + Format(g) + lines[e..])
        && forall t :: Listed(g, t) == EntriesUnder(section, t, |section|) + FragmentsOf(fragments, t)
  {
    hide Fenced, IsSection, EntriesOf, WithFragments, Format, SectionEnd, Attached, Unreadable;
    h, e, g := 0, 0, map[];
    var i := HeadingIndex(lines);
    if i != -1 {
      h, e := i, SectionEnd(lines, i);
      SectionIsSection(lines, h);
      var section := lines[h + 1..e];
      EntriesAre(section);
      if EntriesOf(section).Ok? {
        var own := EntriesOf(section).value;
        g := WithFragments(own, fragments);
        forall t ensures Listed(g, t) == EntriesUnder(section, t, |section|) + FragmentsOf(fragments, t) {
          WithFragmentsListed(own, fragments, t);
        }
      }
    }
  }

  /** The first definition of the Unreleased link outside code is line `k`. */
  ghost predicate Defines(lines: seq<string>, k: nat) {
    && k < |lines| && !Fenced(lines, k) && UnreleasedDefinition(lines[k])
    && forall i :: 0 <= i < k ==> Fenced(lines, i) || !UnreleasedDefinition(lines[i])
  }

  lemma EntriesIff(lines: seq<string>, h: nat)
    requires h < |lines|
    ensures HasEntries(lines, h) <==> HoldsEntry(lines, h, SectionEnd(lines, h))
  {
    hide Fenced, EntryLine, SectionEnd;
  }

  lemma DefinesIff(lines: seq<string>)
    ensures DefinitionIndex(lines) != -1 <==> exists k: nat :: Defines(lines, k)
    ensures DefinitionIndex(lines) != -1 ==> Defines(lines, DefinitionIndex(lines))
    ensures forall k: nat :: Defines(lines, k) ==> k == DefinitionIndex(lines)
  {
    hide Fenced, UnreleasedDefinition;
    if DefinitionIndex(lines) != -1 { assert Defines(lines, DefinitionIndex(lines)); }
    forall k: nat | Defines(lines, k) ensures k == DefinitionIndex(lines) {
      FirstIs(lines, UnreleasedDefinition, 0, |lines|, k);
    }
  }

  /** What a roll of the folded lines comes to, with their heading at `h`, the section's end at `e`, and the definition
      at `k`. */
  ghost predicate Comes(lines: seq<string>, h: nat, e: nat, k: nat, allowEmpty: bool, r: Release<seq<string>>) {
    if !HasUnreleased(lines) then r == Failed(NoUnreleased)
    else
      && FirstUnreleased(lines, h) && IsSection(lines, h, e)
      && (if !HoldsEntry(lines, h, e) && !allowEmpty then r == Failed(NothingToRelease)
          else if forall i: nat :: !Defines(lines, i) then r == Failed(NoDefinition)
          else
            && Defines(lines, k)
            && (if forall b, p :: !ComparesTo(DefinedUrl(lines[k]), b, p) then r == Failed(NotAComparison) else r.Done?))
  }

  lemma FoldedComes(lines: seq<string>, version: string, date: string, allowEmpty: bool) returns (h: nat, e: nat, k: nat)
    ensures Comes(lines, h, e, k, allowEmpty, RollFolded(lines, version, date, allowEmpty))
  {
    hide Fenced, UnreleasedDefinition, UnreleasedCompare, SectionEnd, HasEntries, DefinitionIndex, Rolled, IsSection,
         HoldsEntry, Defines;
    h, e, k := 0, 0, 0;
    var i, d := HeadingIndex(lines), DefinitionIndex(lines);
    if i != -1 {
      h, e := i, SectionEnd(lines, i);
      SectionIsSection(lines, h);
      EntriesIff(lines, h);
      DefinesIff(lines);
      if d != -1 {
        k := d;
        DefinesOne(lines, k);
        var url := DefinedUrl(lines[k]);
        CompareIff(url, "", "");
      }
    }
  }

  lemma DefinesOne(lines: seq<string>, k: nat)
    requires Defines(lines, k)
    ensures k < |lines| && UnreleasedDefinition(lines[k])
  {
  }

  /** A roll fails for the first of these reasons that applies: there is no heading; the version has a section; the
      section cannot be folded; it then holds no entry, and that is not allowed; there is no definition; the first one
      does not compare with HEAD. Otherwise it is done. */
  lemma RollIff(source: string, version: string, date: string, fragments: seq<Fragment>, allowEmpty: bool)
    returns (h: nat, e: nat, k: nat, rolled: Release<seq<string>>)
    ensures var before, f := Document(source), FoldText(source, fragments);
      var r := RollText(source, version, date, fragments, allowEmpty);
      if !HasUnreleased(before) then r == Failed(NoUnreleased)
      else if HasSection(before, version) then r == Failed(AlreadyReleased)
      else if f.Err? then r == Failed(FoldFailed(f.error))
      else
        && Comes(Document(f.value), h, e, k, allowEmpty, rolled)
        && (rolled.Failed? ==> r == Failed(rolled.error)) && (rolled.Done? ==> r == Done(Text(rolled.value)))
  {
    hide Document, FoldText, RollFolded, Comes, Fenced, HasVersion, Text;
    var f := FoldText(source, fragments);
    h, e, k, rolled := 0, 0, 0, Failed(NoUnreleased);
    if f.Ok? {
      h, e, k := FoldedComes(Document(f.value), version, date, allowEmpty);
      rolled := RollFolded(Document(f.value), version, date, allowEmpty);
    }
  }

  // ----- The links a roll writes

  /** The new Unreleased link compares the version with HEAD, and that is what the next release reads out of it: it will
      compare the tag of this version. The version's own link is the old Unreleased link with the version for HEAD. */
  lemma LinksMoveOn(line: string, c: Comparison, version: string)
    requires UnreleasedDefinition(line) && UnreleasedCompare(DefinedUrl(line)) == Some(c) && IsVersion(version)
    ensures var next := NewUnreleased(c.base, version);
      && UnreleasedDefinition(next) && UnreleasedCompare(DefinedUrl(next)) == Some(Comparison(c.base, "v" + version))
    ensures var old_ := DefinedUrl(line);
      && old_[|old_| - 4..] == "HEAD"
      && NewDefinition(c.base, c.previous, version) == "[" + version + "]: " + (old_[..|old_| - 4] + "v" + version)
  {
    var url := DefinedUrl(line);
    CompareParts(url, c);
    NextUnreleased(c.base, version);
    hide UnreleasedCompare, UnreleasedDefinition, IsVersion;
    assert url == (c.base + "/compare/" + c.previous + "...") + "HEAD";
    assert url[..|url| - 4] == c.base + "/compare/" + c.previous + "...";
    var tail := c.base + "/compare/" + c.previous + "...";
    assert NewDefinition(c.base, c.previous, version) == "[" + version + "]: " + (tail + "v" + version);
  }

  lemma NextUnreleased(base: string, version: string)
    requires IsVersion(version)
    ensures var next := NewUnreleased(base, version);
      && UnreleasedDefinition(next) && UnreleasedCompare(DefinedUrl(next)) == Some(Comparison(base, "v" + version))
  {
    var next, url := NewUnreleased(base, version), base + "/compare/" + ("v" + version) + "...HEAD";
    assert next == "[" + "Unreleased" + "]: " + url;
    SpellsIt();
    UnreleasedDefinitionIff(next);
    assert DefinedUrl(next) == url;
    assert ComparesTo(url, base, "v" + version);
    forall b, p | ComparesTo(url, b, p) ensures |b| <= |base| { NoLaterCompare(url, base, version, b, p); }
    CompareIff(url, base, "v" + version);
  }

  lemma SpellsIt()
    ensures SpellsUnreleased("Unreleased")
  {
  }

  lemma NoLaterCompare(url: string, base: string, version: string, b: string, p: string)
    requires IsVersion(version) && url == base + "/compare/" + ("v" + version) + "...HEAD" && ComparesTo(url, b, p)
    ensures |b| <= |base|
  {
    VersionChars(version);
    hide IsVersion;
    SlashOnce(version);
    var tail := "compare/" + ("v" + version) + "...HEAD";
    WhereSplit(url, b, p);
    WhereVersion(url, base, version, tail);
    hide ComparesTo;
    if |b| > |base| { OnlySlash(url, |base|, tail, |b|); }
  }

  lemma OnlySlash(url: string, n: nat, tail: string, i: nat)
    requires |url| == n + 1 + |tail| && forall k :: 0 <= k < |tail| ==> url[n + 1 + k] == tail[k]
    requires (forall k :: 0 <= k < |tail| && k != 7 ==> tail[k] != '/') && n < i < |url| && url[i] == '/'
    ensures i == n + 8
  {
    assert url[n + 1 + (i - n - 1)] == tail[i - n - 1];
  }

  lemma WhereSplit(url: string, b: string, p: string)
    requires ComparesTo(url, b, p)
    ensures |b| + 1 < |url| && url[|b|] == '/' && url[|b| + 1] == 'c'
  {
    assert url == b + ("/compare/" + p + "...HEAD");
  }

  lemma WhereVersion(url: string, base: string, version: string, tail: string)
    requires url == base + "/compare/" + ("v" + version) + "...HEAD" && tail == "compare/" + ("v" + version) + "...HEAD"
    ensures |url| == |base| + 1 + |tail| && (forall i :: 0 <= i < |tail| ==> url[|base| + 1 + i] == tail[i])
    ensures |base| + 9 < |url| && url[|base| + 9] == 'v'
  {
    assert url == base + "/" + tail;
    assert tail == "compare/" + ("v" + version + "...HEAD");
    assert tail[8] == 'v';
  }

  lemma SlashOnce(version: string)
    requires forall c :: c in version ==> IsDigit(c) || c == '.'
    ensures var tail := "compare/" + ("v" + version) + "...HEAD"; forall i :: 0 <= i < |tail| && i != 7 ==> tail[i] != '/'
  {
    var tail := "compare/" + ("v" + version) + "...HEAD";
    assert tail == "compare/" + "v" + version + "...HEAD";
    forall i | 0 <= i < |tail| && i != 7 ensures tail[i] != '/' {
      if 9 <= i < 9 + |version| { assert tail[i] == version[i - 9] && version[i - 9] in version; }
    }
  }

  // ----- After a roll

  lemma CommentIsComment()
    ensures CommentLine(UNRELEASED_COMMENT) && !TopLevelEntry(UNRELEASED_COMMENT) && !TypeHeading(UNRELEASED_COMMENT)
    ensures Delimiter(UNRELEASED_COMMENT) == Closed
  {
    CommentPlain();
    CommentIs();
    var c := UNRELEASED_COMMENT;
    CommentEnds();
    var middle := c[4..|c| - 3];
    assert c == c[..4] + middle + c[|c| - 3..];
    assert SpacedAround(c, "", "<!--" + middle + "-->", "") by { assert "" + ("<!--" + middle + "-->") + "" == c; }
    assert CommentParts(c, "", middle, "");
    CommentIff(c);
  }

  lemma CommentEnds()
    ensures var c := UNRELEASED_COMMENT; |c| >= 7 && c[..4] == "<!--" && c[|c| - 3..] == "-->"
  {
  }

  /** A roll leaves a section that reads as empty: its comment is the one thing that is no entry and may stay. */
  lemma OpenedSectionIsEmpty(version: string, date: string)
    ensures EntriesOf(OpeningLines(version, date)[1..4]) == Ok(map[])
  {
    CommentIsComment();
    BlankIsPlain("");
    assert OpeningLines(version, date)[1..4] == ["", UNRELEASED_COMMENT, ""];
    hide Delimiter, CommentLine, TypeHeading, TopLevelEntry;
    PlainSkipped("", [UNRELEASED_COMMENT, ""]);
    PlainSkipped(UNRELEASED_COMMENT, [""]);
    PlainSkipped("", []);
    assert DropBlankTail([]) == [];
  }

  lemma PlainSkipped(line: string, rest: seq<string>)
    requires Delimiter(line) == Closed && !TypeHeading(line) && !TopLevelEntry(line) && (Blank(line) || CommentLine(line))
    ensures Group([line] + rest, Closed, None, [], map[]) == Group(rest, Closed, None, [], map[])
  {
    assert ([line] + rest)[1..] == rest;
  }

  // ----- What is wrong with an entry file

  /** Which problem a line of an entry file has: the first must be a bullet with text; a later one must not start another
      entry, or else a heading, or else stand unindented. */
  lemma ProblemKinds(lines: seq<string>, i: nat)
    requires i < |lines|
    ensures var line, p := lines[i], ProblemAt(lines, i);
      var bullet := |line| >= 2 && (line[..2] == "- " || line[..2] == "* ");
      var heading := line != [] && line[0] == '#';
      && (p == Some(NotAnEntry) <==> i == 0 && !bullet)
      && (p == Some(NoText) <==> i == 0 && bullet && forall k :: 2 <= k < |line| ==> IsSpace(line[k]))
      && (p == Some(SecondEntry) <==> i > 0 && bullet)
      && (p == Some(HasHeading) <==> i > 0 && !bullet && heading)
      && (p == Some(NotIndented) <==>
          i > 0 && !bullet && !heading && line[..if |line| < 2 then |line| else 2] != "  "
          && exists k :: 0 <= k < |line| && !IsSpace(line[k]))
  {
    var line := lines[i];
    assert TopLevelEntry(line) <==> |line| >= 2 && (line[..2] == "- " || line[..2] == "* ");
    if |line| >= 2 {
      assert forall k :: 2 <= k < |line| ==> line[k] == line[2..][k - 2];
      assert Blank(line[2..]) <==> forall k :: 2 <= k < |line| ==> IsSpace(line[k]) by { BlankFrom(line); }
    }
  }

  lemma BlankFrom(line: string)
    requires |line| >= 2
    ensures Blank(line[2..]) <==> forall k :: 2 <= k < |line| ==> IsSpace(line[k])
  {
    if Blank(line[2..]) {
      forall k | 2 <= k < |line| ensures IsSpace(line[k]) { assert line[k] == line[2..][k - 2]; }
    }
  }
}
