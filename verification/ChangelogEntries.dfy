/** Printing grouped entries and reading them back. */
module ChangelogEntries {
  import opened Options
  import opened ChangelogText
  import opened ChangelogSections

  // ----- The shape of an entry

  lemma {:induction false} BlankSkips(line: string)
    requires Blank(line)
    ensures SkipSpaces(line) == []
  {
    if line != [] { BlankSkips(line[1..]); }
  }

  /** A blank line neither opens nor closes a block, and is no structure. */
  lemma BlankIsPlain(line: string)
    requires Blank(line)
    ensures Delimiter(line) == Closed && !TypeHeading(line) && !TopLevelEntry(line) && !EndsSection(line)
    ensures forall f :: NextFence(f, line) == f
  {
    BlankSkips(line);
    if line != [] { assert IsSpace(line[0]); }
  }

  lemma TopLevelIsPlain(line: string)
    requires TopLevelEntry(line)
    ensures Delimiter(line) == Closed && !TypeHeading(line) && !EndsSection(line) && !Blank(line)
  {
    assert !IsSpace(line[0]);
    assert SkipSpaces(line) == line;
  }

  /** A line that stays inside the entry above it. */
  predicate Continues(line: string) {
    !TypeHeading(line) && !TopLevelEntry(line) && !EndsSection(line)
  }

  /** One entry, perhaps with a block still open at its end. */
  ghost predicate OpenShape(e: Entry) {
    e != [] && TopLevelEntry(e[0]) && forall i :: 1 <= i < |e| && !Fenced(e, i) ==> Continues(e[i])
  }

  /** One entry whose blocks are closed. */
  ghost predicate Shaped(e: Entry) {
    OpenShape(e) && FenceAfter(Closed, e) == Closed
  }

  ghost predicate AllShaped(g: Grouped) {
    forall t, i :: t in g && 0 <= i < |g[t]| ==> Shaped(g[t][i])
  }

  /** No blank line trails the entry. */
  predicate Untailed(e: Entry) {
    e != [] && !Blank(e[|e| - 1])
  }

  lemma {:induction false} DropTailShape(e: Entry)
    requires OpenShape(e)
    ensures OpenShape(DropBlankTail(e)) && Untailed(DropBlankTail(e))
    ensures FenceAfter(Closed, DropBlankTail(e)) == FenceAfter(Closed, e)
    ensures DropBlankTail(e) == e <==> Untailed(e)
    ensures |DropBlankTail(e)| <= |e|
    decreases |e|
  {
    TopLevelIsPlain(e[0]);
    if Blank(e[|e| - 1]) {
      var d := e[..|e| - 1];
      assert e == d + [e[|e| - 1]];
      BlankIsPlain(e[|e| - 1]);
      FenceAfterOneMore(e, |e| - 1);
      assert e[..|e|] == e;
      forall i | 1 <= i < |d| && !Fenced(d, i) ensures Continues(d[i]) {
        FencedPrefix(d, [e[|e| - 1]], i);
      }
      DropTailShape(d);
    }
  }

  lemma {:induction false} DropBlankTailStays(e: Entry)
    ensures DropBlankTail(e) != [] ==> Untailed(DropBlankTail(e))
    ensures DropBlankTail(e + [""]) == DropBlankTail(e)
    decreases |e|
  {
    assert (e + [""])[..|e|] == e;
    if e != [] && Blank(e[|e| - 1]) {
      DropBlankTailStays(e[..|e| - 1]);
      var d := e[..|e| - 1];
      assert DropBlankTail(e) == DropBlankTail(d);
    }
  }

  // ----- Reading what was printed

  function Kept(e: Entry): seq<Entry> {
    if DropBlankTail(e) == [] then [] else [DropBlankTail(e)]
  }

  function Trimmed(es: seq<Entry>): seq<Entry> {
    if es == [] then [] else [DropBlankTail(es[0])] + Trimmed(es[1..])
  }

  lemma AppendIsAdded(g: Grouped, t: string, e: Entry)
    ensures Append(g, Some(t), e) == Ok(Added(g, t, Kept(e)))
  {
  }

  lemma AddedTwice(g: Grouped, t: string, a: seq<Entry>, b: seq<Entry>)
    ensures Added(Added(g, t, a), t, b) == Added(g, t, a + b)
  {
    if a == [] {
      assert a + b == b;
    } else if b == [] {
      assert a + b == a;
    } else {
      assert Listed(g, t) + (a + b) == (Listed(g, t) + a) + b;
    }
  }

  lemma {:induction false} GroupBody(e: Entry, i: nat, rest: seq<string>, name: Option<string>, g: Grouped)
    requires OpenShape(e) && 1 <= i <= |e|
    ensures Group(e[i..] + rest, FenceAfter(Closed, e[..i]), name, e[..i], g)
         == Group(rest, FenceAfter(Closed, e), name, e, g)
    decreases |e| - i
  {
    if i == |e| {
      assert e[i..] + rest == rest && e[..i] == e;
    } else {
      var lines := e[i..] + rest;
      assert lines[0] == e[i] && lines[1..] == e[i + 1..] + rest;
      assert e[..i] + [e[i]] == e[..i + 1];
      FenceAfterOneMore(e, i);
      GroupBody(e, i + 1, rest, name, g);
    }
  }

  lemma GroupEntry(e: Entry, rest: seq<string>, t: string, open: Entry, g: Grouped)
    requires OpenShape(e)
    ensures Group(e + rest, Closed, Some(t), open, g)
         == Group(rest, FenceAfter(Closed, e), Some(t), e, Added(g, t, Kept(open)))
  {
    var lines := e + rest;
    assert lines[0] == e[0] && lines[1..] == e[1..] + rest;
    TopLevelIsPlain(e[0]);
    AppendIsAdded(g, t, open);
    FenceAfterOneMore(e, 0);
    assert e[..0] == [] && e[..1] == [e[0]];
    GroupBody(e, 1, rest, Some(t), Added(g, t, Kept(open)));
  }

  /** Why entries must close the blocks they open: one that does not swallows what is printed after it, whenever
      that leaves the block open. Two entries go in and one comes out. */
  lemma UnclosedSwallows(e: Entry, next: Entry, t: string)
    requires OpenShape(e) && FenceAfter(Closed, e).Open? && next != []
    requires forall i :: 0 <= i <= |next| ==> FenceAfter(FenceAfter(Closed, e), next[..i]).Open?
    ensures Group(Concat([e, next]), Closed, Some(t), [], map[]) == Ok(Added(map[], t, Kept(e + next)))
    ensures OpenShape(e + next)
  {
    var both := e + next;
    forall i | 1 <= i < |both| && !Fenced(both, i) ensures Continues(both[i]) {
      if i < |e| {
        FencedPrefix(e, next, i);
      } else {
        assert both[..i] == e + next[..i - |e|];
        FenceAfterConcat(Closed, e, next[..i - |e|]);
      }
    }
    assert [e, next][1..] == [next] && [next][1..] == [];
    assert Concat([next]) == next && Concat([e, next]) == e + Concat([next]);
    assert both == both + [];
    GroupEntry(both, [], t, [], map[]);
    AppendIsAdded(Added(map[], t, []), t, both);
  }

  /** What may follow a type's entries and the empty line after them. */
  predicate AtHeading(rest: seq<string>) {
    rest == [] || (TypeHeading(rest[0]) && Delimiter(rest[0]) == Closed)
  }

  lemma GroupEmptyLine(rest: seq<string>, t: string, open: Entry, g: Grouped)
    requires AtHeading(rest)
    ensures Group([""] + rest, Closed, Some(t), open, g) == Group(rest, Closed, Some(t), [], Added(g, t, Kept(open)))
  {
    var lines := [""] + rest;
    assert lines[0] == "" && lines[1..] == rest;
    BlankIsPlain("");
    DropBlankTailStays(open);
    AppendIsAdded(g, t, open);
    AppendIsAdded(g, t, open + [""]);
    AppendIsAdded(Added(g, t, Kept(open)), t, []);
  }

  lemma {:induction false} GroupList(es: seq<Entry>, rest: seq<string>, t: string, open: Entry, g: Grouped)
    requires AtHeading(rest) && forall i :: 0 <= i < |es| ==> Shaped(es[i])
    ensures Group(Concat(es) + ([""] + rest), Closed, Some(t), open, g)
         == Group(rest, Closed, Some(t), [], Added(g, t, Kept(open) + Trimmed(es)))
    decreases es
  {
    if es == [] {
      assert Concat(es) + ([""] + rest) == [""] + rest;
      assert Kept(open) + Trimmed(es) == Kept(open);
      GroupEmptyLine(rest, t, open, g);
    } else {
      var more := Concat(es[1..]) + ([""] + rest);
      assert Concat(es) + ([""] + rest) == es[0] + more;
      GroupEntry(es[0], more, t, open, g);
      var g' := Added(g, t, Kept(open));
      GroupList(es[1..], rest, t, es[0], g');
      DropTailShape(es[0]);
      AddedTwice(g, t, Kept(open), Kept(es[0]) + Trimmed(es[1..]));
      assert Kept(open) + (Kept(es[0]) + Trimmed(es[1..])) == Kept(open) + Trimmed(es);
    }
  }

  // ----- Whole sections

  predicate MakesHeading(t: string) {
    TypeHeading("### " + t) && TypeName("### " + t) == t && Delimiter("### " + t) == Closed
  }

  ghost predicate KnownTypes(types: seq<string>) {
    && (forall i, j :: 0 <= i < j < |types| ==> types[i] != types[j])
    && forall i :: 0 <= i < |types| ==> MakesHeading(types[i])
  }

  /** What reading a printed section adds to `acc`. */
  function Reread(acc: Grouped, types: seq<string>, g: Grouped): Grouped
    decreases types
  {
    if types == [] then acc
    else Reread(Added(acc, types[0], Trimmed(BreakingFirst(Listed(g, types[0])))), types[1..], g)
  }

  lemma FormatTypesStarts(types: seq<string>, g: Grouped) returns (rest: seq<string>)
    requires KnownTypes(types)
    ensures FormatTypes(types, g) == [""] + rest && AtHeading(rest)
    decreases types
  {
    if types == [] {
      rest := [];
    } else if Listed(g, types[0]) == [] {
      assert KnownTypes(types[1..]);
      rest := FormatTypesStarts(types[1..], g);
    } else {
      rest := FormatTypes(types, g)[1..];
      assert rest[0] == "### " + types[0];
    }
  }

  lemma {:induction false} OnlyShaped(es: seq<Entry>, b: bool)
    requires forall i :: 0 <= i < |es| ==> Shaped(es[i])
    ensures forall i :: 0 <= i < |Only(es, b)| ==> Shaped(Only(es, b)[i])
  {
    if es != [] { OnlyShaped(es[1..], b); }
  }

  /** Reading one type's heading and entries. */
  lemma GroupOneType(t: string, es: seq<Entry>, rest: seq<string>, name: Option<string>, acc: Grouped)
    requires MakesHeading(t) && AtHeading(rest) && forall i :: 0 <= i < |es| ==> Shaped(es[i])
    ensures Group(["", "### " + t, ""] + Concat(es) + ([""] + rest), Closed, name, [], acc)
         == Group([""] + rest, Closed, Some(t), [], Added(acc, t, Trimmed(es)))
  {
    hide Group, Shaped, MakesHeading, AtHeading;
    var tail := Concat(es) + ([""] + rest);
    assert ["", "### " + t, ""] + Concat(es) + ([""] + rest) == [""] + (["### " + t] + ([""] + tail));
    GroupSkipsEmpty(["### " + t] + ([""] + tail), name, acc);
    GroupHeading(t, [""] + tail, name, acc);
    GroupSkipsEmpty(tail, Some(t), acc);
    GroupList(es, rest, t, [], acc);
    assert Kept([]) + Trimmed(es) == Trimmed(es);
    GroupSkipsEmpty(rest, Some(t), Added(acc, t, Trimmed(es)));
  }

  lemma {:induction false} GroupFormat(types: seq<string>, g: Grouped, name: Option<string>, acc: Grouped)
    requires KnownTypes(types) && AllShaped(g)
    ensures Group(FormatTypes(types, g), Closed, name, [], acc) == Ok(Reread(acc, types, g))
    decreases types
  {
    if types == [] {
      assert FormatTypes(types, g) == [""];
      BlankIsPlain("");
      assert [""][1..] == [];
    } else {
      hide Group, Shaped, MakesHeading, AtHeading, BreakingFirst, Concat;
      var t, later := types[0], types[1..];
      assert KnownTypes(later);
      if Listed(g, t) == [] {
        GroupFormat(later, g, name, acc);
        NothingToSort();
      } else {
        var es := BreakingFirst(Listed(g, t));
        SortedShaped(Listed(g, t));
        var rest := FormatTypesStarts(later, g);
        GroupOneType(t, es, rest, name, acc);
        GroupFormat(later, g, Some(t), Added(acc, t, Trimmed(es)));
      }
    }
  }

  lemma NothingToSort()
    ensures Trimmed(BreakingFirst([])) == []
  {
  }

  lemma SortedShaped(es: seq<Entry>)
    requires forall i :: 0 <= i < |es| ==> Shaped(es[i])
    ensures forall i :: 0 <= i < |BreakingFirst(es)| ==> Shaped(BreakingFirst(es)[i])
  {
    OnlyShaped(es, true);
    OnlyShaped(es, false);
  }

  lemma GroupSkipsEmpty(rest: seq<string>, name: Option<string>, g: Grouped)
    ensures Group([""] + rest, Closed, name, [], g) == Group(rest, Closed, name, [], g)
  {
    BlankIsPlain("");
    assert ([""] + rest)[1..] == rest;
  }

  lemma GroupHeading(t: string, rest: seq<string>, name: Option<string>, g: Grouped)
    requires MakesHeading(t)
    ensures Group(["### " + t] + rest, Closed, name, [], g) == Group(rest, Closed, Some(t), [], g)
  {
    var heading := "### " + t;
    assert ([heading] + rest)[1..] == rest;
  }

  lemma ChangeTypesKnown()
    ensures KnownTypes(CHANGE_TYPES)
  {
    forall i | 0 <= i < |CHANGE_TYPES| ensures MakesHeading(CHANGE_TYPES[i]) {
      TypeLine(CHANGE_TYPES[i]);
    }
  }

  /** A type name with no white space at its ends survives being made a heading. */
  lemma TypeLine(t: string)
    requires t != [] && !IsSpace(t[0]) && !IsSpace(t[|t| - 1])
    ensures MakesHeading(t)
  {
    var line := "### " + t;
    assert line[4..] == t;
    assert SkipSpaces(line) == line;
  }

  // ----- The stable sort

  lemma {:induction false} OnlyConcat(a: seq<Entry>, b: seq<Entry>, breaking: bool)
    ensures Only(a + b, breaking) == Only(a, breaking) + Only(b, breaking)
  {
    if a == [] {
      assert a + b == b;
    } else {
      assert (a + b)[1..] == a[1..] + b;
      OnlyConcat(a[1..], b, breaking);
    }
  }

  lemma {:induction false} OnlyOnly(es: seq<Entry>, b: bool, c: bool)
    ensures Only(Only(es, b), c) == if b == c then Only(es, b) else []
  {
    if es != [] {
      OnlyOnly(es[1..], b, c);
      if IsBreaking(es[0]) == b {
        assert Only(es, b)[1..] == Only(es[1..], b);
      } else {
        assert Only(es, b) == Only(es[1..], b);
      }
    }
  }

  lemma {:induction false} OnlyMembers(es: seq<Entry>, b: bool)
    ensures forall i :: 0 <= i < |Only(es, b)| ==> IsBreaking(Only(es, b)[i]) == b && Only(es, b)[i] in es
  {
    if es != [] { OnlyMembers(es[1..], b); }
  }

  lemma {:induction false} OnlyPartition(es: seq<Entry>)
    ensures multiset(Only(es, true)) + multiset(Only(es, false)) == multiset(es)
    ensures |Concat(Only(es, true))| + |Concat(Only(es, false))| == |Concat(es)|
    ensures |Only(es, true)| + |Only(es, false)| == |es|
  {
    if es != [] {
      assert es == [es[0]] + es[1..];
      OnlyPartition(es[1..]);
      var b := IsBreaking(es[0]);
      assert Only(es, b) == [es[0]] + Only(es[1..], b);
      assert Only(es, !b) == Only(es[1..], !b);
    }
  }

  /** Sorting loses and adds nothing, puts every breaking entry before every other, and keeps the order inside
      each of the two classes. */
  lemma BreakingFirstIsStable(es: seq<Entry>)
    ensures multiset(BreakingFirst(es)) == multiset(es) && |BreakingFirst(es)| == |es|
    ensures |Concat(BreakingFirst(es))| == |Concat(es)|
    ensures forall i, j :: 0 <= i < j < |es| && IsBreaking(BreakingFirst(es)[j]) ==> IsBreaking(BreakingFirst(es)[i])
    ensures forall b :: Only(BreakingFirst(es), b) == Only(es, b)
    ensures BreakingFirst(BreakingFirst(es)) == BreakingFirst(es)
  {
    OnlyPartition(es);
    OnlyMembers(es, true);
    OnlyMembers(es, false);
    ConcatAppends(Only(es, true), Only(es, false));
    forall b ensures Only(BreakingFirst(es), b) == Only(es, b) {
      OnlyConcat(Only(es, true), Only(es, false), b);
      OnlyOnly(es, true, b);
      OnlyOnly(es, false, b);
    }
  }

  ghost predicate AllEntries(es: seq<Entry>) {
    forall i :: 0 <= i < |es| ==> Shaped(es[i])
  }

  lemma {:induction false} TrimmedShape(es: seq<Entry>)
    requires AllEntries(es)
    ensures |Trimmed(es)| == |es| && AllEntries(Trimmed(es))
  {
    if es != [] {
      assert AllEntries(es[1..]);
      TrimmedShape(es[1..]);
      DropTailShape(es[0]);
    }
  }

  lemma {:induction false} TrimmedOnly(es: seq<Entry>, b: bool)
    requires AllEntries(es)
    ensures Only(Trimmed(es), b) == Trimmed(Only(es, b))
  {
    if es != [] {
      assert AllEntries(es[1..]);
      TrimmedOnly(es[1..], b);
      DropTailFirst(es[0]);
      assert Trimmed(es)[1..] == Trimmed(es[1..]);
      if IsBreaking(es[0]) == b {
        assert Only(es, b)[1..] == Only(es[1..], b);
      } else {
        assert Only(es, b) == Only(es[1..], b);
      }
    }
  }

  ghost predicate NoTails(es: seq<Entry>) {
    forall e :: e in es ==> Untailed(e)
  }

  lemma {:induction false} TrimmedSize(es: seq<Entry>)
    requires AllEntries(es)
    ensures NoTails(es) ==> Trimmed(es) == es
    ensures !NoTails(es) ==> |Concat(Trimmed(es))| < |Concat(es)|
    ensures |Concat(Trimmed(es))| <= |Concat(es)|
  {
    if es != [] {
      assert es == [es[0]] + es[1..];
      assert AllEntries(es[1..]);
      TrimmedSize(es[1..]);
      DropTailShape(es[0]);
      DropTailFirst(es[0]);
      assert Trimmed(es)[1..] == Trimmed(es[1..]);
      assert NoTails(es) <==> Untailed(es[0]) && NoTails(es[1..]);
    }
  }

  lemma {:induction false} DropTailFirst(e: Entry)
    requires OpenShape(e)
    ensures IsBreaking(DropBlankTail(e)) == IsBreaking(e)
    ensures DropBlankTail(e) != e ==> |DropBlankTail(e)| < |e|
    decreases |e|
  {
    TopLevelIsPlain(e[0]);
    if Blank(e[|e| - 1]) {
      var d := e[..|e| - 1];
      assert e == d + [e[|e| - 1]];
      forall i | 1 <= i < |d| && !Fenced(d, i) ensures Continues(d[i]) {
        FencedPrefix(d, [e[|e| - 1]], i);
      }
      DropTailFirst(d);
      DropTailShape(d);
    }
  }

  // ----- What a printed section reads back as

  function Sorted(g: Grouped): Grouped {
    map t | t in g :: Trimmed(BreakingFirst(g[t]))
  }

  ghost predicate NoneEmpty(g: Grouped) {
    forall t :: t in g ==> g[t] != []
  }

  lemma {:induction false} RereadListed(acc: Grouped, types: seq<string>, g: Grouped, t: string)
    requires KnownTypes(types)
    ensures t in types && Listed(g, t) != [] ==> Listed(Reread(acc, types, g), t) == Listed(acc, t) + Trimmed(BreakingFirst(Listed(g, t)))
    ensures t !in types || Listed(g, t) == [] ==> Listed(Reread(acc, types, g), t) == Listed(acc, t)
    ensures t in Reread(acc, types, g) <==> t in acc || (t in types && Listed(g, t) != [])
    decreases types
  {
    if types != [] {
      assert KnownTypes(types[1..]);
      assert types == [types[0]] + types[1..];
      var es := Listed(g, types[0]);
      NothingToSort();
      TrimmedLength(BreakingFirst(es));
      OnlyPartition(es);
      assert types[0] !in types[1..];
      RereadListed(Added(acc, types[0], Trimmed(BreakingFirst(es))), types[1..], g, t);
    }
  }

  lemma {:induction false} TrimmedLength(es: seq<Entry>)
    ensures |Trimmed(es)| == |es|
  {
    if es != [] { TrimmedLength(es[1..]); }
  }

  ghost predicate KeysKnown(g: Grouped) {
    forall t :: t in g ==> t in CHANGE_TYPES
  }

  lemma RereadIsSorted(g: Grouped)
    requires NoneEmpty(g) && KeysKnown(g)
    ensures Reread(map[], CHANGE_TYPES, g) == Sorted(g)
  {
    ChangeTypesKnown();
    hide KnownTypes, Reread, Trimmed, BreakingFirst;
    var r := Reread(map[], CHANGE_TYPES, g);
    forall t ensures t in r <==> t in g {
      RereadListed(map[], CHANGE_TYPES, g, t);
    }
    forall t | t in g ensures r[t] == Sorted(g)[t] {
      RereadListed(map[], CHANGE_TYPES, g, t);
      assert [] + Trimmed(BreakingFirst(g[t])) == Trimmed(BreakingFirst(g[t]));
    }
    assert r == Sorted(g);
  }

  /** Reading a printed section gives back every entry, sorted, without the blank lines that trailed it. */
  lemma ReadBackSorted(g: Grouped)
    requires AllShaped(g) && NoneEmpty(g) && KeysKnown(g)
    ensures EntriesOf(Format(g)) == Ok(Sorted(g))
  {
    ChangeTypesKnown();
    GroupFormat(CHANGE_TYPES, g, None, map[]);
    RereadIsSorted(g);
  }

  lemma SortedKeeps(g: Grouped)
    requires AllShaped(g) && NoneEmpty(g)
    ensures AllShaped(Sorted(g)) && NoneEmpty(Sorted(g)) && Sorted(g).Keys == g.Keys
  {
    forall t | t in g ensures Sorted(g)[t] != [] && AllEntries(Sorted(g)[t]) {
      SortedShaped(g[t]);
      TrimmedShape(BreakingFirst(g[t]));
      OnlyPartition(g[t]);
    }
    forall t, i | t in Sorted(g) && 0 <= i < |Sorted(g)[t]| ensures Shaped(Sorted(g)[t][i]) {
      assert AllEntries(Sorted(g)[t]);
    }
  }

  /** No entry has blank lines trailing it. */
  ghost predicate AllUntailed(g: Grouped) {
    forall t :: t in g ==> NoTails(g[t])
  }

  lemma SortedAgain(es: seq<Entry>)
    requires AllEntries(es)
    ensures BreakingFirst(Trimmed(BreakingFirst(es))) == Trimmed(BreakingFirst(es))
    ensures NoTails(es) ==> Trimmed(BreakingFirst(es)) == BreakingFirst(es)
    ensures !NoTails(es) ==> |Concat(Trimmed(BreakingFirst(es)))| < |Concat(BreakingFirst(es))|
    ensures |Concat(Trimmed(BreakingFirst(es)))| <= |Concat(BreakingFirst(es))|
  {
    var b := BreakingFirst(es);
    BreakingFirstIsStable(es);
    SortedShaped(es);
    TrimmedOnly(b, true);
    TrimmedOnly(b, false);
    TrimmedConcat(Only(b, true), Only(b, false));
    TrimmedSize(b);
    assert forall e :: e in b <==> e in multiset(b);
    assert forall e :: e in es <==> e in multiset(es);
  }

  lemma {:induction false} TrimmedConcat(a: seq<Entry>, b: seq<Entry>)
    ensures Trimmed(a + b) == Trimmed(a) + Trimmed(b)
  {
    if a == [] {
      assert a + b == b;
    } else {
      assert (a + b)[1..] == a[1..] + b;
      TrimmedConcat(a[1..], b);
    }
  }

  /** Printing what was read back gives the same lines when no entry had a blank tail, and fewer otherwise. */
  lemma {:induction false} FormatSorted(types: seq<string>, g: Grouped)
    requires AllShaped(g) && NoneEmpty(g)
    ensures |FormatTypes(types, Sorted(g))| <= |FormatTypes(types, g)|
    ensures (forall t :: t in types ==> NoTails(Listed(g, t))) ==> FormatTypes(types, Sorted(g)) == FormatTypes(types, g)
    ensures (exists t :: t in types && !NoTails(Listed(g, t))) ==> |FormatTypes(types, Sorted(g))| < |FormatTypes(types, g)|
    decreases types
  {
    hide Trimmed, BreakingFirst, NoTails, Shaped, Concat;
    if types != [] {
      FormatSorted(types[1..], g);
      assert types == [types[0]] + types[1..];
      var es := Listed(g, types[0]);
      NothingTailed();
      if es != [] {
        assert AllEntries(es);
        SortedAgain(es);
        SortedLength(es);
      }
    }
  }

  lemma NothingTailed()
    ensures NoTails([])
  {
  }

  lemma SortedLength(es: seq<Entry>)
    ensures |Trimmed(BreakingFirst(es))| == |BreakingFirst(es)| == |es|
  {
    OnlyPartition(es);
    TrimmedLength(BreakingFirst(es));
  }
}
