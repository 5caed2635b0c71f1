/** Replacing the rows of a list that is read from its rows: all of it or none of it. */
module ListRows {
  import opened Options
  import opened Sequences

  type Name = string

  /** What setting a row comes to: its converters or validators refuse the entry, or they give a candidate value, which
      the node's hooks refuse, or store as another value, after which they may still raise. */
  datatype Attempt<+V> =
    | Refused
    | HookRefuses(candidate: V)
    | Stores(candidate: V, final: V, thenRaises: bool)

  /** The parts of a list and its node that are not its rows: how many items it may hold, how many children it has that
      are no rows, what a row's value counts as, what a row without a value reads as, and how converters, validators and
      hooks answer. */
  datatype Rules<!V> = Rules(maxItems: Option<int>, traits: nat, itemsOf: V -> seq<V>, default: V,
                             attempt: (nat, V) -> Attempt<V>, acceptsList: seq<V> -> bool)

  function Items<V>(rules: Rules<V>, values: seq<V>): seq<V> {
    if values == [] then [] else Items(rules, values[..|values| - 1]) + rules.itemsOf(values[|values| - 1])
  }

  predicate Exceeds<V>(rules: Rules<V>, count: nat) {
    rules.maxItems.Some? && count > rules.maxItems.value
  }

  /** No room for a row beside `rows` others; the limit on items is also one on children. */
  predicate Full<V>(rules: Rules<V>, rows: nat) {
    rules.maxItems.Some? && rules.traits + rows >= rules.maxItems.value
  }

  predicate HasRoomFor<V>(rules: Rules<V>, rows: nat) {
    rows > 0 ==> !Full(rules, rows - 1)
  }

  // ----- What a replacement comes to

  /** What the first `n` rows store, or None when one of them is refused. */
  function Stored<V>(rules: Rules<V>, entries: seq<V>, n: nat): Option<seq<V>>
    requires n <= |entries|
  {
    if n == 0 then Some([])
    else
      match Stored(rules, entries, n - 1)
      case None => None
      case Some(before) =>
        if Full(rules, n - 1) then None
        else
          match rules.attempt(n - 1, entries[n - 1])
          case Stores(candidate, final, thenRaises) =>
            if Exceeds(rules, |Items(rules, before)| + |rules.itemsOf(candidate)|) || thenRaises then None
            else Some(before + [final])
          case _ => None
  }

  /** The values of the new rows, or None when the list is refused. */
  function Replacement<V>(rules: Rules<V>, entries: seq<V>, connectedRows: bool): Option<seq<V>> {
    if Exceeds(rules, |Items(rules, entries)|) || connectedRows then None
    else
      match Stored(rules, entries, |entries|)
      case None => None
      case Some(finals) => if rules.acceptsList(Items(rules, finals)) then Some(finals) else None
  }

  /** Row by row, what is stored is what the hooks made of that row's entry. */
  lemma {:induction false} StoredAt<V>(rules: Rules<V>, entries: seq<V>, n: nat)
    requires n <= |entries| && Stored(rules, entries, n).Some?
    ensures var finals := Stored(rules, entries, n).value;
      |finals| == n && forall i :: 0 <= i < n ==>
        rules.attempt(i, entries[i]).Stores? && finals[i] == rules.attempt(i, entries[i]).final
  {
    if n > 0 { StoredAt(rules, entries, n - 1); }
  }

  /** A list that was replaced reads as its new rows' items; entries stored as they came read as the entries' items. */
  lemma UnchangedEntriesReadBack<V>(rules: Rules<V>, entries: seq<V>, connectedRows: bool)
    requires forall i :: 0 <= i < |entries| && rules.attempt(i, entries[i]).Stores? ==>
      rules.attempt(i, entries[i]).final == entries[i]
    ensures Replacement(rules, entries, connectedRows).Some? ==> Replacement(rules, entries, connectedRows).value == entries
  {
    if Stored(rules, entries, |entries|).Some? { StoredAt(rules, entries, |entries|); }
  }

  /** The items of a list are its rows' items, row after row. */
  lemma {:induction false} ItemsConcat<V>(rules: Rules<V>, a: seq<V>, b: seq<V>)
    ensures Items(rules, a + b) == Items(rules, a) + Items(rules, b)
    decreases b
  {
    if b == [] {
      assert a + b == a;
    } else {
      var front := b[..|b| - 1];
      assert (a + b)[..|a + b| - 1] == a + front;
      ItemsConcat(rules, a, front);
    }
  }

  /** How many items the list holds with the first rows as stored and the next one as its converters give it. */
  ghost predicate FitsBeside<V>(rules: Rules<V>, finals: seq<V>, candidate: V) {
    rules.maxItems.Some? ==> |Items(rules, finals)| + |rules.itemsOf(candidate)| <= rules.maxItems.value
  }

  /** Row `i` of the new rows, with what is stored before it, is accepted: there is room for it beside the list's other
      children, and its converters, its hooks and the limit all let it pass. */
  ghost predicate RowAccepted<V>(rules: Rules<V>, entries: seq<V>, finals: seq<V>, i: nat)
    requires i < |entries| && i <= |finals|
  {
    && (rules.maxItems.Some? ==> rules.traits + i < rules.maxItems.value)
    && rules.attempt(i, entries[i]).Stores? && !rules.attempt(i, entries[i]).thenRaises
    && FitsBeside(rules, finals[..i], rules.attempt(i, entries[i]).candidate)
  }

  ghost predicate FinalsOf<V>(rules: Rules<V>, entries: seq<V>, finals: seq<V>, n: nat)
    requires n <= |entries|
  {
    |finals| == n && forall i :: 0 <= i < n ==> RowAccepted(rules, entries, finals, i) && finals[i] == rules.attempt(i, entries[i]).final
  }

  lemma {:induction false} StoredIff<V>(rules: Rules<V>, entries: seq<V>, n: nat, finals: seq<V>)
    requires n <= |entries|
    ensures Stored(rules, entries, n) == Some(finals) <==> FinalsOf(rules, entries, finals, n)
  {
    if n > 0 {
      if |finals| == n {
        var front := finals[..n - 1];
        StoredIff(rules, entries, n - 1, front);
        FinalsStep(rules, entries, finals, n);
        assert finals == front + [finals[n - 1]];
      }
      hide FinalsOf;
      if Stored(rules, entries, n).Some? { StoredAt(rules, entries, n); StoredFront(rules, entries, n); }
      assert |finals| != n ==> !FinalsOf(rules, entries, finals, n) by { WrongLength(rules, entries, finals, n); }
    }
  }

  lemma WrongLength<V>(rules: Rules<V>, entries: seq<V>, finals: seq<V>, n: nat)
    requires n <= |entries|
    ensures |finals| != n ==> !FinalsOf(rules, entries, finals, n)
  {
  }

  lemma StoredFront<V>(rules: Rules<V>, entries: seq<V>, n: nat)
    requires 0 < n <= |entries| && Stored(rules, entries, n).Some?
    ensures Stored(rules, entries, n - 1).Some?
    ensures |Stored(rules, entries, n).value| > 0
    ensures Stored(rules, entries, n - 1).value == Stored(rules, entries, n).value[..|Stored(rules, entries, n).value| - 1]
  {
  }

  lemma FinalsStep<V>(rules: Rules<V>, entries: seq<V>, finals: seq<V>, n: nat)
    requires 0 < n <= |entries| && |finals| == n
    ensures FinalsOf(rules, entries, finals, n) <==>
      && FinalsOf(rules, entries, finals[..n - 1], n - 1)
      && RowAccepted(rules, entries, finals, n - 1) && finals[n - 1] == rules.attempt(n - 1, entries[n - 1]).final
  {
    forall i | 0 <= i < n - 1
      ensures RowAccepted(rules, entries, finals, i) <==> RowAccepted(rules, entries, finals[..n - 1], i)
    {
      assert finals[..n - 1][..i] == finals[..i];
    }
    hide RowAccepted;
  }

  /** A list is replaced by these rows exactly when its entries are not too many, none of its rows is connected, each new
      row is accepted in turn and stores this, and the list of their items passes. */
  lemma ReplacementIff<V>(rules: Rules<V>, entries: seq<V>, connectedRows: bool, finals: seq<V>)
    ensures Replacement(rules, entries, connectedRows) == Some(finals) <==>
      && (rules.maxItems.Some? ==> |Items(rules, entries)| <= rules.maxItems.value) && !connectedRows
      && FinalsOf(rules, entries, finals, |entries|) && rules.acceptsList(Items(rules, finals))
  {
    StoredIff(rules, entries, |entries|, finals);
    hide FinalsOf, Stored;
  }

  /** A list that was replaced holds too many items if and only if what its last row stored does not fit beside the
      rows before it; and then the hook of that row stored more items than its converters had given. The hooks of the
      rows before it are counted when the rows after them are set. */
  lemma ReplacedFitsIff<V>(rules: Rules<V>, entries: seq<V>, connectedRows: bool)
    requires Replacement(rules, entries, connectedRows).Some?
    ensures var finals := Replacement(rules, entries, connectedRows).value;
      && |finals| == |entries|
      && (Exceeds(rules, |Items(rules, finals)|) <==>
          |entries| > 0 &&
          var n := |entries| - 1;
          var last := rules.attempt(n, entries[n]);
          last.Stores? && Exceeds(rules, |Items(rules, finals[..n])| + |rules.itemsOf(last.final)|))
      && (Exceeds(rules, |Items(rules, finals)|) ==>
          var last := rules.attempt(|entries| - 1, entries[|entries| - 1]);
          last.Stores? && |rules.itemsOf(last.final)| > |rules.itemsOf(last.candidate)|)
  {
    var n := |entries|;
    StoredAt(rules, entries, n);
    if n > 0 {
      var before := Stored(rules, entries, n - 1).value;
      var finals := Stored(rules, entries, n).value;
      assert finals[..n - 1] == before;
    }
  }

  /** And it can: a limit of one item, one entry of one item, and a hook that stores that item twice. */
  lemma ReplacedTooLong<V>(item: V) returns (rules: Rules<seq<V>>)
    ensures rules.maxItems == Some(1) && Items(rules, [[item]]) == [[item]]
    ensures Replacement(rules, [[item]], false) == Some([[item, item]])
    ensures Items(rules, [[item, item]]) == [[item], [item]] && Exceeds(rules, |Items(rules, [[item, item]])|)
  {
    hide Stored, Items;
    rules := Rules(Some(1), 0, (v: seq<V>) => seq(|v|, i requires 0 <= i < |v| => [v[i]]), [],
                   (n, v: seq<V>) => Stores(v, v + v, false), items => true);
    var one, two := [item], [item, item];
    ItemsOfOne(rules, one);
    ItemsOfOne(rules, two);
    assert rules.itemsOf(one) == [[item]] && rules.itemsOf(two) == [[item], [item]];
    assert one + one == two;
    StoredOne(rules, one, two);
  }

  lemma StoredOne<V>(rules: Rules<V>, v: V, stored: V)
    requires !Full(rules, 0) && rules.attempt(0, v) == Stores(v, stored, false)
    requires !Exceeds(rules, |rules.itemsOf(v)|)
    ensures Stored(rules, [v], 1) == Some([stored])
  {
    NextStored(rules, [v], 0, []);
    ItemsOfOne(rules, v);
    assert [] + [stored] == [stored];
  }

  lemma ItemsOfOne<V>(rules: Rules<V>, v: V)
    ensures Items(rules, [v]) == rules.itemsOf(v) && Items(rules, []) == []
  {
    assert [v][..0] == [];
  }

  function ReadAs<V>(rules: Rules<V>, rows: seq<Name>, values: map<Name, V>): seq<V> {
    seq(|rows|, i requires 0 <= i < |rows| => if rows[i] in values then values[rows[i]] else rules.default)
  }

  // ----- The list

  class ListNode<V(==)> {
    const rules: Rules<V>
    var rows: seq<Name>
    var values: map<Name, V>
    var beingReplaced: bool

    /** Rows are distinct and no more than the list has room for. */
    ghost predicate Valid()
      reads `rows
    {
      NoDuplicates(rows) && HasRoomFor(rules, |rows|)
    }

    constructor (rules: Rules<V>)
      ensures Valid() && rows == [] && values == map[] && this.rules == rules
    {
      this.rules, rows, values, beingReplaced := rules, [], map[], false;
    }

    function Read(row: Name): V
      reads `rows, `values
    {
      if row in values then values[row] else rules.default
    }

    /** What the first `n` rows read as. */
    function RowValues(n: nat): seq<V>
      requires n <= |rows|
      reads `rows, `values
    {
      ReadAs(rules, rows[..n], values)
    }

    /** The list's value, built from its rows. */
    method ReadList() returns (items: seq<V>)
      ensures items == Items(rules, RowValues(|rows|))
    {
      items := [];
      for i := 0 to |rows|
        invariant items == Items(rules, RowValues(i))
      {
        assert RowValues(i + 1)[..i] == RowValues(i);
        items := items + rules.itemsOf(Read(rows[i]));
      }
    }

    method RemoveRow(row: Name)
      requires row in rows
      modifies `rows, `values
      ensures old(Valid()) ==> Valid()
      ensures rows == RemoveFirst(old(rows), row) && values == old(values) - {row}
    {
      RemoveFirstMembers(rows, row, row);
      if NoDuplicates(rows) { RemoveFirstKeepsDistinct(rows, row); }
      rows := RemoveFirst(rows, row);
      values := values - {row};
    }

    method RemoveRows()
      requires NoDuplicates(rows)
      modifies `rows, `values
      ensures rows == [] && values == old(values) - set row | row in old(rows)
    {
      ghost var all := rows;
      var listed := rows;
      for i := 0 to |listed|
        invariant rows == listed[i..]
        invariant values == old(values) - set row | row in listed[..i]
      {
        assert listed[..i + 1] == listed[..i] + [listed[i]];
        RemoveRow(listed[i]);
      }
      assert listed[..|listed|] == listed;
    }

    /** Adding a row at the end fails when the list is full. */
    method AddRow(row: Name) returns (added: bool)
      modifies `rows
      ensures old(Valid()) && row !in old(rows) ==> Valid()
      ensures added == !Full(rules, |old(rows)|)
      ensures rows == if added then old(rows) + [row] else old(rows)
    {
      added := !(rules.maxItems.Some? && rules.traits + |rows| >= rules.maxItems.value);
      if added { rows := rows + [row]; }
    }

    /** Whether the list would hold too many items with `candidate` in the row. */
    method WithinMaxItems(row: Name, candidate: V) returns (within: bool)
      ensures within == !Exceeds(rules, |Items(rules, ReadAs(rules, rows, values[row := candidate]))|)
    {
      var held := 0;
      ghost var now := values[row := candidate];
      for i := 0 to |rows|
        invariant held == |Items(rules, ReadAs(rules, rows[..i], now))|
      {
        assert ReadAs(rules, rows[..i + 1], now)[..i] == ReadAs(rules, rows[..i], now);
        held := held + |rules.itemsOf(if rows[i] == row then candidate else Read(rows[i]))|;
      }
      assert rows[..|rows|] == rows;
      within := !(rules.maxItems.Some? && held > rules.maxItems.value);
    }

    /** Setting a row, the `n`-th of the new ones, to an entry. */
    method SetRow(row: Name, n: nat, entry: V) returns (stored: bool)
      requires row in rows
      modifies `values
      ensures var a := rules.attempt(n, entry); stored <==>
        (a.Stores? && !a.thenRaises
         && !Exceeds(rules, |Items(rules, ReadAs(rules, rows, old(values)[row := a.candidate]))|))
      ensures stored ==> values == old(values)[row := rules.attempt(n, entry).final]
      ensures values.Keys <= old(values).Keys + {row}
      ensures forall k :: k in old(values) && k != row ==> k in values && values[k] == old(values)[k]
    {
      var a := rules.attempt(n, entry);
      if a.Refused? { return false; }
      var within := WithinMaxItems(row, a.candidate);
      if !within { return false; }
      if a.HookRefuses? { return false; }
      values := values[row := a.final];
      stored := !a.thenRaises;
    }

    /** Put back the rows that were removed, with their values, in place of the ones that were added. */
    method Restore(oldRows: seq<Name>, oldValues: map<Name, V>)
      requires NoDuplicates(rows) && NoDuplicates(oldRows)
      requires HasRoomFor(rules, |oldRows|)
      modifies `rows, `values
      ensures rows == oldRows && values == old(values) - (set row | row in old(rows)) + oldValues
    {
      RemoveRows();
      for i := 0 to |oldRows|
        invariant rows == oldRows[..i] && values == old(values) - set row | row in old(rows)
      {
        var added := AddRow(oldRows[i]);
        assert oldRows[..i + 1] == oldRows[..i] + [oldRows[i]];
      }
      assert oldRows[..|oldRows|] == oldRows;
      values := values + oldValues;
    }

    /** The first `i` rows are in place, and nothing else has changed. */
    ghost predicate Filling(entries: seq<V>, names: seq<Name>, i: nat, others: map<Name, V>)
      reads `rows, `values
      requires i <= |entries| == |names|
    {
      && rows == names[..i] && Valid() && Stored(rules, entries, i) == Some(RowValues(i))
      && (forall k :: 0 <= k < i ==> names[k] in values) && OthersKept(others)
    }

    /** Apart from the rows' own values, the values are `others`. */
    ghost predicate OthersKept(others: map<Name, V>)
      reads `rows, `values
    {
      values - (set row | row in rows) == others
    }

    method FillRow(entries: seq<V>, names: seq<Name>, i: nat, ghost others: map<Name, V>) returns (stored: bool)
      requires i < |entries| == |names| && NoDuplicates(names) && names[i] !in others
      requires Filling(entries, names, i, others)
      modifies `rows, `values
      ensures stored ==> Filling(entries, names, i + 1, others)
      ensures !stored ==> Stored(rules, entries, i + 1) == None && NoDuplicates(rows) && OthersKept(others)
    {
      hide Items, Stored, NoDuplicates, ReadAs;
      ghost var before, was := RowValues(i), values;
      assert rows[..i] == names[..i];
      FreshName(names, i);
      NextStored(rules, entries, i, before);
      stored := AddRow(names[i]);
      PrefixDistinct(names, i + 1);
      assert names[..i + 1] == names[..i] + [names[i]];
      if !stored { return; }
      assert rows[..i + 1] == rows;
      CountedWith(rules, names[..i], names[i], was, rules.attempt(i, entries[i]));
      stored := SetRow(names[i], i, entries[i]);
      OneMoreValue(was, values, names[..i], names[i], others);
      if stored {
        OneMoreRead(rules, names[..i], names[i], was, values);
      }
    }

    /** One row per entry, under new names. On any refusal the list and its values end as they began. */
    method Replace(entries: seq<V>, names: seq<Name>, connectedRows: bool) returns (replaced: bool)
      requires Valid() && |names| == |entries| && NoDuplicates(names)
      requires forall i :: 0 <= i < |names| ==> names[i] !in rows && names[i] !in values
      modifies this
      ensures Valid()
      ensures replaced <==> Replacement(rules, entries, connectedRows).Some?
      ensures !replaced ==> rows == old(rows) && values == old(values)
      ensures replaced ==> rows == names && Replacement(rules, entries, connectedRows) == Some(RowValues(|rows|))
      ensures replaced ==> OthersKept(old(values) - set row | row in old(rows))
      ensures beingReplaced ==> old(beingReplaced)
    {
      hide Stored, Items, RowValues, Filling, OthersKept, NoDuplicates;
      if rules.maxItems.Some? && |Items(rules, entries)| > rules.maxItems.value { return false; }
      if connectedRows { return false; }
      var oldRows := rows;
      var oldValues := map row | row in rows && row in values :: values[row];
      ghost var others := values - set row | row in rows;
      beingReplaced := true;
      RemoveRows();
      NothingFilled(entries, names, others);
      for i := 0 to |entries|
        invariant Filling(entries, names, i, others)
      {
        var stored := FillRow(entries, names, i, others);
        if !stored {
          NoneStays(rules, entries, i + 1, |entries|);
          PutBack(oldRows, oldValues, others, old(values));
          beingReplaced := false;
          return false;
        }
      }
      FilledIs(entries, names, others);
      var items := ReadList();
      if !rules.acceptsList(items) {
        PutBack(oldRows, oldValues, others, old(values));
        beingReplaced := false;
        return false;
      }
      beingReplaced := false;
      replaced := true;
    }

    method PutBack(oldRows: seq<Name>, oldValues: map<Name, V>, ghost others: map<Name, V>,
                   ghost original: map<Name, V>)
      requires NoDuplicates(rows) && NoDuplicates(oldRows) && OthersKept(others)
      requires HasRoomFor(rules, |oldRows|)
      requires others == original - set row | row in oldRows
      requires oldValues == map row | row in oldRows && row in original :: original[row]
      modifies `rows, `values
      ensures rows == oldRows && values == original
    {
      Restore(oldRows, oldValues);
      assert others + oldValues == original;
    }

    lemma NothingFilled(entries: seq<V>, names: seq<Name>, others: map<Name, V>)
      requires |entries| == |names| && rows == [] && values == others
      ensures Filling(entries, names, 0, others)
    {
      assert RowValues(0) == [];
      assert values - (set row | row in rows) == others;
    }

    lemma FilledIs(entries: seq<V>, names: seq<Name>, others: map<Name, V>)
      requires |entries| == |names| && Filling(entries, names, |entries|, others)
      ensures rows == names && Valid() && NoDuplicates(rows) && OthersKept(others)
      ensures Stored(rules, entries, |entries|) == Some(RowValues(|rows|))
    {
      assert names[..|entries|] == names;
    }
  }

  lemma {:induction false} NoneStays<V>(rules: Rules<V>, entries: seq<V>, m: nat, n: nat)
    requires m <= n <= |entries| && Stored(rules, entries, m) == None
    ensures Stored(rules, entries, n) == None
  {
    if m < n { NoneStays(rules, entries, m, n - 1); }
  }

  lemma NextStored<V>(rules: Rules<V>, entries: seq<V>, i: nat, before: seq<V>)
    requires i < |entries| && Stored(rules, entries, i) == Some(before)
    ensures Full(rules, i) ==> Stored(rules, entries, i + 1) == None
    ensures !Full(rules, i) ==> var a := rules.attempt(i, entries[i]);
      Stored(rules, entries, i + 1) ==
        if a.Stores? && !a.thenRaises && !Exceeds(rules, |Items(rules, before)| + |rules.itemsOf(a.candidate)|)
        then Some(before + [a.final]) else None
  {
  }

  lemma FreshName<T>(xs: seq<T>, i: nat)
    requires NoDuplicates(xs) && i < |xs|
    ensures xs[i] !in xs[..i]
  {
  }

  lemma OneMoreRead<V>(rules: Rules<V>, rows: seq<Name>, name: Name, was: map<Name, V>, now: map<Name, V>)
    requires name !in rows && name in now && now.Keys <= was.Keys + {name}
    requires forall k :: k in was && k != name ==> k in now && now[k] == was[k]
    ensures ReadAs(rules, rows + [name], now) == ReadAs(rules, rows, was) + [now[name]]
  {
  }

  /** Setting the last of the rows counts the rows before it, and the candidate. */
  lemma CountedWith<V>(rules: Rules<V>, rows: seq<Name>, name: Name, was: map<Name, V>, a: Attempt<V>)
    requires name !in rows
    ensures !a.Refused? ==>
      |Items(rules, ReadAs(rules, rows + [name], was[name := a.candidate]))| ==
      |Items(rules, ReadAs(rules, rows, was))| + |rules.itemsOf(a.candidate)|
  {
    if !a.Refused? {
      var before := ReadAs(rules, rows, was);
      OneMoreRead(rules, rows, name, was, was[name := a.candidate]);
      assert (before + [a.candidate])[..|before|] == before;
    }
  }

  lemma PrefixDistinct<T>(xs: seq<T>, n: nat)
    requires NoDuplicates(xs) && n <= |xs|
    ensures NoDuplicates(xs[..n])
  {
  }

  /** Setting a value under a name that had none changes nothing apart from the rows. */
  lemma OneMoreValue<V>(was: map<Name, V>, now: map<Name, V>, rows: seq<Name>, name: Name, others: map<Name, V>)
    requires was - (set row | row in rows) == others && name !in was
    requires now.Keys <= was.Keys + {name} && forall k :: k in was && k != name ==> k in now && now[k] == was[k]
    ensures now - (set row | row in rows + [name]) == others
  {
    var rest := now - set row | row in rows + [name];
    forall k ensures k in rest <==> k in others {
      assert k in others <==> k in was && k !in rows;
    }
  }
}
