/** Variable references in text, and the two walks over values that may reach themselves: whether substituting would
    rewrite anything, and the substitution itself. */
module VariableTemplates {
  import opened Reachability

  // ----- Tokens in text

  datatype Piece = Plain(c: char) | Token(text: string)

  /** The first brace of either kind from `i` on, or the length. */
  function NextBrace(s: string, i: nat): (k: nat)
    requires i <= |s|
    ensures i <= k <= |s| && (k < |s| ==> s[k] == '{' || s[k] == '}')
    ensures forall j :: i <= j < k ==> s[j] != '{' && s[j] != '}'
    decreases |s| - i
  {
    if i == |s| || s[i] == '{' || s[i] == '}' then i else NextBrace(s, i + 1)
  }

  /** A token starts at `i`: an opening brace whose next brace closes it. */
  predicate TokenAt(s: string, i: nat)
    requires i < |s|
  {
    s[i] == '{' && NextBrace(s, i + 1) < |s| && s[NextBrace(s, i + 1)] == '}'
  }

  function Pieces(s: string, i: nat): seq<Piece>
    requires i <= |s|
    decreases |s| - i
  {
    if i == |s| then []
    else if TokenAt(s, i) then
      var end := NextBrace(s, i + 1) + 1;
      [Token(s[i..end])] + Pieces(s, end)
    else [Plain(s[i])] + Pieces(s, i + 1)
  }

  function Shown(piece: Piece, resolve: string -> string): string {
    match piece
    case Plain(c) => [c]
    case Token(t) => resolve(t)
  }

  function Written(pieces: seq<Piece>, resolve: string -> string): string {
    if pieces == [] then [] else Shown(pieces[0], resolve) + Written(pieces[1..], resolve)
  }

  function ResolveString(s: string, resolve: string -> string): string {
    Written(Pieces(s, 0), resolve)
  }

  predicate IsNameStart(c: char) {
    'A' <= c <= 'Z' || 'a' <= c <= 'z' || c == '_'
  }

  predicate HasVariableMacro(s: string) {
    exists i :: 0 < i < |s| && s[i - 1] == '{' && IsNameStart(s[i])
  }

  /** Text as substitution leaves it: untouched unless it looks templated. */
  function Resolved(s: string, resolve: string -> string): string {
    if HasVariableMacro(s) then ResolveString(s, resolve) else s
  }

  predicate Rewrites(s: string, resolve: string -> string) {
    exists p :: p in Pieces(s, 0) && p.Token? && resolve(p.text) != p.text
  }

  /** The piece at `i`, and where the next one starts. */
  lemma FirstPiece(s: string, i: nat) returns (first: Piece, next: nat)
    requires i < |s|
    ensures i < next <= |s| && Pieces(s, i) == [first] + Pieces(s, next)
    ensures first == Token(s[i..next]) || (first == Plain(s[i]) && next == i + 1)
  {
    next := if TokenAt(s, i) then NextBrace(s, i + 1) + 1 else i + 1;
    first := if TokenAt(s, i) then Token(s[i..next]) else Plain(s[i]);
  }

  lemma {:induction false} PiecesWrite(s: string, i: nat, resolve: string -> string)
    requires i <= |s| && forall p :: p in Pieces(s, i) && p.Token? ==> resolve(p.text) == p.text
    ensures Written(Pieces(s, i), resolve) == s[i..]
    decreases |s| - i
  {
    if i < |s| {
      hide Pieces, Written;
      var first, next := FirstPiece(s, i);
      assert first in [first] + Pieces(s, next);
      PiecesWrite(s, next, resolve);
      WrittenStep(first, Pieces(s, next), resolve);
      PieceText(s, i, next, first, resolve);
    }
  }

  lemma PieceText(s: string, i: nat, next: nat, first: Piece, resolve: string -> string)
    requires i < next <= |s| && (first == Token(s[i..next]) || (first == Plain(s[i]) && next == i + 1))
    requires first.Token? ==> resolve(first.text) == first.text
    ensures s[i..] == Shown(first, resolve) + s[next..]
  {
    assert s[i..] == s[i..next] + s[next..];
  }

  lemma WrittenStep(first: Piece, rest: seq<Piece>, resolve: string -> string)
    ensures Written([first] + rest, resolve) == Shown(first, resolve) + Written(rest, resolve)
  {
    assert ([first] + rest)[1..] == rest;
  }

  /** Text none of whose tokens is rewritten is left as it is. */
  lemma UnrewrittenStays(s: string, resolve: string -> string)
    requires !Rewrites(s, resolve)
    ensures Resolved(s, resolve) == s
  {
    PiecesWrite(s, 0, resolve);
  }

  // ----- Said of the characters

  /** A brace, no braces, and a brace. */
  predicate IsToken(t: string) {
    |t| >= 2 && t[0] == '{' && t[|t| - 1] == '}' && forall i :: 0 < i < |t| - 1 ==> t[i] != '{' && t[i] != '}'
  }

  ghost predicate HoldsNoToken(s: string) {
    forall i, j :: 0 <= i <= j <= |s| ==> !IsToken(s[i..j])
  }

  /** The stretches with the words between them. */
  function Woven(stretches: seq<string>, words: seq<string>): string
    requires |stretches| == |words| + 1
  {
    if words == [] then stretches[0] else stretches[0] + words[0] + Woven(stretches[1..], words[1..])
  }

  /** The text is its tokens, and between them stretches without any. */
  ghost predicate SplitsInto(s: string, stretches: seq<string>, tokens: seq<string>) {
    && |stretches| == |tokens| + 1 && s == Woven(stretches, tokens)
    && (forall k :: 0 <= k < |tokens| ==> IsToken(tokens[k]))
    && forall k :: 0 <= k < |stretches| ==> HoldsNoToken(stretches[k])
  }

  function Each(words: seq<string>, f: string -> string): (r: seq<string>)
    ensures |r| == |words| && forall k :: 0 <= k < |words| ==> r[k] == f(words[k])
  {
    seq(|words|, k requires 0 <= k < |words| => f(words[k]))
  }

  lemma TokenAtIs(s: string, i: nat)
    requires i < |s|
    ensures TokenAt(s, i) ==> IsToken(s[i..NextBrace(s, i + 1) + 1])
    ensures forall j :: i <= j <= |s| && IsToken(s[i..j]) ==> TokenAt(s, i) && j == NextBrace(s, i + 1) + 1
  {
    forall j | i <= j <= |s| && IsToken(s[i..j]) ensures TokenAt(s, i) && j == NextBrace(s, i + 1) + 1 {
      var t, b := s[i..j], NextBrace(s, i + 1);
      assert s[j - 1] == t[|t| - 1];
      assert forall k :: i < k < j - 1 ==> s[k] == t[k - i];
      assert s[i] == t[0];
    }
  }

  lemma PlainMore(c: char, stretch: string)
    requires HoldsNoToken([c] + stretch)
    ensures HoldsNoToken(stretch)
  {
    forall i, j | 0 <= i <= j <= |stretch| ensures !IsToken(stretch[i..j]) {
      assert ([c] + stretch)[i + 1..j + 1] == stretch[i..j];
    }
  }

  /** A token that starts in a stretch ends in it, if another token or nothing follows the stretch. */
  lemma TokenInStretch(s: string, i: nat, stretch: string, rest: string)
    requires i < |s| && s[i..] == stretch + rest && stretch != [] && TokenAt(s, i) && (rest == [] || rest[0] == '{')
    ensures !HoldsNoToken(stretch)
  {
    TokenAtIs(s, i);
    var e, b := NextBrace(s, i + 1) + 1, i + |stretch|;
    assert rest != [] ==> s[b] == s[i..][|stretch|] == rest[0];
    assert e <= b;
    assert stretch[0..e - i] == s[i..][..e - i] == s[i..e];
  }

  lemma {:induction false} PiecesOfSplit(s: string, i: nat, stretches: seq<string>, tokens: seq<string>,
                                         resolve: string -> string)
    requires i <= |s| && SplitsInto(s[i..], stretches, tokens)
    ensures Written(Pieces(s, i), resolve) == Woven(stretches, Each(tokens, resolve))
    ensures (exists p :: p in Pieces(s, i) && p.Token? && resolve(p.text) != p.text) <==>
      exists k :: 0 <= k < |tokens| && resolve(tokens[k]) != tokens[k]
    decreases |s| - i
  {
    hide Pieces, Written, IsToken, HoldsNoToken, Woven;
    if stretches[0] != [] {
      StretchStep(s, i, stretches, tokens, resolve);
      var shorter := [stretches[0][1..]] + stretches[1..];
      PiecesOfSplit(s, i + 1, shorter, tokens, resolve);
    } else if tokens != [] {
      TokenStep(s, i, stretches, tokens, resolve);
      PiecesOfSplit(s, i + |tokens[0]|, stretches[1..], tokens[1..], resolve);
      assert forall k :: 0 < k < |tokens| ==> tokens[k] == tokens[1..][k - 1];
    } else {
      NothingLeft(s, i, stretches, resolve);
    }
  }

  lemma NothingLeft(s: string, i: nat, stretches: seq<string>, resolve: string -> string)
    requires i <= |s| && SplitsInto(s[i..], stretches, []) && stretches[0] == []
    ensures Pieces(s, i) == [] && Written(Pieces(s, i), resolve) == [] == Woven(stretches, Each([], resolve))
  {
    assert i == |s|;
  }

  lemma StretchStep(s: string, i: nat, stretches: seq<string>, tokens: seq<string>, resolve: string -> string)
    requires i <= |s| && SplitsInto(s[i..], stretches, tokens) && stretches[0] != []
    ensures i < |s|
    ensures var shorter := [stretches[0][1..]] + stretches[1..];
      && SplitsInto(s[i + 1..], shorter, tokens) && Pieces(s, i) == [Plain(s[i])] + Pieces(s, i + 1)
      && Written(Pieces(s, i), resolve) == [s[i]] + Written(Pieces(s, i + 1), resolve)
      && Woven(stretches, Each(tokens, resolve)) == [s[i]] + Woven(shorter, Each(tokens, resolve))
  {
    var shorter := [stretches[0][1..]] + stretches[1..];
    var rest := SplitShorter(s[i..], stretches, tokens);
    WovenStep(stretches, shorter, Each(tokens, resolve));
    hide SplitsInto, IsToken, HoldsNoToken, Woven;
    assert s[i] == s[i..][0] && s[i + 1..] == s[i..][1..];
    if TokenAt(s, i) { TokenInStretch(s, i, stretches[0], rest); }
    assert Pieces(s, i) == [Plain(s[i])] + Pieces(s, i + 1);
    hide Pieces, Written;
    WrittenStep(Plain(s[i]), Pieces(s, i + 1), resolve);
  }

  lemma SplitShorter(s: string, stretches: seq<string>, tokens: seq<string>) returns (rest: string)
    requires SplitsInto(s, stretches, tokens) && stretches[0] != []
    ensures s == stretches[0] + rest && (rest == [] || rest[0] == '{') && HoldsNoToken(stretches[0])
    ensures SplitsInto(s[1..], [stretches[0][1..]] + stretches[1..], tokens)
  {
    var first := stretches[0];
    rest := if tokens == [] then [] else tokens[0] + Woven(stretches[1..], tokens[1..]);
    WovenStep(stretches, [first[1..]] + stretches[1..], tokens);
    assert s == first + rest;
    assert [first[0]] + first[1..] == first;
    PlainMore(first[0], first[1..]);
    assert tokens != [] ==> IsToken(tokens[0]);
    hide HoldsNoToken;
  }

  lemma WovenStep(stretches: seq<string>, shorter: seq<string>, words: seq<string>)
    requires |stretches| == |words| + 1 && stretches[0] != [] && shorter == [stretches[0][1..]] + stretches[1..]
    ensures Woven(stretches, words) == [stretches[0][0]] + Woven(shorter, words)
    ensures Woven(stretches, words)[1..] == Woven(shorter, words)
  {
    var first := stretches[0];
    assert shorter[0] == first[1..] && shorter[1..] == stretches[1..];
    if words == [] {
      FirstApart(first, "", "");
      assert first + "" + "" == first && first[1..] + "" + "" == first[1..];
    } else {
      var rest := Woven(stretches[1..], words[1..]);
      assert Woven(stretches, words) == first + words[0] + rest && Woven(shorter, words) == first[1..] + words[0] + rest;
      hide Woven;
      FirstApart(first, words[0], rest);
    }
  }

  lemma FirstApart(a: string, b: string, c: string)
    requires a != []
    ensures a + b + c == [a[0]] + (a[1..] + b + c) && (a + b + c)[1..] == a[1..] + b + c
  {
    assert a == [a[0]] + a[1..];
  }

  lemma TokenStep(s: string, i: nat, stretches: seq<string>, tokens: seq<string>, resolve: string -> string)
    requires i <= |s| && SplitsInto(s[i..], stretches, tokens) && stretches[0] == [] && tokens != []
    ensures i + |tokens[0]| <= |s| && |tokens[0]| > 0
    ensures var next := i + |tokens[0]|;
      && SplitsInto(s[next..], stretches[1..], tokens[1..]) && Pieces(s, i) == [Token(tokens[0])] + Pieces(s, next)
      && Written(Pieces(s, i), resolve) == resolve(tokens[0]) + Written(Pieces(s, next), resolve)
      && Woven(stretches, Each(tokens, resolve)) == resolve(tokens[0]) + Woven(stretches[1..], Each(tokens[1..], resolve))
  {
    var t := tokens[0];
    var next := i + |t|;
    var rest := Woven(stretches[1..], tokens[1..]);
    SplitTail(s[i..], stretches, tokens);
    WovenToken(stretches, Each(tokens, resolve));
    hide SplitsInto, IsToken, HoldsNoToken, Woven;
    Prefix(s, i, t, rest);
    TokenPiece(s, i, t);
    hide Pieces, Written;
    WrittenStep(Token(t), Pieces(s, next), resolve);
    assert Each(tokens, resolve)[1..] == Each(tokens[1..], resolve);
  }

  lemma WovenToken(stretches: seq<string>, words: seq<string>)
    requires |stretches| == |words| + 1 && stretches[0] == [] && words != []
    ensures Woven(stretches, words) == words[0] + Woven(stretches[1..], words[1..])
  {
  }

  lemma SplitTail(s: string, stretches: seq<string>, tokens: seq<string>)
    requires SplitsInto(s, stretches, tokens) && stretches[0] == [] && tokens != []
    ensures IsToken(tokens[0]) && s == tokens[0] + Woven(stretches[1..], tokens[1..])
    ensures SplitsInto(Woven(stretches[1..], tokens[1..]), stretches[1..], tokens[1..])
  {
    WovenToken(stretches, tokens);
    hide IsToken, HoldsNoToken, Woven;
  }

  lemma Prefix(s: string, i: nat, t: string, rest: string)
    requires i <= |s| && s[i..] == t + rest
    ensures i + |t| <= |s| && s[i..i + |t|] == t && s[i + |t|..] == rest
  {
    assert s[i..][..|t|] == t && s[i..][|t|..] == rest;
    assert s[i..][..|t|] == s[i..i + |t|] && s[i..][|t|..] == s[i + |t|..];
  }

  lemma TokenPiece(s: string, i: nat, t: string)
    requires i + |t| <= |s| && s[i..i + |t|] == t && IsToken(t)
    ensures Pieces(s, i) == [Token(t)] + Pieces(s, i + |t|)
  {
    TokenAtIs(s, i);
    assert i <= i + |t| <= |s| && IsToken(s[i..i + |t|]);
    hide IsToken;
  }

  /** Every text splits so, */
  lemma {:induction false} SplitExists(s: string) returns (stretches: seq<string>, tokens: seq<string>)
    ensures SplitsInto(s, stretches, tokens)
    decreases |s|
  {
    if s == [] {
      stretches, tokens := [""], [];
    } else if TokenAt(s, 0) {
      TokenAtIs(s, 0);
      var e := NextBrace(s, 1) + 1;
      var rest, more := SplitExists(s[e..]);
      stretches, tokens := [""] + rest, [s[..e]] + more;
      assert stretches[1..] == rest && tokens[1..] == more;
      assert s == "" + s[..e] + s[e..];
    } else {
      var rest, more := SplitExists(s[1..]);
      stretches, tokens := [[s[0]] + rest[0]] + rest[1..], more;
      LongerStretch(s, rest, more);
    }
  }

  lemma LongerStretch(s: string, rest: seq<string>, tokens: seq<string>)
    requires s != [] && !TokenAt(s, 0) && SplitsInto(s[1..], rest, tokens)
    ensures SplitsInto(s, [[s[0]] + rest[0]] + rest[1..], tokens)
  {
    var stretches := [[s[0]] + rest[0]] + rest[1..];
    assert stretches[0][1..] == rest[0];
    assert rest == [stretches[0][1..]] + stretches[1..];
    WovenStep(stretches, rest, tokens);
    assert [s[0]] + s[1..] == s;
    var first := stretches[0];
    StartsWoven(rest, tokens);
    assert first == s[..|first|];
    TokenAtIs(s, 0);
    forall i, j | 0 <= i <= j <= |first| ensures !IsToken(first[i..j]) {
      if i == 0 {
        assert first[0..j] == s[0..j];
      } else {
        assert first[i..j] == rest[0][i - 1..j - 1];
      }
    }
  }

  lemma StartsWoven(stretches: seq<string>, words: seq<string>)
    requires |stretches| == |words| + 1
    ensures stretches[0] <= Woven(stretches, words)
  {
  }

  /** and however it does: text with a brace before a letter or an underscore becomes its stretches with what each token
      resolves to between them; other text stays. Substituting would rewrite it when some token resolves to another. */
  lemma ResolvedIs(s: string, stretches: seq<string>, tokens: seq<string>, resolve: string -> string)
    requires SplitsInto(s, stretches, tokens)
    ensures Resolved(s, resolve) ==
      if exists i :: 0 < i < |s| && s[i - 1] == '{' && ('A' <= s[i] <= 'Z' || 'a' <= s[i] <= 'z' || s[i] == '_')
      then Woven(stretches, Each(tokens, resolve)) else s
    ensures Rewrites(s, resolve) <==> exists k :: 0 <= k < |tokens| && resolve(tokens[k]) != tokens[k]
  {
    assert s[0..] == s;
    PiecesOfSplit(s, 0, stretches, tokens, resolve);
  }

  // ----- Values

  type Id = nat

  /** `Other` is anything the walks do not enter: numbers, tuples, sets and objects. */
  datatype Value = Text(text: string) | Other(identity: nat) | Ref(id: Id)

  /** A list, or a dictionary with its keys in order. */
  datatype Kind = ListOf | DictOf(keys: seq<string>)

  datatype Container = Container(kind: Kind, children: seq<Value>)

  type Heap = map<Id, Container>

  ghost predicate InHeap(h: Heap, v: Value) {
    v.Ref? ==> v.id in h
  }

  ghost predicate ClosedHeap(h: Heap) {
    forall id, k :: id in h && 0 <= k < |h[id].children| ==> InHeap(h, h[id].children[k])
  }

  ghost function EdgesOf(h: Heap): set<(Id, Id)> {
    set a, b | a in h && b in h && Ref(b) in h[a].children :: (a, b)
  }

  ghost predicate HoldsText(h: Heap, matches: string -> bool, b: Id) {
    b in h && exists k :: 0 <= k < |h[b].children| && h[b].children[k].Text? && matches(h[b].children[k].text)
  }

  /** A matching text is `v`, or is inside it on a way through no container of `avoid`. */
  ghost predicate Holds(h: Heap, matches: string -> bool, avoid: set<Id>, v: Value) {
    match v
    case Text(t) => matches(t)
    case Other(_) => false
    case Ref(a) => a !in avoid && exists b :: Reach(Avoiding(EdgesOf(h), avoid), a, b) && HoldsText(h, matches, b)
  }

  // ----- A walk that only refuses to enter what it is inside of misses nothing

  /** A path can skip its way round back to `a`. */
  lemma {:induction false} SkipReturns<T(!new)>(es: set<(T, T)>, p: seq<T>, a: T)
    requires IsPath(es, p)
    ensures Reach(Avoiding(es, {a}), p[0], p[|p| - 1]) || Reach(Avoiding(es, {a}), a, p[|p| - 1])
    decreases |p|
  {
    var av := Avoiding(es, {a});
    if |p| == 1 {
      ReachRefl(av, p[0]);
    } else {
      var q := p[1..];
      assert IsPath(es, q);
      SkipReturns(es, q, a);
      assert q[|q| - 1] == p[|p| - 1] && q[0] == p[1];
      if Reach(av, p[1], p[|p| - 1]) && p[1] != a {
        assert (p[0], p[1]) in av;
        ReachEdge(av, p[0], p[1]);
        ReachTrans(av, p[0], p[1], p[|p| - 1]);
      }
    }
  }

  lemma AvoidOneMore(es: set<(Id, Id)>, avoid: set<Id>, a: Id)
    ensures Avoiding(Avoiding(es, avoid), {a}) == Avoiding(es, avoid + {a})
  {
  }

  lemma EdgeChild(h: Heap, a: Id, b: Id) returns (k: nat)
    requires (a, b) in EdgesOf(h)
    ensures a in h && b in h && k < |h[a].children| && h[a].children[k] == Ref(b)
  {
    k :| 0 <= k < |h[a].children| && h[a].children[k] == Ref(b);
  }

  lemma ChildEdge(h: Heap, a: Id, k: nat)
    requires ClosedHeap(h) && a in h && k < |h[a].children| && h[a].children[k].Ref?
    ensures (a, h[a].children[k].id) in EdgesOf(h) && h[a].children[k].id in h
  {
    assert InHeap(h, h[a].children[k]);
  }

  /** What a child holds, its container holds. */
  lemma ChildHolds(h: Heap, matches: string -> bool, avoid: set<Id>, a: Id, k: nat)
    requires ClosedHeap(h) && a in h && a !in avoid && k < |h[a].children| && Holds(h, matches, avoid + {a}, h[a].children[k])
    ensures Holds(h, matches, avoid, Ref(a))
  {
    var av := Avoiding(EdgesOf(h), avoid);
    var c := h[a].children[k];
    if c.Text? {
      ReachRefl(av, a);
      assert HoldsText(h, matches, a);
    } else {
      var less := Avoiding(EdgesOf(h), avoid + {a});
      var b :| Reach(less, c.id, b) && HoldsText(h, matches, b);
      ReachMonotone(less, av, c.id, b);
      ChildEdge(h, a, k);
      ReachEdge(av, a, c.id);
      ReachTrans(av, a, c.id, b);
    }
  }

  /** And what a container holds, one of its children holds without going through the container again. */
  lemma HoldsChild(h: Heap, matches: string -> bool, avoid: set<Id>, a: Id) returns (k: nat)
    requires ClosedHeap(h) && a in h && a !in avoid && Holds(h, matches, avoid, Ref(a))
    ensures k < |h[a].children| && Holds(h, matches, avoid + {a}, h[a].children[k])
  {
    var av, less := Avoiding(EdgesOf(h), avoid), Avoiding(EdgesOf(h), avoid + {a});
    var b :| Reach(av, a, b) && HoldsText(h, matches, b);
    if b == a {
      k :| 0 <= k < |h[a].children| && h[a].children[k].Text? && matches(h[a].children[k].text);
    } else {
      var p: seq<Id> :| IsPath(av, p) && p[0] == a && p[|p| - 1] == b;
      SkipReturns(av, p, a);
      AvoidOneMore(EdgesOf(h), avoid, a);
      ReachCases(less, a, b);
      var c :| (a, c) in less && Reach(less, c, b);
      k := EdgeChild(h, a, c);
    }
  }

  class TextWalk {
    const heap: Heap
    const matches: string -> bool
    var active: set<Id>

    constructor (heap: Heap, matches: string -> bool)
      ensures this.heap == heap && this.matches == matches && active == {}
    {
      this.heap, this.matches, active := heap, matches, {};
    }

    method Contains(v: Value) returns (found: bool)
      requires ClosedHeap(heap) && InHeap(heap, v)
      modifies this
      ensures active == old(active) && (found <==> Holds(heap, matches, active, v))
      decreases Left(heap.Keys, active)
    {
      hide ClosedHeap, Left;
      if v.Text? { return matches(v.text); }
      if v.Other? { return false; }
      if v.id in active { return false; }
      hide Holds, InHeap;
      ghost var avoid := active;
      active := active + {v.id};
      Shrinks(heap.Keys, avoid, active, v.id);
      var children := heap[v.id].children;
      found := false;
      for k := 0 to |children|
        invariant active == avoid + {v.id}
        invariant forall j :: 0 <= j < k ==> !Holds(heap, matches, avoid + {v.id}, children[j])
      {
        ChildThere(heap, v.id, k);
        found := Contains(children[k]);
        if found {
          ChildHolds(heap, matches, avoid, v.id, k);
          break;
        }
      }
      if !found && Holds(heap, matches, avoid, v) {
        var k := HoldsChild(heap, matches, avoid, v.id);
      }
      active := active - {v.id};
      assert active == avoid;
    }
  }

  lemma ChildThere(h: Heap, a: Id, k: nat)
    requires ClosedHeap(h) && a in h && k < |h[a].children|
    ensures InHeap(h, h[a].children[k])
  {
  }

  /** Some text that is `v` or inside it, however deep and on whatever cycles, has a token that would be rewritten. */
  ghost predicate SomeRewritten(h: Heap, resolve: string -> string, v: Value) {
    match v
    case Text(t) => Rewrites(t, resolve)
    case Other(_) => false
    case Ref(a) => exists b, k :: Reach(EdgesOf(h), a, b) && b in h && 0 <= k < |h[b].children|
                                  && h[b].children[k].Text? && Rewrites(h[b].children[k].text, resolve)
  }

  method WouldSubstitute(h: Heap, v: Value, resolve: string -> string) returns (would: bool)
    requires ClosedHeap(h) && InHeap(h, v)
    ensures would <==> SomeRewritten(h, resolve, v)
  {
    var walk := new TextWalk(h, text => Rewrites(text, resolve));
    would := walk.Contains(v);
    AvoidingNone(EdgesOf(h));
  }

  lemma AvoidingNone(es: set<(Id, Id)>)
    ensures Avoiding(es, {}) == es
  {
  }
}
