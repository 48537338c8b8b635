/** `Bubble.String` and `Bubble.Opposite` of page/bubble.go: a subtree read
    as a formula of linear logic, and the same subtree read as the negation of
    its top-level connective. */
module Render {
  import opened Kinds
  import opened Tree
  import opened Sorting
  import opened Traversal

  /** How `String` renders a bubble of kind `k` labelled `v` whose children
      rendered as `kids` (in child order). A White leaf is its label or the
      unit "1", a Black leaf the negated label or "0"; any other bubble
      sorts its children's strings and, with two or more, joins them with
      " + " (Black) or " * " (every other kind) inside parentheses. */
  function Render(k: Kind, v: string, kids: seq<string>): string
  {
    Layout(k, v, |kids|, Sort(kids))
  }

  /** `Render` given the number of children and their sorted strings. */
  function Layout(k: Kind, v: string, n: nat, sorted: seq<string>): string
  {
    if n == 0 && k == White then (if v == "" then "1" else v)
    else if n == 0 && k == Black then (if v == "" then "0" else "~" + v)
    else if n <= 1 then Join(sorted, "")
    else if k == Black then "(" + Join(sorted, " + ") + ")"
    else "(" + Join(sorted, " * ") + ")"
  }

  /** How `Opposite` renders the same bubble: the leaf cases of White and
      Black trade places, and " + " is used for White instead of Black. */
  function RenderOpposite(k: Kind, v: string, kids: seq<string>): string
  {
    LayoutOpposite(k, v, |kids|, Sort(kids))
  }

  /** `RenderOpposite` given the number of children and their sorted
      strings. */
  function LayoutOpposite(k: Kind, v: string, n: nat, sorted: seq<string>): string
  {
    if n == 0 && k == Black then (if v == "" then "1" else v)
    else if n == 0 && k == White then (if v == "" then "0" else "~" + v)
    else if n <= 1 then Join(sorted, "")
    else if k == White then "(" + Join(sorted, " + ") + ")"
    else "(" + Join(sorted, " * ") + ")"
  }

  /** `b.String()`. */
  function String(m: Forest, id: BubbleId): string
    requires Acyclic(m) && id in m
    decreases TheRank(m).of[id], 1
  {
    Render(m[id].kind, m[id].variable, ChildStrings(m, id))
  }

  /** `b.Opposite()`: the children are still rendered with `String`. */
  function Opposite(m: Forest, id: BubbleId): string
    requires Acyclic(m) && id in m
  {
    RenderOpposite(m[id].kind, m[id].variable, ChildStrings(m, id))
  }

  /** The children's strings, in child order, before sorting. */
  function ChildStrings(m: Forest, id: BubbleId): (r: seq<string>)
    requires Acyclic(m) && id in m
    ensures |r| == |m[id].children|
    decreases TheRank(m).of[id], 0
  {
    var ch := m[id].children;
    seq(|ch|, i requires 0 <= i < |ch| => String(m, ch[i]))
  }

  // ---------------------------------------------------------------------
  // Child order does not matter

  /** Both renderings depend on the children's strings only as a multiset. */
  lemma RenderPermutation(k: Kind, v: string, a: seq<string>, b: seq<string>)
    requires multiset(a) == multiset(b)
    ensures Render(k, v, a) == Render(k, v, b)
    ensures RenderOpposite(k, v, a) == RenderOpposite(k, v, b)
  {
    assert |a| == |multiset(a)| == |multiset(b)| == |b|;
    SortPermutationInvariant(a, b);
  }

  /** `String` and `Opposite` read nothing outside the subtree they render. */
  lemma {:induction false} StringLocal(m: Forest, m': Forest, id: BubbleId)
    requires Acyclic(m) && Acyclic(m') && id in m
    requires forall y | y in PostOrder(m, id) :: y in m && y in m' && m'[y] == m[y]
    ensures id in m'
    ensures String(m', id) == String(m, id) && Opposite(m', id) == Opposite(m, id)
    decreases TheRank(m).of[id]
  {
    var ch := m[id].children;
    assert m'[id] == m[id];
    forall i | 0 <= i < |ch| ensures ChildStrings(m', id)[i] == ChildStrings(m, id)[i] {
      PostOrderChildWithin(m, id, i);
      StringLocal(m, m', ch[i]);
    }
    assert ChildStrings(m', id) == ChildStrings(m, id);
  }

  /** Reordering a bubble's children in any way changes neither its `String`
      nor its `Opposite`, because the children's strings are sorted before
      they are joined. */
  lemma ChildOrderIrrelevant(m: Forest, id: BubbleId, p: seq<BubbleId>)
    requires Acyclic(m) && id in m && multiset(p) == multiset(m[id].children)
    ensures Acyclic(m[id := m[id].(children := p)])
    ensures String(m[id := m[id].(children := p)], id) == String(m, id)
    ensures Opposite(m[id := m[id].(children := p)], id) == Opposite(m, id)
  {
    var m' := m[id := m[id].(children := p)];
    ReorderedChildStrings(m, id, p);
    RenderPermutation(m[id].kind, m[id].variable, ChildStrings(m', id), ChildStrings(m, id));
  }

  /** Reordering a bubble's children permutes their strings. */
  lemma ReorderedChildStrings(m: Forest, id: BubbleId, p: seq<BubbleId>)
    requires Acyclic(m) && id in m && multiset(p) == multiset(m[id].children)
    ensures Acyclic(m[id := m[id].(children := p)])
    ensures multiset(ChildStrings(m[id := m[id].(children := p)], id)) == multiset(ChildStrings(m, id))
  {
    var m' := m[id := m[id].(children := p)];
    var g := TheRank(m);
    ReorderRanked(m, id, p, g);
    var f := (c: BubbleId) => if c in m then String(m, c) else "";
    assert ChildStrings(m, id) == MapSeq(f, m[id].children) by {
      ChildStringsAsMap(m, m, id, g, f);
    }
    assert ChildStrings(m', id) == MapSeq(f, p) by {
      ChildStringsAsMap(m, m', id, g, f);
    }
    MapSeqPermutation(f, m[id].children, p);
  }

  lemma ReorderRanked(m: Forest, id: BubbleId, p: seq<BubbleId>, g: Ranking)
    requires RankedBy(m, g) && id in m && multiset(p) == multiset(m[id].children)
    ensures RankedBy(m[id := m[id].(children := p)], g)
    ensures Acyclic(m[id := m[id].(children := p)])
  {
    forall c | c in p ensures c in m && c in g.of && g.of[c] < g.of[id] {
      assert c in multiset(m[id].children);
    }
  }

  /** When only bubble `id` differs between `m` and `m'`, and `m'[id]` has
      children ranked below `id`, the children's strings in `m'` are those the
      children have in `m`. */
  lemma ChildStringsAsMap(m: Forest, m': Forest, id: BubbleId, g: Ranking, f: BubbleId -> string)
    requires Acyclic(m) && RankedBy(m, g) && Acyclic(m') && id in m && id in m'
    requires forall y | y in m && y != id :: y in m' && m'[y] == m[y]
    requires forall c | c in m'[id].children :: c in m && c in g.of && id in g.of && g.of[c] < g.of[id]
    requires forall c | c in m :: f(c) == String(m, c)
    ensures ChildStrings(m', id) == MapSeq(f, m'[id].children)
  {
    var ch := m'[id].children;
    forall i | 0 <= i < |ch| ensures ChildStrings(m', id)[i] == f(ch[i]) {
      StringBelow(m, m', id, g, ch[i]);
    }
  }

  lemma StringBelow(m: Forest, m': Forest, id: BubbleId, g: Ranking, c: BubbleId)
    requires Acyclic(m) && RankedBy(m, g) && Acyclic(m') && c in m && c in g.of && id in g.of && g.of[c] < g.of[id]
    requires forall y | y in m && y != id :: y in m' && m'[y] == m[y]
    ensures c in m' && String(m', c) == String(m, c)
  {
    forall y | y in PostOrder(m, c) ensures y in m && y in m' && m'[y] == m[y] {
      PostOrderRank(m, g, c, y);
    }
    StringLocal(m, m', c);
  }

  // ---------------------------------------------------------------------
  // The duality between String and Opposite

  /** On every kind but the page background, `Opposite` renders a bubble as
      `String` would render it recoloured with `OppositeKind`. The background
      is the exception: `OppositeKind` sends it to Black, but `Opposite`
      renders a childless background bubble as "". */
  lemma RenderOppositeDual(k: Kind, v: string, kids: seq<string>)
    ensures k != Background ==> RenderOpposite(k, v, kids) == Render(OppositeKind(k), v, kids)
    ensures RenderOpposite(Background, v, []) != Render(OppositeKind(Background), v, [])
  {
  }

  /** `b.Opposite()` is `String` of `b` recoloured with `b.OppositeKind()`,
      for any bubble other than one of background kind. */
  lemma OppositeIsRecolouredString(m: Forest, id: BubbleId)
    requires Acyclic(m) && id in m && m[id].kind != Background
    ensures Acyclic(m[id := m[id].(kind := OppositeKind(m[id].kind))])
    ensures Opposite(m, id) == String(m[id := m[id].(kind := OppositeKind(m[id].kind))], id)
  {
    var m' := m[id := m[id].(kind := OppositeKind(m[id].kind))];
    RecolourKeepsChildStrings(m, id, OppositeKind(m[id].kind));
    RenderOppositeDual(m[id].kind, m[id].variable, ChildStrings(m, id));
  }

  /** Changing a bubble's kind changes nothing below it. */
  lemma RecolourKeepsChildStrings(m: Forest, id: BubbleId, k: Kind)
    requires Acyclic(m) && id in m
    ensures Acyclic(m[id := m[id].(kind := k)])
    ensures ChildStrings(m[id := m[id].(kind := k)], id) == ChildStrings(m, id)
  {
    var m' := m[id := m[id].(kind := k)];
    var g := TheRank(m);
    RecolourRanked(m, id, k, g);
    var ch := m[id].children;
    forall i | 0 <= i < |ch| ensures ChildStrings(m', id)[i] == ChildStrings(m, id)[i] {
      StringBelow(m, m', id, g, ch[i]);
    }
  }

  lemma RecolourRanked(m: Forest, id: BubbleId, k: Kind, g: Ranking)
    requires RankedBy(m, g) && id in m
    ensures RankedBy(m[id := m[id].(kind := k)], g) && Acyclic(m[id := m[id].(kind := k)])
    ensures forall c | c in m[id].children :: c in m && c in g.of && id in g.of && g.of[c] < g.of[id]
  {
    var m' := m[id := m[id].(kind := k)];
    assert SameShape(m, m');
    SameShapeRanked(m, m', g);
  }

  // ---------------------------------------------------------------------
  // Leaves and single children

  /** A leaf renders by its kind and label alone: White as its label or "1",
      Black as "~" and its label or "0", anything else as "". `Opposite`
      swaps the White and Black cases. */
  lemma LeafStrings(m: Forest, id: BubbleId)
    requires Acyclic(m) && id in m && m[id].children == []
    ensures var b := m[id];
      String(m, id) ==
        if b.kind == White then (if b.variable == "" then "1" else b.variable)
        else if b.kind == Black then (if b.variable == "" then "0" else "~" + b.variable)
        else ""
    ensures var b := m[id];
      Opposite(m, id) ==
        if b.kind == Black then (if b.variable == "" then "1" else b.variable)
        else if b.kind == White then (if b.variable == "" then "0" else "~" + b.variable)
        else ""
  {
    assert ChildStrings(m, id) == [];
  }

  /** A bubble with exactly one child renders as that child, whatever its
      own kind, under both `String` and `Opposite`: a single loop around a
      formula is invisible in the rendering. */
  lemma OneChildIsTransparent(m: Forest, id: BubbleId)
    requires Acyclic(m) && id in m && |m[id].children| == 1
    ensures m[id].children[0] in m
    ensures String(m, id) == String(m, m[id].children[0])
    ensures Opposite(m, id) == String(m, m[id].children[0])
  {
    PostOrderChild(m, id, 0);
    var s := String(m, m[id].children[0]);
    assert ChildStrings(m, id) == [s];
    assert Sort([s]) == InsertSorted(s, Sort([])) == [s];
  }

  /** With two or more children both renderings are parenthesised, and the
      connective is " + " exactly for a Black bubble under `String` and
      exactly for a White one under `Opposite`. */
  lemma CompoundStrings(m: Forest, id: BubbleId)
    requires Acyclic(m) && id in m && |m[id].children| >= 2
    ensures var sorted := Sort(ChildStrings(m, id));
      String(m, id) == "(" + Join(sorted, if m[id].kind == Black then " + " else " * ") + ")"
    ensures var sorted := Sort(ChildStrings(m, id));
      Opposite(m, id) == "(" + Join(sorted, if m[id].kind == White then " + " else " * ") + ")"
  {
  }
}
