/** What `Bubble.Insert` and `Bubble.Detach` of page/bubble.go do to the
    forest, as functions from the forest before to the forest after, and what
    they do to the shape of a tree. The methods of `Bubbles.Arena` are proved
    to perform exactly these edits. */
module Edits {
  import opened Tree
  import opened Traversal

  // ---------------------------------------------------------------------
  // Insert

  /** `b.Insert(c)`: nothing happens when `c` is already one of `b`'s
      children; otherwise `c` records `b` as its parent and a depth one below
      it, and is appended to `b`'s children. No cycle check is made. */
  function Inserted(m: Forest, b: BubbleId, c: BubbleId): (r: Forest)
    requires b in m && c in m
    ensures r.Keys == m.Keys
  {
    if c in m[b].children then m
    else
      var m1 := m[c := m[c].(depth := m[b].depth + 1, parent := Some(b))];
      m1[b := m1[b].(children := m1[b].children + [c])]
  }

  /** Inserting twice is inserting once, and afterwards `c` is `b`'s child,
      named by its parent link unless it was already listed; an insert
      changes no height, no position and no bubble but `b` and `c`. */
  lemma InsertedFacts(m: Forest, b: BubbleId, c: BubbleId)
    requires b in m && c in m
    ensures Inserted(Inserted(m, b, c), b, c) == Inserted(m, b, c)
    ensures c in Inserted(m, b, c)[b].children
    ensures c !in m[b].children ==>
      Inserted(m, b, c)[c].parent == Some(b) &&
      Inserted(m, b, c)[c].depth == m[b].depth + 1 &&
      Inserted(m, b, c)[b].children == m[b].children + [c]
    ensures forall id | id in m ::
      Inserted(m, b, c)[id].height == m[id].height &&
      Inserted(m, b, c)[id].x == m[id].x && Inserted(m, b, c)[id].y == m[id].y &&
      (id != b && id != c ==> Inserted(m, b, c)[id] == m[id])
  {
  }

  /** In a tree every bubble is listed by its parent and by nobody else. */
  lemma ListedByParentOnly(m: Forest, q: BubbleId, c: BubbleId)
    requires IsTree(m) && q in m && c in m
    ensures c in m[q].children <==> m[c].parent == Some(q)
  {
  }

  /** The ranking of a forest in which the subtree of `c` is kept and every
      other bubble is lifted above it, so that `c` can hang below any of
      them. */
  ghost function Lifted(m: Forest, g: Ranking, c: BubbleId): (h: Ranking)
    requires Acyclic(m) && RankedBy(m, g) && c in m
    ensures h.of.Keys == m.Keys && h.top == g.top + g.of[c] + 1
  {
    var k := g.of[c] + 1;
    Ranking(map x | x in m :: if Above(m, c, Some(x)) then g.of[x] else g.of[x] + k, g.top + k)
  }

  lemma LiftedRanks(m: Forest, b: BubbleId, c: BubbleId)
    requires IsTree(m) && b in m && c in m && m[c].parent.None? && !Above(m, c, Some(b))
    ensures RankedBy(Inserted(m, b, c), Lifted(m, TheRank(m), c))
  {
    var m' := Inserted(m, b, c);
    var h := Lifted(m, TheRank(m), c);
    InsertedLinked(m, b, c);
    forall id | id in m'
      ensures id in h.of && h.of[id] <= h.top
      ensures forall d | d in m'[id].children :: d in h.of && h.of[d] < h.of[id]
      ensures m'[id].parent.Some? ==> m'[id].parent.value in h.of && h.of[id] < h.of[m'[id].parent.value]
    {
      forall d | d in m'[id].children ensures d in h.of && h.of[d] < h.of[id] {
        LiftedChild(m, b, c, id, d);
      }
      if m'[id].parent.Some? {
        LiftedParent(m, b, c, id);
      }
    }
  }

  lemma InsertedLinked(m: Forest, b: BubbleId, c: BubbleId)
    requires Linked(m) && b in m && c in m
    ensures Linked(Inserted(m, b, c))
  {
    var r := Inserted(m, b, c);
    if c !in m[b].children {
      forall q | q in r
        ensures (forall d | d in r[q].children :: d in r)
        ensures r[q].parent.Some? ==> r[q].parent.value in r
        ensures r[q].assumptionPair.Some? ==> r[q].assumptionPair.value in r
      {
        assert r[q].assumptionPair == m[q].assumptionPair;
        assert r[q].children == m[q].children || r[q].children == m[q].children + [c];
      }
    }
  }

  lemma LiftedChild(m: Forest, b: BubbleId, c: BubbleId, id: BubbleId, d: BubbleId)
    requires IsTree(m) && b in m && c in m && m[c].parent.None? && !Above(m, c, Some(b))
    requires id in m && d in Inserted(m, b, c)[id].children
    ensures d in m && d in Lifted(m, TheRank(m), c).of && id in Lifted(m, TheRank(m), c).of
    ensures Lifted(m, TheRank(m), c).of[d] < Lifted(m, TheRank(m), c).of[id]
  {
    var g := TheRank(m);
    InsertedEntry(m, b, c, id);
    if d in m[id].children {
      LinkKeepsSide(m, id, d, c);
      LiftedOf(m, g, c, d);
      LiftedOf(m, g, c, id);
    } else {
      assert id == b && d == c;
      LiftedOf(m, g, c, b);
      LiftedOf(m, g, c, c);
    }
  }

  lemma LiftedParent(m: Forest, b: BubbleId, c: BubbleId, id: BubbleId)
    requires IsTree(m) && b in m && c in m && m[c].parent.None? && !Above(m, c, Some(b))
    requires id in m && Inserted(m, b, c)[id].parent.Some?
    ensures Inserted(m, b, c)[id].parent.value in Lifted(m, TheRank(m), c).of
    ensures Lifted(m, TheRank(m), c).of[id] < Lifted(m, TheRank(m), c).of[Inserted(m, b, c)[id].parent.value]
  {
    var g := TheRank(m);
    InsertedEntry(m, b, c, id);
    var p := Inserted(m, b, c)[id].parent.value;
    LiftedOf(m, g, c, id);
    LiftedOf(m, g, c, p);
    if id != c {
      assert id in m[p].children;
      LinkKeepsSide(m, p, id, c);
    }
  }

  /** Where the lifted ranking puts a bubble. */
  lemma LiftedOf(m: Forest, g: Ranking, c: BubbleId, x: BubbleId)
    requires Acyclic(m) && RankedBy(m, g) && c in m && x in m
    ensures x in Lifted(m, g, c).of
    ensures Lifted(m, g, c).of[x] == if Above(m, c, Some(x)) then g.of[x] else g.of[x] + g.of[c] + 1
  {
  }

  /** One bubble of the forest after an insert that adds a link. */
  lemma InsertedEntry(m: Forest, b: BubbleId, c: BubbleId, q: BubbleId)
    requires b in m && c in m && q in m && c !in m[b].children && b != c
    ensures Inserted(m, b, c)[q].parent == if q == c then Some(b) else m[q].parent
    ensures Inserted(m, b, c)[q].children == if q == b then m[b].children + [c] else m[q].children
  {
  }

  /** A child link of a tree never crosses the border of the subtree of a
      parentless bubble `c`. */
  lemma LinkKeepsSide(m: Forest, p: BubbleId, d: BubbleId, c: BubbleId)
    requires IsTree(m) && p in m && d in m[p].children && c in m && m[c].parent.None?
    ensures d in m && Above(m, c, Some(d)) == Above(m, c, Some(p))
  {
    assert m[d].parent == Some(p);
  }

  /** `b.Insert(c)` keeps the bubbles a tree when `c` had no parent and is
      not above `b`; then `c` becomes `b`'s child and its subtree hangs below
      `b`. */
  lemma InsertKeepsTree(m: Forest, b: BubbleId, c: BubbleId)
    requires IsTree(m) && b in m && c in m && m[c].parent.None? && !Above(m, c, Some(b))
    ensures IsTree(Inserted(m, b, c))
    ensures Inserted(m, b, c)[c].parent == Some(b)
  {
    var m' := Inserted(m, b, c);
    assert c !in m[b].children;
    LiftedRanks(m, b, c);
    assert Acyclic(m');
    InsertedParentOfC(m, b, c);
    forall p, d | p in m' && d in m'[p].children ensures m'[d].parent == Some(p) {
      InsertedListed(m, b, c, p, d);
    }
    forall d | d in m' && m'[d].parent.Some? ensures d in m'[m'[d].parent.value].children {
      InsertedParent(m, b, c, d);
    }
    forall p | p in m' ensures NoDups(m'[p].children) {
      InsertedNoDups(m, b, c, p);
    }
  }

  lemma InsertedParentOfC(m: Forest, b: BubbleId, c: BubbleId)
    requires IsTree(m) && b in m && c in m && m[c].parent.None?
    ensures Inserted(m, b, c)[c].parent == Some(b)
  {
    assert c !in m[b].children;
  }

  lemma InsertedNoDups(m: Forest, b: BubbleId, c: BubbleId, p: BubbleId)
    requires IsTree(m) && b in m && c in m && m[c].parent.None? && p in m
    ensures NoDups(Inserted(m, b, c)[p].children)
  {
    assert c !in m[b].children;
    assert NoDups(m[p].children);
  }

  lemma InsertedListed(m: Forest, b: BubbleId, c: BubbleId, p: BubbleId, d: BubbleId)
    requires IsTree(m) && b in m && c in m && m[c].parent.None?
    requires p in m && d in Inserted(m, b, c)[p].children
    ensures d in m && Inserted(m, b, c)[d].parent == Some(p)
  {
    assert c !in m[b].children;
    if !(p == b && d == c) {
      assert d in m[p].children;
      assert m[d].parent == Some(p);
    }
  }

  lemma InsertedParent(m: Forest, b: BubbleId, c: BubbleId, d: BubbleId)
    requires IsTree(m) && b in m && c in m && m[c].parent.None?
    requires d in m && Inserted(m, b, c)[d].parent.Some?
    ensures Inserted(m, b, c)[d].parent.value in m
    ensures d in Inserted(m, b, c)[Inserted(m, b, c)[d].parent.value].children
  {
    assert c !in m[b].children;
    if d != c {
      assert d in m[m[d].parent.value].children;
    }
  }

  /** After `b.Insert(c)` in a tree (with `c` parentless), a bubble is below
      `a` when it was before, or when it is in `c`'s subtree and `b` is below
      `a`. */
  lemma {:induction false} InsertedAbove(m: Forest, b: BubbleId, c: BubbleId, a: BubbleId, x: BubbleId)
    requires IsTree(m) && b in m && c in m && m[c].parent.None? && !Above(m, c, Some(b)) && x in m
    ensures Acyclic(Inserted(m, b, c))
    ensures Above(Inserted(m, b, c), a, Some(x)) ==
      (Above(m, a, Some(x)) || (Above(m, c, Some(x)) && Above(m, a, Some(b))))
    decreases TheRank(m).top - TheRank(m).of[x]
  {
    InsertKeepsTree(m, b, c);
    var m' := Inserted(m, b, c);
    assert c !in m[b].children;
    InsertedEntry(m, b, c, x);
    if x != a {
      if x == c {
        assert !Above(m, a, Some(x));
        InsertedKeepsAncestors(m, b, c);
        AboveFrame(m, m', a, Some(b));
      } else {
        if m[x].parent.Some? {
          InsertedAbove(m, b, c, a, m[x].parent.value);
        }
      }
    }
  }

  /** An insert leaves the parent of every ancestor of `b` alone. */
  lemma InsertedKeepsAncestors(m: Forest, b: BubbleId, c: BubbleId)
    requires IsTree(m) && b in m && c in m && m[c].parent.None? && !Above(m, c, Some(b))
    ensures forall y | y in m && Above(m, y, Some(b)) :: y in Inserted(m, b, c) && Inserted(m, b, c)[y].parent == m[y].parent
  {
    assert c !in m[b].children;
    forall y | y in m && Above(m, y, Some(b)) ensures Inserted(m, b, c)[y].parent == m[y].parent {
      InsertedEntry(m, b, c, y);
    }
  }

  // ---------------------------------------------------------------------
  // Detach

  /** The first position of `x` in `s`. */
  function IndexOf<T(==)>(s: seq<T>, x: T): (i: nat)
    requires x in s
    ensures i < |s| && s[i] == x && x !in s[..i]
  {
    if s[0] == x then 0
    else
      var i := IndexOf(s[1..], x) + 1;
      assert s[..i] == [s[0]] + s[1..][..i - 1];
      i
  }

  /** The "fast delete" of `Detach`: the element at `i` and the last element
      trade places and the slice loses its last position. */
  function RemoveSwap<T>(s: seq<T>, i: nat): (r: seq<T>)
    requires i < |s|
    ensures |r| == |s| - 1
    ensures forall k | 0 <= k < |r| :: r[k] == if k == i then s[|s| - 1] else s[k]
  {
    s[i := s[|s| - 1]][..|s| - 1]
  }

  /** The fast delete removes exactly one occurrence, and keeps a list
      without repeats free of them. */
  lemma RemoveSwapContents<T>(s: seq<T>, i: nat)
    requires i < |s|
    ensures multiset(RemoveSwap(s, i)) == multiset(s) - multiset{s[i]}
    ensures NoDups(s) ==> NoDups(RemoveSwap(s, i)) && forall x :: x in RemoveSwap(s, i) <==> x in s && x != s[i]
  {
    RemoveSwapMultiset(s, i);
    if NoDups(s) {
      RemoveSwapMembers(s, i);
    }
  }

  lemma RemoveSwapMultiset<T>(s: seq<T>, i: nat)
    requires i < |s|
    ensures multiset(RemoveSwap(s, i)) == multiset(s) - multiset{s[i]}
  {
    var r := RemoveSwap(s, i);
    var n := |s| - 1;
    if i == n {
      assert r == s[..n];
      assert s == s[..n] + [s[n]];
    } else {
      assert s == s[..i] + [s[i]] + s[i + 1..n] + [s[n]];
      assert r == s[..i] + [s[n]] + s[i + 1..n];
      SwapOutMultiset(s[..i], s[i], s[i + 1..n], s[n]);
    }
  }

  lemma SwapOutMultiset<T>(a: seq<T>, x: T, b: seq<T>, y: T)
    ensures multiset(a + [y] + b) == multiset(a + [x] + b + [y]) - multiset{x}
  {
  }

  lemma RemoveSwapMembers<T>(s: seq<T>, i: nat)
    requires i < |s| && NoDups(s)
    ensures NoDups(RemoveSwap(s, i))
    ensures forall x :: x in RemoveSwap(s, i) <==> x in s && x != s[i]
  {
    var r := RemoveSwap(s, i);
    var n := |s| - 1;
    forall x ensures x in r <==> x in s && x != s[i] {
      if x in s && x != s[i] {
        var k :| 0 <= k < |s| && s[k] == x;
        if k == n {
          assert r[i] == x;
        } else {
          assert r[k] == x;
        }
      }
    }
  }

  /** What the walk's callback does at bubble `p`: if `c` is among `p`'s
      children, its first occurrence is fast-deleted and `c` loses its parent
      (the callback's `return` ends only the callback, not the walk). */
  function DetachOne(m: Forest, p: BubbleId, c: BubbleId): (r: Forest)
    requires p in m && c in m
    ensures r.Keys == m.Keys
  {
    var ch := m[p].children;
    if c !in ch then m
    else
      var m1 := m[p := m[p].(children := RemoveSwap(ch, IndexOf(ch, c)))];
      m1[c := m1[c].(parent := None)]
  }

  /** The callback applied at every bubble of `order`, first to last. */
  function DetachAlong(m: Forest, order: seq<BubbleId>, c: BubbleId): (r: Forest)
    requires c in m && forall q | q in order :: q in m
    ensures r.Keys == m.Keys
  {
    if order == [] then m
    else DetachOne(DetachAlong(m, order[..|order| - 1], c), order[|order| - 1], c)
  }

  /** `b.Detach(c)`: the callback applied at every bubble of `b`'s subtree in
      the order `Iterate` visits them. */
  function Detached(m: Forest, b: BubbleId, c: BubbleId): (r: Forest)
    requires Acyclic(m) && b in m && c in m
    ensures r.Keys == m.Keys
  {
    PostOrderInForest(m, b);
    DetachAlong(m, PostOrder(m, b), c)
  }

  /** The edge from `p` to its child `c` cut, as the callback cuts it. */
  function Cut(m: Forest, p: BubbleId, c: BubbleId): (r: Forest)
    requires p in m && c in m && c in m[p].children
    ensures r.Keys == m.Keys
  {
    DetachOne(m, p, c)
  }

  /** Applying the callback along a walk that meets the one lister `p` of
      `c` at most once cuts that one edge, or nothing if the walk misses `p`. */
  lemma {:induction false} DetachAlongOneLister(m: Forest, order: seq<BubbleId>, c: BubbleId, p: BubbleId)
    requires c in m && p in m && c in m[p].children && NoDups(order)
    requires forall q | q in order :: q in m && (q != p ==> c !in m[q].children)
    ensures DetachAlong(m, order, c) == if p in order then Cut(m, p, c) else m
  {
    if order != [] {
      var init := order[..|order| - 1];
      var last := order[|order| - 1];
      assert order == init + [last];
      assert NoDups(init);
      DetachAlongOneLister(m, init, c, p);
      if last == p {
        assert p !in init;
      }
    }
  }

  lemma {:induction false} DetachAlongNoLister(m: Forest, order: seq<BubbleId>, c: BubbleId)
    requires c in m && forall q | q in order :: q in m && c !in m[q].children
    ensures DetachAlong(m, order, c) == m
  {
    if order != [] {
      DetachAlongNoLister(m, order[..|order| - 1], c);
    }
  }

  /** In a tree, `b.Detach(c)` cuts `c` from its parent when that parent is
      in `b`'s subtree, and changes nothing otherwise. */
  lemma DetachedInTree(m: Forest, b: BubbleId, c: BubbleId)
    requires IsTree(m) && b in m && c in m
    ensures Detached(m, b, c) ==
      if m[c].parent.Some? && Above(m, b, m[c].parent) then Cut(m, m[c].parent.value, c) else m
  {
    var order := PostOrder(m, b);
    PostOrderInForest(m, b);
    if m[c].parent.Some? {
      var p := m[c].parent.value;
      PostOrderNoDups(m, b);
      PostOrderIsSubtree(m, b, p);
      forall q | q in order ensures q in m && (q != p ==> c !in m[q].children) {
        ListedByParentOnly(m, q, c);
      }
      DetachAlongOneLister(m, order, c, p);
    } else {
      forall q | q in order ensures q in m && c !in m[q].children {
        ListedByParentOnly(m, q, c);
      }
      DetachAlongNoLister(m, order, c);
    }
  }

  /** Cutting an edge keeps a tree a tree, and leaves `c` parentless and
      off its former parent's list. */
  lemma CutKeepsTree(m: Forest, c: BubbleId)
    requires IsTree(m) && c in m && m[c].parent.Some?
    ensures m[c].parent.value in m && c in m[m[c].parent.value].children
    ensures IsTree(Cut(m, m[c].parent.value, c))
    ensures Cut(m, m[c].parent.value, c)[c].parent.None?
    ensures c !in Cut(m, m[c].parent.value, c)[m[c].parent.value].children
  {
    var p := m[c].parent.value;
    var m' := Cut(m, p, c);
    CutShrinks(m, c);
    CutRanked(m, c, TheRank(m));
    forall q, d | q in m' && d in m'[q].children ensures m'[d].parent == Some(q) {
      assert d in m[q].children && d != c;
    }
    forall d | d in m' && m'[d].parent.Some? ensures d in m'[m'[d].parent.value].children {
      CutParent(m, c, d);
    }
  }

  /** Cutting keeps every list free of repeats, drops `c` from its parent's
      list and keeps every other list as it was, as a set. */
  lemma CutShrinks(m: Forest, c: BubbleId)
    requires IsTree(m) && c in m && m[c].parent.Some?
    ensures m[c].parent.value in m && c in m[m[c].parent.value].children
    ensures forall q | q in m :: NoDups(Cut(m, m[c].parent.value, c)[q].children)
    ensures forall q, d | q in m :: d in Cut(m, m[c].parent.value, c)[q].children <==>
      d in m[q].children && d != c
    ensures forall q | q in m && q != c :: Cut(m, m[c].parent.value, c)[q].parent == m[q].parent
    ensures Cut(m, m[c].parent.value, c)[c].parent.None?
  {
    var p := m[c].parent.value;
    var ch := m[p].children;
    RemoveSwapMembers(ch, IndexOf(ch, c));
    forall q, d | q in m ensures d in Cut(m, p, c)[q].children <==> d in m[q].children && d != c {
      if q != p {
        ListedByParentOnly(m, q, c);
      }
    }
  }

  lemma CutRanked(m: Forest, c: BubbleId, g: Ranking)
    requires IsTree(m) && c in m && m[c].parent.Some? && RankedBy(m, g)
    ensures m[c].parent.value in m && c in m[m[c].parent.value].children
    ensures RankedBy(Cut(m, m[c].parent.value, c), g)
  {
    CutShrinks(m, c);
    var r := Cut(m, m[c].parent.value, c);
    assert forall id | id in m :: r[id].assumptionPair == m[id].assumptionPair;
    FewerLinksRanked(m, r, g);
  }

  lemma CutParent(m: Forest, c: BubbleId, d: BubbleId)
    requires IsTree(m) && c in m && m[c].parent.Some?
    requires d in m && Cut(m, m[c].parent.value, c)[d].parent.Some?
    ensures m[c].parent.value in m && c in m[m[c].parent.value].children
    ensures Cut(m, m[c].parent.value, c)[d].parent.value in m
    ensures d in Cut(m, m[c].parent.value, c)[Cut(m, m[c].parent.value, c)[d].parent.value].children
  {
    CutShrinks(m, c);
    assert d != c;
    assert d in m[m[d].parent.value].children;
  }

  /** After cutting `c` from its parent, `a` is above `x` when it was before,
      except where the walk up from `x` passed through `c` on its way to `a`. */
  lemma {:induction false} CutAbove(m: Forest, c: BubbleId, a: BubbleId, x: BubbleId)
    requires IsTree(m) && c in m && m[c].parent.Some? && a in m && x in m
    ensures m[c].parent.value in m && c in m[m[c].parent.value].children
    ensures Acyclic(Cut(m, m[c].parent.value, c))
    ensures Above(Cut(m, m[c].parent.value, c), a, Some(x)) ==
      (Above(m, a, Some(x)) && (Above(m, c, Some(x)) ==> Above(m, c, Some(a))))
    decreases TheRank(m).top - TheRank(m).of[x]
  {
    CutKeepsTree(m, c);
    var m' := Cut(m, m[c].parent.value, c);
    if x != a {
      if x == c {
        if Above(m, a, Some(x)) && Above(m, c, Some(a)) {
          AboveStrict(m, a, c);
          AboveRank(m, TheRank(m), c, a);
        }
      } else {
        assert m'[x].parent == m[x].parent;
        if m[x].parent.Some? {
          CutAbove(m, c, a, m[x].parent.value);
        }
      }
    }
  }

  /** Walking up strictly climbs the ranking once it leaves its start. */
  lemma AboveStrict(m: Forest, a: BubbleId, x: BubbleId)
    requires Acyclic(m) && x in m && x != a && Above(m, a, Some(x))
    ensures a in m && TheRank(m).of[x] < TheRank(m).of[a]
  {
    AboveRank(m, TheRank(m), a, m[x].parent.value);
  }

  /** `Detach` undoes `Insert`: inserting a parentless `c` under `b` and
      detaching it again restores every bubble, except that `c` keeps the
      depth the insert gave it. The fast delete takes `c` from the end of
      `b`'s list, where the insert appended it. */
  lemma InsertThenDetach(m: Forest, b: BubbleId, c: BubbleId)
    requires IsTree(m) && b in m && c in m && m[c].parent.None? && !Above(m, c, Some(b))
    ensures IsTree(Inserted(m, b, c))
    ensures Detached(Inserted(m, b, c), b, c) == m[c := m[c].(depth := m[b].depth + 1)]
  {
    InsertKeepsTree(m, b, c);
    var m' := Inserted(m, b, c);
    DetachedInTree(m', b, c);
    assert Above(m', b, Some(b));
    assert c !in m[b].children;
    CutAppended(m, b, c);
  }

  lemma CutAppended(m: Forest, b: BubbleId, c: BubbleId)
    requires b in m && c in m && c !in m[b].children && m[c].parent.None?
    ensures c in Inserted(m, b, c)[b].children
    ensures Cut(Inserted(m, b, c), b, c) == m[c := m[c].(depth := m[b].depth + 1)]
  {
    var m' := Inserted(m, b, c);
    var ch := m'[b].children;
    assert ch == m[b].children + [c];
    var i := IndexOf(ch, c);
    assert forall k | 0 <= k < |ch| - 1 :: ch[k] in m[b].children;
    assert i == |ch| - 1;
    assert RemoveSwap(ch, i) == m[b].children;
  }
}
