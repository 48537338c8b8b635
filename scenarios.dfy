/** Small concrete pages worked through the model: the sequence of edits
    page/bubble_test.go makes and the heights it expects, and a grabbed
    formula cancelling against its dual. */
module Scenarios {
  import opened Kinds
  import opened Tree
  import opened Edits
  import opened Render
  import opened Placing

  /** A bubble at the origin with no velocity and height 0. */
  function Bub(v: string, k: Kind, depth: int, children: seq<BubbleId>, parent: Option<BubbleId>): Bubble
  {
    Bubble(0, 0, 0, 0, depth, 0, k, v, children, parent, None)
  }

  /** The height pass from `a` leaves `a` and its child `b` holding their
      subtree heights. */
  lemma PassHeights(m: Forest, a: BubbleId, b: BubbleId)
    requires IsTree(m) && a in m && b in m && m[b].parent == Some(a)
    ensures Normalized(m, a)[a].height == SubtreeHeight(m, a)
    ensures Normalized(m, a)[b].height == SubtreeHeight(m, b)
  {
    NormalizedHeights(m, a, a);
    NormalizedHeights(m, a, b);
    assert Above(m, a, Some(a));
  }

  lemma LeafHeight(m: Forest, id: BubbleId)
    requires Acyclic(m) && id in m && m[id].children == []
    ensures SubtreeHeight(m, id) == 0
  {
  }

  lemma OneChildHeight(m: Forest, id: BubbleId)
    requires Acyclic(m) && id in m && |m[id].children| == 1
    ensures m[id].children[0] in m
    ensures SubtreeHeight(m, id) == SubtreeHeight(m, m[id].children[0]) + 1
  {
    var c := m[id].children[0];
    assert c in m[id].children;
    assert ChildHeights(m, id) == [SubtreeHeight(m, c)];
  }

  lemma TwoLeavesHeight(m: Forest, id: BubbleId)
    requires Acyclic(m) && id in m && |m[id].children| == 2
    requires forall c | c in m[id].children :: c in m && m[c].children == []
    ensures SubtreeHeight(m, id) == 1
  {
    var ch := m[id].children;
    assert ch[0] in ch && ch[1] in ch;
    assert ChildHeights(m, id) == [SubtreeHeight(m, ch[0]), SubtreeHeight(m, ch[1])];
    LeafHeight(m, ch[0]);
    LeafHeight(m, ch[1]);
  }

  // ---------------------------------------------------------------------
  // TestHeights: `a` (0) White, `b` (1) Black, `c` (2) and `d` (3) White.
  // The edits are followed on any tree in which the four bubbles start
  // loose, which the four `NewBubble` calls of the test give.

  /** `id` is in `m` with these children and this parent. */
  predicate Node(m: Forest, id: BubbleId, children: seq<BubbleId>, parent: Option<BubbleId>)
  {
    id in m && m[id].children == children && m[id].parent == parent
  }

  /** The four bubbles with no links. */
  predicate Loose(m: Forest)
  {
    Node(m, 0, [], None) && Node(m, 1, [], None) && Node(m, 2, [], None) && Node(m, 3, [], None)
  }

  /** After `a.Insert(b)` and `b.Insert(c)`. */
  predicate Chained(m: Forest)
  {
    Node(m, 0, [1], None) && Node(m, 1, [2], Some(0)) && Node(m, 2, [], Some(1)) && Node(m, 3, [], None)
  }

  /** After `b.Detach(c)`. */
  predicate CutOnce(m: Forest)
  {
    Node(m, 0, [1], None) && Node(m, 1, [], Some(0)) && Node(m, 2, [], None) && Node(m, 3, [], None)
  }

  /** After `b.Insert(c)` and `b.Insert(d)`. */
  predicate Forked(m: Forest)
  {
    Node(m, 0, [1], None) && Node(m, 1, [2, 3], Some(0)) && Node(m, 2, [], Some(1)) && Node(m, 3, [], Some(1))
  }

  /** After the second `b.Detach(c)`: the fast delete moves `d` into `c`'s
      slot. */
  predicate CutTwice(m: Forest)
  {
    Node(m, 0, [1], None) && Node(m, 1, [3], Some(0)) && Node(m, 2, [], None) && Node(m, 3, [], Some(1))
  }

  /** The four bubbles as `NewBubble` makes them. */
  function Start(): Forest
  {
    map[0 := NewBubble(0, 0, "A", White), 1 := NewBubble(0, 0, "B", Black),
        2 := NewBubble(0, 0, "C", White), 3 := NewBubble(0, 0, "D", White)]
  }

  lemma StartIsLoose()
    ensures IsTree(Start()) && Loose(Start())
  {
    var m := Start();
    assert forall id | id in m :: m[id].children == [] && m[id].parent == None && m[id].assumptionPair == None by {
      forall id | id in m ensures m[id].children == [] && m[id].parent == None && m[id].assumptionPair == None {
        assert id == 0 || id == 1 || id == 2 || id == 3;
      }
    }
    LooseIsTree(m);
  }

  /** A forest without links is a tree. */
  lemma LooseIsTree(m: Forest)
    requires forall id | id in m :: m[id].children == [] && m[id].parent == None && m[id].assumptionPair == None
    ensures IsTree(m)
  {
    var g := Ranking(map id | id in m :: 0, 0);
    RankedIsAcyclic(m, g);
  }

  /** `b.Insert(c)` on a parentless, childless `c`: only `b`'s list and
      `c`'s parent change. */
  lemma InsertLeaf(m: Forest, b: BubbleId, c: BubbleId, q: BubbleId)
    requires IsTree(m) && b in m && Node(m, c, [], None) && b != c && !Above(m, c, Some(b)) && q in m
    ensures IsTree(Inserted(m, b, c))
    ensures Inserted(m, b, c)[q].children == if q == b then m[b].children + [c] else m[q].children
    ensures Inserted(m, b, c)[q].parent == if q == c then Some(b) else m[q].parent
  {
    InsertKeepsTree(m, b, c);
    assert c !in m[b].children;
    InsertedEntry(m, b, c, q);
  }

  lemma FirstInserts(m: Forest)
    requires IsTree(m) && Loose(m)
    ensures IsTree(Inserted(Inserted(m, 0, 1), 1, 2)) && Chained(Inserted(Inserted(m, 0, 1), 1, 2))
  {
    var m1 := Inserted(m, 0, 1);
    InsertLeaf(m, 0, 1, 0);
    InsertLeaf(m, 0, 1, 1);
    InsertLeaf(m, 0, 1, 2);
    InsertLeaf(m, 0, 1, 3);
    assert !Above(m1, 2, Some(1)) by {
      assert !Above(m1, 2, Some(0));
    }
    InsertLeaf(m1, 1, 2, 0);
    InsertLeaf(m1, 1, 2, 1);
    InsertLeaf(m1, 1, 2, 2);
    InsertLeaf(m1, 1, 2, 3);
  }

  lemma Reinsert(m: Forest)
    requires IsTree(m) && CutOnce(m)
    ensures IsTree(Inserted(m, 1, 2)) && Chained(Inserted(m, 1, 2))
  {
    assert !Above(m, 2, Some(1)) by {
      assert !Above(m, 2, Some(0));
    }
    InsertLeaf(m, 1, 2, 0);
    InsertLeaf(m, 1, 2, 1);
    InsertLeaf(m, 1, 2, 2);
    InsertLeaf(m, 1, 2, 3);
  }

  lemma InsertSibling(m: Forest)
    requires IsTree(m) && Chained(m)
    ensures IsTree(Inserted(m, 1, 3)) && Forked(Inserted(m, 1, 3))
  {
    assert !Above(m, 3, Some(1)) by {
      assert !Above(m, 3, Some(0));
    }
    InsertLeaf(m, 1, 3, 0);
    InsertLeaf(m, 1, 3, 1);
    InsertLeaf(m, 1, 3, 2);
    InsertLeaf(m, 1, 3, 3);
  }

  lemma SecondInserts(m: Forest)
    requires IsTree(m) && CutOnce(m)
    ensures IsTree(Inserted(Inserted(m, 1, 2), 1, 3)) && Forked(Inserted(Inserted(m, 1, 2), 1, 3))
  {
    Reinsert(m);
    InsertSibling(Inserted(m, 1, 2));
  }

  /** In a tree, `b.Detach(c)` with `c` a child of `b` cuts that edge. */
  lemma DetachIsCut(m: Forest)
    requires IsTree(m) && Node(m, 2, [], Some(1)) && 1 in m
    ensures 2 in m[1].children
    ensures Detached(m, 1, 2) == Cut(m, 1, 2) && IsTree(Cut(m, 1, 2))
  {
    DetachedInTree(m, 1, 2);
    assert Above(m, 1, Some(1));
    CutKeepsTree(m, 2);
  }

  /** Cutting `c` listed first under `b`: the fast delete moves the last
      child into the first slot. */
  lemma CutFirst(m: Forest, rest: seq<BubbleId>, q: BubbleId)
    requires 1 in m && 2 in m && m[1].children == [2] + rest && |rest| <= 1 && q in m
    ensures Cut(m, 1, 2)[q].children == if q == 1 then rest else m[q].children
    ensures Cut(m, 1, 2)[q].parent == if q == 2 then None else m[q].parent
  {
    var ch := m[1].children;
    assert IndexOf(ch, 2) == 0;
    assert RemoveSwap(ch, 0) == rest;
  }

  lemma FirstDetach(m: Forest)
    requires IsTree(m) && Chained(m)
    ensures IsTree(Detached(m, 1, 2)) && CutOnce(Detached(m, 1, 2))
  {
    DetachIsCut(m);
    assert m[1].children == [2] + [];
    CutFirst(m, [], 0);
    CutFirst(m, [], 1);
    CutFirst(m, [], 2);
    CutFirst(m, [], 3);
  }

  lemma SecondDetach(m: Forest)
    requires IsTree(m) && Forked(m)
    ensures IsTree(Detached(m, 1, 2)) && CutTwice(Detached(m, 1, 2))
  {
    DetachIsCut(m);
    assert m[1].children == [2] + [3];
    CutFirst(m, [3], 0);
    CutFirst(m, [3], 1);
    CutFirst(m, [3], 2);
    CutFirst(m, [3], 3);
  }

  /** The height pass from `a` over each state the test reaches. */
  lemma ChainedHeights(m: Forest)
    requires IsTree(m) && Chained(m)
    ensures Normalized(m, 0)[0].height == 2 && Normalized(m, 0)[1].height == 1
  {
    PassHeights(m, 0, 1);
    LeafHeight(m, 2);
    OneChildHeight(m, 1);
    OneChildHeight(m, 0);
  }

  lemma CutOnceHeights(m: Forest)
    requires IsTree(m) && CutOnce(m)
    ensures Normalized(m, 0)[0].height == 1 && Normalized(m, 0)[1].height == 0
  {
    PassHeights(m, 0, 1);
    LeafHeight(m, 1);
    OneChildHeight(m, 0);
  }

  lemma ForkedHeights(m: Forest)
    requires IsTree(m) && Forked(m)
    ensures Normalized(m, 0)[0].height == 2 && Normalized(m, 0)[1].height == 1
  {
    PassHeights(m, 0, 1);
    assert SubtreeHeight(m, 1) == 1 by {
      assert m[1].children == [2, 3];
      TwoLeavesHeight(m, 1);
    }
    OneChildHeight(m, 0);
  }

  lemma CutTwiceHeights(m: Forest)
    requires IsTree(m) && CutTwice(m)
    ensures Normalized(m, 0)[0].height == 2 && Normalized(m, 0)[1].height == 1
  {
    PassHeights(m, 0, 1);
    LeafHeight(m, 3);
    OneChildHeight(m, 1);
    OneChildHeight(m, 0);
  }

  /** As written, the test reads the heights straight after the edits, but
      neither `Insert` nor `Detach` writes a height: after the first two
      inserts `a` and `b` still hold the 0 that `NewBubble` gave them, not
      2 and 1. */
  lemma InsertsLeaveHeights()
    ensures Inserted(Inserted(Start(), 0, 1), 1, 2)[0].height == 0
    ensures Inserted(Inserted(Start(), 0, 1), 1, 2)[1].height == 0
  {
    var m1 := Inserted(Start(), 0, 1);
    InsertedFacts(Start(), 0, 1);
    InsertedFacts(m1, 1, 2);
  }

  /** The test's expectations hold once the height pass from `a` has run
      after each step: 2 and 1, then 1 and 0 after the detach, 2 and 1
      after the two inserts, and 2 and 1 again after the second detach,
      as `d` still hangs below `b`. */
  lemma TestHeights(m0: Forest)
    requires IsTree(m0) && Loose(m0)
    ensures var m1 := Inserted(Inserted(m0, 0, 1), 1, 2);
      IsTree(m1) && Normalized(m1, 0)[0].height == 2 && Normalized(m1, 0)[1].height == 1 &&
      var m2 := Detached(m1, 1, 2);
      IsTree(m2) && Normalized(m2, 0)[0].height == 1 && Normalized(m2, 0)[1].height == 0 &&
      var m3 := Inserted(Inserted(m2, 1, 2), 1, 3);
      IsTree(m3) && Normalized(m3, 0)[0].height == 2 && Normalized(m3, 0)[1].height == 1 &&
      var m4 := Detached(m3, 1, 2);
      IsTree(m4) && Normalized(m4, 0)[0].height == 2 && Normalized(m4, 0)[1].height == 1
  {
    var m1 := Inserted(Inserted(m0, 0, 1), 1, 2);
    FirstInserts(m0);
    ChainedHeights(m1);
    var m2 := Detached(m1, 1, 2);
    FirstDetach(m1);
    CutOnceHeights(m2);
    var m3 := Inserted(Inserted(m2, 1, 2), 1, 3);
    SecondInserts(m2);
    ForkedHeights(m3);
    var m4 := Detached(m3, 1, 2);
    SecondDetach(m3);
    CutTwiceHeights(m4);
  }

  /** The test's own four bubbles. */
  lemma TestHeightsFromStart()
    ensures IsTree(Start()) && Loose(Start())
    ensures var m1 := Inserted(Inserted(Start(), 0, 1), 1, 2);
      IsTree(m1) && Normalized(m1, 0)[0].height == 2 && Normalized(m1, 0)[1].height == 1
  {
    StartIsLoose();
    TestHeights(Start());
  }

  // ---------------------------------------------------------------------
  // A grabbed formula meeting its dual

  /** A White leaf grabbed from a White region, dropped on a Black leaf of
      the same region, both named: the two cancel exactly when they carry
      the same variable, as the grabbed one then renders as the target's opposite;
      otherwise the drop is refused. */
  lemma LeafDuals(m: Forest, gp: BubbleId, g: BubbleId, other: BubbleId)
    requires IsTree(m) && gp in m && Node(m, g, [], Some(gp)) && Node(m, other, [], Some(gp)) && g != other
    requires m[gp].kind == White && m[g].kind == White && m[other].kind == Black
    requires m[g].variable != "" && m[other].variable != ""
    ensures Placement(m, Some(g), Some(gp), Some(other)) ==
      if m[g].variable == m[other].variable then Cancel else Refuse
  {
    LeafStrings(m, g);
    LeafStrings(m, other);
    assert Above(m, gp, Some(other));
  }
}
