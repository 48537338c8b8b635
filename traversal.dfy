/** What the two walks of page/bubble.go visit and in which order:
    `Iterate` (post-order, `PostOrder`) and `bfs` (a stack, so pre-order,
    `PreOrder`). In a tree both visit exactly the bubbles that the walked
    bubble `IsAbove`, each once; `Iterate` reaches a bubble after all its
    descendants and `bfs` before them. */
module Traversal {
  import opened Tree

  // ---------------------------------------------------------------------
  // Flatten

  lemma {:induction false} FlattenIn<T>(ss: seq<seq<T>>, i: nat, x: T)
    requires i < |ss| && x in ss[i]
    ensures x in Flatten(ss)
  {
    if i > 0 {
      FlattenIn(ss[1..], i - 1, x);
    }
  }

  lemma {:induction false} FlattenWhich<T>(ss: seq<seq<T>>, x: T) returns (i: nat)
    requires x in Flatten(ss)
    ensures i < |ss| && x in ss[i]
  {
    if x in ss[0] {
      i := 0;
    } else {
      var j := FlattenWhich(ss[1..], x);
      i := j + 1;
    }
  }

  lemma {:induction false} FlattenAppend<T>(ss: seq<seq<T>>, tt: seq<seq<T>>)
    ensures Flatten(ss + tt) == Flatten(ss) + Flatten(tt)
  {
    if ss == [] {
      assert ss + tt == tt;
    } else {
      assert (ss + tt)[0] == ss[0] && (ss + tt)[1..] == ss[1..] + tt;
      FlattenAppend(ss[1..], tt);
      calc {
        Flatten(ss + tt);
        ss[0] + Flatten(ss[1..] + tt);
        ss[0] + (Flatten(ss[1..]) + Flatten(tt));
        (ss[0] + Flatten(ss[1..])) + Flatten(tt);
      }
    }
  }

  lemma {:induction false} FlattenNotIn<T>(ss: seq<seq<T>>, x: T)
    requires forall i | 0 <= i < |ss| :: x !in ss[i]
    ensures x !in Flatten(ss)
  {
    if ss != [] {
      FlattenNotIn(ss[1..], x);
    }
  }

  /** Position `k` of a flattened sequence lies in block `i` at offset `j`,
      after the blocks before `i` and the first `j` elements of block `i`. */
  lemma {:induction false} FlattenIndex<T>(ss: seq<seq<T>>, k: nat) returns (i: nat, j: nat)
    requires k < |Flatten(ss)|
    ensures i < |ss| && j < |ss[i]| && Flatten(ss)[k] == ss[i][j]
    ensures Flatten(ss)[..k] == Flatten(ss[..i]) + ss[i][..j]
    ensures Flatten(ss)[k + 1..] == ss[i][j + 1..] + Flatten(ss[i + 1..])
  {
    assert ss != [];
    if k < |ss[0]| {
      i, j := 0, k;
      assert ss[..0] == [];
    } else {
      var i', j' := FlattenIndex(ss[1..], k - |ss[0]|);
      i, j := i' + 1, j';
      assert ss[..i] == [ss[0]] + ss[1..][..i'];
      FlattenAppend([ss[0]], ss[1..][..i']);
      assert ss[i + 1..] == ss[1..][i' + 1..];
    }
  }

  lemma {:induction false} FlattenLength<T>(ss: seq<seq<T>>, i: nat)
    requires i < |ss|
    ensures |Flatten(ss[..i])| + |ss[i]| <= |Flatten(ss)|
  {
    assert ss == ss[..i] + [ss[i]] + ss[i + 1..];
    FlattenAppend(ss[..i] + [ss[i]], ss[i + 1..]);
    FlattenAppend(ss[..i], [ss[i]]);
    assert Flatten([ss[i]]) == ss[i] + Flatten([]);
  }

  /** Blocks without repeats that share nothing flatten to a sequence without
      repeats. */
  lemma {:induction false} FlattenNoDups<T>(ss: seq<seq<T>>)
    requires forall i | 0 <= i < |ss| :: NoDups(ss[i])
    requires forall i, j, x | 0 <= i < j < |ss| && x in ss[i] :: x !in ss[j]
    ensures NoDups(Flatten(ss))
  {
    if ss != [] {
      FlattenNoDups(ss[1..]);
      var f := Flatten(ss[1..]);
      forall x | x in ss[0] ensures x !in f {
        forall j | 0 <= j < |ss[1..]| ensures x !in ss[1..][j] {
          assert ss[1..][j] == ss[j + 1];
        }
        FlattenNotIn(ss[1..], x);
      }
      NoDupsAppend(ss[0], f);
    }
  }

  lemma NoDupsAppend<T>(a: seq<T>, b: seq<T>)
    requires NoDups(a) && NoDups(b) && forall x | x in a :: x !in b
    ensures NoDups(a + b)
  {
    forall i, j | 0 <= i < j < |a + b| ensures (a + b)[i] != (a + b)[j] {
      if i < |a| && j >= |a| {
        assert (a + b)[i] in a && (a + b)[j] == b[j - |a|];
      }
    }
  }

  // ---------------------------------------------------------------------
  // What Iterate visits

  lemma PostOrderChild(m: Forest, id: BubbleId, i: nat)
    requires Acyclic(m) && id in m && i < |m[id].children|
    ensures m[id].children[i] in m
    ensures ChildPostOrders(m, id)[i] == PostOrder(m, m[id].children[i])
  {
  }

  /** The walk of a child is part of its parent's walk. */
  lemma PostOrderChildWithin(m: Forest, a: BubbleId, i: nat)
    requires Acyclic(m) && a in m && i < |m[a].children|
    ensures m[a].children[i] in m
    ensures forall y | y in PostOrder(m, m[a].children[i]) :: y in PostOrder(m, a)
  {
    PostOrderChild(m, a, i);
    forall y | y in PostOrder(m, m[a].children[i]) ensures y in PostOrder(m, a) {
      FlattenIn(ChildPostOrders(m, a), i, y);
    }
  }

  /** Every bubble `Iterate` reaches is in the forest. */
  lemma {:induction false} PostOrderInForest(m: Forest, id: BubbleId)
    requires Acyclic(m) && id in m
    ensures forall x | x in PostOrder(m, id) :: x in m
    decreases TheRank(m).of[id]
  {
    forall x | x in PostOrder(m, id) ensures x in m {
      if x != id {
        var i := FlattenWhich(ChildPostOrders(m, id), x);
        PostOrderChild(m, id, i);
        PostOrderInForest(m, m[id].children[i]);
      }
    }
  }

  /** `Iterate` from `a` never climbs above `a` in any ranking. */
  lemma {:induction false} PostOrderRank(m: Forest, g: Ranking, a: BubbleId, y: BubbleId)
    requires Acyclic(m) && RankedBy(m, g) && a in m && y in PostOrder(m, a)
    ensures y in m && g.of[y] <= g.of[a]
    decreases TheRank(m).of[a]
  {
    if y != a {
      var i := FlattenWhich(ChildPostOrders(m, a), y);
      PostOrderChild(m, a, i);
      PostOrderRank(m, g, m[a].children[i], y);
    }
  }

  /** A bubble met by `Iterate` from `a` has its whole walk inside `a`'s. */
  lemma {:induction false} PostOrderClosed(m: Forest, a: BubbleId, p: BubbleId)
    requires Acyclic(m) && a in m && p in PostOrder(m, a)
    ensures p in m && forall y | y in PostOrder(m, p) :: y in PostOrder(m, a)
    decreases TheRank(m).of[a]
  {
    PostOrderInForest(m, a);
    if p != a {
      var blocks := ChildPostOrders(m, a);
      var i := FlattenWhich(blocks, p);
      PostOrderChild(m, a, i);
      PostOrderClosed(m, m[a].children[i], p);
      forall y | y in PostOrder(m, p) ensures y in PostOrder(m, a) {
        FlattenIn(blocks, i, y);
      }
    }
  }

  /** In a tree, `Iterate` from `a` meets exactly the bubbles `a` is above. */
  lemma {:induction false} PostOrderIsSubtree(m: Forest, a: BubbleId, x: BubbleId)
    requires IsTree(m) && a in m && x in m
    ensures x in PostOrder(m, a) <==> Above(m, a, Some(x))
  {
    if x in PostOrder(m, a) {
      InSubtreeIsBelow(m, a, x);
    }
    if Above(m, a, Some(x)) {
      BelowIsInSubtree(m, a, x);
    }
  }

  lemma {:induction false} InSubtreeIsBelow(m: Forest, a: BubbleId, x: BubbleId)
    requires IsTree(m) && a in m && x in PostOrder(m, a)
    ensures x in m && Above(m, a, Some(x))
    decreases TheRank(m).of[a]
  {
    PostOrderInForest(m, a);
    if x != a {
      var i := FlattenWhich(ChildPostOrders(m, a), x);
      PostOrderChild(m, a, i);
      var c := m[a].children[i];
      InSubtreeIsBelow(m, c, x);
      assert m[c].parent == Some(a);
      assert Above(m, a, Some(c));
      AboveTransitive(m, a, c, x);
    }
  }

  lemma {:induction false} BelowIsInSubtree(m: Forest, a: BubbleId, x: BubbleId)
    requires IsTree(m) && x in m && Above(m, a, Some(x))
    ensures a in m && x in PostOrder(m, a)
    decreases TheRank(m).top - TheRank(m).of[x]
  {
    AboveRank(m, TheRank(m), a, x);
    if x != a {
      var p := m[x].parent.value;
      BelowIsInSubtree(m, a, p);
      assert x in m[p].children;
      var ch := m[p].children;
      var i :| 0 <= i < |ch| && ch[i] == x;
      PostOrderChild(m, p, i);
      FlattenIn(ChildPostOrders(m, p), i, x);
      PostOrderClosed(m, a, p);
    }
  }

  /** `Iterate` reaches a bubble only after all of its children. */
  lemma {:induction false} PostOrderChildrenFirst(m: Forest, a: BubbleId, k: nat)
    requires Acyclic(m) && a in m && k < |PostOrder(m, a)|
    ensures PostOrder(m, a)[k] in m
    ensures forall c | c in m[PostOrder(m, a)[k]].children :: c in PostOrder(m, a)[..k]
    decreases TheRank(m).of[a]
  {
    PostOrderInForest(m, a);
    var s := PostOrder(m, a);
    var blocks := ChildPostOrders(m, a);
    var f := Flatten(blocks);
    assert s == f + [a];
    if k == |s| - 1 {
      forall c | c in m[a].children ensures c in s[..k] {
        var ch := m[a].children;
        var i :| 0 <= i < |ch| && ch[i] == c;
        PostOrderChild(m, a, i);
        FlattenIn(blocks, i, c);
        assert s[..k] == f;
      }
    } else {
      var i, j := FlattenIndex(blocks, k);
      PostOrderChild(m, a, i);
      var c := m[a].children[i];
      PostOrderChildrenFirst(m, c, j);
      assert s[..k] == f[..k];
      forall d | d in m[s[k]].children ensures d in s[..k] {
        assert d in blocks[i][..j];
      }
    }
  }

  /** In a tree, `Iterate` meets every bubble of the subtree exactly once. */
  lemma {:induction false} PostOrderNoDups(m: Forest, a: BubbleId)
    requires IsTree(m) && a in m
    ensures NoDups(PostOrder(m, a))
    decreases TheRank(m).of[a]
  {
    var g := TheRank(m);
    var ch := m[a].children;
    var blocks := ChildPostOrders(m, a);
    forall i | 0 <= i < |blocks| ensures NoDups(blocks[i]) {
      PostOrderChild(m, a, i);
      PostOrderNoDups(m, ch[i]);
    }
    forall i, j, x | 0 <= i < j < |blocks| && x in blocks[i] ensures x !in blocks[j] {
      if x in blocks[j] {
        PostOrderChild(m, a, i);
        PostOrderChild(m, a, j);
        InSubtreeIsBelow(m, ch[i], x);
        InSubtreeIsBelow(m, ch[j], x);
        SiblingsShareNoDescendant(m, a, ch[i], ch[j], x);
      }
    }
    FlattenNoDups(blocks);
    assert a !in Flatten(blocks) by {
      if a in Flatten(blocks) {
        var i := FlattenWhich(blocks, a);
        PostOrderChild(m, a, i);
        InSubtreeIsBelow(m, ch[i], a);
        AboveRank(m, g, ch[i], a);
      }
    }
    NoDupsAppend(Flatten(blocks), [a]);
  }

  /** Two different children of one bubble are above no common bubble. */
  lemma SiblingsShareNoDescendant(m: Forest, p: BubbleId, c1: BubbleId, c2: BubbleId, x: BubbleId)
    requires IsTree(m) && p in m && c1 in m[p].children && c2 in m[p].children && c1 != c2
    requires x in m
    ensures !(Above(m, c1, Some(x)) && Above(m, c2, Some(x)))
  {
    var g := TheRank(m);
    if Above(m, c1, Some(x)) && Above(m, c2, Some(x)) {
      AboveChain(m, c1, c2, x);
      if Above(m, c1, Some(c2)) {
        AboveRank(m, g, c1, p);
      } else {
        AboveRank(m, g, c2, p);
      }
    }
  }

  // ---------------------------------------------------------------------
  // What bfs visits

  function Reverse<T>(s: seq<T>): (r: seq<T>)
    ensures |r| == |s| && forall i | 0 <= i < |s| :: r[i] == s[|s| - 1 - i]
  {
    if s == [] then [] else Reverse(s[1..]) + [s[0]]
  }

  lemma {:induction false} FlattenReverseMultiset<T>(ss: seq<seq<T>>)
    ensures multiset(Flatten(Reverse(ss))) == multiset(Flatten(ss))
  {
    if ss != [] {
      FlattenReverseMultiset(ss[1..]);
      assert Reverse(ss) == Reverse(ss[1..]) + [ss[0]];
      FlattenAppend(Reverse(ss[1..]), [ss[0]]);
      assert Flatten([ss[0]]) == ss[0] + Flatten([]);
    }
  }

  lemma {:induction false} FlattenBlockwiseMultiset<T>(ss: seq<seq<T>>, tt: seq<seq<T>>)
    requires |ss| == |tt| && forall i | 0 <= i < |ss| :: multiset(ss[i]) == multiset(tt[i])
    ensures multiset(Flatten(ss)) == multiset(Flatten(tt))
  {
    if ss != [] {
      FlattenBlockwiseMultiset(ss[1..], tt[1..]);
    }
  }

  lemma PreOrderChild(m: Forest, id: BubbleId, i: nat)
    requires Acyclic(m) && id in m && i < |m[id].children|
    ensures m[id].children[|m[id].children| - 1 - i] in m
    ensures ChildPreOrders(m, id)[i] == PreOrder(m, m[id].children[|m[id].children| - 1 - i])
  {
  }

  /** `bfs` and `Iterate` visit the same bubbles the same number of times;
      only the order differs. */
  lemma {:induction false} PreOrderPermutesPostOrder(m: Forest, a: BubbleId)
    requires Acyclic(m) && a in m
    ensures multiset(PreOrder(m, a)) == multiset(PostOrder(m, a))
    decreases TheRank(m).of[a], 1
  {
    var pre := ChildPreOrders(m, a);
    var post := ChildPostOrders(m, a);
    var rev := Reverse(post);
    forall i | 0 <= i < |pre| ensures multiset(pre[i]) == multiset(rev[i]) {
      BlockPermutes(m, a, i);
    }
    FlattenBlockwiseMultiset(pre, rev);
    FlattenReverseMultiset(post);
  }

  lemma {:induction false} BlockPermutes(m: Forest, a: BubbleId, i: nat)
    requires Acyclic(m) && a in m && i < |m[a].children|
    ensures multiset(ChildPreOrders(m, a)[i]) == multiset(Reverse(ChildPostOrders(m, a))[i])
    decreases TheRank(m).of[a], 0
  {
    var ch := m[a].children;
    var j := |ch| - 1 - i;
    var c := ch[j];
    PreOrderChild(m, a, i);
    PostOrderChild(m, a, j);
    var pre := ChildPreOrders(m, a)[i];
    var post := Reverse(ChildPostOrders(m, a))[i];
    assert post == PostOrder(m, c);
    ChildRank(m, a, c);
    PreOrderPermutesPostOrder(m, c);
    SameMultisets(pre, PreOrder(m, c), PostOrder(m, c), post);
  }

  lemma SameMultisets<T>(a: seq<T>, b: seq<T>, c: seq<T>, d: seq<T>)
    requires a == b && multiset(b) == multiset(c) && c == d
    ensures multiset(a) == multiset(d)
  {
  }

  /** `bfs` reaches a bubble before any of its children. */
  lemma {:induction false} PreOrderParentFirst(m: Forest, a: BubbleId, k: nat)
    requires Acyclic(m) && a in m && k < |PreOrder(m, a)|
    ensures PreOrder(m, a)[k] in m
    ensures forall c | c in m[PreOrder(m, a)[k]].children :: c in PreOrder(m, a)[k + 1..]
    decreases TheRank(m).of[a]
  {
    PreOrderInForest(m, a);
    var s := PreOrder(m, a);
    var blocks := ChildPreOrders(m, a);
    var f := Flatten(blocks);
    assert s == [a] + f;
    if k == 0 {
      forall c | c in m[a].children ensures c in s[1..] {
        var ch := m[a].children;
        var i :| 0 <= i < |ch| && ch[i] == c;
        var i' := |ch| - 1 - i;
        PreOrderChild(m, a, i');
        FlattenIn(blocks, i', c);
      }
    } else {
      var i, j := FlattenIndex(blocks, k - 1);
      var ch := m[a].children;
      PreOrderChild(m, a, i);
      var c := ch[|ch| - 1 - i];
      PreOrderParentFirst(m, c, j);
      assert s[k + 1..] == f[k..];
      forall d | d in m[s[k]].children ensures d in s[k + 1..] {
        assert d in blocks[i][j + 1..];
      }
    }
  }

  lemma {:induction false} PreOrderInForest(m: Forest, id: BubbleId)
    requires Acyclic(m) && id in m
    ensures forall x | x in PreOrder(m, id) :: x in m
  {
    PreOrderPermutesPostOrder(m, id);
    PostOrderInForest(m, id);
    forall x | x in PreOrder(m, id) ensures x in m {
      assert x in multiset(PreOrder(m, id));
    }
  }

  /** In a tree, `bfs` from `a` meets exactly the bubbles `a` is above, each
      once. */
  lemma PreOrderIsSubtree(m: Forest, a: BubbleId, x: BubbleId)
    requires IsTree(m) && a in m && x in m
    ensures x in PreOrder(m, a) <==> Above(m, a, Some(x))
    ensures multiset(PreOrder(m, a))[x] <= 1
  {
    PreOrderPermutesPostOrder(m, a);
    PostOrderIsSubtree(m, a, x);
    PostOrderNoDups(m, a);
    assert x in PreOrder(m, a) <==> x in multiset(PreOrder(m, a));
    NoDupsCount(PostOrder(m, a), x);
  }

  lemma {:induction false} NoDupsCount<T>(s: seq<T>, x: T)
    requires NoDups(s)
    ensures multiset(s)[x] <= 1
  {
    if s != [] {
      assert s == [s[0]] + s[1..];
      NoDupsCount(s[1..], x);
      assert s[0] !in s[1..];
    }
  }
}
