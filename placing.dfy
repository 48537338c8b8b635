/** What the editing operations of page/page.go do to the bubble forest, as
    functions from the forest before to the forest after: the height pass of
    `NormalizeHeight`, the verdict and the cancellation of `CanPlaceAt`, and
    the moves of `ReleaseInto`. The methods of `Pages.Page` are proved to
    perform exactly these edits; the lemmas here say what the edits mean for
    a tree. */
module Placing {
  import opened Kinds
  import opened Tree
  import opened Traversal
  import opened Edits
  import opened Render

  // ---------------------------------------------------------------------
  // NormalizeHeight

  /** `b.normalizeHeight()` at one bubble. */
  function NormalizeOne(m: Forest, id: BubbleId): (r: Forest)
    requires Linked(m) && id in m
    ensures r.Keys == m.Keys && forall q | q in m :: r[q] == m[q].(height := r[q].height)
  {
    m[id := m[id].(height := NodeHeight(m, id))]
  }

  /** `normalizeHeight` applied at every bubble of `order`, first to last. */
  function NormalizeAlong(m: Forest, order: seq<BubbleId>): (r: Forest)
    requires Linked(m) && forall q | q in order :: q in m
    ensures r.Keys == m.Keys && forall q | q in m :: r[q] == m[q].(height := r[q].height)
  {
    if order == [] then m
    else
      var r := NormalizeAlong(m, order[..|order| - 1]);
      assert Linked(r) by {
        forall id | id in r ensures forall c | c in r[id].children :: c in r {
          assert r[id].children == m[id].children;
        }
      }
      NormalizeOne(r, order[|order| - 1])
  }

  /** `pg.NormalizeHeight()`: `normalizeHeight` at every bubble `Iterate`
      meets below the root. */
  function Normalized(m: Forest, root: BubbleId): (r: Forest)
    requires Acyclic(m) && root in m
    ensures r.Keys == m.Keys && forall q | q in m :: r[q] == m[q].(height := r[q].height)
  {
    PostOrderInForest(m, root);
    NormalizeAlong(m, PostOrder(m, root))
  }

  /** In a tree, the height pass leaves every bubble below the root holding
      the height of its subtree, whatever the heights held before, and
      every other bubble as it was. `Iterate` reaching each bubble once and
      after its children is what makes one pass enough. */
  lemma NormalizedHeights(m: Forest, root: BubbleId, q: BubbleId)
    requires IsTree(m) && root in m && q in m
    ensures Normalized(m, root)[q].height ==
      if Above(m, root, Some(q)) then SubtreeHeight(m, q) else m[q].height
  {
    PostOrderInForest(m, root);
    var s := PostOrder(m, root);
    NormalizePrefix(m, root, |s|);
    assert s[..|s|] == s;
    PostOrderIsSubtree(m, root, q);
  }

  /** The height pass changes no links, so it keeps a tree a tree. */
  lemma NormalizedKeepsShape(m: Forest, root: BubbleId)
    requires IsTree(m) && root in m
    ensures SameShape(m, Normalized(m, root)) && IsTree(Normalized(m, root))
  {
    SameShapeTree(m, Normalized(m, root));
  }

  /** The height pass, stopped after the first `k` bubbles of the walk. */
  ghost predicate PassedUpTo(m: Forest, s: seq<BubbleId>, k: nat)
    requires Acyclic(m) && k <= |s| && forall q | q in s :: q in m
  {
    forall q | q in m :: (NormalizeAlong(m, s[..k])[q].height ==
      if q in s[..k] then SubtreeHeight(m, q) else m[q].height)
  }

  lemma {:induction false} NormalizePrefix(m: Forest, a: BubbleId, k: nat)
    requires IsTree(m) && a in m && k <= |PostOrder(m, a)|
    requires forall q | q in PostOrder(m, a) :: q in m
    ensures PassedUpTo(m, PostOrder(m, a), k)
  {
    if k > 0 {
      NormalizePrefix(m, a, k - 1);
      NormalizeStep(m, a, k - 1);
    }
  }

  lemma NormalizeStep(m: Forest, a: BubbleId, k: nat)
    requires IsTree(m) && a in m && k < |PostOrder(m, a)|
    requires forall q | q in PostOrder(m, a) :: q in m
    requires PassedUpTo(m, PostOrder(m, a), k)
    ensures PassedUpTo(m, PostOrder(m, a), k + 1)
  {
    var s := PostOrder(m, a);
    var id := s[k];
    var r := NormalizeAlong(m, s[..k]);
    NormalizeStepAt(m, a, k);
    forall q | q in m
      ensures NormalizeAlong(m, s[..k + 1])[q].height ==
        if q in s[..k + 1] then SubtreeHeight(m, q) else m[q].height
    {
      NormalizeAlongSnoc(m, s, k, q);
    }
  }

  /** The pass over one more bubble is `normalizeHeight` at that bubble. */
  lemma NormalizeAlongNext(m: Forest, s: seq<BubbleId>, k: nat)
    requires Linked(m) && k < |s| && forall p | p in s :: p in m
    ensures forall p | p in s[..k] :: p in m
    ensures forall p | p in s[..k + 1] :: p in m
    ensures Linked(NormalizeAlong(m, s[..k])) && s[k] in NormalizeAlong(m, s[..k])
    ensures NormalizeAlong(m, s[..k + 1]) == NormalizeOne(NormalizeAlong(m, s[..k]), s[k])
  {
    assert s[..k + 1][..k] == s[..k];
    assert forall p | p in s[..k] :: p in s;
    assert forall p | p in s[..k + 1] :: p in s;
    var r := NormalizeAlong(m, s[..k]);
    forall id | id in r ensures forall c | c in r[id].children :: c in r {
      assert r[id].children == m[id].children;
    }
  }

  /** One more bubble of the pass changes that bubble's height alone. */
  lemma NormalizeAlongSnoc(m: Forest, s: seq<BubbleId>, k: nat, q: BubbleId)
    requires Linked(m) && k < |s| && q in m && forall p | p in s :: p in m
    ensures forall p | p in s[..k] :: p in m
    ensures NormalizeAlong(m, s[..k + 1])[q].height ==
      if q == s[k] then NodeHeight(NormalizeAlong(m, s[..k]), s[k]) else NormalizeAlong(m, s[..k])[q].height
    ensures q in s[..k + 1] <==> q in s[..k] || q == s[k]
  {
    assert s[..k + 1][..k] == s[..k];
    assert s[..k + 1] == s[..k] + [s[k]];
    assert forall p | p in s[..k] :: p in s;
  }

  /** The bubble the pass reaches next gets the height of its subtree: its
      children were all reached before, and it was not. */
  lemma NormalizeStepAt(m: Forest, a: BubbleId, k: nat)
    requires IsTree(m) && a in m && k < |PostOrder(m, a)|
    requires forall q | q in PostOrder(m, a) :: q in m
    requires PassedUpTo(m, PostOrder(m, a), k)
    ensures PostOrder(m, a)[k] !in PostOrder(m, a)[..k]
    ensures NodeHeight(NormalizeAlong(m, PostOrder(m, a)[..k]), PostOrder(m, a)[k]) ==
      SubtreeHeight(m, PostOrder(m, a)[k])
  {
    var s := PostOrder(m, a);
    var id := s[k];
    var r := NormalizeAlong(m, s[..k]);
    PostOrderNoDups(m, a);
    assert s[k] !in s[..k];
    PostOrderChildrenFirst(m, a, k);
    assert r[id].children == m[id].children;
    forall c | c in m[id].children ensures c in r && r[c].height == SubtreeHeight(m, c) {
      assert c in s[..k];
    }
    HeightFromChildren(m, r, id);
  }

  /** A bubble whose children already hold their subtree heights gets its
      own from `NodeHeight`. */
  lemma HeightFromChildren(m: Forest, r: Forest, id: BubbleId)
    requires Acyclic(m) && id in m && id in r && r[id].children == m[id].children
    requires forall c | c in m[id].children :: c in r && r[c].height == SubtreeHeight(m, c)
    ensures NodeHeight(r, id) == SubtreeHeight(m, id)
  {
    var ch := m[id].children;
    var hs := seq(|ch|, i requires 0 <= i < |ch| => r[ch[i]].height);
    forall i | 0 <= i < |ch| ensures hs[i] == ChildHeights(m, id)[i] {
      assert ch[i] in ch;
    }
    assert hs == ChildHeights(m, id);
  }

  // ---------------------------------------------------------------------
  // General facts about Detach in a tree

  /** In a tree, `b.Detach(c)` leaves a tree. */
  lemma DetachKeepsTree(m: Forest, b: BubbleId, c: BubbleId)
    requires IsTree(m) && b in m && c in m
    ensures IsTree(Detached(m, b, c))
  {
    DetachedInTree(m, b, c);
    if m[c].parent.Some? && Above(m, b, m[c].parent) {
      CutKeepsTree(m, c);
    }
  }

  // ---------------------------------------------------------------------
  // A new bubble

  /** A bubble allocated by `NewBubble` is linked to nothing, so adding it
      keeps a tree a tree and changes no bubble's ancestors. */
  lemma AddedKeepsTree(m: Forest, id: BubbleId, b: Bubble)
    requires IsTree(m) && id !in m && b.children == [] && b.parent.None? && b.assumptionPair.None?
    ensures IsTree(m[id := b])
  {
    var m' := m[id := b];
    var g := TheRank(m);
    var g' := Ranking(g.of[id := 0], g.top);
    forall q | q in m'
      ensures forall c | c in m'[q].children :: c in m' && c in g'.of && g'.of[c] < g'.of[q] && m'[c].parent == Some(q)
      ensures m'[q].parent.Some? ==>
        m'[q].parent.value in m' && m'[q].parent.value in g'.of &&
        g'.of[q] < g'.of[m'[q].parent.value] && q in m'[m'[q].parent.value].children
      ensures m'[q].assumptionPair.Some? ==> m'[q].assumptionPair.value in m'
      ensures q in g'.of && g'.of[q] <= g'.top && NoDups(m'[q].children)
    {
      if q != id {
        assert m'[q] == m[q];
        assert id !in m[q].children;
        assert m[q].parent.Some? ==> m[q].parent.value != id;
      }
    }
    assert Linked(m');
    assert RankedBy(m', g');
  }

  lemma AddedAbove(m: Forest, id: BubbleId, b: Bubble, a: BubbleId, x: BubbleId)
    requires IsTree(m) && id !in m && b.children == [] && b.parent.None? && b.assumptionPair.None?
    requires x in m
    ensures IsTree(m[id := b])
    ensures Above(m[id := b], a, Some(x)) == Above(m, a, Some(x))
  {
    AddedKeepsTree(m, id, b);
    forall y | y in m && Above(m, y, Some(x)) ensures y in m[id := b] && m[id := b][y].parent == m[y].parent {
    }
    AboveFrame(m, m[id := b], a, Some(x));
  }

  /** A parentless bubble is below no other bubble. */
  lemma ParentlessIsTop(m: Forest, a: BubbleId, x: BubbleId)
    requires Acyclic(m) && x in m && m[x].parent.None?
    ensures Above(m, a, Some(x)) == (a == x)
  {
  }

  /** A child is never above its parent. */
  lemma ChildNotAboveParent(m: Forest, c: BubbleId)
    requires Acyclic(m) && c in m && m[c].parent.Some?
    ensures !Above(m, c, m[c].parent)
  {
    var g := TheRank(m);
    if Above(m, c, m[c].parent) {
      AboveRank(m, g, c, m[c].parent.value);
    }
  }

  // ---------------------------------------------------------------------
  // The buffer loop of ReleaseInto

  /** The buffer loop `ReleaseInto` puts around a labelled bubble `b`: a new
      bubble `loop` of `b`'s kind and position, unlabelled, is inserted
      under `b`'s parent, `b` is detached from that parent and inserted
      into `loop`. */
  ghost function Wrapped(m: Forest, b: BubbleId, loop: BubbleId): (r: Forest)
    requires IsTree(m) && b in m && m[b].parent.Some? && loop !in m
    ensures IsTree(r) && r.Keys == m.Keys + {loop}
  {
    var p := m[b].parent.value;
    var m1 := m[loop := NewBubble(m[b].x, m[b].y, "", m[b].kind)];
    WrapFirst(m, b, loop);
    var m2 := Inserted(m1, p, loop);
    var m3 := Detached(m2, p, b);
    WrapSecond(m, b, loop);
    InsertKeepsTree(m3, loop, b);
    Inserted(m3, loop, b)
  }

  /** The first half of the wrap, to the insert of `loop`, keeps the tree,
      and `loop` sits exactly below `b`'s parent and above nothing else. */
  lemma WrapFirst(m: Forest, b: BubbleId, loop: BubbleId)
    requires IsTree(m) && b in m && m[b].parent.Some? && loop !in m
    ensures var m1 := m[loop := NewBubble(m[b].x, m[b].y, "", m[b].kind)];
      IsTree(m1) && m[b].parent.value in m1 && loop in m1 && m1[loop].parent.None? &&
      !Above(m1, loop, m[b].parent) && IsTree(Inserted(m1, m[b].parent.value, loop))
  {
    var p := m[b].parent.value;
    var bub := NewBubble(m[b].x, m[b].y, "", m[b].kind);
    var m1 := m[loop := bub];
    AddedAbove(m, loop, bub, loop, p);
    if Above(m, loop, Some(p)) {
      AboveRank(m, TheRank(m), loop, p);
    }
    InsertKeepsTree(m1, p, loop);
  }

  /** After inserting `loop` under `p`, the bubbles above `loop` are `loop`
      itself and those above `p`. */
  lemma WrapLoopAbove(m: Forest, b: BubbleId, loop: BubbleId, a: BubbleId)
    requires IsTree(m) && b in m && m[b].parent.Some? && loop !in m && a in m
    ensures var m1 := m[loop := NewBubble(m[b].x, m[b].y, "", m[b].kind)];
      IsTree(m1) && m[b].parent.value in m1 && loop in m1 &&
      IsTree(Inserted(m1, m[b].parent.value, loop)) && loop in Inserted(m1, m[b].parent.value, loop) &&
      Above(Inserted(m1, m[b].parent.value, loop), a, Some(loop)) == Above(m, a, m[b].parent)
  {
    var p := m[b].parent.value;
    var bub := NewBubble(m[b].x, m[b].y, "", m[b].kind);
    var m1 := m[loop := bub];
    WrapFirst(m, b, loop);
    InsertedAbove(m1, p, loop, a, loop);
    ParentlessIsTop(m1, a, loop);
    AddedAbove(m, loop, bub, a, p);
    assert Above(m1, loop, Some(loop));
  }

  /** The second half: `b` is cut from its parent, and is not above `loop`
      afterwards, so it may be inserted into `loop`. */
  lemma WrapSecond(m: Forest, b: BubbleId, loop: BubbleId)
    requires IsTree(m) && b in m && m[b].parent.Some? && loop !in m
    ensures var m1 := m[loop := NewBubble(m[b].x, m[b].y, "", m[b].kind)];
      var m2 := Inserted(m1, m[b].parent.value, loop);
      IsTree(m1) && m[b].parent.value in m1 && IsTree(m2) &&
      b in m2 && loop in m2 && m2[b].parent == m[b].parent &&
      Detached(m2, m[b].parent.value, b) == Cut(m2, m[b].parent.value, b) &&
      IsTree(Detached(m2, m[b].parent.value, b)) &&
      Detached(m2, m[b].parent.value, b)[b].parent.None? &&
      !Above(Detached(m2, m[b].parent.value, b), b, Some(loop))
  {
    var p := m[b].parent.value;
    var m1 := m[loop := NewBubble(m[b].x, m[b].y, "", m[b].kind)];
    WrapFirst(m, b, loop);
    var m2 := Inserted(m1, p, loop);
    assert m2[b].parent == Some(p);
    DetachedInTree(m2, p, b);
    assert Above(m2, p, Some(p));
    CutKeepsTree(m2, b);
    WrapLoopAbove(m, b, loop, b);
    ChildNotAboveParent(m, b);
    CutAbove(m2, b, b, loop);
  }

  /** After the wrap, `loop` has `b`'s kind and position, no label, hangs
      where `b` hung and holds `b` alone. */
  lemma WrappedLoop(m: Forest, b: BubbleId, loop: BubbleId)
    requires IsTree(m) && b in m && m[b].parent.Some? && loop !in m
    ensures var r := Wrapped(m, b, loop);
      r[loop].parent == m[b].parent && r[loop].children == [b] && r[b].parent == Some(loop) &&
      r[loop].kind == m[b].kind && r[loop].variable == "" && r[loop].x == m[b].x && r[loop].y == m[b].y
  {
    var p := m[b].parent.value;
    var m1 := m[loop := NewBubble(m[b].x, m[b].y, "", m[b].kind)];
    WrapSecond(m, b, loop);
    var m2 := Inserted(m1, p, loop);
    var m3 := Detached(m2, p, b);
    assert m2[loop].children == [] && m2[loop].parent == Some(p);
    assert m3[loop] == m2[loop];
    InsertedFacts(m3, loop, b);
  }

  /** No bubble but `b` (and the new `loop`) changes parent in the wrap. */
  lemma WrappedParents(m: Forest, b: BubbleId, loop: BubbleId, q: BubbleId)
    requires IsTree(m) && b in m && m[b].parent.Some? && loop !in m && q in m && q != b
    ensures Wrapped(m, b, loop)[q].parent == m[q].parent
  {
    var p := m[b].parent.value;
    var m1 := m[loop := NewBubble(m[b].x, m[b].y, "", m[b].kind)];
    WrapCutParents(m, b, loop, q);
    var m3 := Detached(Inserted(m1, p, loop), p, b);
    InsertedEntry(m3, loop, b, q);
  }

  /** Halfway through the wrap, `q` still has its parent and `loop` does
      not yet list `b`. */
  lemma WrapCutParents(m: Forest, b: BubbleId, loop: BubbleId, q: BubbleId)
    requires IsTree(m) && b in m && m[b].parent.Some? && loop !in m && q in m && q != b
    ensures var m1 := m[loop := NewBubble(m[b].x, m[b].y, "", m[b].kind)];
      var p := m[b].parent.value;
      p in m1 && loop in m1 && Acyclic(Inserted(m1, p, loop)) &&
      var m3 := Detached(Inserted(m1, p, loop), p, b);
      q in m3 && b in m3 && loop in m3 && loop != b &&
      m3[q].parent == m[q].parent && b !in m3[loop].children
  {
    var p := m[b].parent.value;
    var m1 := m[loop := NewBubble(m[b].x, m[b].y, "", m[b].kind)];
    WrapMid(m, b, loop);
    var m2 := Inserted(m1, p, loop);
    assert m2[q].parent == m[q].parent by {
      assert loop !in m1[p].children;
      InsertedEntry(m1, p, loop, q);
    }
    CutFrame(m2, b, q, loop);
  }

  /** Just before the cut: `loop` hangs under `b`'s parent, still childless,
      and detaching `b` there cuts that one edge. */
  lemma WrapMid(m: Forest, b: BubbleId, loop: BubbleId)
    requires IsTree(m) && b in m && m[b].parent.Some? && loop !in m
    ensures var m1 := m[loop := NewBubble(m[b].x, m[b].y, "", m[b].kind)];
      var p := m[b].parent.value;
      p in m1 && loop in m1 && p != loop && loop !in m1[p].children &&
      var m2 := Inserted(m1, p, loop);
      IsTree(m2) && b in m2 && loop in m2 && m2[b].parent == Some(p) && m2[loop].children == [] &&
      Detached(m2, p, b) == Cut(m2, p, b)
  {
    var p := m[b].parent.value;
    var m1 := m[loop := NewBubble(m[b].x, m[b].y, "", m[b].kind)];
    WrapSecond(m, b, loop);
    assert loop !in m1[p].children;
    InsertedEntry(m1, p, loop, loop);
  }

  /** Cutting `c` from its parent changes no other parent and leaves a
      childless bubble still does not list `c`. */
  lemma CutFrame(m: Forest, c: BubbleId, q: BubbleId, e: BubbleId)
    requires IsTree(m) && c in m && m[c].parent.Some? && q in m && q != c && e in m && m[e].children == []
    ensures m[c].parent.value in m && c in m[m[c].parent.value].children
    ensures Cut(m, m[c].parent.value, c)[q].parent == m[q].parent
    ensures c !in Cut(m, m[c].parent.value, c)[e].children
  {
    CutShrinks(m, c);
  }

  lemma WrappedAbove(m: Forest, b: BubbleId, loop: BubbleId, a: BubbleId)
    requires IsTree(m) && b in m && m[b].parent.Some? && loop !in m && a in m
    ensures loop in Wrapped(m, b, loop)
    ensures Above(Wrapped(m, b, loop), a, Some(loop)) == Above(m, a, m[b].parent)
  {
    var p := m[b].parent.value;
    var m1 := m[loop := NewBubble(m[b].x, m[b].y, "", m[b].kind)];
    var m2 := Inserted(m1, p, loop);
    WrapSecond(m, b, loop);
    var m3 := Detached(m2, p, b);
    WrapLoopAbove(m, b, loop, a);
    WrapLoopAbove(m, b, loop, b);
    ChildNotAboveParent(m, b);
    CutAbove(m2, b, a, loop);
    InsertedAbove(m3, loop, b, a, loop);
  }

  // ---------------------------------------------------------------------
  // ReleaseInto

  /** Where `ReleaseInto` puts a bubble dropped on `b`, and the forest once
      any buffer loop is made: an unlabelled `b` takes it; a labelled `b`
      passes it to its parent when that parent has `b`'s kind, and
      otherwise gets wrapped in a new loop `loop`, which takes it. */
  ghost function Retargeted(m: Forest, b: BubbleId, loop: BubbleId): (r: (Forest, BubbleId))
    requires IsTree(m) && b in m && loop !in m && (m[b].variable != "" ==> m[b].parent.Some?)
    ensures IsTree(r.0) && r.1 in r.0 && m.Keys <= r.0.Keys
  {
    if m[b].variable == "" then (m, b)
    else if m[m[b].parent.value].kind == m[b].kind then (m, m[b].parent.value)
    else (Wrapped(m, b, loop), loop)
  }

  /** The bubble whose ancestors decide whether the drop keeps a tree: `b`
      itself, or for a labelled `b` its parent, under which the grabbed
      bubble lands either way. */
  function Anchor(m: Forest, b: BubbleId): BubbleId
    requires Linked(m) && b in m && (m[b].variable != "" ==> m[b].parent.Some?)
    ensures Anchor(m, b) in m
  {
    if m[b].variable == "" then b else m[b].parent.value
  }

  /** `pg.ReleaseInto(b)` with `g` grabbed and `gp` recorded as its parent,
      before the final height pass: after retargeting, unless the target is
      already `gp` and `gp` still `g`'s parent, `gp` detaches `g` and the
      target inserts it. */
  ghost function Released(m: Forest, g: BubbleId, gp: Option<BubbleId>, b: BubbleId, loop: BubbleId): (r: Forest)
    requires IsTree(m) && g in m && b in m && loop !in m && (gp.Some? ==> gp.value in m)
    requires m[b].variable != "" ==> m[b].parent.Some?
    ensures r.Keys == Retargeted(m, b, loop).0.Keys
  {
    var (m1, t) := Retargeted(m, b, loop);
    if Some(t) != gp || gp != m1[g].parent then
      var m2 := if gp.Some? then Detached(m1, gp.value, g) else m1;
      Inserted(m2, t, g)
    else m1
  }

  /** The parent recorded at the grab, as the page keeps it: still the
      grabbed bubble's parent, or the bubble has left that parent since
      (the editor deletes a bubble shaken loose while it is dragged). */
  ghost predicate RecordedParent(m: Forest, g: BubbleId, gp: Option<BubbleId>)
    requires g in m
  {
    (gp.Some? ==> gp.value in m) && (gp == m[g].parent || m[g].parent.None?)
  }

  /** Shaking the grabbed bubble loose from its parent during the drag
      keeps the tree, and the parent recorded at the grab stays a recorded
      parent, so the drop still applies. */
  lemma ShakenLooseKeepsRecord(m: Forest, g: BubbleId, gp: Option<BubbleId>)
    requires IsTree(m) && g in m && m[g].parent.Some? && RecordedParent(m, g, gp)
    ensures m[g].parent.value in m && g in m[m[g].parent.value].children
    ensures var r := Cut(m, m[g].parent.value, g);
      IsTree(r) && r[g].parent.None? && RecordedParent(r, g, gp)
  {
    CutKeepsTree(m, g);
  }

  /** A drop whose anchor is not below the grabbed bubble keeps the tree,
      and afterwards the grabbed bubble hangs below the target, whether or
      not it still hangs below the parent recorded at the grab. */
  lemma ReleasedKeepsTree(m: Forest, g: BubbleId, gp: Option<BubbleId>, b: BubbleId, loop: BubbleId)
    requires IsTree(m) && g in m && b in m && loop !in m
    requires RecordedParent(m, g, gp)
    requires m[b].variable != "" ==> m[b].parent.Some?
    requires !Above(m, g, Some(Anchor(m, b)))
    ensures var r := Released(m, g, gp, b, loop);
      IsTree(r) && r[g].parent == Some(Retargeted(m, b, loop).1)
  {
    var (m1, t) := Retargeted(m, b, loop);
    RetargetedBelowAnchor(m, g, b, loop);
    if Some(t) != gp || gp != m1[g].parent {
      RetargetedParent(m, g, b, loop);
      if gp.Some? && m[g].parent.Some? {
        DetachedInTree(m1, gp.value, g);
        CutKeepsTree(m1, g);
        CutAbove(m1, g, g, t);
        InsertKeepsTree(Detached(m1, gp.value, g), t, g);
      } else if gp.Some? {
        DetachedInTree(m1, gp.value, g);
        InsertKeepsTree(m1, t, g);
      } else {
        InsertKeepsTree(m1, t, g);
      }
    }
  }

  /** The forest `ReleaseInto` leaves when `g`, recorded at the grab below
      `gp`, is dropped on `b`: the drop, then the height pass from the
      root. It is a tree. */
  ghost function AfterRelease(m: Forest, g: BubbleId, gp: Option<BubbleId>, b: BubbleId, loop: BubbleId, root: BubbleId): (r: Forest)
    requires IsTree(m) && g in m && b in m && loop !in m && root in m
    requires RecordedParent(m, g, gp)
    requires m[b].variable != "" ==> m[b].parent.Some?
    requires !Above(m, g, Some(Anchor(m, b)))
    ensures IsTree(r) && m.Keys <= r.Keys
  {
    ReleasedKeepsTree(m, g, gp, b, loop);
    var m1 := Released(m, g, gp, b, loop);
    NormalizedKeepsShape(m1, root);
    Normalized(m1, root)
  }

  /** The target is not below the grabbed bubble. */
  lemma RetargetedBelowAnchor(m: Forest, g: BubbleId, b: BubbleId, loop: BubbleId)
    requires IsTree(m) && g in m && b in m && loop !in m
    requires m[b].variable != "" ==> m[b].parent.Some?
    requires !Above(m, g, Some(Anchor(m, b)))
    ensures !Above(Retargeted(m, b, loop).0, g, Some(Retargeted(m, b, loop).1))
  {
    if m[b].variable != "" && m[m[b].parent.value].kind != m[b].kind {
      WrappedAbove(m, b, loop, g);
    }
  }

  /** Retargeting moves nobody but a wrapped `b`, which lands below the new
      loop, itself below `b`'s old parent. */
  lemma RetargetedParent(m: Forest, g: BubbleId, b: BubbleId, loop: BubbleId)
    requires IsTree(m) && g in m && b in m && loop !in m
    requires m[b].variable != "" ==> m[b].parent.Some?
    ensures var (m1, t) := Retargeted(m, b, loop);
      if m1 != m && g == b
      then m1[g].parent == Some(loop) && Above(m1, m[b].parent.value, Some(loop))
      else m1[g].parent == m[g].parent
  {
    if m[b].variable != "" && m[m[b].parent.value].kind != m[b].kind {
      WrappedLoop(m, b, loop);
      if g != b {
        WrappedParents(m, b, loop, g);
      } else {
        var m1 := Wrapped(m, b, loop);
        assert Above(m1, m[b].parent.value, Some(m[b].parent.value));
      }
    }
  }

  // ---------------------------------------------------------------------
  // CanPlaceAt

  /** What `CanPlaceAt` answers: refuse, allow, or allow after cancelling
      the grabbed bubble against the target. */
  datatype Verdict = Refuse | Allow | Cancel

  /** `CanPlaceAt` never renders a nil grabbed bubble: with nothing grabbed
      but a White `gp` still recorded, Go would crash on a Black target
      below `gp`. */
  predicate RendersGrabbed(m: Forest, g: Option<BubbleId>, gp: Option<BubbleId>, other: Option<BubbleId>)
    requires Acyclic(m) && (gp.Some? ==> gp.value in m) && (other.Some? ==> other.value in m)
  {
    g.None? && gp.Some? && m[gp.value].kind == White && Above(m, gp.value, other) ==>
      m[other.value].kind != Black
  }

  /** `pg.CanPlaceAt(other)` with `g` grabbed and `gp` recorded as its
      parent. The target `g` already hangs from is always allowed. Under a
      White `gp`, a White target inside `gp`'s region is allowed, and a
      Black one there cancels against `g` when `g` renders as the target's
      opposite. Under a Black `gp`, a Black target at or above `gp` is
      allowed. Everything else is refused. */
  function Placement(m: Forest, g: Option<BubbleId>, gp: Option<BubbleId>, other: Option<BubbleId>): (v: Verdict)
    requires Acyclic(m) && (g.Some? ==> g.value in m) && (gp.Some? ==> gp.value in m)
    requires other.Some? ==> other.value in m
    requires RendersGrabbed(m, g, gp, other)
  {
    if g.Some? && m[g.value].parent == other then Allow
    else if gp.None? then Refuse
    else if m[gp.value].kind == White then
      if Above(m, gp.value, other) && m[other.value].kind == White then Allow
      else if Above(m, gp.value, other) && m[other.value].kind == Black &&
              String(m, g.value) == Opposite(m, other.value) then Cancel
      else Refuse
    else if m[gp.value].kind == Black then
      if other.Some? && Above(m, other.value, gp) && m[other.value].kind == Black then Allow else Refuse
    else Refuse
  }

  /** `c.Parent.Detach(c)`: nothing for a parentless `c`. In a tree this
      cuts `c` from its parent. */
  ghost function Unhooked(m: Forest, c: BubbleId): (r: Forest)
    requires IsTree(m) && c in m
    ensures IsTree(r) && r.Keys == m.Keys && r[c].parent.None?
  {
    if m[c].parent.None? then m
    else
      CutFromParent(m, c);
      Detached(m, m[c].parent.value, c)
  }

  /** In a tree, a bubble's parent detaching it cuts it loose. */
  lemma CutFromParent(m: Forest, c: BubbleId)
    requires IsTree(m) && c in m && m[c].parent.Some?
    ensures m[c].parent.value in m
    ensures IsTree(Detached(m, m[c].parent.value, c)) && Detached(m, m[c].parent.value, c)[c].parent.None?
  {
    DetachedInTree(m, m[c].parent.value, c);
    assert Above(m, m[c].parent.value, m[c].parent);
    CutKeepsTree(m, c);
  }

  /** The cancellation: the target leaves its parent, then `gp` detaches
      the grabbed bubble. */
  ghost function Cancelled(m: Forest, g: BubbleId, gp: BubbleId, other: BubbleId): (r: Forest)
    requires IsTree(m) && g in m && gp in m && other in m
    ensures IsTree(r) && r.Keys == m.Keys
  {
    var m1 := Unhooked(m, other);
    DetachKeepsTree(m1, gp, g);
    Detached(m1, gp, g)
  }

  /** A cancellation pairs a Black target with a grabbed bubble that renders
      as the target would with its colour flipped to White: the two are
      dual formulas. */
  lemma CancelMeansDual(m: Forest, g: BubbleId, gp: BubbleId, other: BubbleId)
    requires Acyclic(m) && g in m && gp in m && other in m
    requires RendersGrabbed(m, Some(g), Some(gp), Some(other))
    requires Placement(m, Some(g), Some(gp), Some(other)) == Cancel
    ensures m[gp].kind == White && m[other].kind == Black && Above(m, gp, Some(other))
    ensures Acyclic(m[other := m[other].(kind := White)])
    ensures String(m, g) == String(m[other := m[other].(kind := White)], other)
  {
    OppositeIsRecolouredString(m, other);
  }

  /** In a tree, with `gp` the grabbed bubble's parent, a cancellation
      leaves a tree in which the grabbed bubble and the target both hang
      free and no other bubble changes parent. */
  lemma CancelledInTree(m: Forest, g: BubbleId, other: BubbleId, q: BubbleId)
    requires IsTree(m) && g in m && other in m && q in m && m[g].parent.Some?
    ensures var r := Cancelled(m, g, m[g].parent.value, other);
      r[g].parent.None? && r[other].parent.None? &&
      (q != g && q != other ==> r[q].parent == m[q].parent)
  {
    var gp := m[g].parent.value;
    var m1 := Unhooked(m, other);
    UnhookedParent(m, other, q);
    UnhookedParent(m, other, g);
    assert Above(m, gp, Some(gp));
    DetachedParent(m1, gp, g, q);
    DetachedParent(m1, gp, g, other);
    DetachedParent(m1, gp, g, g);
  }

  lemma UnhookedParent(m: Forest, c: BubbleId, q: BubbleId)
    requires IsTree(m) && c in m && q in m
    ensures q in Unhooked(m, c)
    ensures Unhooked(m, c)[q].parent == if q == c then None else m[q].parent
  {
    if m[c].parent.Some? {
      DetachedInTree(m, m[c].parent.value, c);
      assert Above(m, m[c].parent.value, m[c].parent);
      CutShrinks(m, c);
    }
  }

  /** In a tree, `b.Detach(c)` changes no parent but `c`'s, and clears that
      one exactly when `b` is at or above `c`'s parent. */
  lemma DetachedParent(m: Forest, b: BubbleId, c: BubbleId, q: BubbleId)
    requires IsTree(m) && b in m && c in m && q in m
    ensures q in Detached(m, b, c)
    ensures Detached(m, b, c)[q].parent ==
      if q == c && m[c].parent.Some? && Above(m, b, m[c].parent) then None else m[q].parent
  {
    DetachedInTree(m, b, c);
    if m[c].parent.Some? && Above(m, b, m[c].parent) {
      CutShrinks(m, c);
    }
  }

  /** Under a Black parent, no target `CanPlaceAt` allows lies in the
      grabbed bubble's own subtree: the allowed targets are its parent and
      the bubbles above it. */
  lemma BlackAllowsOnlyOutside(m: Forest, g: BubbleId, other: Option<BubbleId>)
    requires Acyclic(m) && g in m && m[g].parent.Some? && m[g].parent.value in m
    requires other.Some? ==> other.value in m
    requires m[m[g].parent.value].kind == Black
    requires Placement(m, Some(g), m[g].parent, other) == Allow
    ensures !Above(m, g, other)
  {
    ChildNotAboveParent(m, g);
    if other != m[g].parent && Above(m, g, other) {
      AboveTransitive(m, g, other.value, m[g].parent.value);
    }
  }

  /** Under a White parent nothing stops the grabbed bubble from being
      allowed into its own subtree: a White bubble `1` under a White `0`
      may be placed at its own White child `2`. Releasing it there would
      make `1` its own ancestor, which is why releasing is modelled only
      outside the grabbed subtree. */
  lemma WhiteAllowsOwnSubtree()
    ensures var m := WhiteChain();
      Acyclic(m) && Placement(m, Some(1), Some(0), Some(2)) == Allow && Above(m, 1, Some(2))
  {
    var m := WhiteChain();
    WhiteChainRanked();
    assert m[2].parent == Some(1) && m[1].parent == Some(0) && m[0].parent == None;
    assert Above(m, 1, Some(2)) by {
      assert Above(m, 1, Some(1));
    }
    assert Above(m, 0, Some(2)) by {
      assert Above(m, 0, Some(0));
      assert Above(m, 0, Some(1));
    }
  }

  /** White `0` holding White `1` holding White `2`. */
  function WhiteChain(): Forest
  {
    map[
      0 := Bubble(0, 0, 0, 0, 0, 0, White, "", [1], None, None),
      1 := Bubble(0, 0, 0, 0, 0, 0, White, "", [2], Some(0), None),
      2 := Bubble(0, 0, 0, 0, 0, 0, White, "", [], Some(1), None)]
  }

  lemma WhiteChainRanked()
    ensures Acyclic(WhiteChain())
  {
    var m := WhiteChain();
    var g := Ranking(map[0 := 2, 1 := 1, 2 := 0], 2);
    forall id | id in m
      ensures (forall c | c in m[id].children :: c in m && c in g.of && g.of[c] < g.of[id])
      ensures m[id].parent.Some? ==> m[id].parent.value in m && m[id].parent.value in g.of && g.of[id] < g.of[m[id].parent.value]
      ensures m[id].assumptionPair == None && id in g.of && g.of[id] <= g.top
    {
      assert id == 0 || id == 1 || id == 2;
    }
    RankedIsAcyclic(m, g);
  }
}
