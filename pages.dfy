/** The editing half of page/page.go: the `Page` that holds the bubble
    forest and the state of a drag in progress, and the operations that
    grab a bubble, decide whether it may be dropped on a target, and drop
    it. Drawing (`Draw`, `colorBubble`, the window and the font atlas) is
    not part of this model. */
module Pages {
  import opened Kinds
  import opened Tree
  import opened Traversal
  import opened Edits
  import opened Render
  import opened Bubbles
  import opened Placing

  /** Go's `Pair`: the two bubbles of an assumption being made. */
  datatype Pair = Pair(negative: Option<BubbleId>, positive: Option<BubbleId>)

  /** Go's `Page`. Its bubbles live in `arena`; every `*Bubble` field is a
      `BubbleId` there, nil being `None`. */
  class Page {
    const arena: Arena
    var root: BubbleId
    var grabbed: Option<BubbleId>
    var grabbedAtX: int
    var grabbedAtY: int
    var grabbedParent: Option<BubbleId>
    var highlighted: seq<BubbleId>
    var assumptionPair: Option<Pair>
    var mode: string

    /** The forest is a tree holding the root, and while a bubble is
        grabbed the parent recorded for it is still its parent, or the
        bubble has been taken out of it during the drag. */
    ghost predicate Valid()
      reads this, arena
    {
      arena.Valid() && IsTree(arena.nodes) && root in arena.nodes &&
      (grabbed.Some? ==> grabbed.value in arena.nodes && RecordedParent(arena.nodes, grabbed.value, grabbedParent)) &&
      (grabbedParent.Some? ==> grabbedParent.value in arena.nodes)
    }

    /** `NewPage`: a page holding only its root, a background bubble, in
        "Create" mode. */
    constructor ()
      ensures Valid() && fresh(arena)
      ensures arena.nodes == map[root := NewBubble(0, 0, "", Background)]
      ensures grabbed.None? && grabbedParent.None? && highlighted == [] && assumptionPair.None?
      ensures grabbedAtX == 0 && grabbedAtY == 0 && mode == "Create"
    {
      var a := new Arena();
      var id := a.Alloc(0, 0, "", Background);
      arena := a;
      root := id;
      grabbed := None;
      grabbedAtX := 0;
      grabbedAtY := 0;
      grabbedParent := None;
      highlighted := [];
      assumptionPair := None;
      mode := "Create";
      new;
      assert RankedBy(arena.nodes, Ranking(map[id := 0], 0));
    }

    /** `pg.IsHighlighted(b)`: whether `b` is one of the highlighted
        bubbles; never for nil. */
    method IsHighlighted(b: Option<BubbleId>) returns (r: bool)
      ensures r == (b.Some? && b.value in highlighted)
    {
      var i := 0;
      while i < |highlighted|
        invariant 0 <= i <= |highlighted|
        invariant b.None? || b.value !in highlighted[..i]
      {
        if b == Some(highlighted[i]) {
          return true;
        }
        i := i + 1;
      }
      assert highlighted[..i] == highlighted;
      return false;
    }

    /** `pg.InAssumptionMode()`: an assumption pair is set and both of its
        bubbles are. */
    predicate InAssumptionMode()
      reads this
    {
      assumptionPair.Some? && assumptionPair.value.positive.Some? && assumptionPair.value.negative.Some?
    }

    /** `pg.NormalizeHeight()`: the height pass below the root. */
    method NormalizeHeight()
      requires Valid()
      modifies arena
      ensures Valid() && arena.next == old(arena.next)
      ensures arena.nodes == Normalized(old(arena.nodes), root)
    {
      ghost var m0 := arena.nodes;
      NormalizeBelow(arena, root);
      NormalizedKeepsShape(m0, root);
    }

    /** `pg.Grab(bub, x, y)`: `bub` becomes the grabbed bubble, its parent
        is recorded, and it alone is highlighted. The forest is untouched. */
    method Grab(bub: BubbleId, x: int, y: int)
      requires Valid() && bub in arena.nodes
      modifies this`grabbed, this`grabbedParent, this`grabbedAtX, this`grabbedAtY, this`highlighted
      ensures Valid()
      ensures grabbed == Some(bub) && grabbedParent == arena.nodes[bub].parent && highlighted == [bub]
      ensures grabbedAtX == x && grabbedAtY == y
    {
      grabbed := Some(bub);
      grabbedParent := arena.nodes[bub].parent;
      grabbedAtX := x;
      grabbedAtY := y;
      highlighted := [bub];
    }

    /** `pg.CanPlaceAt(other)`: allowed unless `Placement` refuses; a
        cancellation also removes the grabbed bubble and the target from
        their parents and clears the drag. */
    method CanPlaceAt(other: Option<BubbleId>) returns (r: bool)
      requires Valid() && (other.Some? ==> other.value in arena.nodes)
      requires RendersGrabbed(arena.nodes, grabbed, grabbedParent, other)
      modifies this`grabbed, this`grabbedParent, this`highlighted, arena
      ensures Valid() && arena.next == old(arena.next)
      ensures r == (Placement(old(arena.nodes), old(grabbed), old(grabbedParent), other) != Refuse)
      ensures Placement(old(arena.nodes), old(grabbed), old(grabbedParent), other) == Cancel ==>
        old(grabbed).Some? && old(grabbedParent).Some? && other.Some? &&
        arena.nodes == Cancelled(old(arena.nodes), old(grabbed).value, old(grabbedParent).value, other.value) &&
        grabbed.None? && grabbedParent.None? && highlighted == []
      ensures Placement(old(arena.nodes), old(grabbed), old(grabbedParent), other) != Cancel ==>
        arena.nodes == old(arena.nodes) && grabbed == old(grabbed) &&
        grabbedParent == old(grabbedParent) && highlighted == old(highlighted)
    {
      var v := Decide(arena.nodes, grabbed, grabbedParent, other);
      if v == Cancel {
        CancelGrabbed(other.value);
      }
      return v != Refuse;
    }

    /** The cancellation branch of `CanPlaceAt`: the target leaves its
        parent, the recorded parent detaches the grabbed bubble, and the
        drag is cleared. */
    method CancelGrabbed(other: BubbleId)
      requires Valid() && grabbed.Some? && grabbedParent.Some? && other in arena.nodes
      modifies this`grabbed, this`grabbedParent, this`highlighted, arena
      ensures Valid() && arena.next == old(arena.next)
      ensures arena.nodes == Cancelled(old(arena.nodes), old(grabbed).value, old(grabbedParent).value, other)
      ensures grabbed.None? && grabbedParent.None? && highlighted == []
    {
      CancelIn(arena, grabbed.value, grabbedParent.value, other);
      SetDrag(None, None, []);
    }

    /** `pg.ReleaseInto(b)`. With a bubble grabbed, the drop target `b`
        must be given, a labelled `b` must have a parent, and the anchor of
        the drop must not lie below the grabbed bubble: Go checks none of
        these, and without the last the forest would gain a cycle. The
        forest becomes `AfterRelease`, with any buffer loop allocated at
        the next free id, and the grabbed bubble is then the only one
        highlighted. The drag ends either way, the parent recorded at the
        grab is kept, and the height pass runs last. */
    method ReleaseInto(b: Option<BubbleId>)
      requires Valid()
      requires grabbed.Some? ==> (b.Some? && b.value in arena.nodes &&
        (arena.nodes[b.value].variable != "" ==> arena.nodes[b.value].parent.Some?) &&
        !Above(arena.nodes, grabbed.value, Some(Anchor(arena.nodes, b.value))))
      modifies this`grabbed, this`grabbedParent, this`highlighted, arena
      ensures Valid() && grabbed.None? && grabbedParent == old(grabbedParent)
      ensures old(grabbed).None? ==>
        arena.nodes == Normalized(old(arena.nodes), root) && highlighted == old(highlighted) &&
        arena.next == old(arena.next)
      ensures old(grabbed).Some? ==>
        old(arena.next) !in old(arena.nodes) &&
        arena.nodes == AfterRelease(old(arena.nodes), old(grabbed).value, old(grabbedParent), b.value, old(arena.next), root) &&
        highlighted == [old(grabbed).value]
    {
      if grabbed.Some? {
        DropGrabbed(b.value);
      } else {
        grabbed := None;
      }
      NormalizeHeight();
    }

    /** `ReleaseInto` up to the height pass, with a bubble grabbed. */
    method DropGrabbed(b: BubbleId)
      requires Valid() && grabbed.Some? && b in arena.nodes
      requires arena.nodes[b].variable != "" ==> arena.nodes[b].parent.Some?
      requires !Above(arena.nodes, grabbed.value, Some(Anchor(arena.nodes, b)))
      modifies this`grabbed, this`grabbedParent, this`highlighted, arena
      ensures Valid() && grabbed.None? && grabbedParent == old(grabbedParent)
      ensures highlighted == [old(grabbed).value] && old(arena.next) !in old(arena.nodes)
      ensures arena.nodes == Released(old(arena.nodes), old(grabbed).value, old(grabbedParent), b, old(arena.next))
    {
      var g := grabbed.value;
      ReleaseIn(arena, g, grabbedParent, b);
      SetDrag(None, grabbedParent, [g]);
    }

    /** The drag state, set in one step. */
    method SetDrag(g: Option<BubbleId>, gp: Option<BubbleId>, hl: seq<BubbleId>)
      modifies this`grabbed, this`grabbedParent, this`highlighted
      ensures grabbed == g && grabbedParent == gp && highlighted == hl
    {
      grabbed, grabbedParent, highlighted := g, gp, hl;
    }
  }

  /** The forest edits of a cancellation, on the arena alone. */
  method CancelIn(a: Arena, g: BubbleId, gp: BubbleId, other: BubbleId)
    requires a.Valid() && IsTree(a.nodes) && g in a.nodes && gp in a.nodes && other in a.nodes
    modifies a
    ensures a.Valid() && a.next == old(a.next)
    ensures a.nodes == Cancelled(old(a.nodes), g, gp, other)
    ensures IsTree(a.nodes) && a.nodes.Keys == old(a.nodes).Keys
  {
    UnhookIn(a, other);
    a.Detach(Some(gp), g);
  }

  /** `other.parent.Detach(other)`: `other` leaves its parent, if it has one. */
  method UnhookIn(a: Arena, other: BubbleId)
    requires a.Valid() && IsTree(a.nodes) && other in a.nodes
    modifies a
    ensures a.Valid() && a.next == old(a.next)
    ensures a.nodes == Unhooked(old(a.nodes), other)
  {
    ghost var m := a.nodes;
    if a.nodes[other].parent.Some? {
      CutFromParent(m, other);
    }
    a.Detach(a.nodes[other].parent, other);
  }

  /** The tests of `CanPlaceAt`, in Go's order, on the forest as it is
      before any cancellation: the verdict `Placement` describes. */
  method Decide(m: Forest, g: Option<BubbleId>, gp: Option<BubbleId>, other: Option<BubbleId>) returns (v: Verdict)
    requires Acyclic(m) && (g.Some? ==> g.value in m) && (gp.Some? ==> gp.value in m)
    requires other.Some? ==> other.value in m
    requires RendersGrabbed(m, g, gp, other)
    ensures v == Placement(m, g, gp, other)
    ensures v == Cancel ==> g.Some? && gp.Some? && other.Some?
  {
    if g.Some? && m[g.value].parent == other {
      return Allow;
    }
    if gp.None? {
      return Refuse;
    }
    if m[gp.value].kind == White {
      var above := IsAbove(m, gp, other);
      if above {
        if m[other.value].kind == White {
          return Allow;
        }
        if m[other.value].kind == Black {
          if String(m, g.value) == Opposite(m, other.value) {
            return Cancel;
          }
        }
      }
      return Refuse;
    } else if m[gp.value].kind == Black {
      var above := IsAbove(m, other, gp);
      if above && m[other.value].kind == Black {
        return Allow;
      }
      return Refuse;
    }
    return Refuse;
  }

  /** The bubble moves of `ReleaseInto`, on the arena alone: retarget the
      drop, then, unless the grabbed bubble already hangs from the target
      it was grabbed under, detach it from the parent recorded at the grab
      (nothing, when it has left that parent) and insert it into the
      target. */
  method ReleaseIn(a: Arena, g: BubbleId, gp: Option<BubbleId>, b: BubbleId)
    requires a.Valid() && IsTree(a.nodes) && g in a.nodes && b in a.nodes
    requires RecordedParent(a.nodes, g, gp)
    requires a.nodes[b].variable != "" ==> a.nodes[b].parent.Some?
    requires !Above(a.nodes, g, Some(Anchor(a.nodes, b)))
    modifies a
    ensures a.Valid() && old(a.next) !in old(a.nodes)
    ensures IsTree(a.nodes) && old(a.nodes).Keys <= a.nodes.Keys
    ensures a.nodes == Released(old(a.nodes), g, gp, b, old(a.next))
  {
    ReleasedKeepsTree(a.nodes, g, gp, b, a.next);
    var t := Retarget(a, b);
    if Some(t) != gp || gp != a.nodes[g].parent {
      a.Detach(gp, g);
      var _ := a.Insert(Some(t), g);
    }
  }

  /** The first half of `ReleaseInto`: the bubble that takes the grabbed
      one, after any buffer loop is put around a labelled target. */
  method Retarget(a: Arena, b: BubbleId) returns (t: BubbleId)
    requires a.Valid() && IsTree(a.nodes) && b in a.nodes
    requires a.nodes[b].variable != "" ==> a.nodes[b].parent.Some?
    modifies a
    ensures a.Valid() && a.next >= old(a.next)
    ensures old(a.next) !in old(a.nodes)
    ensures (a.nodes, t) == Retargeted(old(a.nodes), b, old(a.next))
  {
    t := b;
    if a.nodes[b].variable != "" {
      var p := a.nodes[b].parent.value;
      if a.nodes[p].kind == a.nodes[b].kind {
        t := p;
      } else {
        ghost var m0 := a.nodes;
        var loop := a.Alloc(a.nodes[b].x, a.nodes[b].y, "", a.nodes[b].kind);
        WrapSecond(m0, b, loop);
        var _ := a.Insert(Some(p), loop);
        a.Detach(Some(p), b);
        var _ := a.Insert(Some(loop), b);
        t := loop;
      }
    }
  }

  /** `pg.NormalizeHeight()` on the arena alone: `normalizeHeight` at
      every bubble of the root's subtree, in `Iterate`'s order. */
  method NormalizeBelow(a: Arena, root: BubbleId)
    requires a.Valid() && Acyclic(a.nodes) && root in a.nodes
    modifies a
    ensures a.Valid() && a.next == old(a.next)
    ensures a.nodes == Normalized(old(a.nodes), root)
  {
    ghost var m0 := a.nodes;
    PostOrderInForest(m0, root);
    var order := PostOrder(a.nodes, root);
    var k := 0;
    while k < |order|
      invariant 0 <= k <= |order|
      invariant a.Valid() && a.next == old(a.next)
      invariant a.nodes == NormalizeAlong(m0, order[..k])
    {
      NormalizeAlongNext(m0, order, k);
      a.NormalizeNodeHeight(order[k]);
      k := k + 1;
    }
    assert order[..k] == order;
  }
}
