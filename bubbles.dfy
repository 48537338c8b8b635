/** The methods of page/bubble.go that change bubbles in place, on an arena
    that stands for the Go heap, and the read-only walks `IsAbove`, `bfs` and
    `CenterOfMass`. Each method is proved to perform the edit its
    specification function (module `Edits` and the functions below) describes. */
module Bubbles {
  import opened Kinds
  import opened Tree
  import opened Traversal
  import opened Edits

  // ---------------------------------------------------------------------
  // Go's integer division and the sums CenterOfMass takes

  /** Go's `/` on `int`: the quotient truncated toward zero (Dafny's `/`
      rounds toward negative infinity for a positive divisor). */
  function Quot(a: int, n: int): (q: int)
    requires n > 0
    ensures a >= 0 ==> n * q <= a < n * q + n
    ensures a < 0 ==> n * q - n < a <= n * q
  {
    if a >= 0 then a / n else -((-a) / n)
  }

  /** A truncated mean of values between `lo` and `hi` lies between them too. */
  lemma QuotBetween(a: int, n: int, lo: int, hi: int)
    requires n > 0 && n * lo <= a <= n * hi
    ensures lo <= Quot(a, n) <= hi
  {
    var q := Quot(a, n);
    if a >= 0 {
      assert n * lo < n * (q + 1);
      MulStrict(n, lo, q + 1);
      MulLe(n, q, hi);
    } else {
      assert n * (q - 1) < n * hi;
      MulStrict(n, q - 1, hi);
      MulLe(n, lo, q);
    }
  }

  lemma MulLeft(n: int, u: int, v: int)
    requires n > 0 && u <= v
    ensures n * u <= n * v
  {
    assert n * v - n * u == n * (v - u);
  }

  lemma MulSucc(n: int, v: int)
    ensures (n + 1) * v == n * v + v
  {
  }

  lemma MulStrict(n: int, u: int, v: int)
    requires n > 0 && n * u < n * v
    ensures u < v
  {
    if u >= v {
      MulLeft(n, v, u);
    }
  }

  lemma MulLe(n: int, u: int, v: int)
    requires n > 0 && n * u <= n * v
    ensures u <= v
  {
    if u > v {
      assert n * (v + 1) == n * v + n;
      MulLeft(n, v + 1, u);
    }
  }

  /** The sum of the X coordinates of the bubbles of `s`, repeats counted. */
  function SumX(m: Forest, s: seq<BubbleId>): int
    requires forall q | q in s :: q in m
  {
    if s == [] then 0 else SumX(m, s[..|s| - 1]) + m[s[|s| - 1]].x
  }

  function SumY(m: Forest, s: seq<BubbleId>): int
    requires forall q | q in s :: q in m
  {
    if s == [] then 0 else SumY(m, s[..|s| - 1]) + m[s[|s| - 1]].y
  }

  lemma {:induction false} SumBetween(m: Forest, s: seq<BubbleId>, lo: int, hi: int)
    requires forall q | q in s :: q in m && lo <= m[q].x <= hi
    ensures |s| * lo <= SumX(m, s) <= |s| * hi
  {
    if s != [] {
      var init := s[..|s| - 1];
      assert forall q | q in init :: q in s;
      SumBetween(m, init, lo, hi);
      MulSucc(|init|, lo);
      MulSucc(|init|, hi);
    }
  }

  lemma {:induction false} SumYBetween(m: Forest, s: seq<BubbleId>, lo: int, hi: int)
    requires forall q | q in s :: q in m && lo <= m[q].y <= hi
    ensures |s| * lo <= SumY(m, s) <= |s| * hi
  {
    if s != [] {
      var init := s[..|s| - 1];
      assert forall q | q in init :: q in s;
      SumYBetween(m, init, lo, hi);
      MulSucc(|init|, lo);
      MulSucc(|init|, hi);
    }
  }

  /** `s` without the occurrences of `x`, in order: the filter of `Siblings`
      (and of `CenterAroundChildren`, which skips the receiver). */
  function Without(s: seq<BubbleId>, x: BubbleId): (r: seq<BubbleId>)
    ensures |r| <= |s|
  {
    if s == [] then []
    else if s[0] == x then Without(s[1..], x) else [s[0]] + Without(s[1..], x)
  }

  /** `Without` drops every occurrence of `x` and keeps every other bubble
      as often as it occurs. */
  lemma {:induction false} WithoutMembers(s: seq<BubbleId>, x: BubbleId)
    ensures multiset(Without(s, x)) == multiset(s)[x := 0]
    ensures forall y :: y in Without(s, x) <==> y in s && y != x
  {
    if s != [] {
      WithoutMembers(s[1..], x);
      assert s == [s[0]] + s[1..];
      assert multiset(s) == multiset{s[0]} + multiset(s[1..]);
    }
    WithoutIn(s, x);
  }

  lemma WithoutIn(s: seq<BubbleId>, x: BubbleId)
    requires multiset(Without(s, x)) == multiset(s)[x := 0]
    ensures forall y :: y in Without(s, x) <==> y in s && y != x
  {
    var r := Without(s, x);
    forall y ensures y in r <==> y in s && y != x {
      assert y in r <==> y in multiset(r);
      assert y in s <==> y in multiset(s);
    }
  }

  /** `b.CenterOfMass()`: the truncated mean position of the bubbles
      `Iterate` visits from `id`, `id` included. */
  function CenterOfMassOf(m: Forest, id: BubbleId): (r: (int, int))
    requires Acyclic(m) && id in m
    ensures m[id].children == [] ==> r == (m[id].x, m[id].y)
  {
    PostOrderInForest(m, id);
    var s := PostOrder(m, id);
    assert m[id].children == [] ==> s == [id] by {
      if m[id].children == [] {
        assert ChildPostOrders(m, id) == [];
      }
    }
    assert m[id].children == [] ==> SumX(m, s) == m[id].x && SumY(m, s) == m[id].y by {
      if m[id].children == [] {
        assert s[..|s| - 1] == [];
      }
    }
    (Quot(SumX(m, s), |s|), Quot(SumY(m, s), |s|))
  }

  /** The centre of mass of a subtree lies in the smallest box that holds all
      of the subtree's bubbles. */
  lemma CenterOfMassInside(m: Forest, id: BubbleId, lox: int, hix: int, loy: int, hiy: int)
    requires Acyclic(m) && id in m
    requires forall q | q in PostOrder(m, id) :: q in m && lox <= m[q].x <= hix && loy <= m[q].y <= hiy
    ensures lox <= CenterOfMassOf(m, id).0 <= hix
    ensures loy <= CenterOfMassOf(m, id).1 <= hiy
  {
    var s := PostOrder(m, id);
    SumBetween(m, s, lox, hix);
    SumYBetween(m, s, loy, hiy);
    QuotBetween(SumX(m, s), |s|, lox, hix);
    QuotBetween(SumY(m, s), |s|, loy, hiy);
  }

  /** The bubbles `CenterAroundChildren` averages: those `Iterate` visits from
      `id` other than `id` itself. */
  function Descendants(m: Forest, id: BubbleId): (r: seq<BubbleId>)
    requires Acyclic(m) && id in m
    ensures forall q | q in r :: q in m
  {
    PostOrderInForest(m, id);
    WithoutMembers(PostOrder(m, id), id);
    Without(PostOrder(m, id), id)
  }

  /** A bubble with children has a descendant, so `CenterAroundChildren`
      divides by a positive count. */
  lemma DescendantsOfParent(m: Forest, id: BubbleId)
    requires Acyclic(m) && id in m && m[id].children != []
    ensures |Descendants(m, id)| > 0
  {
    PostOrderChild(m, id, 0);
    var c := m[id].children[0];
    PostOrderChildWithin(m, id, 0);
    assert c in PostOrder(m, c);
    assert c != id;
    WithoutMembers(PostOrder(m, id), id);
    assert c in Descendants(m, id);
  }

  /** Where `CenterAroundChildren` puts a bubble with children. */
  function ChildrenCenter(m: Forest, id: BubbleId): (int, int)
    requires Acyclic(m) && id in m && m[id].children != []
  {
    DescendantsOfParent(m, id);
    var s := Descendants(m, id);
    (Quot(SumX(m, s), |s|), Quot(SumY(m, s), |s|))
  }

  /** A bubble centred around its children lands in the smallest box that
      holds all of its descendants. */
  lemma ChildrenCenterInside(m: Forest, id: BubbleId, lox: int, hix: int, loy: int, hiy: int)
    requires Acyclic(m) && id in m && m[id].children != []
    requires forall q | q in Descendants(m, id) :: lox <= m[q].x <= hix && loy <= m[q].y <= hiy
    ensures lox <= ChildrenCenter(m, id).0 <= hix
    ensures loy <= ChildrenCenter(m, id).1 <= hiy
  {
    DescendantsOfParent(m, id);
    var s := Descendants(m, id);
    SumBetween(m, s, lox, hix);
    SumYBetween(m, s, loy, hiy);
    QuotBetween(SumX(m, s), |s|, lox, hix);
    QuotBetween(SumY(m, s), |s|, loy, hiy);
  }

  // ---------------------------------------------------------------------
  // MoveBy

  /** `bub.X -= dx; bub.Y -= dy` at every bubble of `order`, repeats
      repeated. */
  function ShiftAlong(m: Forest, order: seq<BubbleId>, dx: int, dy: int): (r: Forest)
    requires forall q | q in order :: q in m
    ensures SameShape(m, r)
    ensures forall q | q in m :: r[q] == m[q].(x := r[q].x, y := r[q].y)
  {
    if order == [] then m
    else
      ShiftOne(ShiftAlong(m, order[..|order| - 1], dx, dy), order[|order| - 1], dx, dy)
  }

  /** The `Iterate` callback of `MoveBy` on one bubble. */
  function ShiftOne(m: Forest, q: BubbleId, dx: int, dy: int): Forest
    requires q in m
  {
    m[q := m[q].(x := m[q].x - dx, y := m[q].y - dy)]
  }

  /** Walking a sequence without repeats moves each bubble on it once by
      `(dx, dy)` and no other bubble. */
  lemma {:induction false} ShiftAlongOnce(m: Forest, order: seq<BubbleId>, dx: int, dy: int)
    requires (forall q | q in order :: q in m) && NoDups(order)
    ensures forall q | q in m ::
      ShiftAlong(m, order, dx, dy)[q] == (if q in order then m[q].(x := m[q].x - dx, y := m[q].y - dy) else m[q])
  {
    if order != [] {
      var init := order[..|order| - 1];
      assert order == init + [order[|order| - 1]];
      assert NoDups(init);
      ShiftAlongOnce(m, init, dx, dy);
    }
  }

  /** The ancestors `MoveBy` recentres: it climbs from `a` while the bubble
      it reaches exists and has a nonzero `Depth`. */
  function Chain(m: Forest, a: Option<BubbleId>): (r: seq<BubbleId>)
    requires Acyclic(m) && (a.Some? ==> a.value in m)
    ensures forall q | q in r :: q in m
    decreases if a.Some? then TheRank(m).top + 1 - TheRank(m).of[a.value] else 0
  {
    if a.None? || m[a.value].depth == 0 then []
    else
      var rest := Chain(m, m[a.value].parent);
      [a.value] + rest
  }

  /** Bubble `q` moved to the centre of mass of its subtree. */
  function Recentred(m: Forest, q: BubbleId): (r: Forest)
    requires Acyclic(m) && q in m
    ensures SameShape(m, r) && Acyclic(r)
    ensures forall p | p in m :: r[p] == m[p].(x := r[p].x, y := r[p].y)
    ensures forall p | p in m && p != q :: r[p] == m[p]
  {
    var c := CenterOfMassOf(m, q);
    PlacedAt(m, q, c.0, c.1)
  }

  /** Bubble `q` moved to `(x, y)`. */
  function PlacedAt(m: Forest, q: BubbleId, x: int, y: int): (r: Forest)
    requires Acyclic(m) && q in m
    ensures SameShape(m, r) && Acyclic(r)
    ensures forall p | p in m :: r[p] == m[p].(x := r[p].x, y := r[p].y)
    ensures forall p | p in m && p != q :: r[p] == m[p]
  {
    PlacedRanked(m, q, x, y);
    m[q := m[q].(x := x, y := y)]
  }

  lemma PlacedRanked(m: Forest, q: BubbleId, x: int, y: int)
    requires Acyclic(m) && q in m
    ensures SameShape(m, m[q := m[q].(x := x, y := y)]) && Acyclic(m[q := m[q].(x := x, y := y)])
  {
    var r := m[q := m[q].(x := x, y := y)];
    assert SameShape(m, r);
    SameShapeRanked(m, r, TheRank(m));
  }

  /** Each bubble of `s` in turn moved to the centre of mass of its subtree
      as it stands at that moment. */
  function RecenterAlong(m: Forest, s: seq<BubbleId>): (r: Forest)
    requires Acyclic(m) && forall q | q in s :: q in m
    ensures SameShape(m, r) && Acyclic(r)
    ensures forall q | q in m :: r[q] == m[q].(x := r[q].x, y := r[q].y)
  {
    if s == [] then m
    else
      var r := RecenterAlong(m, s[..|s| - 1]);
      Recentred(r, s[|s| - 1])
  }

  /** The loop of `ShiftSubtree`, on a copy of the arena's map. */
  method Shifted(m: Forest, order: seq<BubbleId>, dx: int, dy: int) returns (r: Forest)
    requires forall q | q in order :: q in m
    ensures r == ShiftAlong(m, order, dx, dy)
  {
    r := m;
    var k := 0;
    while k < |order|
      invariant 0 <= k <= |order|
      invariant r == ShiftAlong(m, order[..k], dx, dy)
    {
      ShiftAlongStep(m, order, k, dx, dy);
      r := ShiftOne(r, order[k], dx, dy);
      k := k + 1;
    }
    assert order[..k] == order;
  }

  /** The loop of `RecenterAncestors`, on a copy of the arena's map. */
  method Recentered(m: Forest, ancestor: Option<BubbleId>) returns (r: Forest)
    requires Acyclic(m) && (ancestor.Some? ==> ancestor.value in m)
    ensures r == RecenterAlong(m, Chain(m, ancestor))
  {
    r := m;
    ghost var done: seq<BubbleId> := [];
    var at := ancestor;
    while at.Some? && r[at.value].depth != 0
      invariant at.Some? ==> at.value in m && at.value in r && r[at.value].depth == m[at.value].depth
      invariant Chain(m, ancestor) == done + Chain(m, at)
      invariant r == RecenterAlong(m, done)
      decreases |Chain(m, at)|
    {
      var a := at.value;
      ChainStep(m, a);
      SnocAssoc(done, a, Chain(m, m[a].parent));
      var x, y := CenterOfMass(r, a);
      RecenterAlongStep(m, done, a, x, y);
      r := r[a := r[a].(x := x, y := y)];
      done := done + [a];
      at := r[a].parent;
    }
    ChainEnd(m, at);
    assert done + Chain(m, at) == done;
  }

  /** Every bubble of the chain is an ancestor of its start, of nonzero depth. */
  lemma {:induction false} ChainAbove(m: Forest, a: Option<BubbleId>, q: BubbleId)
    requires Acyclic(m) && (a.Some? ==> a.value in m) && q in Chain(m, a)
    ensures Above(m, q, a) && m[q].depth != 0
    decreases if a.Some? then TheRank(m).top + 1 - TheRank(m).of[a.value] else 0
  {
    if q != a.value {
      ChainAbove(m, m[a.value].parent, q);
    }
  }

  /** A bubble of nonzero depth heads the chain that starts at it. */
  lemma ChainStep(m: Forest, a: BubbleId)
    requires Acyclic(m) && a in m && m[a].depth != 0
    ensures Chain(m, Some(a)) == [a] + Chain(m, m[a].parent)
  {
  }

  /** The chain stops at nil or at a bubble of depth 0. */
  lemma ChainEnd(m: Forest, a: Option<BubbleId>)
    requires Acyclic(m) && (a.Some? ==> a.value in m && m[a.value].depth == 0)
    ensures Chain(m, a) == []
  {
  }

  lemma ShiftAlongStep(m: Forest, order: seq<BubbleId>, k: nat, dx: int, dy: int)
    requires k < |order| && forall q | q in order :: q in m
    ensures order[k] in ShiftAlong(m, order[..k], dx, dy)
    ensures ShiftAlong(m, order[..k + 1], dx, dy) == ShiftOne(ShiftAlong(m, order[..k], dx, dy), order[k], dx, dy)
  {
    assert order[..k + 1][..k] == order[..k];
  }

  /** One more step of the ancestor loop: `a` is next in the chain and the
      state so far differs from the start only in coordinates. */
  lemma RecenterAlongStep(m: Forest, done: seq<BubbleId>, a: BubbleId, x: int, y: int)
    requires Acyclic(m) && a in m && forall q | q in done :: q in m
    requires (x, y) == CenterOfMassOf(RecenterAlong(m, done), a)
    ensures var r := RecenterAlong(m, done); RecenterAlong(m, done + [a]) == r[a := r[a].(x := x, y := y)]
  {
    assert (done + [a])[..|done|] == done;
  }

  lemma {:induction false} RecenterAlongFrame(m: Forest, s: seq<BubbleId>, q: BubbleId)
    requires Acyclic(m) && (forall p | p in s :: p in m) && q in m && q !in s
    ensures RecenterAlong(m, s)[q] == m[q]
  {
    if s != [] {
      var init := s[..|s| - 1];
      assert forall p | p in init :: p in s;
      RecenterAlongFrame(m, init, q);
    }
  }

  /** `MoveBy` up to its ancestor loop: the subtree walk and the velocity. */
  function StartMove(m: Forest, b: BubbleId, dx: int, dy: int): (r: Forest)
    requires Acyclic(m) && b in m
    ensures SameShape(m, r) && Acyclic(r)
  {
    PostOrderInForest(m, b);
    var m1 := ShiftAlong(m, PostOrder(m, b), dx, dy);
    var m2 := m1[b := m1[b].(vx := -dx, vy := -dy)];
    assert SameShape(m, m2);
    SameShapeRanked(m, m2, TheRank(m));
    m2
  }

  /** The forest after `b.MoveBy(dx, dy)`: the subtree walk and the
      velocity, then the ancestor loop. */
  function MovedBy(m: Forest, b: BubbleId, dx: int, dy: int): (r: Forest)
    requires Acyclic(m) && b in m
    ensures SameShape(m, r)
  {
    var m2 := StartMove(m, b, dx, dy);
    RecenterAlong(m2, Chain(m2, m2[b].parent))
  }

  /** The state of `MoveBy` before the ancestor loop, and the chain that
      loop walks. */
  lemma StartMoveUnfold(m: Forest, b: BubbleId, dx: int, dy: int) returns (order: seq<BubbleId>)
    requires Acyclic(m) && b in m
    ensures order == PostOrder(m, b) && forall q | q in order :: q in m
    ensures var m1 := ShiftAlong(m, order, dx, dy); StartMove(m, b, dx, dy) == m1[b := m1[b].(vx := -dx, vy := -dy)]
  {
    PostOrderInForest(m, b);
    order := PostOrder(m, b);
  }

  /** `MoveBy` changes only coordinates and, on `b` alone, the velocity: the
      links, depths, heights, kinds and labels of every bubble stay. */
  lemma MovedByFrame(m: Forest, b: BubbleId, dx: int, dy: int, q: BubbleId)
    requires Acyclic(m) && b in m && q in m
    ensures var r := MovedBy(m, b, dx, dy);
      r[q] == m[q].(x := r[q].x, y := r[q].y, vx := r[q].vx, vy := r[q].vy) &&
      (q == b ==> r[q].vx == -dx && r[q].vy == -dy) &&
      (q != b ==> r[q].vx == m[q].vx && r[q].vy == m[q].vy)
  {
    var order := StartMoveUnfold(m, b, dx, dy);
    var m2 := StartMove(m, b, dx, dy);
    var chain := Chain(m2, m2[b].parent);
    if q !in chain {
      RecenterAlongFrame(m2, chain, q);
    }
  }

  /** In a tree, the subtree walk of `MoveBy` moves exactly the bubbles of
      `b`'s subtree, once each. */
  lemma StartMoveInTree(m: Forest, b: BubbleId, dx: int, dy: int, q: BubbleId)
    requires IsTree(m) && b in m && q in m
    ensures StartMove(m, b, dx, dy)[q].x == (if Above(m, b, Some(q)) then m[q].x - dx else m[q].x)
    ensures StartMove(m, b, dx, dy)[q].y == (if Above(m, b, Some(q)) then m[q].y - dy else m[q].y)
  {
    var order := StartMoveUnfold(m, b, dx, dy);
    PostOrderNoDups(m, b);
    ShiftAlongOnce(m, order, dx, dy);
    PostOrderIsSubtree(m, b, q);
  }

  /** In a tree, a bubble that is not an ancestor of `b`'s parent keeps its
      place if it lies outside `b`'s subtree and moves by `(-dx, -dy)` if it
      lies inside. */
  lemma MovedByInTree(m: Forest, b: BubbleId, dx: int, dy: int, q: BubbleId)
    requires IsTree(m) && b in m && q in m && !Above(m, q, m[b].parent)
    ensures MovedBy(m, b, dx, dy)[q].x == (if Above(m, b, Some(q)) then m[q].x - dx else m[q].x)
    ensures MovedBy(m, b, dx, dy)[q].y == (if Above(m, b, Some(q)) then m[q].y - dy else m[q].y)
  {
    StartMoveInTree(m, b, dx, dy, q);
    var m2 := StartMove(m, b, dx, dy);
    var chain := Chain(m2, m2[b].parent);
    if q in chain {
      ChainAbove(m2, m2[b].parent, q);
      SameShapeAbove(m, m2, q, m[b].parent);
    } else {
      RecenterAlongFrame(m2, chain, q);
    }
  }



  // ---------------------------------------------------------------------
  // Bubbles

  /** The Go heap of bubbles: `nodes` maps each allocated bubble to its
      fields, `next` is the next unused id. Lists of children never hold a
      bubble twice: `Insert` refuses a repeat and `Detach` removes one. */
  class Arena {
    var nodes: Forest
    var next: BubbleId

    ghost predicate Valid()
      reads this
    {
      Linked(nodes) &&
      (forall id | id in nodes :: id < next) &&
      (forall id | id in nodes :: NoDups(nodes[id].children))
    }

    constructor ()
      ensures Valid() && nodes == map[] && next == 0
    {
      nodes := map[];
      next := 0;
    }

    /** `newBubble(x, y, v, k)`: a fresh bubble with every other field zero
        or nil. */
    method Alloc(x: int, y: int, v: string, k: Kind) returns (id: BubbleId)
      requires Valid()
      modifies this
      ensures Valid() && id !in old(nodes) && id == old(next) && next == old(next) + 1
      ensures nodes == old(nodes)[id := NewBubble(x, y, v, k)]
    {
      id := next;
      nodes := nodes[id := NewBubble(x, y, v, k)];
      next := next + 1;
    }

    /** `b.Insert(c)`: a nil receiver returns nil; a child already listed is
        returned as is; otherwise `c` is appended and linked to `b`. */
    method Insert(b: Option<BubbleId>, c: BubbleId) returns (r: Option<BubbleId>)
      requires Valid() && c in nodes && (b.Some? ==> b.value in nodes)
      modifies this
      ensures Valid() && next == old(next)
      ensures b.None? ==> r.None? && nodes == old(nodes)
      ensures b.Some? ==> r == Some(c) && nodes == Inserted(old(nodes), b.value, c)
    {
      if b.None? {
        return None;
      }
      var p := b.value;
      var listed := Listed(nodes[p].children, c);
      if listed {
        return Some(c);
      }
      var m1 := nodes[c := nodes[c].(depth := nodes[p].depth + 1, parent := Some(p))];
      var m2 := m1[p := m1[p].(children := m1[p].children + [c])];
      InsertedValid(nodes, next, p, c);
      assert m2 == Inserted(nodes, p, c);
      nodes := m2;
      r := Some(c);
    }

    /** The callback `Detach` passes to `Iterate`, at bubble `p`: the first
        occurrence of `c` in `p`'s children is fast-deleted and `c` loses
        its parent; the `return` leaves only the callback. */
    method DetachFrom(p: BubbleId, c: BubbleId)
      requires Valid() && p in nodes && c in nodes
      modifies this
      ensures Valid() && next == old(next)
      ensures nodes == DetachOne(old(nodes), p, c)
    {
      var ch := nodes[p].children;
      var i := 0;
      while i < |ch|
        invariant 0 <= i <= |ch|
        invariant c !in ch[..i]
      {
        if ch[i] == c {
          var last := |ch| - 1;
          ghost var m0 := nodes;
          assert IndexOf(ch, c) == i;
          ch := ch[last := ch[i]][i := ch[last]];
          ch := ch[..last];
          assert ch == RemoveSwap(m0[p].children, i);
          nodes := nodes[p := nodes[p].(children := ch)];
          nodes := nodes[c := nodes[c].(parent := None)];
          assert nodes == DetachOne(m0, p, c);
          DetachOneValid(m0, next, p, c);
          return;
        }
        i := i + 1;
      }
      assert ch[..i] == ch;
    }

    /** `b.Detach(c)`: the callback at every bubble of `b`'s subtree, in the
        order `Iterate` visits them; a nil receiver does nothing. */
    method Detach(b: Option<BubbleId>, c: BubbleId)
      requires Valid() && Acyclic(nodes) && c in nodes && (b.Some? ==> b.value in nodes)
      modifies this
      ensures Valid() && next == old(next)
      ensures nodes == if b.None? then old(nodes) else Detached(old(nodes), b.value, c)
    {
      if b.None? {
        return;
      }
      PostOrderInForest(nodes, b.value);
      var order := PostOrder(nodes, b.value);
      ghost var m0 := nodes;
      var k := 0;
      while k < |order|
        invariant 0 <= k <= |order|
        invariant Valid() && next == old(next)
        invariant forall q | q in order :: q in m0
        invariant nodes == DetachAlong(m0, order[..k], c)
      {
        DetachAlongStep(m0, order, k, c);
        DetachFrom(order[k], c);
        k := k + 1;
      }
      assert order[..k] == order;
    }

    /** `b.normalizeHeight()`: 0 for a leaf, else one more than the largest
        `Height` among the children. */
    method NormalizeNodeHeight(id: BubbleId)
      requires Valid() && id in nodes
      modifies this
      ensures Valid() && next == old(next)
      ensures nodes == old(nodes)[id := old(nodes)[id].(height := NodeHeight(old(nodes), id))]
    {
      var h := HeightOf(nodes, id);
      var r := nodes[id := nodes[id].(height := h)];
      assert SameShape(nodes, r);
      SameShapeValid(nodes, r, next);
      nodes := r;
    }

    /** `b.CenterAroundChildren()`. Go divides by the number of descendants,
        so a bubble without children is outside its domain. */
    method CenterAroundChildren(b: BubbleId)
      requires Valid() && Acyclic(nodes) && b in nodes && nodes[b].children != []
      modifies this
      ensures Valid() && next == old(next)
      ensures nodes == old(nodes)[b := old(nodes)[b].(x := ChildrenCenter(old(nodes), b).0,
                                                      y := ChildrenCenter(old(nodes), b).1)]
    {
      var m := nodes;
      PostOrderInForest(m, b);
      var x, y, n := SumExcept(m, PostOrder(m, b), b);
      DescendantsOfParent(m, b);
      x := Quot(x, n);
      y := Quot(y, n);
      var r := m[b := m[b].(x := x, y := y)];
      assert SameShape(m, r);
      SameShapeValid(m, r, next);
      nodes := r;
    }

    /** `b.MoveBy(dx, dy)`. */
    method MoveBy(b: BubbleId, dx: int, dy: int)
      requires Valid() && Acyclic(nodes) && b in nodes
      modifies this
      ensures Valid() && next == old(next)
      ensures nodes == MovedBy(old(nodes), b, dx, dy)
    {
      ghost var m0 := nodes;
      PostOrderInForest(nodes, b);
      ShiftSubtree(PostOrder(nodes, b), dx, dy);
      nodes := nodes[b := nodes[b].(vx := -dx, vy := -dy)];
      assert SameShape(m0, nodes);
      SameShapeValid(m0, nodes, next);
      SameShapeRanked(m0, nodes, TheRank(m0));
      RecenterAncestors(nodes[b].parent);
    }

    /** The `Iterate` callback of `MoveBy`, applied along the walk `order`. */
    method ShiftSubtree(order: seq<BubbleId>, dx: int, dy: int)
      requires Valid() && forall q | q in order :: q in nodes
      modifies this
      ensures Valid() && next == old(next)
      ensures nodes == ShiftAlong(old(nodes), order, dx, dy)
    {
      var r := Shifted(nodes, order, dx, dy);
      SameShapeValid(nodes, r, next);
      nodes := r;
    }

    /** The ancestor loop of `MoveBy`: from `ancestor` up to the first bubble
        of depth 0, each bubble moves to its centre of mass. */
    method RecenterAncestors(ancestor: Option<BubbleId>)
      requires Valid() && Acyclic(nodes) && (ancestor.Some? ==> ancestor.value in nodes)
      modifies this
      ensures Valid() && next == old(next)
      ensures nodes == RecenterAlong(old(nodes), Chain(old(nodes), ancestor))
    {
      var r := Recentered(nodes, ancestor);
      SameShapeValid(nodes, r, next);
      nodes := r;
    }
  }

  /** The loop of `normalizeHeight`: 0 for a leaf, else one more than the
      largest height among the children. */
  method HeightOf(m: Forest, id: BubbleId) returns (h: int)
    requires id in m && forall c | c in m[id].children :: c in m
    ensures h == NodeHeight(m, id)
  {
    var ch := m[id].children;
    if |ch| == 0 {
      return 0;
    }
    ghost var hs := seq(|ch|, j requires 0 <= j < |ch| => m[ch[j]].height);
    var height := 0;
    var i := 0;
    while i < |ch|
      invariant 0 <= i <= |ch|
      invariant MaxFrom(height, hs[i..]) == MaxFrom(0, hs)
    {
      assert hs[i..][0] == m[ch[i]].height && hs[i..][1..] == hs[i + 1..];
      if m[ch[i]].height > height {
        height := m[ch[i]].height;
      }
      i := i + 1;
    }
    return height + 1;
  }

  /** Whether `c` occurs in `s`, by a scan from the front. */
  method Listed(s: seq<BubbleId>, c: BubbleId) returns (found: bool)
    ensures found == (c in s)
  {
    var i := 0;
    while i < |s|
      invariant 0 <= i <= |s|
      invariant c !in s[..i]
    {
      if s[i] == c {
        return true;
      }
      i := i + 1;
    }
    assert s[..i] == s;
    return false;
  }

  /** An insert keeps every link inside the arena and every list free of
      repeats. */
  lemma InsertedValid(m: Forest, next: BubbleId, p: BubbleId, c: BubbleId)
    requires Linked(m) && (forall id | id in m :: id < next && NoDups(m[id].children))
    requires p in m && c in m
    ensures Linked(Inserted(m, p, c))
    ensures forall id | id in m :: id < next && NoDups(Inserted(m, p, c)[id].children)
  {
    var r := Inserted(m, p, c);
    InsertedLinked(m, p, c);
    if c !in m[p].children {
      forall id | id in m ensures NoDups(r[id].children) {
        assert r[id].children == if id == p then m[p].children + [c] else m[id].children;
      }
    }
  }

  /** Moving bubbles keeps the arena's invariant. */
  lemma SameShapeValid(m: Forest, m': Forest, next: BubbleId)
    requires SameShape(m, m') && Linked(m) && forall id | id in m :: id < next && NoDups(m[id].children)
    ensures Linked(m') && forall id | id in m' :: id < next && NoDups(m'[id].children)
  {
  }

  /** The callback keeps every link inside the arena and every list free of
      repeats. */
  lemma DetachOneValid(m: Forest, next: BubbleId, p: BubbleId, c: BubbleId)
    requires Linked(m) && (forall id | id in m :: id < next && NoDups(m[id].children))
    requires p in m && c in m
    ensures Linked(DetachOne(m, p, c))
    ensures forall id | id in m :: id < next && NoDups(DetachOne(m, p, c)[id].children)
  {
    var ch := m[p].children;
    if c in ch {
      var r := DetachOne(m, p, c);
      DetachOneLists(m, p, c);
      forall id | id in r
        ensures (forall d | d in r[id].children :: d in r) && NoDups(r[id].children)
        ensures r[id].parent.Some? ==> r[id].parent.value in r
        ensures r[id].assumptionPair.Some? ==> r[id].assumptionPair.value in r
      {
        assert r[id].parent == m[id].parent || r[id].parent.None?;
        assert r[id].assumptionPair == m[id].assumptionPair;
      }
    }
  }

  /** The callback shortens `p`'s list by one occurrence of `c` and leaves
      every other list as it was. */
  lemma DetachOneLists(m: Forest, p: BubbleId, c: BubbleId)
    requires p in m && c in m && c in m[p].children && NoDups(m[p].children)
    ensures forall id | id in m && id != p :: DetachOne(m, p, c)[id].children == m[id].children
    ensures NoDups(DetachOne(m, p, c)[p].children)
    ensures forall d | d in DetachOne(m, p, c)[p].children :: d in m[p].children
  {
    var ch := m[p].children;
    RemoveSwapMembers(ch, IndexOf(ch, c));
  }

  lemma DetachAlongStep(m: Forest, order: seq<BubbleId>, k: nat, c: BubbleId)
    requires c in m && k < |order| && forall q | q in order :: q in m
    ensures DetachAlong(m, order[..k + 1], c) == DetachOne(DetachAlong(m, order[..k], c), order[k], c)
  {
    var s := order[..k + 1];
    assert s[..|s| - 1] == order[..k];
    assert s[|s| - 1] == order[k];
    assert forall q | q in s :: q in order;
  }

  /** The loop of `CenterAroundChildren`: totals and count of the bubbles
      of `order` other than `skip`. */
  method SumExcept(m: Forest, order: seq<BubbleId>, skip: BubbleId) returns (x: int, y: int, n: nat)
    requires forall q | q in order :: q in m
    ensures forall q | q in Without(order, skip) :: q in m
    ensures n == |Without(order, skip)|
    ensures x == SumX(m, Without(order, skip)) && y == SumY(m, Without(order, skip))
  {
    x, y, n := 0, 0, 0;
    ghost var w: seq<BubbleId> := [];
    var k := 0;
    while k < |order|
      invariant 0 <= k <= |order|
      invariant w == Without(order[..k], skip) && forall q | q in w :: q in m
      invariant n == |w| && x == SumX(m, w) && y == SumY(m, w)
    {
      WithoutStep(order, k, skip);
      if order[k] != skip {
        SumSnoc(m, w, order[k]);
        x := x + m[order[k]].x;
        y := y + m[order[k]].y;
        n := n + 1;
        w := w + [order[k]];
      }
      k := k + 1;
    }
    assert order[..k] == order;
  }

  lemma WithoutStep(s: seq<BubbleId>, k: nat, x: BubbleId)
    requires k < |s|
    ensures Without(s[..k + 1], x) == Without(s[..k], x) + (if s[k] == x then [] else [s[k]])
  {
    assert s[..k + 1] == s[..k] + [s[k]];
    WithoutSnoc(s[..k], s[k], x);
  }

  /** Appending one bubble adds its coordinates to both sums. */
  lemma SumSnoc(m: Forest, s: seq<BubbleId>, q: BubbleId)
    requires q in m && forall p | p in s :: p in m
    ensures SumX(m, s + [q]) == SumX(m, s) + m[q].x
    ensures SumY(m, s + [q]) == SumY(m, s) + m[q].y
  {
    assert (s + [q])[..|s|] == s;
  }

  lemma WithoutSnoc(s: seq<BubbleId>, q: BubbleId, x: BubbleId)
    ensures Without(s + [q], x) == Without(s, x) + (if q == x then [] else [q])
  {
    if s != [] {
      assert (s + [q])[1..] == s[1..] + [q];
      WithoutSnoc(s[1..], q, x);
    } else {
      assert [q][1..] == [];
    }
  }

  // ---------------------------------------------------------------------
  // Read-only walks

  /** `b.IsAbove(x)` (a nil receiver is never met on the walk). */
  method IsAbove(m: Forest, b: Option<BubbleId>, x: Option<BubbleId>) returns (r: bool)
    requires Acyclic(m) && (x.Some? ==> x.value in m)
    ensures r == (b.Some? && Above(m, b.value, x))
  {
    ghost var g := TheRank(m);
    var ancestor := x;
    while ancestor.Some?
      invariant ancestor.Some? ==> ancestor.value in m
      invariant (b.Some? && Above(m, b.value, x)) == (b.Some? && Above(m, b.value, ancestor))
      decreases if ancestor.Some? then g.top + 1 - g.of[ancestor.value] else 0
    {
      if ancestor == b {
        return true;
      }
      ancestor := m[ancestor.value].parent;
    }
    return false;
  }

  /** The pre-order walks of the bubbles of `q`, one after another. */
  function PreOrders(m: Forest, q: seq<BubbleId>): seq<BubbleId>
    requires Acyclic(m) && forall x | x in q :: x in m
  {
    if q == [] then [] else PreOrder(m, q[0]) + PreOrders(m, q[1..])
  }

  lemma {:induction false} PreOrdersAppend(m: Forest, a: seq<BubbleId>, b: seq<BubbleId>)
    requires Acyclic(m) && (forall x | x in a :: x in m) && (forall x | x in b :: x in m)
    ensures PreOrders(m, a + b) == PreOrders(m, a) + PreOrders(m, b)
    decreases |a|
  {
    if a == [] {
      assert a + b == b;
    } else {
      var ab := a + b;
      assert ab[0] == a[0];
      assert ab[1..] == a[1..] + b;
      PreOrdersAppend(m, a[1..], b);
    }
  }

  /** The children of `id`, last first: the order in which `bfs` leaves them
      on its list after pushing each to the front. */
  function Pushed(m: Forest, id: BubbleId, i: nat): (r: seq<BubbleId>)
    requires id in m && i <= |m[id].children|
    ensures |r| == i && forall k | 0 <= k < i :: r[k] == m[id].children[i - 1 - k]
  {
    var ch := m[id].children;
    seq(i, k requires 0 <= k < i => ch[i - 1 - k])
  }

  lemma {:induction false} PreOrdersFlatten(m: Forest, q: seq<BubbleId>)
    requires Acyclic(m) && forall x | x in q :: x in m
    ensures PreOrders(m, q) == Flatten(seq(|q|, k requires 0 <= k < |q| => PreOrder(m, q[k])))
  {
    if q != [] {
      PreOrdersFlatten(m, q[1..]);
      var f := seq(|q|, k requires 0 <= k < |q| => PreOrder(m, q[k]));
      assert f[1..] == seq(|q[1..]|, k requires 0 <= k < |q[1..]| => PreOrder(m, q[1..][k]));
    }
  }

  /** Popping `id` and pushing its children leaves, in place of `id`'s own
      walk, the walks of its children last child first. */
  lemma PreOrderUnfolds(m: Forest, id: BubbleId)
    requires Acyclic(m) && id in m
    ensures forall x | x in m[id].children :: x in m
    ensures PreOrder(m, id) == [id] + PreOrders(m, Pushed(m, id, |m[id].children|))
  {
    var ch := m[id].children;
    var q := Pushed(m, id, |ch|);
    forall k | 0 <= k < |ch| ensures ChildPreOrders(m, id)[k] == PreOrder(m, q[k]) {
      PreOrderChild(m, id, k);
    }
    PreOrdersFlatten(m, q);
    assert ChildPreOrders(m, id) == seq(|q|, k requires 0 <= k < |q| => PreOrder(m, q[k]));
  }

  /** `b.bfs(f)`: the bubbles `f` is applied to, in order. The list is used
      as a stack, so the walk is the pre-order `PreOrder`. */
  method Bfs(m: Forest, b: BubbleId) returns (visited: seq<BubbleId>)
    requires Acyclic(m) && b in m
    ensures visited == PreOrder(m, b)
  {
    var queue := [b];
    visited := [];
    assert PreOrders(m, queue) == PreOrder(m, b) + [];
    while |queue| > 0
      invariant forall x | x in queue :: x in m
      invariant visited + PreOrders(m, queue) == PreOrder(m, b)
      decreases |PreOrder(m, b)| - |visited|
    {
      var next := queue[0];
      BfsStepIn(m, queue);
      BfsStep(m, queue);
      assert visited + PreOrders(m, queue) ==
        (visited + [next]) + PreOrders(m, Pushed(m, next, |m[next].children|) + queue[1..]);
      visited := visited + [next];
      queue := PushChildren(m, next, queue[1..]);
    }
  }

  /** The inner loop of `bfs`: each child of `id` goes to the front. */
  method PushChildren(m: Forest, id: BubbleId, rest: seq<BubbleId>) returns (queue: seq<BubbleId>)
    requires id in m
    ensures queue == Pushed(m, id, |m[id].children|) + rest
  {
    var ch := m[id].children;
    queue := rest;
    var i := 0;
    while i < |ch|
      invariant 0 <= i <= |ch|
      invariant queue == Pushed(m, id, i) + rest
    {
      assert [ch[i]] + Pushed(m, id, i) == Pushed(m, id, i + 1);
      queue := [ch[i]] + queue;
      i := i + 1;
    }
  }

  /** One round of `bfs`: popping the head and pushing its children keeps
      the walks of the list, less the head itself. */
  lemma BfsStep(m: Forest, queue: seq<BubbleId>)
    requires Acyclic(m) && queue != [] && forall x | x in queue :: x in m
    ensures [queue[0]] + PreOrders(m, Pushed(m, queue[0], |m[queue[0]].children|) + queue[1..])
      == PreOrders(m, queue)
  {
    var next, rest := queue[0], queue[1..];
    var pushed := Pushed(m, next, |m[next].children|);
    PopUnfolds(m, queue);
    PreOrdersAppend(m, pushed, rest);
    ConsAssoc(next, PreOrders(m, pushed), PreOrders(m, rest), PreOrders(m, queue), PreOrders(m, pushed + rest));
  }

  /** Moving one element across a concatenation. */
  lemma SnocAssoc<T>(d: seq<T>, x: T, c: seq<T>)
    ensures d + ([x] + c) == (d + [x]) + c
  {
  }

  /** Regrouping a concatenation that starts with one element. */
  lemma ConsAssoc<T>(n: T, a: seq<T>, b: seq<T>, p: seq<T>, q: seq<T>)
    requires p == [n] + a + b && q == a + b
    ensures [n] + q == p
  {
  }

  /** The walks of a list are the head, the walks of its children as `bfs`
      pushes them, and the walks of the rest of the list. */
  lemma PopUnfolds(m: Forest, queue: seq<BubbleId>)
    requires Acyclic(m) && queue != [] && forall x | x in queue :: x in m
    ensures forall x | x in Pushed(m, queue[0], |m[queue[0]].children|) :: x in m
    ensures forall x | x in queue[1..] :: x in m
    ensures PreOrders(m, queue)
      == [queue[0]] + PreOrders(m, Pushed(m, queue[0], |m[queue[0]].children|)) + PreOrders(m, queue[1..])
  {
    PushedIn(m, queue[0]);
    PreOrderUnfolds(m, queue[0]);
    assert forall x | x in queue[1..] :: x in queue;
    PreOrdersCons(m, queue);
  }

  /** Everything on the list after a round of `bfs` is in the arena. */
  lemma BfsStepIn(m: Forest, queue: seq<BubbleId>)
    requires Acyclic(m) && queue != [] && forall x | x in queue :: x in m
    ensures forall x | x in Pushed(m, queue[0], |m[queue[0]].children|) + queue[1..] :: x in m
  {
    PreOrderUnfolds(m, queue[0]);
    PushedIn(m, queue[0]);
    assert forall x | x in queue[1..] :: x in queue;
  }

  lemma PreOrdersCons(m: Forest, q: seq<BubbleId>)
    requires Acyclic(m) && q != [] && forall x | x in q :: x in m
    ensures PreOrders(m, q) == PreOrder(m, q[0]) + PreOrders(m, q[1..])
  {
  }

  lemma PushedIn(m: Forest, id: BubbleId)
    requires id in m
    ensures forall x | x in Pushed(m, id, |m[id].children|) :: x in m[id].children
  {
    var ch := m[id].children;
    var p := Pushed(m, id, |ch|);
    forall x | x in p ensures x in ch {
      var k :| 0 <= k < |p| && p[k] == x;
      assert ch[|ch| - 1 - k] == x;
    }
  }

  /** `b.CenterOfMass()`. */
  method CenterOfMass(m: Forest, b: BubbleId) returns (x: int, y: int)
    requires Acyclic(m) && b in m
    ensures (x, y) == CenterOfMassOf(m, b)
  {
    PostOrderInForest(m, b);
    var order := PostOrder(m, b);
    var n := 0;
    x, y := 0, 0;
    while n < |order|
      invariant 0 <= n <= |order|
      invariant x == SumX(m, order[..n]) && y == SumY(m, order[..n])
    {
      assert order[..n + 1][..n] == order[..n];
      x := x + m[order[n]].x;
      y := y + m[order[n]].y;
      n := n + 1;
    }
    assert order[..n] == order;
    x := Quot(x, n);
    y := Quot(y, n);
  }

  /** `b.Siblings()`: nil for a parentless bubble, otherwise the other
      bubbles on its parent's list. Go sizes the new slice one below the
      parent's list, which panics on an empty list. */
  function Siblings(m: Forest, b: BubbleId): (r: seq<BubbleId>)
    requires Linked(m) && b in m
    requires m[b].parent.Some? ==> |m[m[b].parent.value].children| > 0
    ensures multiset(r) ==
      if m[b].parent.None? then multiset{} else multiset(m[m[b].parent.value].children)[b := 0]
  {
    if m[b].parent.None? then []
    else
      WithoutMembers(m[m[b].parent.value].children, b);
      Without(m[m[b].parent.value].children, b)
  }

  /** In a tree, the siblings of `b` are exactly the other bubbles with the
      same parent, each listed once. */
  lemma SiblingsInTree(m: Forest, b: BubbleId, y: BubbleId)
    requires IsTree(m) && b in m && y in m
    ensures m[b].parent.Some? ==> m[b].parent.value in m && b in m[m[b].parent.value].children
    ensures y in Siblings(m, b) <==> y != b && m[y].parent.Some? && m[y].parent == m[b].parent
    ensures multiset(Siblings(m, b))[y] <= 1
  {
    if m[b].parent.Some? {
      var p := m[b].parent.value;
      ListedByParentOnly(m, p, y);
      NoDupsCount(m[p].children, y);
      WithoutMembers(m[p].children, b);
    }
  }
}
