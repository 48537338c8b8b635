/** The bubble record of page/bubble.go and the shape of the bubble graph.

    A Go `*Bubble` is a heap object identified by its address; here every
    bubble has a `BubbleId` and the heap is a `Forest`, a finite map from ids
    to bubble records. A nil pointer is `None`. The Go program never checks
    that its parent/children links form a tree (`Insert` makes no cycle
    check), so the recursive walks below require `Acyclic`: a ranking in which
    every child ranks below its parent and every parent link points upwards.
    The ranking is a proof device only; it is chosen once per forest by
    `TheRank`. */
module Tree {
  import opened Kinds

  type BubbleId = nat

  datatype Option<T> = None | Some(value: T)

  /** The fields of Go's `Bubble` struct, pointers replaced by ids. */
  datatype Bubble = Bubble(
    x: int, y: int, vx: int, vy: int,
    depth: int, height: int,
    kind: Kind, variable: string,
    children: seq<BubbleId>,
    parent: Option<BubbleId>,
    assumptionPair: Option<BubbleId>)

  type Forest = map<BubbleId, Bubble>

  /** `newBubble(x, y, v, k)`: every other field at Go's zero value. */
  function NewBubble(x: int, y: int, v: string, k: Kind): Bubble
  {
    Bubble(x, y, 0, 0, 0, 0, k, v, [], None, None)
  }

  /** No pointer dangles: every id a bubble refers to is in the forest. */
  ghost predicate Linked(m: Forest)
  {
    forall id | id in m ::
      (forall c | c in m[id].children :: c in m) &&
      (m[id].parent.Some? ==> m[id].parent.value in m) &&
      (m[id].assumptionPair.Some? ==> m[id].assumptionPair.value in m)
  }

  datatype Ranking = Ranking(of: map<BubbleId, nat>, top: nat)

  /** `g` ranks every bubble no higher than `g.top`, every child strictly
      below its parent, and every bubble strictly below the one its `parent`
      field names. */
  ghost predicate RankedBy(m: Forest, g: Ranking)
  {
    Linked(m) &&
    forall id | id in m ::
      id in g.of && g.of[id] <= g.top &&
      (forall c | c in m[id].children :: c in g.of && g.of[c] < g.of[id]) &&
      (m[id].parent.Some? ==> m[id].parent.value in g.of && g.of[id] < g.of[m[id].parent.value])
  }

  /** Following children or parents never comes back to where it started. */
  ghost predicate Acyclic(m: Forest)
  {
    exists g :: RankedBy(m, g)
  }

  lemma RankedIsAcyclic(m: Forest, g: Ranking)
    requires RankedBy(m, g)
    ensures Acyclic(m)
  {
  }

  ghost function TheRank(m: Forest): (g: Ranking)
    requires Acyclic(m)
    ensures RankedBy(m, g)
  {
    var g :| RankedBy(m, g); g
  }

  /** A child ranks strictly below its parent. */
  lemma ChildRank(m: Forest, a: BubbleId, c: BubbleId)
    requires Acyclic(m) && a in m && c in m[a].children
    ensures c in m && c in TheRank(m).of && a in TheRank(m).of && TheRank(m).of[c] < TheRank(m).of[a]
  {
  }

  predicate NoDups<T(==)>(s: seq<T>)
  {
    forall i, j | 0 <= i < j < |s| :: s[i] != s[j]
  }

  /** The shape the page keeps: acyclic, each bubble listed at most once by
      at most one parent, exactly by the one its `parent` field names. */
  ghost predicate IsTree(m: Forest)
  {
    Linked(m) && Acyclic(m) &&
    (forall p, c | p in m && c in m[p].children :: m[c].parent == Some(p)) &&
    (forall c | c in m && m[c].parent.Some? :: c in m[m[c].parent.value].children) &&
    (forall p | p in m :: NoDups(m[p].children))
  }

  /** Two forests with the same bubbles and the same links; only the
      positions, velocities, depths, heights, kinds or labels may differ. */
  ghost predicate SameShape(m: Forest, m': Forest)
  {
    m.Keys == m'.Keys &&
    forall id | id in m ::
      m'[id].children == m[id].children && m'[id].parent == m[id].parent &&
      m'[id].assumptionPair == m[id].assumptionPair
  }

  function Flatten<T>(ss: seq<seq<T>>): seq<T>
  {
    if ss == [] then [] else ss[0] + Flatten(ss[1..])
  }

  /** The order in which `Bubble.Iterate` applies its callback: each child's
      subtree in turn, then the bubble itself. */
  function PostOrder(m: Forest, id: BubbleId): (s: seq<BubbleId>)
    requires Acyclic(m) && id in m
    ensures s != [] && s[|s| - 1] == id
    decreases TheRank(m).of[id], 1
  {
    Flatten(ChildPostOrders(m, id)) + [id]
  }

  function ChildPostOrders(m: Forest, id: BubbleId): (r: seq<seq<BubbleId>>)
    requires Acyclic(m) && id in m
    ensures |r| == |m[id].children|
    decreases TheRank(m).of[id], 0
  {
    var ch := m[id].children;
    seq(|ch|, i requires 0 <= i < |ch| => PostOrder(m, ch[i]))
  }

  /** The order in which `Bubble.bfs` applies its callback. Its worklist is a
      list whose front is both where children are pushed and where the next
      bubble is taken from, so it is a stack: a bubble comes first, then the
      subtrees of its children, last child first. */
  function PreOrder(m: Forest, id: BubbleId): (s: seq<BubbleId>)
    requires Acyclic(m) && id in m
    ensures s != [] && s[0] == id
    decreases TheRank(m).of[id], 1
  {
    [id] + Flatten(ChildPreOrders(m, id))
  }

  function ChildPreOrders(m: Forest, id: BubbleId): (r: seq<seq<BubbleId>>)
    requires Acyclic(m) && id in m
    ensures |r| == |m[id].children|
    decreases TheRank(m).of[id], 0
  {
    var ch := m[id].children;
    seq(|ch|, i requires 0 <= i < |ch| => PreOrder(m, ch[|ch| - 1 - i]))
  }

  /** `a.IsAbove(x)`: `a` is met when following `parent` links from `x`,
      `x` included; never when `x` is nil. */
  function Above(m: Forest, a: BubbleId, x: Option<BubbleId>): bool
    requires Acyclic(m) && (x.Some? ==> x.value in m)
    decreases if x.Some? then TheRank(m).top + 1 - TheRank(m).of[x.value] else 0
  {
    x.Some? && (x.value == a || Above(m, a, m[x.value].parent))
  }

  /** The running maximum of `normalizeHeight`'s loop, started at `acc`. */
  function MaxFrom(acc: int, s: seq<int>): (r: int)
    ensures r >= acc && forall i | 0 <= i < |s| :: r >= s[i]
    ensures r == acc || exists i | 0 <= i < |s| :: r == s[i]
    decreases |s|
  {
    if s == [] then acc
    else MaxFrom(if s[0] > acc then s[0] else acc, s[1..])
  }

  /** The height `normalizeHeight` stores: 0 for a leaf, otherwise one more
      than the largest `Height` its children currently hold. */
  function NodeHeight(m: Forest, id: BubbleId): (r: int)
    requires id in m && forall c | c in m[id].children :: c in m
    ensures r >= 0 && (r == 0 <==> m[id].children == [])
    ensures forall c | c in m[id].children :: r > m[c].height
    ensures m[id].children != [] ==> r == 1 || exists c | c in m[id].children :: r == m[c].height + 1
  {
    var ch := m[id].children;
    if |ch| == 0 then 0
    else
      var hs := seq(|ch|, i requires 0 <= i < |ch| => m[ch[i]].height);
      assert forall c | c in ch :: exists i | 0 <= i < |ch| :: ch[i] == c && hs[i] == m[c].height;
      MaxFrom(0, hs) + 1
  }

  /** The height of the subtree below `id`: what `normalizeHeight` stores
      once all of `id`'s descendants hold theirs. */
  function SubtreeHeight(m: Forest, id: BubbleId): nat
    requires Acyclic(m) && id in m
    decreases TheRank(m).of[id], 1
  {
    var hs := ChildHeights(m, id);
    if |hs| == 0 then 0 else MaxFrom(0, hs) + 1
  }

  function ChildHeights(m: Forest, id: BubbleId): (r: seq<int>)
    requires Acyclic(m) && id in m
    ensures |r| == |m[id].children|
    decreases TheRank(m).of[id], 0
  {
    var ch := m[id].children;
    seq(|ch|, i requires 0 <= i < |ch| => SubtreeHeight(m, ch[i]))
  }

  /** A subtree's height exceeds every child's: it bounds the length of the
      child chains below the bubble. */
  lemma SubtreeHeightAboveChildren(m: Forest, id: BubbleId, c: BubbleId)
    requires Acyclic(m) && id in m && c in m[id].children
    ensures c in m && SubtreeHeight(m, c) < SubtreeHeight(m, id)
  {
    var ch := m[id].children;
    var i :| 0 <= i < |ch| && ch[i] == c;
    assert ChildHeights(m, id)[i] == SubtreeHeight(m, c);
  }

  // ---------------------------------------------------------------------
  // Parent walks

  /** Walking up from `x` only climbs the ranking. */
  lemma {:induction false} AboveRank(m: Forest, g: Ranking, a: BubbleId, x: BubbleId)
    requires RankedBy(m, g) && Acyclic(m) && x in m && Above(m, a, Some(x))
    ensures a in m && g.of[x] <= g.of[a]
    decreases g.top - g.of[x]
  {
    if x != a {
      AboveRank(m, g, a, m[x].parent.value);
    }
  }

  lemma {:induction false} AboveTransitive(m: Forest, a: BubbleId, b: BubbleId, x: BubbleId)
    requires Acyclic(m) && b in m && x in m
    requires Above(m, a, Some(b)) && Above(m, b, Some(x))
    ensures Above(m, a, Some(x))
    decreases TheRank(m).top - TheRank(m).of[x]
  {
    if x != b {
      AboveTransitive(m, a, b, m[x].parent.value);
    }
  }

  /** Two bubbles above a third lie on one parent chain. */
  lemma {:induction false} AboveChain(m: Forest, a1: BubbleId, a2: BubbleId, x: BubbleId)
    requires Acyclic(m) && x in m && Above(m, a1, Some(x)) && Above(m, a2, Some(x))
    ensures a1 in m && a2 in m
    ensures Above(m, a1, Some(a2)) || Above(m, a2, Some(a1))
    decreases TheRank(m).top - TheRank(m).of[x]
  {
    AboveRank(m, TheRank(m), a1, x);
    AboveRank(m, TheRank(m), a2, x);
    if x != a1 && x != a2 {
      AboveChain(m, a1, a2, m[x].parent.value);
    }
  }

  /** `IsAbove` reads only the parent links on the walk it makes. */
  lemma {:induction false} AboveFrame(m: Forest, m': Forest, a: BubbleId, x: Option<BubbleId>)
    requires Acyclic(m) && Acyclic(m') && (x.Some? ==> x.value in m)
    requires forall y | y in m && Above(m, y, x) :: y in m' && m'[y].parent == m[y].parent
    ensures x.Some? ==> x.value in m'
    ensures Above(m', a, x) == Above(m, a, x)
    decreases if x.Some? then TheRank(m).top + 1 - TheRank(m).of[x.value] else 0
  {
    if x.Some? {
      var v := x.value;
      assert Above(m, v, x);
      var p := m[v].parent;
      forall y | y in m && Above(m, y, p) ensures Above(m, y, x) {
      }
      AboveFrame(m, m', a, p);
    }
  }

  // ---------------------------------------------------------------------
  // Forests of the same shape

  lemma SameShapeRanked(m: Forest, m': Forest, g: Ranking)
    requires SameShape(m, m') && RankedBy(m, g)
    ensures RankedBy(m', g) && Acyclic(m')
  {
    assert Linked(m') by {
      forall id | id in m' ensures (forall c | c in m'[id].children :: c in m') {
        assert m'[id].children == m[id].children;
      }
    }
    assert RankedBy(m', g);
  }

  /** Dropping child links or parent links keeps a ranking. */
  lemma FewerLinksRanked(m: Forest, m': Forest, g: Ranking)
    requires RankedBy(m, g) && m'.Keys == m.Keys
    requires forall id, d | id in m && d in m'[id].children :: d in m[id].children
    requires forall id | id in m :: m'[id].parent == m[id].parent || m'[id].parent.None?
    requires forall id | id in m :: m'[id].assumptionPair == m[id].assumptionPair
    ensures RankedBy(m', g) && Acyclic(m')
  {
    forall id | id in m'
      ensures (forall d | d in m'[id].children :: d in m' && d in g.of && g.of[d] < g.of[id])
      ensures m'[id].parent.Some? ==> m'[id].parent.value in m' && m'[id].parent.value in g.of && g.of[id] < g.of[m'[id].parent.value]
      ensures m'[id].assumptionPair.Some? ==> m'[id].assumptionPair.value in m'
      ensures id in g.of && g.of[id] <= g.top
    {
      assert m'[id].assumptionPair == m[id].assumptionPair;
    }
    assert Linked(m');
    assert RankedBy(m', g);
  }

  lemma SameShapeTree(m: Forest, m': Forest)
    requires SameShape(m, m') && IsTree(m)
    ensures IsTree(m')
  {
    SameShapeRanked(m, m', TheRank(m));
    forall p, c | p in m' && c in m'[p].children ensures m'[c].parent == Some(p) {
      assert c in m[p].children;
    }
    forall c | c in m' && m'[c].parent.Some? ensures c in m'[m'[c].parent.value].children {
      assert c in m[m[c].parent.value].children;
    }
    forall p | p in m' ensures NoDups(m'[p].children) {
      assert NoDups(m[p].children);
    }
  }

  lemma {:induction false} SameShapePostOrder(m: Forest, m': Forest, id: BubbleId)
    requires SameShape(m, m') && Acyclic(m) && Acyclic(m') && id in m
    ensures PostOrder(m', id) == PostOrder(m, id)
    decreases TheRank(m).of[id]
  {
    var ch := m[id].children;
    forall i | 0 <= i < |ch| ensures ChildPostOrders(m', id)[i] == ChildPostOrders(m, id)[i] {
      SameShapePostOrder(m, m', ch[i]);
    }
    assert ChildPostOrders(m', id) == ChildPostOrders(m, id);
  }

  lemma {:induction false} SameShapeHeight(m: Forest, m': Forest, id: BubbleId)
    requires SameShape(m, m') && Acyclic(m) && Acyclic(m') && id in m
    ensures SubtreeHeight(m', id) == SubtreeHeight(m, id)
    decreases TheRank(m).of[id]
  {
    var ch := m[id].children;
    forall i | 0 <= i < |ch| ensures ChildHeights(m', id)[i] == ChildHeights(m, id)[i] {
      SameShapeHeight(m, m', ch[i]);
    }
    assert ChildHeights(m', id) == ChildHeights(m, id);
  }

  lemma SameShapeAbove(m: Forest, m': Forest, a: BubbleId, x: Option<BubbleId>)
    requires SameShape(m, m') && Acyclic(m) && Acyclic(m') && (x.Some? ==> x.value in m)
    ensures Above(m', a, x) == Above(m, a, x)
  {
    AboveFrame(m, m', a, x);
  }
}
