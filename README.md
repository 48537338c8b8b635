# Bubble trees and proof moves of vll

vll is a graphical editor for linear-logic formulas drawn as nested
"bubbles". A bubble is White, Black, Blue, Red or the page Background. It
may carry a variable label, and it holds an ordered list of children, a
parent link and cached depth and height fields. The tree reads as a
formula: a Black region is a `+` of its children, any other region a `*`,
and a one-child region is just its child. In proof mode the user grabs a
bubble and drops it elsewhere. The page decides whether the drop is legal,
cancels a formula against its dual, wraps labelled leaves in a buffer loop
and recomputes heights.

This project models the tree operations of `page/bubble.go` and the
editing half of `page/page.go` in Dafny, and proves what they do.

- The Go heap of bubbles is an arena. `Tree.Forest` maps an id to a
  `Bubble` record holding the struct's fields, with pointers as ids and nil
  as `None`.
- `Bubbles.Arena` is the mutable heap. `Insert`, `Detach`,
  `normalizeHeight`, `CenterAroundChildren` and `MoveBy` are its methods.
  Each is proved to leave the forest equal to a pure function of the old
  forest: `Inserted`, `Detached`, `NodeHeight`, `ChildrenCenter` and
  `MovedBy`.
- `Pages.Page` is Go's `Page` with its fields. `Grab`, `CanPlaceAt`,
  `ReleaseInto` and `NormalizeHeight` are methods proved against the
  functions of module `Placing`.
- Termination of the recursive walks, and of the parent walk in `IsAbove`,
  rests on a ghost ranking (`Tree.RankedBy`). A forest is `Acyclic` when
  some ranking exists. The depth field is not used for this, because
  `Insert` sets it only on the inserted bubble.
- `Tree.IsTree` adds to acyclicity that child lists and parent links agree
  and that no list repeats a bubble. Go's `Insert` does not check for
  cycles. The model's `Inserted` checks none either. The lemmas say when an
  edit keeps a tree a tree.

Modules:

| module | file | contents |
|---|---|---|
| `Kinds` | `kinds.dfy` | `Kind`, `OppositeKind` |
| `Sorting` | `sorting.dfy` | Go's string `<`, `sort.Strings` as insertion sort, `strings.Join` |
| `Tree` | `tree.dfy` | `Bubble`, `Forest`, rankings, `Iterate` order, `IsAbove`, subtree height |
| `Traversal` | `traversal.dfy` | what the post-order and pre-order walks visit |
| `Render` | `render.dfy` | `String`, `Opposite` |
| `Edits` | `edits.dfy` | `Insert`, `Detach` |
| `Bubbles` | `bubbles.dfy` | the arena and its methods, `bfs`, `IsAbove`, `Siblings`, centres of mass, `MoveBy` |
| `Placing` | `placing.dfy` | height pass, placement verdict, cancellation, release |
| `Pages` | `pages.dfy` | the `Page` class |
| `Scenarios` | `scenarios.dfy` | the edits of `TestHeights`, duals cancelling |

The model follows the code where it differs from what one might expect of
such an editor:

- `Insert` does not reject a child that is an ancestor of the receiver.
- `Detach` runs its callback on every bubble of the receiver's subtree. Each
  bubble listing the child loses one occurrence, not only the first lister.

## Model

| member | source | states |
|---|---|---|
| `Kinds.OppositeKind` | page/bubble.go:65-78 | White and Black swap, Red and Blue swap, Background goes to Black; the result is never the input and never Background |
| `Kinds.OppositeKindInvolution` | page/bubble.go:65-78 | applying `OppositeKind` twice gives back the kind exactly when the kind is not Background |
| `Sorting.Sort` | page/bubble.go:157 | the result is a permutation of the input and is sorted by Go's string order |
| `Sorting.SortedUnique` | page/bubble.go:157 | two sorted arrangements of one multiset of strings are equal, so any correct sort gives the same result |
| `Sorting.SortPermutationInvariant` | page/bubble.go:152-157 | sorting two permutations of one multiset gives the same sequence |
| `Sorting.LessTrichotomy` | page/bubble.go:157 | Go's string `<` is total and asymmetric |
| `Sorting.LessTransitive` | page/bubble.go:157 | Go's string `<` is transitive |
| `Tree.MaxFrom` | page/bubble.go:234-239 | the running maximum is at least the start and every element, and is the start or one of the elements |
| `Tree.PostOrder` | page/bubble.go:110-117 | the order `Iterate` runs its callback: each child's subtree in turn, then the bubble itself, which comes last |
| `Tree.PreOrder` | page/bubble.go:200-210 | the order `bfs` runs its callback: the bubble first, then its children's subtrees from the last child to the first |
| `Tree.Above` | page/bubble.go:325-335 | the meaning of `IsAbove`: `a` is met following parent links up from `x`, `x` included, and never from nil; it has no contract of its own, and `Bubbles.IsAbove` is proved to compute it |
| `Tree.NodeHeight` | page/bubble.go:228-241 | the height `normalizeHeight` stores is 0 exactly for a leaf, exceeds every child's stored height, and is 1 or one more than some child's height |
| `Tree.SubtreeHeightAboveChildren` | page/bubble.go:228-241 | a bubble's subtree height exceeds each child's |
| `Tree.AboveTransitive` | page/bubble.go:325-335 | being above is transitive |
| `Tree.AboveChain` | page/bubble.go:325-335 | two bubbles above the same bubble are above one another, one way or the other |
| `Tree.SameShapeHeight` | page/bubble.go:228-241 | subtree heights depend only on the links, not on positions or cached fields |
| `Traversal.PostOrderIsSubtree` | page/bubble.go:110-117 | in a tree, `Iterate` from `a` visits `x` exactly when `a` is above `x` |
| `Traversal.PostOrderNoDups` | page/bubble.go:110-117 | in a tree, `Iterate` visits no bubble twice |
| `Traversal.PostOrderChildrenFirst` | page/bubble.go:110-117 | `Iterate` visits every child of a bubble before the bubble |
| `Traversal.PreOrderParentFirst` | page/bubble.go:200-210 | the `bfs` order visits every child of a bubble after the bubble |
| `Traversal.PreOrderIsSubtree` | page/bubble.go:200-210 | in a tree, `bfs` from `a` visits `x` exactly when `a` is above `x`, and at most once |
| `Traversal.PreOrderPermutesPostOrder` | page/bubble.go:200-210 | `bfs` and `Iterate` visit the same bubbles the same number of times |
| `Traversal.SiblingsShareNoDescendant` | page/bubble.go:110-117 | in a tree, two different children of one bubble have no common descendant |
| `Render.RenderPermutation` | page/bubble.go:152-165 | the rendering of a region depends on its child strings only as a multiset |
| `Render.String` | page/bubble.go:136-166 | the formula text of a bubble; it has no contract of its own, and the `Render` lemmas below state its laws |
| `Render.Opposite` | page/bubble.go:168-198 | the text of a bubble's dual, with its children still rendered by `String`; it has no contract of its own, and the `Render` lemmas below state its laws |
| `Render.ChildOrderIrrelevant` | page/bubble.go:152-189 | reordering a bubble's children changes neither its `String` nor its `Opposite` |
| `Render.StringLocal` | page/bubble.go:136-198 | `String` and `Opposite` of a bubble depend only on the bubbles of its subtree |
| `Render.LeafStrings` | page/bubble.go:137-182 | a White leaf renders "1" or its label, a Black leaf "0" or "~" and its label, other kinds ""; `Opposite` swaps the roles of White and Black |
| `Render.OneChildIsTransparent` | page/bubble.go:159-192 | a one-child bubble renders, under `String` and `Opposite` alike, as its child's `String`, whatever its kind |
| `Render.CompoundStrings` | page/bubble.go:159-197 | with two or more children: sorted child strings joined by " + " for Black and " * " otherwise in parentheses; `Opposite` uses " + " for White |
| `Render.RenderOppositeDual` | page/bubble.go:168-198 | for every kind but Background, `Opposite` renders a region as `String` renders it with the opposite kind; for Background it does not |
| `Render.OppositeIsRecolouredString` | page/bubble.go:168-198 | the `Opposite` of a bubble that is not Background is the `String` of the same bubble recoloured with `OppositeKind` |
| `Edits.InsertedFacts` | page/bubble.go:212-226 | inserting twice is inserting once; afterwards the child is listed; a new child gets the parent link, depth one more than the parent's and is appended; no height, position or other bubble changes |
| `Edits.Inserted` | page/bubble.go:212-226 | `Insert` keeps the set of bubbles; `Edits.InsertedFacts` states the rest of its effect |
| `Edits.InsertKeepsTree` | page/bubble.go:212-226 | inserting a parentless bubble that is not above the receiver keeps a tree a tree |
| `Edits.InsertedAbove` | page/bubble.go:212-226 | after an insert, `a` is above `x` when it was before, or when `x` is in the new child's subtree and `a` is above the receiver |
| `Edits.RemoveSwapContents` | page/bubble.go:249-253 | the fast delete removes exactly one occurrence as a multiset and keeps a list without repeats free of them |
| `Edits.DetachAlongNoLister` | page/bubble.go:243-260 | when no walked bubble lists the child, the detach changes nothing |
| `Edits.Detached` | page/bubble.go:243-260 | `Detach` keeps the set of bubbles; `Edits.DetachedInTree` states that in a tree it cuts one edge or nothing |
| `Edits.DetachedInTree` | page/bubble.go:243-260 | in a tree, `b.Detach(c)` cuts `c` from its parent when that parent is in `b`'s subtree, and otherwise changes nothing |
| `Edits.CutKeepsTree` | page/bubble.go:243-260 | cutting an edge keeps a tree, leaves the child parentless and off its former parent's list |
| `Edits.CutShrinks` | page/bubble.go:243-260 | after a cut, each list holds what it held minus the child, and no parent link changes but the child's |
| `Edits.CutAbove` | page/bubble.go:243-260 | after a cut, `a` is above `x` when it was before, unless the walk up from `x` passed through the cut child on its way to `a` |
| `Edits.InsertThenDetach` | page/bubble.go:212-260 | detaching a just-inserted parentless bubble restores every bubble, except that the child keeps its new depth |
| `Bubbles.Arena.Alloc` | page/bubble.go:101-108 | `newBubble` adds a bubble with the given position, label and kind and zero elsewhere, at a fresh id |
| `Bubbles.Arena.Insert` | page/bubble.go:212-226 | a nil receiver returns nil and changes nothing; otherwise the heap becomes `Inserted` and the child is returned |
| `Bubbles.Arena.DetachFrom` | page/bubble.go:248-258 | the callback of `Detach` at one bubble: swap the first occurrence with the last, truncate, clear the child's parent |
| `Bubbles.Arena.Detach` | page/bubble.go:243-260 | a nil receiver changes nothing; otherwise the callback runs at every bubble of the receiver's subtree in `Iterate` order |
| `Bubbles.Arena.NormalizeNodeHeight` | page/bubble.go:228-241 | a bubble's height becomes 0 for a leaf and one more than the largest child height otherwise |
| `Bubbles.HeightOf` | page/bubble.go:228-241 | the loop of `normalizeHeight` computes `NodeHeight` |
| `Bubbles.Arena.CenterAroundChildren` | page/bubble.go:274-288 | the bubble moves to the truncated mean position of its strict descendants |
| `Bubbles.Arena.MoveBy` | page/bubble.go:296-309 | the heap becomes `MovedBy`: the subtree shifted, the velocity set, the ancestors recentred |
| `Bubbles.Arena.ShiftSubtree` | page/bubble.go:297-300 | every walked bubble moves by minus the offset |
| `Bubbles.Arena.RecenterAncestors` | page/bubble.go:304-308 | each strict ancestor up to the first of depth 0 is moved to its centre of mass, lowest first |
| `Bubbles.Quot` | page/bubble.go:269-270 | Go's truncating division: the quotient rounds toward zero for either sign of the dividend |
| `Bubbles.CenterOfMass` | page/bubble.go:262-272 | the loop sums the subtree's coordinates and divides by its size with truncation, giving `CenterOfMassOf` |
| `Bubbles.CenterOfMassInside` | page/bubble.go:262-272 | the centre of mass lies in every box holding the whole subtree |
| `Bubbles.CenterOfMassOf` | page/bubble.go:262-272 | the centre of mass of a leaf is its own position |
| `Bubbles.ChildrenCenter` | page/bubble.go:274-288 | where `CenterAroundChildren` puts a bubble with children; it has no contract of its own, and `Bubbles.ChildrenCenterInside` bounds it |
| `Bubbles.ChildrenCenterInside` | page/bubble.go:274-288 | the centre around the children lies in every box holding the strict descendants |
| `Bubbles.SumExcept` | page/bubble.go:277-283 | the loop sums the coordinates and counts the walked bubbles other than the skipped one |
| `Bubbles.ShiftAlongOnce` | page/bubble.go:297-300 | walking a list without repeats shifts each listed bubble once and leaves the others |
| `Bubbles.StartMoveInTree` | page/bubble.go:296-302 | in a tree, the first part of `MoveBy` shifts exactly the bubbles of the moved subtree |
| `Bubbles.MovedByFrame` | page/bubble.go:296-309 | `MoveBy` changes only positions and velocities, and the velocity only of the moved bubble, to minus the offset |
| `Bubbles.MovedBy` | page/bubble.go:296-309 | `MoveBy` keeps every bubble, every link and every assumption pair |
| `Bubbles.MovedByInTree` | page/bubble.go:296-309 | in a tree, a bubble that is not an ancestor of the moved one ends shifted exactly when it is in the moved subtree |
| `Bubbles.ChainAbove` | page/bubble.go:304-308 | every bubble recentred by `MoveBy` is an ancestor of the moved bubble's parent with non-zero depth |
| `Bubbles.Recentered` | page/bubble.go:304-308 | the ancestor loop computes `RecenterAlong` over the chain of ancestors |
| `Bubbles.IsAbove` | page/bubble.go:325-335 | the parent walk answers whether `b` is `other` or an ancestor of it, and false for nil |
| `Bubbles.Bfs` | page/bubble.go:200-210 | the LIFO worklist visits the subtree in pre-order, each bubble before its descendants and children last to first |
| `Bubbles.Listed` | page/bubble.go:216-220 | the scan of `Insert` finds the child exactly when it is listed |
| `Bubbles.SiblingsInTree` | page/bubble.go:311-323 | in a tree, `y` is a sibling of `b` exactly when it is another bubble with the same, non-nil parent, and it is listed at most once |
| `Bubbles.Siblings` | page/bubble.go:311-323 | as a multiset, the siblings are the parent's list with every occurrence of `b` removed, and nothing for a parentless bubble |
| `Placing.NormalizedHeights` | page/page.go:347-351 | after the height pass from the root, every bubble below the root holds its subtree height and every other bubble keeps its height |
| `Placing.NormalizedKeepsShape` | page/page.go:347-351 | the height pass changes no link and keeps a tree a tree |
| `Placing.Normalized` | page/page.go:347-351 | the height pass keeps the set of bubbles and changes nothing but height fields |
| `Placing.ReleasedKeepsTree` | page/page.go:400-421 | a drop whose anchor is not below the grabbed bubble keeps a tree, and the grabbed bubble ends under the target, whether it still hangs from the parent recorded at the grab or has left it |
| `Placing.ShakenLooseKeepsRecord` | page/page.go:416 | taking the grabbed bubble out of its parent during a drag keeps the tree and keeps the parent recorded at the grab valid for the drop |
| `Placing.Released` | page/page.go:400-421 | the drop keeps the bubbles of the retargeted forest |
| `Placing.AfterRelease` | page/page.go:400-427 | the drop followed by the height pass leaves a tree holding every bubble it started with |
| `Placing.Retargeted` | page/page.go:404-415 | retargeting keeps a tree, loses no bubble, and yields a target in the forest |
| `Placing.RetargetedParent` | page/page.go:404-415 | retargeting moves no bubble except a wrapped `b`, which lands in the new loop under `b`'s old parent |
| `Placing.RetargetedBelowAnchor` | page/page.go:404-415 | the retargeted drop target is not below the grabbed bubble |
| `Placing.WrappedLoop` | page/page.go:408-413 | the buffer loop takes `b`'s place under its parent, has `b`'s kind and position, no label and `b` as its one child |
| `Placing.Wrapped` | page/page.go:408-413 | wrapping a labelled bubble keeps a tree and adds exactly the loop |
| `Placing.WrappedParents` | page/page.go:408-413 | wrapping changes no parent link but `b`'s |
| `Placing.WrappedAbove` | page/page.go:408-413 | a bubble is above the new loop exactly when it was above `b`'s old parent |
| `Placing.CancelMeansDual` | page/page.go:373-386 | a cancellation pairs a White region, a Black target inside it, and a grabbed bubble rendering as the target recoloured White |
| `Placing.Placement` | page/page.go:367-398 | the verdict of `CanPlaceAt`; it has no contract of its own, `Pages.Decide` computes it and the `Placing` lemmas state what each verdict implies |
| `Placing.Unhooked` | page/page.go:380 | `other.Parent.Detach(other)` keeps a tree and its bubbles and leaves `other` parentless |
| `Placing.Cancelled` | page/page.go:379-386 | the cancellation keeps a tree and the set of bubbles |
| `Placing.CancelledInTree` | page/page.go:379-386 | after a cancellation both the grabbed bubble and the target hang free and no other bubble changes parent |
| `Placing.BlackAllowsOnlyOutside` | page/page.go:390-394 | under a Black parent, an allowed target is never in the grabbed bubble's own subtree |
| `Placing.WhiteAllowsOwnSubtree` | page/page.go:373-377 | under a White parent a target inside the grabbed bubble's own subtree can be allowed |
| `Pages.Page.constructor` | page/page.go:83-100 | a new page holds only a Background root, nothing grabbed or highlighted, and mode "Create" |
| `Pages.Page.IsHighlighted` | page/page.go:165-172 | true exactly when the bubble is non-nil and among the highlighted |
| `Pages.Page.InAssumptionMode` | page/page.go:174-176 | an assumption pair is set and both of its bubbles are; it has no contract of its own |
| `Pages.Page.NormalizeHeight` | page/page.go:347-351 | the forest becomes the height pass from the root |
| `Pages.NormalizeBelow` | page/page.go:347-351 | the loop of `normalizeHeight` calls in `Iterate` order computes `Normalized` |
| `Pages.Page.Grab` | page/page.go:353-359 | the bubble becomes grabbed, its parent is recorded, the grab point is stored, it alone is highlighted, the forest is untouched |
| `Pages.Decide` | page/page.go:367-398 | computes the verdict of `Placement`; a cancellation needs a grabbed bubble, a recorded parent and a target |
| `Pages.Page.CanPlaceAt` | page/page.go:367-398 | the answer is true unless `Placement` refuses; a cancellation leaves the forest `Cancelled` and clears the drag; otherwise nothing changes |
| `Pages.Page.CancelGrabbed` | page/page.go:380-385 | the target leaves its parent, the recorded parent detaches the grabbed bubble, and the drag and highlight are cleared |
| `Pages.CancelIn` | page/page.go:380-381 | on the arena alone, the forest becomes `Cancelled`, still a tree with the same bubbles, and no id is allocated |
| `Pages.UnhookIn` | page/page.go:380 | on the arena alone, the forest becomes `Unhooked` and no id is allocated |
| `Pages.Page.ReleaseInto` | page/page.go:400-427 | the drag ends; with nothing grabbed only the height pass runs; otherwise the forest becomes the drop followed by the height pass, and the grabbed bubble alone is highlighted |
| `Pages.Page.DropGrabbed` | page/page.go:401-423 | with a bubble grabbed, the forest becomes `Released` and the grabbed bubble alone is highlighted |
| `Pages.ReleaseIn` | page/page.go:404-421 | on the arena alone, the forest becomes `Released`, a tree keeping every old bubble, also when the grabbed bubble has left its recorded parent |
| `Pages.Retarget` | page/page.go:404-415 | the retargeting of a labelled drop target, allocating the loop at the next free id |
| `Scenarios.TestHeights` | page/bubble_test.go:9-28 | on any tree where the four bubbles start loose, the height pass after each step of the test gives the heights it expects |
| `Scenarios.InsertsLeaveHeights` | page/bubble_test.go:14-17 | straight after the first two inserts both heights are still 0 |
| `Scenarios.FirstDetach` | page/bubble_test.go:18 | the first `b.Detach(c)` leaves `b` childless and `c` parentless |
| `Scenarios.SecondDetach` | page/bubble_test.go:25 | the second `b.Detach(c)` leaves `d` in `c`'s slot under `b` |
| `Scenarios.LeafDuals` | page/page.go:373-389 | a White leaf dropped on a Black leaf of the same White region cancels with it exactly when their labels agree, and is refused otherwise |

## Left out

- vll.go and page/draw.go are not part of this model, nor is the drawing half of page/page.go. That covers the window, the input loop, the concurrent position updater, the metaball maths and the font atlas.
- `Distance` (floating point), `Random` and the seeded generator, `Name` and `Sprint` (debug text) and the `fmt.Println` in `Detach` are left out.
- Integers are unbounded: the 64-bit wrap-around of Go's `int` in the coordinate sums of `CenterOfMass` and `MoveBy` is not modelled.
- Slices: a nil slice and an empty one are both `[]`, and the aliasing of a slice's backing array between `Children` lists is not modelled. Go's `Siblings` returns nil for a parentless bubble; the model returns `[]`.
- `InAssumptionMode` is modelled as the plain predicate `Pages.Page.InAssumptionMode`. It has no contract beyond its body. Nothing in the two files sets `AssumptionPair`.
- `NewBubble`, called by `NewPage` and by `ReleaseInto` at page/page.go:409, is defined in neither file. The model takes it to be `newBubble` of page/bubble.go:101-108 (`Bubbles.Arena.Alloc`, used by `Pages.Retarget`, and `Tree.NewBubble`).
- nil arguments are not modelled where the model takes a `BubbleId`: Go's `Insert` with a nil child panics at page/bubble.go:221, `Grab(nil)` panics at page/page.go:355, and `Detach` with a nil child does nothing. `Bubbles.Arena.Insert`, `Bubbles.Arena.Detach` and `Pages.Page.Grab` take a bubble id, so these cases are dropped. A nil receiver of `Insert` and `Detach` is modelled.
- `Pages.Page.Valid` asks for a tree (`Tree.IsTree`) holding the root and, while a bubble is grabbed, for the recorded parent to be its parent or for the bubble to have no parent. Go assumes the tree. The second case is the editor deleting a bubble shaken loose during a drag; `ReleaseInto` tests for it at page/page.go:416, and `Placing.ShakenLooseKeepsRecord` shows it keeps the page valid. The delete itself is not part of this model. A grabbed bubble moved under another parent during a drag is outside `Valid`.
- Pages.Page.ReleaseInto: requires a target whenever a bubble is grabbed, requires a parent for a labelled target, and requires that the anchor of the drop not be below the grabbed bubble. Go would crash in the first two cases and create a cycle in the third.
- Pages.Page.CanPlaceAt: requires `Placing.RendersGrabbed`. With nothing grabbed but a White parent still recorded, Go would crash rendering the nil grabbed bubble against a Black target. That state is reachable: `ReleaseInto` ends the drag but keeps the recorded parent (`Pages.Page.ReleaseInto` states this), so a later `CanPlaceAt` on a Black bubble inside that White parent would crash.
- Bubbles.Arena.CenterAroundChildren: requires at least one child. Go divides by zero for a leaf.
- Bubbles.MovedByInTree: states the shift only for bubbles that are not ancestors of the moved one. An ancestor's position is whatever the recentring gives, which `RecenterAlong` states.
- Bubbles.Siblings: requires a non-empty child list at the parent, which Go needs for the slice capacity; in a tree that always holds.
- Placing.WhiteAllowsOwnSubtree: a single concrete forest, as it shows a possibility, not a law.
- Scenarios.LeafDuals: requires both labels non-empty. A White leaf with no label renders "1", and so does the opposite of a Black leaf labelled "1".

## Findings

| source | as written | input that shows it | evidently intended | confidence | as-written member | corrected member |
|---|---|---|---|---|---|---|
| page/bubble_test.go:14-17 | the test reads `a.Height` and `b.Height` straight after `a.Insert(b)` and `b.Insert(c)` and expects 2 and 1; neither `Insert` nor `Detach` writes a height | the four bubbles of the test: after the two inserts both heights are still 0 | the heights the test expects are those after the height pass from `a` that `Page.NormalizeHeight` runs after each edit | not executed | `Scenarios.InsertsLeaveHeights` | `Scenarios.TestHeights` |
