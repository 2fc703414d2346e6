# Graham's scan and Quickhull, as written

This project models the two convex-hull routines of `Grahmvs_Quick_hull.py` and proves properties of the model. It also models the two cross-product predicates the routines use. The model follows what the code does, not what a textbook hull algorithm does.

- **Geometry** (`geometry.dfy`) holds the shared predicates.
  - `Side` is the signed double area of (p1, p2, p) that `side` returns.
  - `Orientation` maps the cross product that `orientation` computes onto 0, 1 or 2.
  - Points have exact integer coordinates.
- **GrahamScan** (`graham.dfy`) covers `graham_scan`. It picks the pivot as the first point with the smallest (y, x). It sorts by the key (angle to the pivot, x, y), with the angle as a parameter standing for `atan2`. Then it sweeps with a stack that pops while the last two points and the next one do not have orientation 1.
  - The method `ScanSorted`, which the method `GrahamScan` calls, keeps the source's `for` loop and inner `while` loop.
  - It is proved equal to the specification function `Sweep`, and the hull's properties are lemmas about `Sweep`.
- **Quickhull** (`quickhull.dfy`) covers `quickhull_util` and `quickhull`.
  - The scan loop of `quickhull_util` is the method `FarthestPoint`. It is proved equal to `Selected`, the first point whose side value *equals* the flag.
  - The recursion is the method `QuickhullUtil`. Its specification is the pair of mutually recursive functions `Chain` and `Split`.
  - `Quickhull` builds the result with the same appends as the source and is proved equal to `Hull`.

The recursion of `quickhull_util` always passes the whole point list down again, so nothing evidently shrinks. The model therefore carries `depth`, the number of nested `quickhull_util` calls the interpreter still allows. `None` stands for Python's recursion error.

The recursion of `quickhull_util` need not terminate. `QuickhullDiverges` proves that on the four points (-2,-2), (-2,-1), (-1,-1), (1,0) the call on the baseline (-2,-2) -> (1,0) with flag 1 fails at every depth. That call keeps (-1,-1), and its left-hand call, on (-2,-2) -> (-1,-1), starts a cycle of right-hand calls: (-2,-2) -> (-1,-1), then (-2,-1) -> (-1,-1), then (1,0) -> (-1,-1), then (-2,-2) -> (-1,-1) again, each with flag 1. So the recursion never bottoms out (`BaselineFails`, `CycleDiverges`).

Two more things the model shows about the code:
- Both recursive calls receive the parent's own flag (`ChainKeepsFlag`). A call on side +1 or -1 therefore only ever looks for points whose side value is exactly +1 or -1, as the top level does.
- Graham's sweep keeps a point only after a turn with orientation 1. On the square (0,0), (2,0), (2,2), (0,2) with its centre (1,1), it returns just (0,0), (0,2) (`SquareWithCentre`).

## Model

| member | source | states |
|---|---|---|
| Geometry.Side | Grahmvs_Quick_hull.py:50-52 | definition: the signed double area that `side` returns |
| Geometry.Orientation | Grahmvs_Quick_hull.py:21-25 | 0 exactly when side(p, q, r) is 0, 1 exactly when it is negative, 2 exactly when it is positive |
| Geometry.CrossIsNegatedSide | Grahmvs_Quick_hull.py:23 | the cross product `orientation` tests is the negation of side(p, q, r) |
| Geometry.SideOfEndpoints | Grahmvs_Quick_hull.py:50-52 | both endpoints of a line have side value 0 against it |
| Geometry.SideRotation | Grahmvs_Quick_hull.py:68-70 | the two flags passed to the recursive calls, -side(p1, m, p2) and -side(m, p2, p1), both equal side(p1, p2, m) |
| GrahamScan.PivotIndex | Grahmvs_Quick_hull.py:34 | the pivot is a valid index and no point is lower in (y, x); every earlier index is strictly higher, so it is the first minimum |
| GrahamScan.KeyLe | Grahmvs_Quick_hull.py:38 | definition: the sort key (angle to the pivot, x, y), compared lexicographically as Python compares the key tuples |
| GrahamScan.Insert | Grahmvs_Quick_hull.py:38 | inserting into a sorted sequence adds exactly one copy of the point and keeps it sorted by (angle, x, y) |
| GrahamScan.SortByAngle | Grahmvs_Quick_hull.py:38 | the sorted points are a permutation of the input, non-decreasing in (angle, x, y) |
| GrahamScan.SortedUnique | Grahmvs_Quick_hull.py:38 | any two permutations of the same points that are sorted by the key are equal, so the sorted order is determined |
| GrahamScan.SortedAroundPivot | Grahmvs_Quick_hull.py:34-38 | the points sorted around the pivot form a permutation of the input, sorted by the key taken around that pivot |
| GrahamScan.SortedStartsAtPivot | Grahmvs_Quick_hull.py:34-38 | with the angle facts `atan2` gives around the lowest point, the sorted order starts at the pivot |
| GrahamScan.Sweep | Grahmvs_Quick_hull.py:41-46 | definition: the stack after the loop has handled each point in order, popped by `PopWhile` and then pushed |
| GrahamScan.PopWhile | Grahmvs_Quick_hull.py:43-44 | popping leaves a prefix of the stack, never empties a non-empty stack, and stops with the last two points making orientation 1 with the next point |
| GrahamScan.SweepBounds | Grahmvs_Quick_hull.py:41-46 | the sweep keeps the first point and ends with the last; for n >= 2 points it keeps between 2 and n |
| GrahamScan.SweepSubsequence | Grahmvs_Quick_hull.py:41-46 | the hull is an order-preserving subsequence of the sorted points |
| GrahamScan.SubsequenceMultiset | Grahmvs_Quick_hull.py:41-46 | a subsequence holds no point more often than the sequence it comes from |
| GrahamScan.PopWhilePopsOnlyOnGuard | Grahmvs_Quick_hull.py:43-44 | a point is popped only while the guard holds: for every popped position k, the two points at positions k-2 and k-1 make an orientation other than 1 with the next point |
| GrahamScan.SweepTurnsClockwise | Grahmvs_Quick_hull.py:42-45 | loop invariant: every three consecutive hull points have orientation 1 |
| GrahamScan.SweepKeepsClockwise | Grahmvs_Quick_hull.py:42-45 | conversely, input that already has orientation 1 at every turn is kept whole |
| GrahamScan.PopWhileCollinear | Grahmvs_Quick_hull.py:43-44 | when the stack's points are collinear with the next point, everything but the first is popped |
| GrahamScan.SweepCollinear | Grahmvs_Quick_hull.py:42-45 | on collinear input the hull is exactly the first and the last sorted point |
| GrahamScan.SweepTestedCollinear | Grahmvs_Quick_hull.py:42-45 | when none of the triples the loop tests, (s[0], s[i-1], s[i]), has orientation 1, the hull is exactly the first and the last sorted point |
| GrahamScan.SweepOfSorted | Grahmvs_Quick_hull.py:41-46 | for n >= 3: subsequence of the sorted order, no point used more often than in the input, first and last sorted points kept, length between 2 and n, orientation 1 at every turn, and only the two end points on collinear input or when no tested triple has orientation 1 |
| GrahamScan.GrahamScan | Grahmvs_Quick_hull.py:27-46 | fewer than three points come back unchanged; otherwise the result is the sweep over the points sorted around the pivot, with every property of `SweepOfSorted` |
| GrahamScan.ScanSorted | Grahmvs_Quick_hull.py:40-45 | the stack the for loop and its inner pop loop leave is `Sweep` of the sorted points |
| GrahamScan.SquareWithCentre | Grahmvs_Quick_hull.py:27-46 | the square (0,0), (2,0), (2,2), (0,2) with centre (1,1) sorts to (0,0), (2,0), (1,1), (2,2), (0,2), and the hull is (0,0), (0,2) |
| GrahamScan.SweepOfSquare | Grahmvs_Quick_hull.py:41-46 | the sweep over that sorted order pops back to (0,0) at every step and returns (0,0), (0,2) |
| GrahamScan.SweepPopsBackToFirst | Grahmvs_Quick_hull.py:42-45 | the five-point instance of `SweepTestedCollinear`: when each of the last three points fails to make orientation 1 with the first point and the point before it, the stack ends as the first and the last point |
| GrahamScan.SweepStepPopsOne | Grahmvs_Quick_hull.py:43-45 | a two-point stack whose next point does not make orientation 1 pops one point and then pushes the next point |
| GrahamScan.SweepOfTwo | Grahmvs_Quick_hull.py:41-46 | two points are both kept |
| Quickhull.Abs | Grahmvs_Quick_hull.py:60 | the distance is non-negative and is the value or its negation |
| Quickhull.FirstMinX | Grahmvs_Quick_hull.py:78 | `min_point` is the first point with the smallest x |
| Quickhull.FirstMaxX | Grahmvs_Quick_hull.py:79 | `max_point` is the first point with the largest x |
| Quickhull.FirstOnSide | Grahmvs_Quick_hull.py:59-63 | the first index whose side value equals the flag, or none when no index has it |
| Quickhull.Selected | Grahmvs_Quick_hull.py:56-66 | definition: no point for a zero flag, otherwise the point at the first index `FirstOnSide` finds; its properties are in `SelectedSpec` and `SelectedAt` |
| Quickhull.SelectedSpec | Grahmvs_Quick_hull.py:56-66 | the scan keeps no point exactly when the flag is 0 or no side value equals it; otherwise it keeps the first point with that side value, which is never p1 or p2 |
| Quickhull.SelectedAt | Grahmvs_Quick_hull.py:59-63 | the first index whose side value equals a non-zero flag is the point the scan keeps |
| Quickhull.FarthestPoint | Grahmvs_Quick_hull.py:56-63 | the loop over max_dist and max_point ends with the point `Selected` describes |
| Quickhull.Chain | Grahmvs_Quick_hull.py:54-70 | definition: with no depth left, failure; otherwise the empty list when the scan keeps no point, and the split at the kept point when it keeps one |
| Quickhull.Split | Grahmvs_Quick_hull.py:68-70 | definition: the left-hand call on (p1, m) with flag -side(p1, m, p2) and the right-hand call on (m, p2) with flag -side(m, p2, p1), joined as left ++ [m] ++ right and failing when either fails |
| Quickhull.QuickhullUtil | Grahmvs_Quick_hull.py:54-70 | the recursive method returns what `Chain` describes for the same depth |
| Quickhull.ChainMembers | Grahmvs_Quick_hull.py:54-70 | a returned chain holds input points only, and it is empty exactly when the scan keeps no point |
| Quickhull.ChainKeepsFlag | Grahmvs_Quick_hull.py:68-70 | a call that keeps m returns left ++ [m] ++ right, where both recursive calls carry the parent's own flag |
| Quickhull.ChainEmpty | Grahmvs_Quick_hull.py:65-66 | a zero flag, or a flag no side value equals, gives the empty list |
| Quickhull.ChainMono | Grahmvs_Quick_hull.py:54-70 | a call that returns within some recursion limit returns the same list under every larger limit |
| Quickhull.LeftFailure | Grahmvs_Quick_hull.py:68 | a call fails when its left-hand recursive call fails |
| Quickhull.RightFailure | Grahmvs_Quick_hull.py:70 | a call fails when its right-hand recursive call fails |
| Quickhull.CycleDiverges | Grahmvs_Quick_hull.py:68-70 | three calls whose right-hand calls lead from one to the next and back fail at every depth |
| Quickhull.BaselineFails | Grahmvs_Quick_hull.py:68-70 | a call whose left-hand call starts such a cycle fails at every depth |
| Quickhull.Hull | Grahmvs_Quick_hull.py:72-87 | definition: fewer than three points unchanged; otherwise the chain on side 1, then the chain on side -1, then min_point, then max_point, failing when either chain fails |
| Quickhull.Quickhull | Grahmvs_Quick_hull.py:72-87 | the method's appends return what `Hull` describes |
| Quickhull.HullShape | Grahmvs_Quick_hull.py:74-87 | fewer than three points come back unchanged; otherwise the result fails exactly when a chain fails, and it ends with min_point then max_point |
| Quickhull.HullMembers | Grahmvs_Quick_hull.py:78-87 | every point of the result is an input point |
| Quickhull.HullMono | Grahmvs_Quick_hull.py:72-87 | a quickhull result within some recursion limit is the same under every larger limit |
| Quickhull.HullCollinear | Grahmvs_Quick_hull.py:78-87 | when every side(min_point, max_point, p) is 0, the result is exactly [min_point, max_point] |
| Quickhull.HullOfEmptyChains | Grahmvs_Quick_hull.py:82-87 | two empty chains leave [min_point, max_point] |
| Quickhull.QuickhullDiverges | Grahmvs_Quick_hull.py:72-87 | on (-2,-2), (-2,-1), (-1,-1), (1,0) the baseline runs from index 0 to index 3, the call with flag 1 fails, and quickhull fails at every depth |
| Quickhull.FourPointExtremes | Grahmvs_Quick_hull.py:78-79 | the baseline of those four points runs from index 0 to index 3 |
| Quickhull.FourPointUpperFails | Grahmvs_Quick_hull.py:83 | the upper call on those four points fails at every depth |
| Quickhull.ChoiceOnBaseline | Grahmvs_Quick_hull.py:59-63 | on the baseline (-2,-2) -> (1,0) with flag 1 the scan keeps (-1,-1) |
| Quickhull.ChoiceFromFirst | Grahmvs_Quick_hull.py:59-63 | on (-2,-2) -> (-1,-1) with flag 1 the scan keeps (-2,-1) |
| Quickhull.ChoiceFromSecond | Grahmvs_Quick_hull.py:59-63 | on (-2,-1) -> (-1,-1) with flag 1 the scan keeps (1,0) |
| Quickhull.ChoiceFromThird | Grahmvs_Quick_hull.py:59-63 | on (1,0) -> (-1,-1) with flag 1 the scan keeps (-2,-2) |
| Quickhull.CollinearThree | Grahmvs_Quick_hull.py:72-87 | on (0,0), (1,1), (2,2) the baseline runs from index 0 to index 2 and the result is (0,0), (2,2) |

## Left out

- `generate_random_points` and `import_points_from_file` (Grahmvs_Quick_hull.py:8-17): random numbers and file input are not modelled.
- `visualize_step_by_step`, `compare_algorithms` and the main block (Grahmvs_Quick_hull.py:91-142): plotting, interactive input, timing and printing are not modelled.
- Floating point: coordinates are exact integers, so rounding in `side`, `orientation` and the comparisons is not modelled.
- `atan2` is the parameter `angle`. Properties that need its values take them as hypotheses (`SortedStartsAtPivot`, `SquareWithCentre`).
- The interpreter's recursion limit is the parameter `depth`. Its actual value, and the stack it guards, are not modelled.
- Lists are values. That `graham_scan` and `quickhull` return the caller's own list object for fewer than three points (aliasing) is not modelled, and neither is the in-place `pop`, `append` and `extend` on a shared list. The methods rebind sequence variables instead.
- Hull correctness (convexity, containing every input point, agreement between the two algorithms) is not stated, because the code does not deliver it: the sweep pops on counter-clockwise turns, and the flags are compared with `==`.
- Termination of `quickhull_util` is not proved, because it does not hold (`QuickhullDiverges`).
- ChainEmpty: needs at least one call's worth of depth, because with none left even the first call fails. The same holds for `HullCollinear` and `CollinearThree`.
- SortedStartsAtPivot: states that the sorted order starts at the pivot only under the stated `atan2` facts. Without them the angle is arbitrary and the property does not follow.
