/** Quickhull as the source writes it: a baseline from the first minimum-x and
    the first maximum-x point, and a recursive step that scans the whole point
    list for a point whose side value EQUALS the flag it was given, then
    recurses on both halves of the split with a flag computed from `Side`.
    The recursion need not terminate (see `QuickhullDiverges`), so the model
    carries the depth the interpreter allows: `None` stands for the
    interpreter's recursion error. */
module Quickhull {
  import opened Geometry

  datatype Option<T> = None | Some(value: T)

  function Abs(v: int): (a: int)
    ensures a >= 0 && (a == v || a == -v)
  {
    if v < 0 then -v else v
  }

  /** The index of the point `min(points, key=x)` returns: the first point with
      the smallest x. */
  function FirstMinX(points: seq<Point>): (k: nat)
    requires |points| > 0
    ensures k < |points|
    ensures forall j :: 0 <= j < |points| ==> points[k].x <= points[j].x
    ensures forall j :: 0 <= j < k ==> points[k].x < points[j].x
  {
    if |points| == 1 then 0
    else
      var k := FirstMinX(points[..|points| - 1]);
      if points[|points| - 1].x < points[k].x then |points| - 1 else k
  }

  /** The index of the point `max(points, key=x)` returns: the first point with
      the largest x. */
  function FirstMaxX(points: seq<Point>): (k: nat)
    requires |points| > 0
    ensures k < |points|
    ensures forall j :: 0 <= j < |points| ==> points[j].x <= points[k].x
    ensures forall j :: 0 <= j < k ==> points[j].x < points[k].x
  {
    if |points| == 1 then 0
    else
      var k := FirstMaxX(points[..|points| - 1]);
      if points[|points| - 1].x > points[k].x then |points| - 1 else k
  }

  /** The first index whose point has side value exactly `flag` with respect
      to the line p1 -> p2, if there is one. */
  function FirstOnSide(points: seq<Point>, p1: Point, p2: Point, flag: int): (k: Option<nat>)
    ensures k.Some? ==> k.value < |points| && Side(p1, p2, points[k.value]) == flag
    ensures k.Some? ==> forall j :: 0 <= j < k.value ==> Side(p1, p2, points[j]) != flag
    ensures k.None? ==> forall j :: 0 <= j < |points| ==> Side(p1, p2, points[j]) != flag
  {
    if points == [] then None
    else if Side(p1, p2, points[0]) == flag then Some(0)
    else
      match FirstOnSide(points[1..], p1, p2, flag)
      case None => None
      case Some(k) => Some(k + 1)
  }

  /** The point the scan of quickhull_util keeps: none for a zero flag (a side
      value of 0 never beats the initial distance 0), otherwise the first
      point whose side value equals the flag, since every such point has the
      same distance |flag| and the strict comparison keeps the first. */
  function Selected(points: seq<Point>, p1: Point, p2: Point, flag: int): Option<Point>
  {
    if flag == 0 then None
    else
      match FirstOnSide(points, p1, p2, flag)
      case None => None
      case Some(k) => Some(points[k])
  }

  /** The scan keeps no point exactly when the flag is 0 or no point's side
      value equals it; otherwise it keeps the first point, in index order,
      whose side value equals the flag, and that point is never one of the
      line's endpoints. */
  lemma SelectedSpec(points: seq<Point>, p1: Point, p2: Point, flag: int)
    ensures Selected(points, p1, p2, flag).None?
        <==> flag == 0 || forall j :: 0 <= j < |points| ==> Side(p1, p2, points[j]) != flag
    ensures Selected(points, p1, p2, flag).Some? ==>
      exists k :: 0 <= k < |points| && points[k] == Selected(points, p1, p2, flag).value
        && Side(p1, p2, points[k]) == flag
        && forall j :: 0 <= j < k ==> Side(p1, p2, points[j]) != flag
    ensures Selected(points, p1, p2, flag).Some? ==>
      Selected(points, p1, p2, flag).value != p1 && Selected(points, p1, p2, flag).value != p2
  {
    SideOfEndpoints(p1, p2);
    if flag != 0 {
      match FirstOnSide(points, p1, p2, flag)
      case None =>
      case Some(k) =>
        assert Side(p1, p2, points[k]) == flag;
    }
  }

  /** The loop of quickhull_util: keep the point whose side value equals the
      flag and whose distance |side| is strictly larger than the best so far. */
  method FarthestPoint(points: seq<Point>, p1: Point, p2: Point, flag: int) returns (maxPoint: Option<Point>)
    ensures maxPoint == Selected(points, p1, p2, flag)
  {
    var maxDist := 0;
    maxPoint := None;
    ghost var at := 0;
    for i := 0 to |points|
      invariant maxPoint.None? ==> maxDist == 0
      invariant maxPoint.None? ==> flag == 0 || forall j :: 0 <= j < i ==> Side(p1, p2, points[j]) != flag
      invariant maxPoint.Some? ==> flag != 0 && maxDist == Abs(flag) && at < i
      invariant maxPoint.Some? ==> maxPoint.value == points[at] && Side(p1, p2, points[at]) == flag
      invariant maxPoint.Some? ==> forall j :: 0 <= j < at ==> Side(p1, p2, points[j]) != flag
    {
      var temp := Abs(Side(p1, p2, points[i]));
      if Side(p1, p2, points[i]) == flag && temp > maxDist {
        maxDist := temp;
        maxPoint := Some(points[i]);
        at := i;
      }
    }
    if maxPoint.Some? {
      ghost var k := FirstOnSide(points, p1, p2, flag);
      assert k.Some? && k.value == at;
    }
  }

  /** left ++ [m] ++ right, failing when either recursive call failed. */
  function Join(left: Option<seq<Point>>, m: Point, right: Option<seq<Point>>): Option<seq<Point>>
  {
    if left.Some? && right.Some? then Some(left.value + [m] + right.value) else None
  }

  /** What quickhull_util(points, p1, p2, flag) returns when the interpreter
      allows `depth` more nested calls, and None when it needs more: the
      empty list when the scan keeps no point, and otherwise the split at the
      point it keeps. */
  function Chain(points: seq<Point>, p1: Point, p2: Point, flag: int, depth: nat): Option<seq<Point>>
    decreases depth, 0
  {
    if depth == 0 then None
    else
      match Selected(points, p1, p2, flag)
      case None => Some([])
      case Some(m) => Split(points, p1, p2, m, depth - 1)
  }

  /** The two recursive calls of quickhull_util around the kept point m, each
      with the flag the source computes for it, joined as left ++ [m] ++ right. */
  function Split(points: seq<Point>, p1: Point, p2: Point, m: Point, depth: nat): Option<seq<Point>>
    decreases depth, 1
  {
    Join(Chain(points, p1, m, -Side(p1, m, p2), depth), m, Chain(points, m, p2, -Side(m, p2, p1), depth))
  }

  /** A call that succeeds within some recursion limit gives the same
      result under every larger limit: the limit only decides whether the
      recursion error is raised, never what a successful call returns. */
  lemma {:induction false} ChainMono(points: seq<Point>, p1: Point, p2: Point, flag: int, d1: nat, d2: nat)
    requires d1 <= d2 && Chain(points, p1, p2, flag, d1).Some?
    ensures Chain(points, p1, p2, flag, d2) == Chain(points, p1, p2, flag, d1)
    decreases d1
  {
    match Selected(points, p1, p2, flag)
    case None =>
    case Some(m) =>
      var leftFlag, rightFlag := -Side(p1, m, p2), -Side(m, p2, p1);
      assert Chain(points, p1, m, leftFlag, d1 - 1).Some? && Chain(points, m, p2, rightFlag, d1 - 1).Some?;
      ChainMono(points, p1, m, leftFlag, d1 - 1, d2 - 1);
      ChainMono(points, m, p2, rightFlag, d1 - 1, d2 - 1);
  }

  /** quickhull_util, with the scan as a loop and the two recursive calls. */
  method QuickhullUtil(points: seq<Point>, p1: Point, p2: Point, flag: int, depth: nat)
    returns (r: Option<seq<Point>>)
    ensures r == Chain(points, p1, p2, flag, depth)
    decreases depth
  {
    if depth == 0 {
      return None;
    }
    var maxPoint := FarthestPoint(points, p1, p2, flag);
    if maxPoint.None? {
      return Some([]);
    }
    var m := maxPoint.value;
    var left := QuickhullUtil(points, p1, m, -Side(p1, m, p2), depth - 1);
    if left.None? {
      return None;
    }
    var right := QuickhullUtil(points, m, p2, -Side(m, p2, p1), depth - 1);
    if right.None? {
      return None;
    }
    r := Some(left.value + [m] + right.value);
  }

  /** Every point of a chain is an input point, and a chain is empty exactly
      when the scan keeps no point. */
  lemma {:induction false} ChainMembers(points: seq<Point>, p1: Point, p2: Point, flag: int, depth: nat)
    decreases depth
    ensures Chain(points, p1, p2, flag, depth).Some? ==>
      forall q :: q in Chain(points, p1, p2, flag, depth).value ==> q in points
    ensures Chain(points, p1, p2, flag, depth).Some? ==>
      (Chain(points, p1, p2, flag, depth).value == [] <==> Selected(points, p1, p2, flag).None?)
  {
    if depth > 0 {
      match Selected(points, p1, p2, flag)
      case None =>
      case Some(m) =>
        ChainMembers(points, p1, m, -Side(p1, m, p2), depth - 1);
        ChainMembers(points, m, p2, -Side(m, p2, p1), depth - 1);
    }
  }

  /** In exact arithmetic both recursive calls receive the parent's own flag:
      the result is left ++ [m] ++ right, where both halves look for points
      with the same side value as m had. */
  lemma ChainKeepsFlag(points: seq<Point>, p1: Point, p2: Point, flag: int, depth: nat, m: Point)
    requires depth > 0
    requires Selected(points, p1, p2, flag) == Some(m)
    ensures Chain(points, p1, p2, flag, depth)
         == Join(Chain(points, p1, m, flag, depth - 1), m, Chain(points, m, p2, flag, depth - 1))
  {
    var leftFlag, rightFlag := -Side(p1, m, p2), -Side(m, p2, p1);
    assert leftFlag == flag && rightFlag == flag by {
      SideRotation(p1, p2, m);
    }
    assert Chain(points, p1, p2, flag, depth)
        == Join(Chain(points, p1, m, leftFlag, depth - 1), m, Chain(points, m, p2, rightFlag, depth - 1));
  }

  /** A zero flag, or a flag no point's side value equals, gives the empty
      chain (given one call's worth of depth). */
  lemma ChainEmpty(points: seq<Point>, p1: Point, p2: Point, flag: int, depth: nat)
    requires depth > 0
    requires flag == 0 || forall q :: q in points ==> Side(p1, p2, q) != flag
    ensures Chain(points, p1, p2, flag, depth) == Some([])
  {
    assert flag == 0 || forall j :: 0 <= j < |points| ==> Side(p1, p2, points[j]) != flag by {
      if flag != 0 {
        forall j | 0 <= j < |points| ensures Side(p1, p2, points[j]) != flag {
          assert points[j] in points;
        }
      }
    }
  }

  /** What quickhull(points) returns when the interpreter allows `depth` more
      nested calls of quickhull_util, and None when it needs more. */
  function Hull(points: seq<Point>, depth: nat): Option<seq<Point>>
  {
    if |points| < 3 then Some(points)
    else
      var minPoint, maxPoint := points[FirstMinX(points)], points[FirstMaxX(points)];
      var upper := Chain(points, minPoint, maxPoint, 1, depth);
      var lower := Chain(points, minPoint, maxPoint, -1, depth);
      if upper.Some? && lower.Some? then Some(upper.value + lower.value + [minPoint, maxPoint]) else None
  }

  /** quickhull: the chain on side 1, then the chain on side -1, then the
      baseline's two endpoints. */
  method Quickhull(points: seq<Point>, depth: nat) returns (hull: Option<seq<Point>>)
    ensures hull == Hull(points, depth)
  {
    if |points| < 3 {
      return Some(points);
    }
    var minPoint := points[FirstMinX(points)];
    var maxPoint := points[FirstMaxX(points)];
    var upper := QuickhullUtil(points, minPoint, maxPoint, 1, depth);
    if upper.None? {
      return None;
    }
    var lower := QuickhullUtil(points, minPoint, maxPoint, -1, depth);
    if lower.None? {
      return None;
    }
    var result := [];
    result := result + upper.value;
    result := result + lower.value;
    result := result + [minPoint];
    result := result + [maxPoint];
    assert result == upper.value + lower.value + [minPoint, maxPoint];
    hull := Some(result);
  }

  /** Fewer than three points come back unchanged; otherwise a result ends
      with the first minimum-x point followed by the first maximum-x point,
      and it fails exactly when one of the two chains fails. */
  lemma HullShape(points: seq<Point>, depth: nat)
    ensures |points| < 3 ==> Hull(points, depth) == Some(points)
    ensures |points| >= 3 ==>
      (Hull(points, depth).None? <==>
         (|| Chain(points, points[FirstMinX(points)], points[FirstMaxX(points)], 1, depth).None?
          || Chain(points, points[FirstMinX(points)], points[FirstMaxX(points)], -1, depth).None?))
    ensures |points| >= 3 && Hull(points, depth).Some? ==>
      var h := Hull(points, depth).value;
      |h| >= 2 && h[|h| - 2] == points[FirstMinX(points)] && h[|h| - 1] == points[FirstMaxX(points)]
  {
  }

  /** A quickhull result within some recursion limit is the result under
      every larger limit. */
  lemma HullMono(points: seq<Point>, d1: nat, d2: nat)
    requires d1 <= d2 && Hull(points, d1).Some?
    ensures Hull(points, d2) == Hull(points, d1)
  {
    if |points| >= 3 {
      var minPoint, maxPoint := points[FirstMinX(points)], points[FirstMaxX(points)];
      ChainMono(points, minPoint, maxPoint, 1, d1, d2);
      ChainMono(points, minPoint, maxPoint, -1, d1, d2);
    }
  }

  /** A result holds input points only. */
  lemma HullMembers(points: seq<Point>, depth: nat)
    ensures Hull(points, depth).Some? ==> forall q :: q in Hull(points, depth).value ==> q in points
  {
    if |points| >= 3 {
      var minPoint, maxPoint := points[FirstMinX(points)], points[FirstMaxX(points)];
      ChainMembers(points, minPoint, maxPoint, 1, depth);
      ChainMembers(points, minPoint, maxPoint, -1, depth);
    }
  }

  /** When every point lies on the baseline, the result is the baseline's two
      endpoints (given one call's worth of depth). */
  lemma HullCollinear(points: seq<Point>, depth: nat)
    requires |points| >= 3 && depth > 0
    requires forall q :: q in points ==> Side(points[FirstMinX(points)], points[FirstMaxX(points)], q) == 0
    ensures Hull(points, depth) == Some([points[FirstMinX(points)], points[FirstMaxX(points)]])
  {
    var minPoint, maxPoint := points[FirstMinX(points)], points[FirstMaxX(points)];
    ChainEmpty(points, minPoint, maxPoint, 1, depth);
    ChainEmpty(points, minPoint, maxPoint, -1, depth);
    HullOfEmptyChains(points, depth);
  }

  /** Two empty chains leave the baseline's endpoints alone. */
  lemma HullOfEmptyChains(points: seq<Point>, depth: nat)
    requires |points| >= 3
    requires Chain(points, points[FirstMinX(points)], points[FirstMaxX(points)], 1, depth) == Some([])
    requires Chain(points, points[FirstMinX(points)], points[FirstMaxX(points)], -1, depth) == Some([])
    ensures Hull(points, depth) == Some([points[FirstMinX(points)], points[FirstMaxX(points)]])
  {
    var ends := [points[FirstMinX(points)], points[FirstMaxX(points)]];
    assert [] + [] + ends == ends;
  }

  /** The scan keeps the point at index k when k is the first index whose
      side value equals a non-zero flag. */
  lemma SelectedAt(points: seq<Point>, p1: Point, p2: Point, flag: int, k: nat)
    requires flag != 0 && k < |points| && Side(p1, p2, points[k]) == flag
    requires forall j :: 0 <= j < k ==> Side(p1, p2, points[j]) != flag
    ensures Selected(points, p1, p2, flag) == Some(points[k])
  {
    var first := FirstOnSide(points, p1, p2, flag);
    assert first.Some? && first.value == k;
  }

  /** A call fails when the recursive call on its left part fails. */
  lemma LeftFailure(points: seq<Point>, p1: Point, p2: Point, flag: int, depth: nat, m: Point)
    requires depth > 0 && Selected(points, p1, p2, flag) == Some(m)
    requires Chain(points, p1, m, flag, depth - 1) == None
    ensures Chain(points, p1, p2, flag, depth) == None
  {
    ChainKeepsFlag(points, p1, p2, flag, depth, m);
  }

  /** A call fails when the recursive call on its right part fails. */
  lemma RightFailure(points: seq<Point>, p1: Point, p2: Point, flag: int, depth: nat, m: Point)
    requires depth > 0 && Selected(points, p1, p2, flag) == Some(m)
    requires Chain(points, m, p2, flag, depth - 1) == None
    ensures Chain(points, p1, p2, flag, depth) == None
  {
    ChainKeepsFlag(points, p1, p2, flag, depth, m);
  }

  /** Three calls with the same flag whose right-hand calls lead from one to
      the next and back to the first: the call on p -> c keeps q, the call on
      q -> c keeps r, the call on r -> c keeps p. None of them ever returns,
      whatever the recursion depth. */
  lemma {:induction false} CycleDiverges(points: seq<Point>, p: Point, q: Point, r: Point, c: Point, flag: int, depth: nat)
    requires Selected(points, p, c, flag) == Some(q)
    requires Selected(points, q, c, flag) == Some(r)
    requires Selected(points, r, c, flag) == Some(p)
    ensures Chain(points, p, c, flag, depth) == None
    ensures Chain(points, q, c, flag, depth) == None
    ensures Chain(points, r, c, flag, depth) == None
  {
    if depth > 0 {
      CycleDiverges(points, p, q, r, c, flag, depth - 1);
      RightFailure(points, p, c, flag, depth, q);
      RightFailure(points, q, c, flag, depth, r);
      RightFailure(points, r, c, flag, depth, p);
    }
  }

  /** On the four points (-2,-2), (-2,-1), (-1,-1), (1,0) the recursion never
      bottoms out: the baseline runs from (-2,-2) to (1,0); its call with
      flag 1 keeps (-1,-1), and the left-hand call on (-2,-2) -> (-1,-1) is the
      first of a cycle through (-2,-1) and (1,0). So quickhull fails for every
      recursion depth. */
  lemma QuickhullDiverges(points: seq<Point>, depth: nat)
    requires points == [Point(-2, -2), Point(-2, -1), Point(-1, -1), Point(1, 0)]
    ensures FirstMinX(points) == 0 && FirstMaxX(points) == 3
    ensures Chain(points, points[0], points[3], 1, depth) == None
    ensures Hull(points, depth) == None
  {
    FourPointExtremes(points);
    FourPointUpperFails(points, depth);
    assert points[0] == Point(-2, -2) && points[3] == Point(1, 0);
    HullShape(points, depth);
  }

  /** The baseline of the four points runs from index 0 to index 3. */
  lemma FourPointExtremes(points: seq<Point>)
    requires points == [Point(-2, -2), Point(-2, -1), Point(-1, -1), Point(1, 0)]
    ensures FirstMinX(points) == 0 && FirstMaxX(points) == 3
  {
    var k := FirstMinX(points);
    assert points[k].x <= points[0].x;
    var l := FirstMaxX(points);
    assert points[3].x <= points[l].x;
  }

  /** The call on the baseline of the four points with flag 1 fails. */
  lemma FourPointUpperFails(points: seq<Point>, depth: nat)
    requires points == [Point(-2, -2), Point(-2, -1), Point(-1, -1), Point(1, 0)]
    ensures Chain(points, Point(-2, -2), Point(1, 0), 1, depth) == None
  {
    ChoiceOnBaseline(points);
    ChoiceFromFirst(points);
    ChoiceFromSecond(points);
    ChoiceFromThird(points);
    BaselineFails(points, Point(-2, -2), Point(1, 0), Point(-1, -1), Point(-2, -1), depth);
  }

  /** A call fails at every depth when its left-hand call starts a cycle of
      right-hand calls. */
  lemma BaselineFails(points: seq<Point>, a: Point, d: Point, c: Point, b: Point, depth: nat)
    requires Selected(points, a, d, 1) == Some(c)
    requires Selected(points, a, c, 1) == Some(b)
    requires Selected(points, b, c, 1) == Some(d)
    requires Selected(points, d, c, 1) == Some(a)
    ensures Chain(points, a, d, 1, depth) == None
  {
    if depth > 0 {
      CycleDiverges(points, a, b, d, c, 1, depth - 1);
      LeftFailure(points, a, d, 1, depth, c);
    }
  }

  /** The call on (-2,-2) -> (1,0) with flag 1 keeps (-1,-1). */
  lemma ChoiceOnBaseline(points: seq<Point>)
    requires points == [Point(-2, -2), Point(-2, -1), Point(-1, -1), Point(1, 0)]
    ensures Selected(points, Point(-2, -2), Point(1, 0), 1) == Some(Point(-1, -1))
  {
    var a, d := Point(-2, -2), Point(1, 0);
    forall j | 0 <= j < 2 ensures Side(a, d, points[j]) != 1 {
      if j == 0 {
        assert Side(a, d, points[0]) == 0;
      } else {
        assert Side(a, d, points[1]) == 3;
      }
    }
    assert Side(a, d, points[2]) == 1;
    SelectedAt(points, a, d, 1, 2);
  }

  /** The call on (-2,-2) -> (-1,-1) with flag 1 keeps (-2,-1). */
  lemma ChoiceFromFirst(points: seq<Point>)
    requires points == [Point(-2, -2), Point(-2, -1), Point(-1, -1), Point(1, 0)]
    ensures Selected(points, Point(-2, -2), Point(-1, -1), 1) == Some(Point(-2, -1))
  {
    var a, c := Point(-2, -2), Point(-1, -1);
    forall j | 0 <= j < 1 ensures Side(a, c, points[j]) != 1 {
      assert Side(a, c, points[0]) == 0;
    }
    assert Side(a, c, points[1]) == 1;
    SelectedAt(points, a, c, 1, 1);
  }

  /** The call on (-2,-1) -> (-1,-1) with flag 1 keeps (1,0). */
  lemma ChoiceFromSecond(points: seq<Point>)
    requires points == [Point(-2, -2), Point(-2, -1), Point(-1, -1), Point(1, 0)]
    ensures Selected(points, Point(-2, -1), Point(-1, -1), 1) == Some(Point(1, 0))
  {
    var b, c := Point(-2, -1), Point(-1, -1);
    forall j | 0 <= j < 3 ensures Side(b, c, points[j]) != 1 {
      if j == 0 {
        assert Side(b, c, points[0]) == -1;
      } else if j == 1 {
        assert Side(b, c, points[1]) == 0;
      } else {
        assert Side(b, c, points[2]) == 0;
      }
    }
    assert Side(b, c, points[3]) == 1;
    SelectedAt(points, b, c, 1, 3);
  }

  /** The call on (1,0) -> (-1,-1) with flag 1 keeps (-2,-2). */
  lemma ChoiceFromThird(points: seq<Point>)
    requires points == [Point(-2, -2), Point(-2, -1), Point(-1, -1), Point(1, 0)]
    ensures Selected(points, Point(1, 0), Point(-1, -1), 1) == Some(Point(-2, -2))
  {
    var c, d := Point(-1, -1), Point(1, 0);
    assert Side(d, c, points[0]) == 1;
    SelectedAt(points, d, c, 1, 0);
  }

  /** The three collinear points (0,0), (1,1), (2,2): both chains are empty and
      the result is the baseline (0,0), (2,2). */
  lemma CollinearThree(points: seq<Point>, depth: nat)
    requires points == [Point(0, 0), Point(1, 1), Point(2, 2)]
    requires depth > 0
    ensures FirstMinX(points) == 0 && FirstMaxX(points) == 2
    ensures Hull(points, depth) == Some([Point(0, 0), Point(2, 2)])
  {
    var k := FirstMinX(points);
    assert points[k].x <= points[0].x;
    var l := FirstMaxX(points);
    assert points[2].x <= points[l].x;
    forall q | q in points ensures Side(points[0], points[2], q) == 0 {
      assert q == points[0] || q == points[1] || q == points[2];
    }
    HullCollinear(points, depth);
  }
}
