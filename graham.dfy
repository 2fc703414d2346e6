/** Graham's scan as the source writes it: pick the lowest (then leftmost)
    pivot, sort by (angle to the pivot, x, y), and sweep with a stack that pops
    while the last two stack points and the next point do not have
    orientation 1. The angle (`atan2` in the source) is a parameter, so nothing
    here depends on its numeric values. */
module GrahamScan {
  import opened Geometry

  /** (y, x) of a is lexicographically smaller than (y, x) of b. */
  predicate LowerThan(a: Point, b: Point)
  {
    a.y < b.y || (a.y == b.y && a.x < b.x)
  }

  /** The index `min(range(n), key=(y, x))` picks: the first index whose point
      has the smallest (y, x). */
  function PivotIndex(points: seq<Point>): (l: nat)
    requires |points| > 0
    ensures l < |points|
    ensures forall j :: 0 <= j < |points| ==> !LowerThan(points[j], points[l])
    ensures forall j :: 0 <= j < l ==> LowerThan(points[l], points[j])
  {
    if |points| == 1 then 0
    else
      var l := PivotIndex(points[..|points| - 1]);
      if LowerThan(points[|points| - 1], points[l]) then |points| - 1 else l
  }

  /** The sort key (angle(p0, p), p.x, p.y), compared lexicographically. */
  predicate KeyLe(angle: (Point, Point) -> real, p0: Point, a: Point, b: Point)
  {
    angle(p0, a) < angle(p0, b) ||
    (angle(p0, a) == angle(p0, b) && (a.x < b.x || (a.x == b.x && a.y <= b.y)))
  }

  /** s is non-decreasing in the sort key. */
  predicate SortedByKey(angle: (Point, Point) -> real, p0: Point, s: seq<Point>)
  {
    forall i, j :: 0 <= i < j < |s| ==> KeyLe(angle, p0, s[i], s[j])
  }

  /** Inserting p into a sorted sequence keeps it sorted and adds p once. */
  function Insert(angle: (Point, Point) -> real, p0: Point, p: Point, s: seq<Point>): (r: seq<Point>)
    requires SortedByKey(angle, p0, s)
    ensures multiset(r) == multiset(s) + multiset{p}
    ensures forall k :: 0 <= k < |r| ==> r[k] == p || r[k] in s
    ensures SortedByKey(angle, p0, r)
  {
    if s == [] then [p]
    else if KeyLe(angle, p0, p, s[0]) then
      SortedCons(angle, p0, p, s);
      [p] + s
    else
      var t := Insert(angle, p0, p, s[1..]);
      assert s == [s[0]] + s[1..];
      assert forall k :: 0 <= k < |t| ==> KeyLe(angle, p0, s[0], t[k]);
      SortedCons(angle, p0, s[0], t);
      [s[0]] + t
  }

  lemma SortedCons(angle: (Point, Point) -> real, p0: Point, x: Point, t: seq<Point>)
    requires SortedByKey(angle, p0, t)
    requires forall k :: 0 <= k < |t| ==> KeyLe(angle, p0, x, t[k])
    ensures SortedByKey(angle, p0, [x] + t)
  {
    var r := [x] + t;
    forall i, j | 0 <= i < j < |r| ensures KeyLe(angle, p0, r[i], r[j]) {
      assert r[j] == t[j - 1];
      if i > 0 { assert r[i] == t[i - 1]; }
    }
  }

  /** The source's `sorted(points, key=...)`: a permutation of the input that is
      non-decreasing in the sort key. */
  function SortByAngle(angle: (Point, Point) -> real, p0: Point, s: seq<Point>): (r: seq<Point>)
    ensures multiset(r) == multiset(s)
    ensures SortedByKey(angle, p0, r)
  {
    if s == [] then []
    else
      assert s == [s[0]] + s[1..];
      Insert(angle, p0, s[0], SortByAngle(angle, p0, s[1..]))
  }

  /** Two sorted permutations of the same points are equal: the key holds the
      point itself, so no two different points tie, and the order the source's
      `sorted` produces is the one `SortByAngle` produces. */
  lemma {:induction false} SortedUnique(angle: (Point, Point) -> real, p0: Point, a: seq<Point>, b: seq<Point>)
    requires multiset(a) == multiset(b)
    requires SortedByKey(angle, p0, a) && SortedByKey(angle, p0, b)
    ensures a == b
  {
    if a != [] {
      SortedHeads(angle, p0, a, b);
      DropHead(a);
      DropHead(b);
      assert SortedByKey(angle, p0, a[1..]) && SortedByKey(angle, p0, b[1..]);
      SortedUnique(angle, p0, a[1..], b[1..]);
      assert a == [a[0]] + a[1..] && b == [b[0]] + b[1..];
    }
  }

  /** Two sorted permutations of the same non-empty points start alike. */
  lemma SortedHeads(angle: (Point, Point) -> real, p0: Point, a: seq<Point>, b: seq<Point>)
    requires a != [] && multiset(a) == multiset(b)
    requires SortedByKey(angle, p0, a) && SortedByKey(angle, p0, b)
    ensures b != [] && a[0] == b[0]
  {
    assert |b| == |multiset(b)| == |multiset(a)| == |a|;
    assert b[0] in multiset(a);
    var i :| 0 <= i < |a| && a[i] == b[0];
    assert a[0] in multiset(b);
    var j :| 0 <= j < |b| && b[j] == a[0];
    assert KeyLe(angle, p0, a[0], a[i]) || i == 0;
    assert KeyLe(angle, p0, b[0], b[j]) || j == 0;
  }

  /** Dropping the first element removes one copy of it. */
  lemma DropHead(a: seq<Point>)
    requires a != []
    ensures multiset(a[1..]) == multiset(a) - multiset{a[0]}
  {
    assert a == [a[0]] + a[1..];
  }

  /** The pivot of the source and the points sorted around it. */
  function SortedAroundPivot(angle: (Point, Point) -> real, points: seq<Point>): (r: seq<Point>)
    requires |points| > 0
    ensures multiset(r) == multiset(points)
    ensures SortedByKey(angle, points[PivotIndex(points)], r)
  {
    SortByAngle(angle, points[PivotIndex(points)], points)
  }

  /** Pop the stack while it holds at least two points and its last two points
      and p do not have orientation 1. */
  function PopWhile(hull: seq<Point>, p: Point): (r: seq<Point>)
    ensures |r| <= |hull| && r == hull[..|r|]
    ensures |hull| >= 1 ==> |r| >= 1
    ensures |r| >= 2 ==> Orientation(r[|r| - 2], r[|r| - 1], p) == 1
    decreases |hull|
  {
    if |hull| > 1 && Orientation(hull[|hull| - 2], hull[|hull| - 1], p) != 1
    then PopWhile(hull[..|hull| - 1], p)
    else hull
  }

  /** The stack after the sweep has handled every point of s, in order. */
  function Sweep(s: seq<Point>): seq<Point>
  {
    if s == [] then []
    else PopWhile(Sweep(s[..|s| - 1]), s[|s| - 1]) + [s[|s| - 1]]
  }

  /** a occurs in b in the same order, possibly with gaps. */
  predicate IsSubsequence(a: seq<Point>, b: seq<Point>)
    decreases |b|
  {
    if a == [] then true
    else if b == [] then false
    else (a[|a| - 1] == b[|b| - 1] && IsSubsequence(a[..|a| - 1], b[..|b| - 1]))
         || IsSubsequence(a, b[..|b| - 1])
  }

  /** Every three consecutive points have orientation 1 (the cross product the
      source tests is positive: a clockwise turn). */
  predicate TurnsClockwise(h: seq<Point>)
  {
    forall i :: 0 <= i < |h| - 2 ==> Orientation(h[i], h[i + 1], h[i + 2]) == 1
  }

  /** Every three points of s are collinear. */
  predicate AllCollinear(s: seq<Point>)
  {
    forall a, b, c {:trigger Orientation(a, b, c)} :: a in s && b in s && c in s ==> Orientation(a, b, c) == 0
  }

  lemma {:induction false} SubsequencePrefix(a: seq<Point>, b: seq<Point>, k: nat)
    requires IsSubsequence(a, b) && k <= |a|
    ensures IsSubsequence(a[..k], b)
    decreases |b|
  {
    if k == 0 {
    } else if k == |a| {
      assert a[..k] == a;
    } else if a[|a| - 1] == b[|b| - 1] && IsSubsequence(a[..|a| - 1], b[..|b| - 1]) {
      SubsequencePrefix(a[..|a| - 1], b[..|b| - 1], k);
      assert a[..|a| - 1][..k] == a[..k];
      SubsequenceExtend(a[..k], b[..|b| - 1], b[|b| - 1]);
      assert b[..|b| - 1] + [b[|b| - 1]] == b;
    } else {
      SubsequencePrefix(a, b[..|b| - 1], k);
      SubsequenceExtend(a[..k], b[..|b| - 1], b[|b| - 1]);
      assert b[..|b| - 1] + [b[|b| - 1]] == b;
    }
  }

  lemma {:induction false} SubsequenceExtend(a: seq<Point>, b: seq<Point>, p: Point)
    requires IsSubsequence(a, b)
    ensures IsSubsequence(a, b + [p])
  {
    if a != [] {
      assert (b + [p])[..|b|] == b;
    }
  }

  /** A subsequence uses each point of b at most as often as b holds it. */
  lemma {:induction false} SubsequenceMultiset(a: seq<Point>, b: seq<Point>)
    requires IsSubsequence(a, b)
    ensures multiset(a) <= multiset(b)
    decreases |b|
  {
    if a != [] {
      assert b == b[..|b| - 1] + [b[|b| - 1]];
      if a[|a| - 1] == b[|b| - 1] && IsSubsequence(a[..|a| - 1], b[..|b| - 1]) {
        SubsequenceMultiset(a[..|a| - 1], b[..|b| - 1]);
        assert a == a[..|a| - 1] + [a[|a| - 1]];
      } else {
        SubsequenceMultiset(a, b[..|b| - 1]);
      }
    }
  }

  /** The sweep keeps the first point (it is never popped) and ends with the
      last one; for two or more points it keeps at least two and never more
      than it was given. */
  lemma {:induction false} SweepBounds(s: seq<Point>)
    requires s != []
    ensures 1 <= |Sweep(s)| <= |s|
    ensures |s| >= 2 ==> |Sweep(s)| >= 2
    ensures Sweep(s)[0] == s[0]
    ensures Sweep(s)[|Sweep(s)| - 1] == s[|s| - 1]
  {
    var init := s[..|s| - 1];
    if init != [] {
      SweepBounds(init);
      assert init[0] == s[0];
    }
  }

  /** The sweep's stack is an order-preserving subsequence of its input. */
  lemma {:induction false} SweepSubsequence(s: seq<Point>)
    ensures IsSubsequence(Sweep(s), s)
  {
    if s != [] {
      var init, p := s[..|s| - 1], s[|s| - 1];
      SweepSubsequence(init);
      var kept := PopWhile(Sweep(init), p);
      SubsequencePrefix(Sweep(init), init, |kept|);
      assert IsSubsequence(kept, init);
      var r := kept + [p];
      assert Sweep(s) == r;
      assert r[..|r| - 1] == kept && r[|r| - 1] == p;
      assert IsSubsequence(r, s);
    }
  }

  /** The loop invariant of the sweep: the stack turns clockwise at every point. */
  lemma {:induction false} SweepTurnsClockwise(s: seq<Point>)
    ensures TurnsClockwise(Sweep(s))
  {
    if s != [] {
      var init, p := s[..|s| - 1], s[|s| - 1];
      SweepTurnsClockwise(init);
      var h := Sweep(init);
      PushKeepsClockwise(h, PopWhile(h, p), p);
    }
  }

  /** Pushing p onto a prefix of a clockwise stack whose top two points make
      orientation 1 with p leaves a clockwise stack. */
  lemma PushKeepsClockwise(h: seq<Point>, kept: seq<Point>, p: Point)
    requires TurnsClockwise(h)
    requires |kept| <= |h| && kept == h[..|kept|]
    requires |kept| >= 2 ==> Orientation(kept[|kept| - 2], kept[|kept| - 1], p) == 1
    ensures TurnsClockwise(kept + [p])
  {
    var r := kept + [p];
    forall i | 0 <= i < |r| - 2
      ensures Orientation(r[i], r[i + 1], r[i + 2]) == 1
    {
      if i + 2 < |kept| {
        assert r[i] == h[i] && r[i + 1] == h[i + 1] && r[i + 2] == h[i + 2];
      }
    }
  }

  /** When the points of the stack are collinear with p, every point but the
      first is popped. */
  lemma {:induction false} PopWhileCollinear(hull: seq<Point>, p: Point)
    requires |hull| >= 1
    requires forall a, b :: a in hull && b in hull ==> Orientation(a, b, p) == 0
    ensures PopWhile(hull, p) == hull[..1]
    decreases |hull|
  {
    if |hull| > 1 {
      assert hull[|hull| - 2] in hull && hull[|hull| - 1] in hull;
      var shorter := hull[..|hull| - 1];
      assert forall a :: a in shorter ==> a in hull;
      PopWhileCollinear(shorter, p);
      assert shorter[..1] == hull[..1];
    }
  }

  /** When every triple of the input is collinear, the sweep pops every point
      but the first and returns the first and last points only. */
  lemma {:induction false} SweepCollinear(s: seq<Point>)
    requires |s| >= 2
    requires AllCollinear(s)
    ensures Sweep(s) == [s[0], s[|s| - 1]]
  {
    forall i | 2 <= i < |s| ensures Orientation(s[0], s[i - 1], s[i]) != 1 {
      assert s[0] in s && s[i - 1] in s && s[i] in s;
    }
    SweepTestedCollinear(s);
  }

  /** The other half of the inner loop's contract: a point is popped only
      while the guard holds, so every popped position k saw its two top
      points make an orientation other than 1 with p. */
  lemma {:induction false} PopWhilePopsOnlyOnGuard(hull: seq<Point>, p: Point, k: nat)
    requires |PopWhile(hull, p)| < k <= |hull|
    ensures k >= 2 && Orientation(hull[k - 2], hull[k - 1], p) != 1
    decreases |hull|
  {
    var shorter := hull[..|hull| - 1];
    assert PopWhile(hull, p) == PopWhile(shorter, p);
    if k < |hull| {
      PopWhilePopsOnlyOnGuard(shorter, p, k);
      assert shorter[k - 2] == hull[k - 2] && shorter[k - 1] == hull[k - 1];
    }
  }

  /** The converse of `SweepTurnsClockwise`: a sequence that already turns
      with orientation 1 at every point is kept whole. */
  lemma {:induction false} SweepKeepsClockwise(s: seq<Point>)
    requires TurnsClockwise(s)
    ensures Sweep(s) == s
  {
    if s != [] {
      var init, p := s[..|s| - 1], s[|s| - 1];
      ClockwisePrefix(s);
      SweepKeepsClockwise(init);
      ClockwiseTop(s);
      SweepPushes(init, p);
      SplitLast(s);
    }
  }

  /** A non-empty sequence is its prefix followed by its last element. */
  lemma SplitLast(s: seq<Point>)
    requires s != []
    ensures s[..|s| - 1] + [s[|s| - 1]] == s
  {
  }

  /** Dropping the last point keeps every turn of orientation 1. */
  lemma ClockwisePrefix(s: seq<Point>)
    requires s != [] && TurnsClockwise(s)
    ensures TurnsClockwise(s[..|s| - 1])
  {
    var init := s[..|s| - 1];
    forall i | 0 <= i < |init| - 2
      ensures Orientation(init[i], init[i + 1], init[i + 2]) == 1
    {
      assert init[i] == s[i] && init[i + 1] == s[i + 1] && init[i + 2] == s[i + 2];
    }
  }

  /** The last turn of a sequence with orientation 1 at every turn, in terms
      of its prefix and its last point. */
  lemma ClockwiseTop(s: seq<Point>)
    requires s != [] && TurnsClockwise(s)
    ensures var init := s[..|s| - 1];
      |init| <= 1 || Orientation(init[|init| - 2], init[|init| - 1], s[|s| - 1]) == 1
  {
    if |s| >= 3 {
      assert Orientation(s[|s| - 3], s[|s| - 2], s[|s| - 1]) == 1;
    }
  }

  /** When the sweep of init keeps all of init and its top two points make
      orientation 1 with p, nothing is popped and p is pushed. */
  lemma SweepPushes(init: seq<Point>, p: Point)
    requires Sweep(init) == init
    requires |init| <= 1 || Orientation(init[|init| - 2], init[|init| - 1], p) == 1
    ensures Sweep(init + [p]) == init + [p]
  {
    var s := init + [p];
    assert s[..|s| - 1] == init && s[|s| - 1] == p;
    assert PopWhile(init, p) == init;
  }

  /** The collinear case in terms of the triples the loop tests: when no point
      s[i] makes orientation 1 with s[0] and the point before it, every point
      but the first is popped in turn, and the stack ends as the first and the
      last point. */
  lemma {:induction false} SweepTestedCollinear(s: seq<Point>)
    requires |s| >= 2
    requires forall i :: 2 <= i < |s| ==> Orientation(s[0], s[i - 1], s[i]) != 1
    ensures Sweep(s) == [s[0], s[|s| - 1]]
  {
    if |s| == 2 {
      SweepOfTwo(s);
    } else {
      var init := s[..|s| - 1];
      forall i | 2 <= i < |init| ensures Orientation(init[0], init[i - 1], init[i]) != 1 {
        assert init[0] == s[0] && init[i - 1] == s[i - 1] && init[i] == s[i];
      }
      SweepTestedCollinear(init);
      assert Orientation(s[0], s[|s| - 2], s[|s| - 1]) != 1;
      SweepStepPopsOne(s, s[0], s[|s| - 2]);
    }
  }

  /** When the pivot's angle to itself is below the angle of every
      higher point and equal to the angle of every point level with it and to
      its right (as `atan2` gives), the sorted order starts at the pivot, so the
      hull does too. */
  lemma SortedStartsAtPivot(angle: (Point, Point) -> real, points: seq<Point>, p0: Point)
    requires |points| > 0 && p0 == points[PivotIndex(points)]
    requires forall q: Point :: q.y > p0.y ==> angle(p0, p0) < angle(p0, q)
    requires forall q: Point :: q.y == p0.y && q.x >= p0.x ==> angle(p0, q) == angle(p0, p0)
    ensures SortedAroundPivot(angle, points)[0] == p0
  {
    var l := PivotIndex(points);
    var s := SortedAroundPivot(angle, points);
    assert points[l] in multiset(s);
    var k :| 0 <= k < |s| && s[k] == p0;
    assert s[0] in multiset(points);
    var j :| 0 <= j < |points| && points[j] == s[0];
    assert !LowerThan(s[0], p0);
    assert KeyLe(angle, p0, p0, s[0]);
    assert k == 0 || KeyLe(angle, p0, s[0], s[k]);
  }

  /** What the sweep over the sorted points promises: an order-preserving
      subsequence of that order that keeps its first and last points, holds
      between 2 and n points, uses no point more often than the input does,
      turns clockwise at every point and is only the two extreme points when
      the input is collinear or when no tested turn has orientation 1. */
  lemma SweepOfSorted(angle: (Point, Point) -> real, points: seq<Point>)
    requires |points| >= 3
    ensures
      var s := SortedAroundPivot(angle, points);
      var hull := Sweep(s);
      && IsSubsequence(hull, s)
      && multiset(hull) <= multiset(points)
      && hull[0] == s[0] && hull[|hull| - 1] == s[|s| - 1]
      && 2 <= |hull| <= |points|
      && TurnsClockwise(hull)
      && (AllCollinear(points) ==> hull == [s[0], s[|s| - 1]])
      && ((forall i :: 2 <= i < |s| ==> Orientation(s[0], s[i - 1], s[i]) != 1) ==> hull == [s[0], s[|s| - 1]])
  {
    var s := SortedAroundPivot(angle, points);
    assert |s| == |points| by {
      assert |multiset(s)| == |multiset(points)|;
    }
    SweepBounds(s);
    SweepSubsequence(s);
    SubsequenceMultiset(Sweep(s), s);
    SweepTurnsClockwise(s);
    if AllCollinear(points) {
      assert forall q :: q in s ==> q in points by {
        forall q | q in s ensures q in points {
          assert q in multiset(s);
        }
      }
      SweepCollinear(s);
    }
    if forall i :: 2 <= i < |s| ==> Orientation(s[0], s[i - 1], s[i]) != 1 {
      SweepTestedCollinear(s);
    }
  }

  /** graham_scan. Fewer than three points come back unchanged; otherwise the
      result is the sweep over the points sorted around the pivot, with the
      properties `SweepOfSorted` states. */
  method GrahamScan(points: seq<Point>, angle: (Point, Point) -> real) returns (hull: seq<Point>)
    ensures |points| < 3 ==> hull == points
    ensures |points| >= 3 ==> hull == Sweep(SortedAroundPivot(angle, points))
    ensures |points| >= 3 ==>
      var s := SortedAroundPivot(angle, points);
      && IsSubsequence(hull, s)
      && multiset(hull) <= multiset(points)
      && hull[0] == s[0] && hull[|hull| - 1] == s[|s| - 1]
      && 2 <= |hull| <= |points|
      && TurnsClockwise(hull)
      && (AllCollinear(points) ==> hull == [s[0], s[|s| - 1]])
      && ((forall i :: 2 <= i < |s| ==> Orientation(s[0], s[i - 1], s[i]) != 1) ==> hull == [s[0], s[|s| - 1]])
  {
    var n := |points|;
    if n < 3 {
      return points;
    }
    var l := PivotIndex(points);
    var p0 := points[l];
    var sortedPoints := SortByAngle(angle, p0, points);
    hull := ScanSorted(sortedPoints);
    SweepOfSorted(angle, points);
  }

  /** The stack loop of graham_scan over the sorted points: for each point,
      pop while the top two stack points and it do not have orientation 1,
      then push it. The stack it leaves is `Sweep` of the points. */
  method ScanSorted(sortedPoints: seq<Point>) returns (hull: seq<Point>)
    ensures hull == Sweep(sortedPoints)
  {
    hull := [];
    for i := 0 to |sortedPoints|
      invariant hull == Sweep(sortedPoints[..i])
    {
      var point := sortedPoints[i];
      while |hull| > 1 && Orientation(hull[|hull| - 2], hull[|hull| - 1], point) != 1
        invariant PopWhile(hull, point) == PopWhile(Sweep(sortedPoints[..i]), point)
        decreases |hull|
      {
        hull := hull[..|hull| - 1];
      }
      assert sortedPoints[..i + 1][..i] == sortedPoints[..i];
      hull := hull + [point];
    }
    assert sortedPoints[..|sortedPoints|] == sortedPoints;
  }

  /** The square with corners (0,0), (2,0), (2,2), (0,2) and its centre (1,1):
      with the angles `atan2` gives around the pivot (0,0), the scan keeps only
      (0,0) and (0,2), since it pops on every counter-clockwise turn. */
  lemma SquareWithCentre(angle: (Point, Point) -> real, points: seq<Point>)
    requires points == [Point(0, 0), Point(2, 0), Point(2, 2), Point(0, 2), Point(1, 1)]
    requires angle(Point(0, 0), Point(0, 0)) == angle(Point(0, 0), Point(2, 0))
    requires angle(Point(0, 0), Point(2, 0)) < angle(Point(0, 0), Point(1, 1))
    requires angle(Point(0, 0), Point(1, 1)) == angle(Point(0, 0), Point(2, 2))
    requires angle(Point(0, 0), Point(2, 2)) < angle(Point(0, 0), Point(0, 2))
    ensures SortedAroundPivot(angle, points) == [Point(0, 0), Point(2, 0), Point(1, 1), Point(2, 2), Point(0, 2)]
    ensures Sweep(SortedAroundPivot(angle, points)) == [Point(0, 0), Point(0, 2)]
  {
    var expected := [Point(0, 0), Point(2, 0), Point(1, 1), Point(2, 2), Point(0, 2)];
    SquarePivot(points);
    SquareSameElements(points, expected);
    SquareSorted(angle, expected);
    SortedUnique(angle, Point(0, 0), SortedAroundPivot(angle, points), expected);
    SweepOfSquare(expected);
  }

  /** The pivot of the square with its centre is (0,0), at index 0. */
  lemma SquarePivot(points: seq<Point>)
    requires points == [Point(0, 0), Point(2, 0), Point(2, 2), Point(0, 2), Point(1, 1)]
    ensures PivotIndex(points) == 0
  {
    var l := PivotIndex(points);
    assert !LowerThan(points[0], points[l]);
  }

  /** The expected order holds the same points as the input. */
  lemma SquareSameElements(points: seq<Point>, expected: seq<Point>)
    requires points == [Point(0, 0), Point(2, 0), Point(2, 2), Point(0, 2), Point(1, 1)]
    requires expected == [Point(0, 0), Point(2, 0), Point(1, 1), Point(2, 2), Point(0, 2)]
    ensures multiset(expected) == multiset(points)
  {
  }

  /** With those angles the expected order is sorted around (0,0). */
  lemma SquareSorted(angle: (Point, Point) -> real, expected: seq<Point>)
    requires expected == [Point(0, 0), Point(2, 0), Point(1, 1), Point(2, 2), Point(0, 2)]
    requires angle(Point(0, 0), Point(0, 0)) == angle(Point(0, 0), Point(2, 0))
    requires angle(Point(0, 0), Point(2, 0)) < angle(Point(0, 0), Point(1, 1))
    requires angle(Point(0, 0), Point(1, 1)) == angle(Point(0, 0), Point(2, 2))
    requires angle(Point(0, 0), Point(2, 2)) < angle(Point(0, 0), Point(0, 2))
    ensures SortedByKey(angle, Point(0, 0), expected)
  {
  }

  /** The sweep over the sorted square with its centre: (1,1) makes a
      counter-clockwise turn after (2,0), (2,2) is collinear with (0,0) and
      (1,1), and (0,2) makes a counter-clockwise turn after (2,2); each time the
      stack pops back to (0,0). */
  lemma SweepOfSquare(s: seq<Point>)
    requires s == [Point(0, 0), Point(2, 0), Point(1, 1), Point(2, 2), Point(0, 2)]
    ensures Sweep(s) == [Point(0, 0), Point(0, 2)]
  {
    SquareTurnAtCentre();
    SquareTurnOnDiagonal();
    SquareTurnAtTop();
    SweepPopsBackToFirst(s, Point(0, 0), Point(2, 0), Point(1, 1), Point(2, 2), Point(0, 2));
  }

  /** Five points where each of the last three fails to make orientation 1
      with the first point and the point before it: the stack pops back to
      the first point every time. */
  lemma SweepPopsBackToFirst(s: seq<Point>, o: Point, a: Point, m: Point, c: Point, t: Point)
    requires s == [o, a, m, c, t]
    requires Orientation(o, a, m) != 1 && Orientation(o, m, c) != 1 && Orientation(o, c, t) != 1
    ensures Sweep(s) == [o, t]
  {
    forall i | 2 <= i < |s| ensures Orientation(s[0], s[i - 1], s[i]) != 1 {
      if i == 2 {
      } else if i == 3 {
      } else {
        assert i == 4;
      }
    }
    SweepTestedCollinear(s);
  }

  /** (0,0), (2,0), (1,1) turn counter-clockwise. */
  lemma SquareTurnAtCentre()
    ensures Orientation(Point(0, 0), Point(2, 0), Point(1, 1)) == 2
  {
    assert Side(Point(0, 0), Point(2, 0), Point(1, 1)) == 2;
  }

  /** (0,0), (1,1), (2,2) lie on one line. */
  lemma SquareTurnOnDiagonal()
    ensures Orientation(Point(0, 0), Point(1, 1), Point(2, 2)) == 0
  {
    assert Side(Point(0, 0), Point(1, 1), Point(2, 2)) == 0;
  }

  /** (0,0), (2,2), (0,2) turn counter-clockwise. */
  lemma SquareTurnAtTop()
    ensures Orientation(Point(0, 0), Point(2, 2), Point(0, 2)) == 2
  {
    assert Side(Point(0, 0), Point(2, 2), Point(0, 2)) == 4;
  }

  /** Two points are both kept. */
  lemma SweepOfTwo(s: seq<Point>)
    requires |s| == 2
    ensures Sweep(s) == s
  {
    assert s[..1][..0] == [];
    assert Sweep(s[..1]) == [s[0]];
    assert [s[0]] + [s[1]] == s;
  }

  /** When the stack holds two points and the next point does not make
      orientation 1 with them, the second is popped and the next point pushed. */
  lemma SweepStepPopsOne(s: seq<Point>, a: Point, b: Point)
    requires |s| >= 2 && Sweep(s[..|s| - 1]) == [a, b]
    requires Orientation(a, b, s[|s| - 1]) != 1
    ensures Sweep(s) == [a, s[|s| - 1]]
  {
    assert [a, b][..1] == [a];
    assert PopWhile([a, b], s[|s| - 1]) == [a];
  }
}
