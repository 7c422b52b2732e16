/** Steps five to seven of the tag detector: oriented segments, the segments that may follow each, and the quads. */
module TagDetectors {
  import opened Arithmetic
  import opened Chains
  import opened Gridders
  import opened MathUtil
  import opened Quads

  type Point = (real, real)

  /** The cosine and sine of an angle. */
  type Direction = real -> Point

  /** A line fitted to a cluster, from (x0, y0) to (x1, y1). */
  datatype Segment = Segment(x0: real, y0: real, x1: real, y1: real, theta: real, length: real)

  // ----- step five: which way a segment runs -----

  function HalfTurned(theta: real): real {
    theta + PI
  }

  /** Unit vectors that turn over after half a turn. */
  ghost predicate IsDirection(dir: Direction) {
    forall t {:trigger dir(HalfTurned(t))} ::
      dir(HalfTurned(t)) == (-dir(t).0, -dir(t).1) && dir(t).0 * dir(t).0 + dir(t).1 * dir(t).1 == 1.0
  }

  /** The points p0 and p1 of a fitted line of this length, whose angle is angle or, flipped, half a turn more. */
  function Oriented(dir: Direction, p0: Point, p1: Point, length: real, angle: real, flip: bool): Segment {
    var theta := if flip then HalfTurned(angle) else angle;
    var dot := (p1.0 - p0.0) * dir(theta).0 + (p1.1 - p0.1) * dir(theta).1;
    if dot > 0.0 then Segment(p1.0, p1.1, p0.0, p0.1, theta, length)
    else Segment(p0.0, p0.1, p1.0, p1.1, theta, length)
  }

  /** The segment runs against its theta. */
  predicate Drawn(dir: Direction, s: Segment) {
    s.length > 0.0
    && s.x1 - s.x0 == -(s.length * dir(s.theta).0) && s.y1 - s.y0 == -(s.length * dir(s.theta).1)
  }

  lemma SquareSum(l: real, c: real, s: real)
    requires c * c + s * s == 1.0
    ensures l * c * c + l * s * s == l
  {
    assert l * c * c + l * s * s == l * (c * c + s * s);
  }

  /** Whichever way the votes go, step five draws the segment against its theta. */
  lemma OrientedIsDrawn(dir: Direction, p0: Point, p1: Point, length: real, angle: real, flip: bool)
    requires IsDirection(dir) && length > 0.0
    requires p1.0 - p0.0 == length * dir(angle).0 && p1.1 - p0.1 == length * dir(angle).1
    ensures Drawn(dir, Oriented(dir, p0, p1, length, angle, flip))
  {
    var c, s := dir(angle).0, dir(angle).1;
    assert dir(HalfTurned(angle)) == (-c, -s);
    SquareSum(length, c, s);
    var dot := (p1.0 - p0.0) * c + (p1.1 - p0.1) * s;
    assert dot == length;
    assert (p1.0 - p0.0) * (-c) + (p1.1 - p0.1) * (-s) == -dot;
  }

  // ----- lines -----

  /** A line through (px, py). */
  datatype Line = Line(dx: real, dy: real, px: real, py: real)

  function LineOf(s: Segment): Line {
    Line(s.x1 - s.x0, s.y1 - s.y0, s.x0, s.y0)
  }

  function Determinant(a: Line, b: Line): real {
    a.dx * -b.dy - -b.dx * a.dy
  }

  /** intersectionWith: (-1, 0) for lines that are parallel, or nearly so. */
  function IntersectionWith(a: Line, b: Line): Point {
    var det := Determinant(a, b);
    if Abs(det) < 0.0000000001 then (-1.0, 0.0)
    else
      var x00 := -b.dy / det * (b.px - a.px) + b.dx / det * (b.py - a.py);
      (a.dx * x00 + a.px, a.dy * x00 + a.py)
  }

  ghost predicate OnLine(p: Point, l: Line) {
    (p.0 - l.px) * l.dy == (p.1 - l.py) * l.dx
  }

  /** Where the second line meets the first, by the parameter of the first. */
  lemma MeetingPoint(a: Line, b: Line, t: real)
    requires t * Determinant(a, b) == -b.dy * (b.px - a.px) + b.dx * (b.py - a.py)
    ensures OnLine((a.dx * t + a.px, a.dy * t + a.py), a) && OnLine((a.dx * t + a.px, a.dy * t + a.py), b)
  {
    var u, v := b.px - a.px, b.py - a.py;
    assert t * Determinant(a, b) == -(t * a.dx * b.dy) + t * b.dx * a.dy;
    assert (a.dx * t - u) * b.dy == t * a.dx * b.dy - u * b.dy;
    assert (a.dy * t - v) * b.dx == t * b.dx * a.dy - v * b.dx;
    assert (a.dx * t) * a.dy == (a.dy * t) * a.dx;
  }

  /** The intersection of lines that are not nearly parallel lies on both. */
  lemma IntersectionIsOnBoth(a: Line, b: Line)
    requires Abs(Determinant(a, b)) >= 0.0000000001
    ensures OnLine(IntersectionWith(a, b), a) && OnLine(IntersectionWith(a, b), b)
  {
    var det, u, v := Determinant(a, b), b.px - a.px, b.py - a.py;
    var i, j := -b.dy / det, b.dx / det;
    assert i * det == -b.dy && j * det == b.dx;
    var t := i * u + j * v;
    assert t * det == (i * det) * u + (j * det) * v;
    MeetingPoint(a, b, t);
  }

  /** distance2D(p, q) > d. */
  predicate Farther(p: Point, q: Point, d: real) {
    d < 0.0 || (p.0 - q.0) * (p.0 - q.0) + (p.1 - q.1) * (p.1 - q.1) > d * d
  }

  // ----- step six: who may follow whom -----

  /** The tests that a child has to pass. */
  predicate MayFollow(parent: Segment, child: Segment) {
    Mod2pi(child.theta - parent.theta) <= 0.0
    && var p := IntersectionWith(LineOf(parent), LineOf(child));
       p.0 != -1.0 && !Farther(p, (parent.x1, parent.y1), parent.length)
       && !Farther(p, (child.x0, child.y0), parent.length)
  }

  lemma SameDirection(dir: Direction, theta: real, k: int)
    requires IsDirection(dir)
    ensures dir(Turn(theta, k)) == dir(theta)
    decreases if k < 0 then -k else k
  {
    if k == 0 {
      assert Turn(theta, 0) == theta;
    } else {
      var m := if k > 0 then k - 1 else k + 1;
      SameDirection(dir, theta, m);
      var low := if k > 0 then Turn(theta, m) else Turn(theta, k);
      var high := if k > 0 then Turn(theta, k) else Turn(theta, m);
      assert high == HalfTurned(HalfTurned(low));
      assert dir(HalfTurned(low)) == (-dir(low).0, -dir(low).1);
    }
  }

  lemma CrossProduct(a: real, b: real, c: real, s: real)
    ensures -(a * c) * (b * s) - -(b * c) * (a * s) == 0.0
    ensures -(a * c) * -(b * s) - (b * c) * (a * s) == 0.0
  {
    assert (a * c) * (b * s) == (b * c) * (a * s);
  }

  /** Segments whose directions differ by whole or half turns are parallel. */
  lemma ParallelDoesNotFollow(dir: Direction, p: Segment, c: Segment)
    requires Drawn(dir, p) && Drawn(dir, c)
    requires dir(c.theta) == dir(p.theta) || dir(c.theta) == (-dir(p.theta).0, -dir(p.theta).1)
    ensures !MayFollow(p, c)
  {
    var x, y := dir(p.theta).0, dir(p.theta).1;
    CrossProduct(p.length, c.length, x, y);
    assert Determinant(LineOf(p), LineOf(c)) == 0.0;
  }

  /** A child turns right from its parent, by less than half a turn. */
  lemma FollowerTurnsRight(dir: Direction, p: Segment, c: Segment)
    requires IsDirection(dir) && Drawn(dir, p) && Drawn(dir, c) && MayFollow(p, c)
    ensures RightTurn(p.theta, c.theta)
  {
    var k := Mod2piWraps(c.theta - p.theta);
    SameDirection(dir, p.theta, -k);
    if Mod2pi(c.theta - p.theta) == 0.0 {
      assert c.theta == Turn(p.theta, -k);
      ParallelDoesNotFollow(dir, p, c);
    } else if Mod2pi(c.theta - p.theta) == -PI {
      assert HalfTurned(c.theta) == Turn(p.theta, -k);
      assert dir(HalfTurned(c.theta)) == (-dir(c.theta).0, -dir(c.theta).1);
      ParallelDoesNotFollow(dir, p, c);
    }
  }

  // ----- the same by points on the lines -----

  /** The point is on the line through both ends of the segment. */
  predicate OnLineOf(p: Point, s: Segment) {
    (p.0 - s.x0) * (s.y1 - s.y0) == (p.1 - s.y0) * (s.x1 - s.x0)
  }

  /** The cross product of two segments: the product of their lengths and of the sine between them. */
  function Cross(a: Segment, b: Segment): real {
    (a.x1 - a.x0) * (b.y1 - b.y0) - (a.y1 - a.y0) * (b.x1 - b.x0)
  }

  /** At least a ten-thousand-millionth. */
  predicate NotParallel(a: Segment, b: Segment) {
    Cross(a, b) <= -0.0000000001 || Cross(a, b) >= 0.0000000001
  }

  predicate Near(p: Point, q: Point, d: real) {
    (p.0 - q.0) * (p.0 - q.0) + (p.1 - q.1) * (p.1 - q.1) <= d * d
  }

  /** The lines of parent and child meet in p, near the end of the one and the start of the other. */
  ghost predicate MeetNear(parent: Segment, child: Segment, p: Point) {
    && OnLineOf(p, parent) && OnLineOf(p, child) && p.0 != -1.0
    && Near(p, (parent.x1, parent.y1), parent.length) && Near(p, (child.x0, child.y0), parent.length)
  }

  /** What a parent and its child look like. */
  ghost predicate TurnsInto(parent: Segment, child: Segment) {
    RightTurn(parent.theta, child.theta) && NotParallel(parent, child)
    && exists p: Point :: MeetNear(parent, child, p)
  }

  /** Lines that are not parallel meet in one point. */
  lemma MeetOnce(a: Segment, b: Segment, p: Point, q: Point)
    requires Cross(a, b) != 0.0
    requires OnLineOf(p, a) && OnLineOf(p, b) && OnLineOf(q, a) && OnLineOf(q, b)
    ensures p == q
  {
    hide OnLineOf;
    AlongLine(p, q, a);
    AlongLine(p, q, b);
    Cramer(p.0 - q.0, p.1 - q.1, a.x1 - a.x0, a.y1 - a.y0, b.x1 - b.x0, b.y1 - b.y0);
  }

  lemma AlongLine(p: Point, q: Point, s: Segment)
    requires OnLineOf(p, s) && OnLineOf(q, s)
    ensures (p.0 - q.0) * (s.y1 - s.y0) == (p.1 - q.1) * (s.x1 - s.x0)
  {
    Difference(p.0 - s.x0, q.0 - s.x0, s.y1 - s.y0, p.1 - s.y0, q.1 - s.y0, s.x1 - s.x0);
  }

  lemma Difference(x: real, y: real, r: real, z: real, w: real, t: real)
    requires x * r == z * t && y * r == w * t
    ensures (x - y) * r == (z - w) * t
  {}

  lemma Cramer(u: real, v: real, dx: real, dy: real, ex: real, ey: real)
    requires u * dy == v * dx && u * ey == v * ex && dx * ey - dy * ex != 0.0
    ensures u == 0.0 && v == 0.0
  {
    var det := dx * ey - dy * ex;
    assert u * det == dx * (u * ey) - ex * (u * dy);
    assert v * det == (v * dx) * ey - (v * ex) * dy;
    assert dx * (v * ex) == ex * (v * dx);
    assert (u * dy) * ey == (u * ey) * dy;
    ZeroFactor(u, det);
    ZeroFactor(v, det);
  }

  lemma ZeroFactor(x: real, y: real)
    requires x * y == 0.0 && y != 0.0
    ensures x == 0.0
  {}

  /** The tests accept a drawn child of a drawn parent if and only if it turns right, by less than half a turn, and the
      lines, not nearly parallel, meet near the end of the parent and the start of the child. */
  lemma MayFollowIff(dir: Direction, p: Segment, c: Segment)
    requires IsDirection(dir) && Drawn(dir, p) && Drawn(dir, c)
    ensures MayFollow(p, c) <==> TurnsInto(p, c)
  {
    hide MayFollow, TurnsInto, IsDirection, Drawn;
    if MayFollow(p, c) { FollowerMeets(dir, p, c); }
    if TurnsInto(p, c) { MeetingFollows(dir, p, c); }
  }

  lemma FollowerMeets(dir: Direction, p: Segment, c: Segment)
    requires IsDirection(dir) && Drawn(dir, p) && Drawn(dir, c) && MayFollow(p, c)
    ensures TurnsInto(p, c)
  {
    FollowerTurnsRight(dir, p, c);
    DrawnHasLength(dir, p);
    hide IsDirection, Drawn, RightTurn, MayFollow, MeetNear, NotParallel;
    FollowerMeetsNear(p, c);
  }

  lemma FollowerMeetsNear(p: Segment, c: Segment)
    requires p.length > 0.0 && MayFollow(p, c)
    ensures NotParallel(p, c) && MeetNear(p, c, IntersectionWith(LineOf(p), LineOf(c)))
  {
    hide Mod2pi, IntersectionWith, OnLineOf;
    if !NotParallel(p, c) { ParallelsMeetNowhere(p, c); }
    MeetingOf(p, c);
  }

  lemma ParallelsMeetNowhere(p: Segment, c: Segment)
    requires !NotParallel(p, c)
    ensures IntersectionWith(LineOf(p), LineOf(c)).0 == -1.0
  {
    DeterminantIsCross(p, c);
    hide Determinant, Cross;
  }

  lemma DeterminantIsCross(p: Segment, c: Segment)
    ensures Determinant(LineOf(p), LineOf(c)) == -Cross(p, c)
  {}

  lemma DrawnHasLength(dir: Direction, s: Segment)
    requires Drawn(dir, s)
    ensures s.length > 0.0
  {}

  lemma MeetingFollows(dir: Direction, p: Segment, c: Segment)
    requires Drawn(dir, p) && TurnsInto(p, c)
    ensures MayFollow(p, c)
  {
    DrawnHasLength(dir, p);
    hide Drawn, MayFollow, RightTurn, NotParallel, MeetNear;
    var q: Point :| MeetNear(p, c, q);
    NearMeetingFollows(p, c, q);
  }

  lemma NearMeetingFollows(p: Segment, c: Segment, q: Point)
    requires p.length > 0.0 && RightTurn(p.theta, c.theta) && NotParallel(p, c) && MeetNear(p, c, q)
    ensures MayFollow(p, c)
  {
    hide Mod2pi, IntersectionWith, OnLineOf, Cross;
    MeetingOf(p, c);
    MeetOnce(p, c, q, IntersectionWith(LineOf(p), LineOf(c)));
  }

  lemma MeetingOf(p: Segment, c: Segment)
    requires NotParallel(p, c)
    ensures OnLineOf(IntersectionWith(LineOf(p), LineOf(c)), p) && OnLineOf(IntersectionWith(LineOf(p), LineOf(c)), c)
  {
    DeterminantIsCross(p, c);
    hide Determinant, Cross, IntersectionWith;
    IntersectionIsOnBoth(LineOf(p), LineOf(c));
  }

  /** A call of add: a segment goes by its first point. */
  function EntryOf(segs: seq<Segment>, i: nat): Entry<nat>
    requires i < |segs|
  {
    Entry(segs[i].x0, segs[i].y0, i)
  }

  function Added(segs: seq<Segment>, n: nat): (log: seq<Entry<nat>>)
    requires n <= |segs|
    ensures |log| == n && forall i | 0 <= i < n :: log[i] == EntryOf(segs, i)
  {
    seq(n, i requires 0 <= i < n => EntryOf(segs, i))
  }

  /** The grid for an image of this size. */
  function GridOf(width: nat, height: nat): (f: Frame)
    ensures f.Valid() && f.HasCells()
  {
    CellCount(0.0, width as real, 10.0);
    CellCount(0.0, height as real, 10.0);
    Frame(0.0, 0.0, 10.0, Truncate((width as real - 0.0) / 10.0 + 1.0), Truncate((height as real - 0.0) / 10.0 + 1.0))
  }

  /** Its cells are ten pixels wide and cover the image, edges included. */
  lemma ImageIsCovered(width: nat, height: nat, e: Entry<nat>)
    requires 0.0 <= e.x <= width as real && 0.0 <= e.y <= height as real
    ensures var f := GridOf(width, height);
            f.x0 == f.y0 == 0.0 && f.pixelsPerCell == 10.0 && Kept(f, e) && OnGrid(f, e.x, e.y)
  {
    InLastCell(e.x, width);
    InLastCell(e.y, height);
  }

  lemma InLastCell(x: real, size: nat)
    requires 0.0 <= x <= size as real
    ensures 0 <= Truncate((x - 0.0) / 10.0) < Truncate((size as real - 0.0) / 10.0 + 1.0)
  {
    CellMonotone(0.0, x, 0.0, 10.0);
    CellMonotone(x, size as real, 0.0, 10.0);
    CellCount(0.0, size as real, 10.0);
  }

  /** The cells looked at for the children of segment s. */
  function CellsAround(f: Frame, s: Segment): Rect
    requires f.Valid()
  {
    Query(f, s.x1, s.y1, 0.5 * s.length)
  }

  /** The segments that begin there, as the grid yields them. */
  ghost function Around(segs: seq<Segment>, f: Frame, i: nat): seq<nat>
    requires i < |segs| && f.Valid()
  {
    Yielded(f, Added(segs, |segs|), CellsAround(f, segs[i]))
  }

  ghost predicate AllBelow(found: seq<nat>, n: nat) {
    forall i | 0 <= i < |found| :: found[i] < n
  }

  /** Those of the found that may follow segment s, in order. */
  ghost function Selected(segs: seq<Segment>, s: Segment, found: seq<nat>): seq<nat>
    requires AllBelow(found, |segs|)
  {
    if found == [] then []
    else
      var c := found[|found| - 1];
      Selected(segs, s, found[..|found| - 1]) + if MayFollow(s, segs[c]) then [c] else []
  }

  lemma SelectedNone(segs: seq<Segment>, s: Segment)
    ensures Selected(segs, s, []) == []
  {}

  /** Looking at one more of all that is found. */
  lemma {:induction false} SelectedStep(segs: seq<Segment>, s: Segment, seen: seq<nat>, c: nat, rest: seq<nat>,
                                        all: seq<nat>)
    requires all == seen + ([c] + rest) && AllBelow(all, |segs|) && AllBelow(seen, |segs|)
    ensures c < |segs| && AllBelow(seen + [c], |segs|) && all == (seen + [c]) + rest
    ensures Selected(segs, s, seen + [c]) == Selected(segs, s, seen) + if MayFollow(s, segs[c]) then [c] else []
  {
    hide MayFollow;
    assert all[|seen|] == c;
    assert (seen + [c])[..|seen|] == seen;
  }

  lemma {:induction false} SelectedAre(segs: seq<Segment>, s: Segment, found: seq<nat>, c: nat)
    requires AllBelow(found, |segs|)
    ensures c in Selected(segs, s, found) <==> c in found && c < |segs| && MayFollow(s, segs[c])
  {
    hide MayFollow;
    if found != [] {
      var n := |found| - 1;
      SelectedAre(segs, s, found[..n], c);
      assert found == found[..n] + [found[n]];
    }
  }

  lemma {:induction false} SelectedDistinct(segs: seq<Segment>, s: Segment, found: seq<nat>)
    requires AllBelow(found, |segs|) && NoDuplicates(found)
    ensures NoDuplicates(Selected(segs, s, found))
  {
    hide MayFollow;
    if found != [] {
      var n := |found| - 1;
      SelectedDistinct(segs, s, found[..n]);
      SelectedAre(segs, s, found[..n], found[n]);
    }
  }

  lemma {:induction false} ScanAre(f: Frame, segs: seq<Segment>, n: nat, r: Rect, c: nat)
    requires f.Valid() && n <= |segs|
    ensures c in Scan(f, Added(segs, n), r) <==> c < n && InRect(f, r, EntryOf(segs, c))
  {
    hide InRect;
    if n > 0 {
      ScanAre(f, segs, n - 1, r, c);
      assert Added(segs, n)[..n - 1] == Added(segs, n - 1);
    }
  }

  lemma {:induction false} ScanDistinct(f: Frame, segs: seq<Segment>, n: nat, r: Rect)
    requires f.Valid() && n <= |segs|
    ensures NoDuplicates(Scan(f, Added(segs, n), r))
  {
    hide InRect;
    if n > 0 {
      ScanDistinct(f, segs, n - 1, r);
      ScanAre(f, segs, n - 1, r, n - 1);
      assert Added(segs, n)[..n - 1] == Added(segs, n - 1);
    }
  }

  /** The grid yields every segment that begins in the cells it visits, and no others. */
  lemma AroundAre(segs: seq<Segment>, f: Frame, i: nat, c: nat)
    requires i < |segs| && f.Valid()
    ensures c in Around(segs, f, i)
       <==> c < |segs| && InRect(f, CellsAround(f, segs[i]).Swept(), EntryOf(segs, c))
  {
    hide Yielded, Scan, InRect;
    var r, log := CellsAround(f, segs[i]), Added(segs, |segs|);
    ScanAre(f, segs, |segs|, r.Swept(), c);
    AgreesWithScan(f, log, r);
    assert c in multiset(Yielded(f, log, r)) <==> c in multiset(Scan(f, log, r.Swept()));
  }

  /** Each of them once. */
  lemma AroundDistinct(segs: seq<Segment>, f: Frame, i: nat)
    requires i < |segs| && f.Valid()
    ensures NoDuplicates(Around(segs, f, i)) && AllBelow(Around(segs, f, i), |segs|)
  {
    var r, log := CellsAround(f, segs[i]), Added(segs, |segs|);
    forall k | 0 <= k < |Around(segs, f, i)| ensures Around(segs, f, i)[k] < |segs| {
      AroundAre(segs, f, i, Around(segs, f, i)[k]);
    }
    ScanDistinct(f, segs, |segs|, r.Swept());
    AgreesWithScan(f, log, r);
    RearrangedDistinct(Scan(f, log, r.Swept()), Yielded(f, log, r));
  }

  /** The child list of segment i. */
  ghost function Children(segs: seq<Segment>, f: Frame, i: nat): seq<nat>
    requires i < |segs| && f.Valid()
  {
    AroundDistinct(segs, f, i);
    Selected(segs, segs[i], Around(segs, f, i))
  }

  /** The children of a segment are those that begin in the cells around its end and pass the tests. */
  lemma ChildrenAre(segs: seq<Segment>, f: Frame, i: nat, c: nat)
    requires i < |segs| && f.Valid()
    ensures c in Children(segs, f, i)
       <==> c < |segs| && InRect(f, CellsAround(f, segs[i]).Swept(), EntryOf(segs, c)) && MayFollow(segs[i], segs[c])
  {
    hide Around, MayFollow, InRect;
    AroundDistinct(segs, f, i);
    AroundAre(segs, f, i, c);
    SelectedAre(segs, segs[i], Around(segs, f, i), c);
  }

  lemma ChildrenDistinct(segs: seq<Segment>, f: Frame, i: nat)
    requires i < |segs| && f.Valid()
    ensures NoDuplicates(Children(segs, f, i)) && AllBelow(Children(segs, f, i), |segs|)
  {
    hide Around, MayFollow, InRect;
    AroundDistinct(segs, f, i);
    SelectedDistinct(segs, segs[i], Around(segs, f, i));
    forall k | 0 <= k < |Children(segs, f, i)| ensures Children(segs, f, i)[k] < |segs| {
      ChildrenAre(segs, f, i, Children(segs, f, i)[k]);
    }
  }

  /** No child is missed: a segment that begins on the grid, within half a length of the end in both coordinates, and
      passes the tests is a child. */
  lemma NearFollowerIsChild(segs: seq<Segment>, f: Frame, i: nat, c: nat)
    requires i < |segs| && c < |segs| && f.Valid() && Kept(f, EntryOf(segs, c)) && MayFollow(segs[i], segs[c])
    requires segs[i].x1 - 0.5 * segs[i].length <= segs[c].x0 <= segs[i].x1 + 0.5 * segs[i].length
    requires segs[i].y1 - 0.5 * segs[i].length <= segs[c].y0 <= segs[i].y1 + 0.5 * segs[i].length
    ensures c in Children(segs, f, i)
  {
    hide MayFollow, Children;
    NearIsCovered(f, EntryOf(segs, c), segs[i].x1, segs[i].y1, 0.5 * segs[i].length);
    ChildrenAre(segs, f, i, c);
  }

  /** Which segments are children, by points on the lines. */
  lemma ChildrenTurn(dir: Direction, segs: seq<Segment>, f: Frame, i: nat, c: nat)
    requires i < |segs| && f.Valid() && IsDirection(dir) && forall s | s in segs :: Drawn(dir, s)
    ensures c in Children(segs, f, i)
       <==> c < |segs| && InRect(f, CellsAround(f, segs[i]).Swept(), EntryOf(segs, c)) && TurnsInto(segs[i], segs[c])
  {
    hide Children, MayFollow, TurnsInto, InRect, Drawn, IsDirection;
    ChildrenAre(segs, f, i, c);
    if c < |segs| { MayFollowIff(dir, segs[i], segs[c]); }
  }

  /** A child begins no further away, in either coordinate, than half the length of its parent and one cell. */
  lemma ChildIsNear(dir: Direction, segs: seq<Segment>, f: Frame, i: nat, c: nat)
    requires i < |segs| && f.Valid() && IsDirection(dir) && forall s | s in segs :: Drawn(dir, s)
    requires c in Children(segs, f, i) && OnGrid(f, segs[i].x1, segs[i].y1)
    ensures c < |segs|
    ensures f.x0 <= segs[c].x0 && f.y0 <= segs[c].y0 ==>
              var reach := 0.5 * segs[i].length + f.pixelsPerCell;
              -reach < segs[c].x0 - segs[i].x1 < reach && -reach < segs[c].y0 - segs[i].y1 < reach
  {
    DrawnHasLength(dir, segs[i]);
    hide Children, InRect, Drawn, IsDirection, MayFollow;
    ChildrenAre(segs, f, i, c);
    if f.x0 <= segs[c].x0 && f.y0 <= segs[c].y0 {
      CoveredIsNear(f, EntryOf(segs, c), segs[i].x1, segs[i].y1, 0.5 * segs[i].length);
    }
  }

  /** Segment c begins on the grid, exactly where segment i ends, and turns right from it. */
  predicate Joins(segs: seq<Segment>, f: Frame, i: nat, c: nat)
    requires f.Valid()
  {
    i < |segs| && c < |segs| && Kept(f, EntryOf(segs, c))
    && segs[c].x0 == segs[i].x1 != -1.0 && segs[c].y0 == segs[i].y1
    && RightTurn(segs[i].theta, segs[c].theta) && NotParallel(segs[i], segs[c])
  }

  /** Such a segment is a child. */
  lemma JoinedIsChild(dir: Direction, segs: seq<Segment>, f: Frame, i: nat, c: nat)
    requires f.Valid() && IsDirection(dir) && (forall s | s in segs :: Drawn(dir, s)) && Joins(segs, f, i, c)
    ensures c in Children(segs, f, i)
  {
    hide Children, InRect, Drawn, IsDirection;
    var p, e := (segs[c].x0, segs[c].y0), segs[i];
    DrawnHasLength(dir, e);
    assert MeetNear(e, segs[c], p);
    NearIsCovered(f, EntryOf(segs, c), e.x1, e.y1, 0.5 * e.length);
    ChildrenTurn(dir, segs, f, i, c);
  }

  /** What step six hands to step seven. */
  ghost function GraphOf(segs: seq<Segment>, f: Frame): (g: Segments)
    requires f.Valid()
    ensures |g.theta| == |g.children| == |segs|
    ensures forall i | 0 <= i < |segs| :: g.theta[i] == segs[i].theta && g.children[i] == Children(segs, f, i)
  {
    Segments(seq(|segs|, i requires 0 <= i < |segs| => segs[i].theta),
             seq(|segs|, i requires 0 <= i < |segs| => Children(segs, f, i)))
  }

  lemma GraphIsValid(segs: seq<Segment>, f: Frame)
    requires f.Valid()
    ensures GraphOf(segs, f).Valid() && NoRepeatedChildren(GraphOf(segs, f))
  {
    hide GraphOf, Children;
    var g := GraphOf(segs, f);
    forall s | 0 <= s < |segs| ensures NoDuplicates(g.children[s]) && AllBelow(g.children[s], |segs|) {
      ChildrenDistinct(segs, f, s);
    }
  }

  /** The child lists of step six are handed. */
  lemma GraphIsHanded(dir: Direction, segs: seq<Segment>, f: Frame)
    requires f.Valid() && IsDirection(dir) && forall s | s in segs :: Drawn(dir, s)
    ensures Handed(GraphOf(segs, f))
  {
    hide GraphOf, Children, IsDirection, Drawn, MayFollow, InRect;
    var g := GraphOf(segs, f);
    GraphIsValid(segs, f);
    forall s: nat, i: nat | s < |segs| && i < |g.children[s]| ensures Follows(g, s, i) {
      var c := g.children[s][i];
      ChildrenAre(segs, f, s, c);
      FollowerTurnsRight(dir, segs[s], segs[c]);
    }
  }

  /** Step seven on the lists of step six examines every closed walk from exactly one corner, and just once. */
  lemma WalksExaminedOnce(dir: Direction, segs: seq<Segment>, f: Frame, w: Path)
    requires f.Valid() && IsDirection(dir) && forall s | s in segs :: Drawn(dir, s)
    requires ClosedWalk(GraphOf(segs, f), w)
    ensures NoDuplicates(w[..4]) && NoDuplicates(Examined(GraphOf(segs, f)))
    ensures exists k: nat :: k < 4 && Rotated(w, k) in Examined(GraphOf(segs, f))
              && forall j: nat | j < 4 && Rotated(w, j) in Examined(GraphOf(segs, f)) :: j == k
  {
    hide GraphOf, IsDirection, Drawn, Examined, Handed;
    var g := GraphOf(segs, f);
    GraphIsHanded(dir, segs, f);
    GraphIsValid(segs, f);
    WalkIsQuad(g, w);
    ExaminedOnce(g);
    QuadExaminedOnce(g, w);
  }

  /** Four segments joined corner to corner, each turning right from the one before, are a closed walk of the child
      lists, and are examined from exactly one corner. */
  lemma CornersAreExamined(dir: Direction, segs: seq<Segment>, f: Frame, w: Path)
    requires f.Valid() && IsDirection(dir) && forall s | s in segs :: Drawn(dir, s)
    requires |w| == 5 && w[4] == w[0] && forall i: nat | i < 4 :: Joins(segs, f, w[i], w[i + 1])
    ensures ClosedWalk(GraphOf(segs, f), w)
    ensures exists k: nat :: k < 4 && Rotated(w, k) in Examined(GraphOf(segs, f))
              && forall j: nat | j < 4 && Rotated(w, j) in Examined(GraphOf(segs, f)) :: j == k
  {
    hide Drawn, IsDirection, Children, Examined;
    var g := GraphOf(segs, f);
    GraphIsValid(segs, f);
    assert forall i | 0 <= i < 5 :: w[i] < |segs| by {
      assert Joins(segs, f, w[0], w[1]) && Joins(segs, f, w[2], w[3]);
    }
    forall i: nat | i < 4 ensures Step(g, w, i) {
      assert Joins(segs, f, w[i], w[i + 1]);
      JoinedIsChild(dir, segs, f, w[i], w[i + 1]);
    }
    WalksExaminedOnce(dir, segs, f, w);
  }

  /** Of the four ways to enter walk w only the k-th can be reported, and is if it passes the tests. */
  ghost predicate ReportedFrom(items: seq<Path>, good: Path -> bool, w: Path, k: nat)
    requires |w| == 5 && k < 4
  {
    forall j: nat | j < 4 :: Rotated(w, j) in items <==> j == k && good(Rotated(w, k))
  }

  /** No quad is reported twice, from whichever corner: each closed walk has one corner from which it is tested. */
  lemma QuadsReportedOnce(dir: Direction, segs: seq<Segment>, f: Frame, good: Path -> bool, w: Path)
    requires f.Valid() && IsDirection(dir) && forall s | s in segs :: Drawn(dir, s)
    requires ClosedWalk(GraphOf(segs, f), w)
    ensures GraphOf(segs, f).Valid()
    ensures var items := Passing(good, Examined(GraphOf(segs, f)));
            NoDuplicates(items) && exists k: nat :: k < 4 && ReportedFrom(items, good, w, k)
  {
    hide GraphOf, IsDirection, Drawn, Examined, NoDuplicates;
    var all := Examined(GraphOf(segs, f));
    WalksExaminedOnce(dir, segs, f, w);
    PassingDistinct(good, all);
    var k: nat :| k < 4 && Rotated(w, k) in all && forall j: nat | j < 4 && Rotated(w, j) in all :: j == k;
    forall j: nat | j < 4 ensures Rotated(w, j) in Passing(good, all) <==> j == k && good(Rotated(w, k)) {
      PassingAre(good, all, Rotated(w, j));
    }
    assert ReportedFrom(Passing(good, all), good, w, k);
  }

  // ----- the program -----

  /** Step six. */
  method LinkChildren(segs: seq<Segment>, width: nat, height: nat) returns (children: array<seq<nat>>)
    ensures fresh(children) && children[..] == GraphOf(segs, GridOf(width, height)).children
  {
    hide Children, GraphOf, GridOf, Added, Bucket, Objects;
    var gridder := FillGrid(segs, width, height);
    ghost var f := gridder.Grid();
    children := new seq<nat>[|segs|](i => []);
    for i := 0 to |segs|
      invariant fresh(children) && children.Length == |segs| && fresh(gridder) && gridder.Valid()
      invariant gridder.log == Added(segs, |segs|)
      invariant forall j | 0 <= j < i :: children[j] == Children(segs, f, j)
    {
      var kids := FindChildren(gridder, segs, i);
      children[i] := kids;
    }
  }

  /** Every segment is added to the grid. */
  method FillGrid(segs: seq<Segment>, width: nat, height: nat) returns (gridder: Gridder<nat>)
    ensures fresh(gridder) && gridder.Valid() && gridder.Grid() == GridOf(width, height)
    ensures gridder.log == Added(segs, |segs|)
  {
    CellCount(0.0, width as real, 10.0);
    CellCount(0.0, height as real, 10.0);
    gridder := new Gridder<nat>(0.0, 0.0, width as real, height as real, 10.0);
    for i := 0 to |segs|
      invariant fresh(gridder) && fresh(gridder.cells) && gridder.Valid() && gridder.log == Added(segs, i)
    {
      gridder.Add(segs[i].x0, segs[i].y0, i);
      assert Added(segs, i + 1) == Added(segs, i) + [EntryOf(segs, i)];
    }
  }

  /** The loop of step six over what the grid finds for one parent. */
  method FindChildren(gridder: Gridder<nat>, segs: seq<Segment>, i: nat) returns (kids: seq<nat>)
    requires i < |segs| && gridder.Valid() && gridder.Grid().HasCells() && gridder.log == Added(segs, |segs|)
    ensures kids == Children(segs, gridder.Grid(), i)
  {
    ghost var all := Around(segs, gridder.Grid(), i);
    AroundDistinct(segs, gridder.Grid(), i);
    hide MayFollow, Added, Selected, Yielded, From, Bucket;
    kids := [];
    ghost var seen: seq<nat> := [];
    SelectedNone(segs, segs[i]);
    var iter := gridder.Find(segs[i].x1, segs[i].y1, 0.5 * segs[i].length);
    var more := iter.HasNext();
    while more
      invariant fresh(iter) && iter.Valid() && all == seen + iter.Rest()
      invariant AllBelow(seen, |segs|) && kids == Selected(segs, segs[i], seen)
      invariant more == (iter.Rest() != []) == iter.c.Cell?
      decreases |iter.Rest()|
    {
      var child := iter.Next();
      SelectedStep(segs, segs[i], seen, child, iter.Rest(), all);
      seen := seen + [child];
      if MayFollow(segs[i], segs[child]) {
        kids := kids + [child];
      }
      more := iter.HasNext();
    }
    assert seen == all;
  }

  /** Steps six and seven. */
  method DetectQuads(segs: seq<Segment>, width: nat, height: nat, good: Path -> bool) returns (quads: QuadList)
    ensures fresh(quads) && GraphOf(segs, GridOf(width, height)).Valid()
    ensures quads.items == Passing(good, Examined(GraphOf(segs, GridOf(width, height))))
  {
    GraphIsValid(segs, GridOf(width, height));
    var children := LinkChildren(segs, width, height);
    var g := Segments(seq(|segs|, i requires 0 <= i < |segs| => segs[i].theta), children[..]);
    assert g == GraphOf(segs, GridOf(width, height));
    quads := FindQuads(g, good);
  }
}
