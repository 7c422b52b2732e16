/** The search for loops of four segments, depth first over one shared path. */
module Quads {
  import opened Chains
  import opened MathUtil

  /** The segments, by number: a direction and the segments that may follow. */
  datatype Segments = Segments(theta: seq<real>, children: seq<seq<nat>>) {
    ghost predicate Valid() {
      |theta| == |children|
      && forall s, i | 0 <= s < |children| && 0 <= i < |children[s]| :: children[s][i] < |theta|
    }

    /** s may come on a path that starts at first. */
    predicate Allowed(first: nat, s: nat)
      requires first < |theta| && s < |theta|
    {
      theta[s] <= theta[first]
    }
  }

  type Path = seq<nat>

  ghost predicate Within(g: Segments, p: Path) {
    forall i | 0 <= i < |p| :: p[i] < |g.theta|
  }

  /** The loops that the search examines from a path on, in order. */
  ghost function Loops(g: Segments, p: Path): seq<Path>
    requires g.Valid() && Within(g, p) && 1 <= |p| <= 5
    decreases 5 - |p|, 1, 0
  {
    if |p| == 5 then if p[4] == p[0] then [p] else []
    else LoopsOver(g, p, g.children[p[|p| - 1]])
  }

  ghost function LoopsOver(g: Segments, p: Path, kids: seq<nat>): seq<Path>
    requires g.Valid() && Within(g, p) && Within(g, kids) && 1 <= |p| <= 4
    decreases 5 - |p|, 0, |kids|
  {
    if kids == [] then []
    else (if g.Allowed(p[0], kids[0]) then Loops(g, p + [kids[0]]) else []) + LoopsOver(g, p, kids[1..])
  }

  ghost function LoopsFrom(g: Segments, starts: seq<nat>): seq<Path>
    requires g.Valid() && Within(g, starts)
  {
    if starts == [] then [] else Loops(g, [starts[0]]) + LoopsFrom(g, starts[1..])
  }

  function AllStarts(n: nat): (starts: seq<nat>)
    ensures |starts| == n && forall i | 0 <= i < n :: starts[i] == i
  {
    seq(n, i requires 0 <= i < n => i)
  }

  /** All the loops examined over every start segment. */
  ghost function Examined(g: Segments): seq<Path>
    requires g.Valid()
  {
    LoopsFrom(g, AllStarts(|g.theta|))
  }

  // ----- which loops are examined -----

  ghost predicate Step(g: Segments, p: Path, i: nat)
    requires g.Valid() && Within(g, p) && i + 1 < |p|
  {
    p[i + 1] in g.children[p[i]]
  }

  /** Five segments, each a child of the one before, ending where they began. */
  ghost predicate ClosedWalk(g: Segments, w: Path) {
    g.Valid() && Within(g, w) && |w| == 5 && w[4] == w[0] && forall i: nat | i < 4 :: Step(g, w, i)
  }

  /** No segment of the walk has a larger theta than the first. */
  ghost predicate FirstIsMaximal(g: Segments, w: Path) {
    Within(g, w) && w != [] && forall i | 0 <= i < |w| :: g.Allowed(w[0], w[i])
  }

  /** w continues path p by allowed steps to a closed loop. */
  ghost predicate Extends(g: Segments, p: Path, w: Path) {
    g.Valid() && Within(g, w) && |w| == 5 && 1 <= |p| <= 5 && p == w[..|p|] && w[4] == w[0]
    && forall i: nat | |p| - 1 <= i < 4 :: Step(g, w, i) && g.Allowed(w[0], w[i + 1])
  }

  lemma {:induction false} LoopsAre(g: Segments, p: Path, w: Path)
    requires g.Valid() && Within(g, p) && 1 <= |p| <= 5
    ensures w in Loops(g, p) <==> Extends(g, p, w)
    decreases 5 - |p|, 1, 0
  {
    if |p| == 5 {
      assert Extends(g, p, w) ==> w[..5] == w;
      assert p[..5] == p;
    } else {
      var kids := g.children[p[|p| - 1]];
      LoopsOverAre(g, p, kids, w);
      if Extends(g, p, w) { ExtendsOn(g, p, w); }
      forall kid | kid in kids && g.Allowed(p[0], kid) && Extends(g, p + [kid], w) ensures Extends(g, p, w) {
        ExtendsBack(g, p, kid, w);
      }
    }
  }

  lemma ExtendsOn(g: Segments, p: Path, w: Path)
    requires |p| < 5 && Extends(g, p, w)
    ensures w[|p|] in g.children[p[|p| - 1]] && g.Allowed(p[0], w[|p|]) && Extends(g, p + [w[|p|]], w)
  {
    var n := |p|;
    assert Step(g, w, n - 1) && g.Allowed(w[0], w[n]);
    assert w[..n + 1] == p + [w[n]];
  }

  lemma ExtendsBack(g: Segments, p: Path, kid: nat, w: Path)
    requires g.Valid() && Within(g, p) && 1 <= |p| < 5 && kid in g.children[p[|p| - 1]]
    requires g.Allowed(p[0], kid) && Extends(g, p + [kid], w)
    ensures Extends(g, p, w)
  {
    var n := |p|;
    assert w[..n] == w[..n + 1][..n] == p;
    assert w[n] == w[..n + 1][n] == kid;
    assert w[n - 1] == w[..n][n - 1];
    assert Step(g, w, n - 1);
  }

  lemma {:induction false} LoopsOverAre(g: Segments, p: Path, kids: seq<nat>, w: Path)
    requires g.Valid() && Within(g, p) && Within(g, kids) && 1 <= |p| <= 4
    ensures w in LoopsOver(g, p, kids)
       <==> exists kid :: kid in kids && g.Allowed(p[0], kid) && Extends(g, p + [kid], w)
    decreases 5 - |p|, 0, |kids|
  {
    if kids != [] {
      if g.Allowed(p[0], kids[0]) { LoopsAre(g, p + [kids[0]], w); }
      LoopsOverAre(g, p, kids[1..], w);
      assert kids == [kids[0]] + kids[1..];
    }
  }

  lemma {:induction false} LoopsFromAre(g: Segments, starts: seq<nat>, w: Path)
    requires g.Valid() && Within(g, starts)
    ensures w in LoopsFrom(g, starts) <==> exists s :: s in starts && Extends(g, [s], w)
  {
    if starts != [] {
      LoopsAre(g, [starts[0]], w);
      LoopsFromAre(g, starts[1..], w);
      assert starts == [starts[0]] + starts[1..];
    }
  }

  /** The search is complete: it examines exactly the closed walks whose first segment has the largest theta. */
  lemma ExaminedExactly(g: Segments, w: Path)
    requires g.Valid()
    ensures w in Examined(g) <==> ClosedWalk(g, w) && FirstIsMaximal(g, w)
  {
    var starts := AllStarts(|g.theta|);
    LoopsFromAre(g, starts, w);
    if ClosedWalk(g, w) && FirstIsMaximal(g, w) {
      assert w[..1] == [w[0]];
      assert starts[w[0]] == w[0];
      forall i: nat | 0 <= i < 4 ensures Step(g, w, i) && g.Allowed(w[0], w[i + 1]) {}
      assert Extends(g, [w[0]], w);
    }
    if s :| s in starts && Extends(g, [s], w) {
      forall i | 0 <= i < 5 ensures g.Allowed(w[0], w[i]) {
        if i > 0 { assert Step(g, w, i - 1) && g.Allowed(w[0], w[i - 1 + 1]); }
      }
      forall i: nat | i < 4 ensures Step(g, w, i) {}
    }
  }

  // ----- no loop is examined twice -----

  ghost predicate NoRepeatedChildren(g: Segments) {
    forall s | 0 <= s < |g.children| :: NoDuplicates(g.children[s])
  }

  lemma DistinctJoin<T>(a: seq<T>, b: seq<T>)
    requires NoDuplicates(a) && NoDuplicates(b)
    requires forall x | x in a :: x !in b
    ensures NoDuplicates(a + b)
  {
    forall i, j | 0 <= i < j < |a + b| ensures (a + b)[i] != (a + b)[j] {
      if i < |a| <= j { assert a[i] in a && b[j - |a|] in b; }
    }
  }

  lemma {:induction false} LoopsDistinct(g: Segments, p: Path)
    requires g.Valid() && NoRepeatedChildren(g) && Within(g, p) && 1 <= |p| <= 5
    ensures NoDuplicates(Loops(g, p))
    decreases 5 - |p|, 1, 0
  {
    if |p| < 5 { LoopsOverDistinct(g, p, g.children[p[|p| - 1]]); }
  }

  lemma {:induction false} LoopsOverDistinct(g: Segments, p: Path, kids: seq<nat>)
    requires g.Valid() && NoRepeatedChildren(g)
    requires Within(g, p) && Within(g, kids) && NoDuplicates(kids) && 1 <= |p| <= 4
    ensures NoDuplicates(LoopsOver(g, p, kids))
    decreases 5 - |p|, 0, |kids|
  {
    if kids != [] {
      TailDistinct(kids);
      LoopsOverDistinct(g, p, kids[1..]);
      if g.Allowed(p[0], kids[0]) {
        var here, later := Loops(g, p + [kids[0]]), LoopsOver(g, p, kids[1..]);
        LoopsDistinct(g, p + [kids[0]]);
        forall w | w in here ensures w !in later {
          LoopsAre(g, p + [kids[0]], w);
          LoopsOverAre(g, p, kids[1..], w);
          forall kid | kid in kids[1..] ensures !Extends(g, p + [kid], w) {
            assert (p + [kid])[|p|] == kid && (p + [kids[0]])[|p|] == kids[0] == w[..|p| + 1][|p|];
          }
        }
        DistinctJoin(here, later);
      } else {
        assert [] + LoopsOver(g, p, kids[1..]) == LoopsOver(g, p, kids[1..]);
      }
    }
  }

  lemma {:induction false} LoopsFromDistinct(g: Segments, starts: seq<nat>)
    requires g.Valid() && NoRepeatedChildren(g) && Within(g, starts) && NoDuplicates(starts)
    ensures NoDuplicates(LoopsFrom(g, starts))
  {
    if starts != [] {
      TailDistinct(starts);
      LoopsFromDistinct(g, starts[1..]);
      var here, later := Loops(g, [starts[0]]), LoopsFrom(g, starts[1..]);
      LoopsDistinct(g, [starts[0]]);
      forall w | w in here ensures w !in later {
        LoopsAre(g, [starts[0]], w);
        LoopsFromAre(g, starts[1..], w);
        forall s | s in starts[1..] ensures !Extends(g, [s], w) {
          assert [s][0] == s && [starts[0]][0] == w[..1][0];
        }
      }
      DistinctJoin(here, later);
    }
  }

  /** With duplicate-free child lists no loop is examined twice from the same first segment. */
  lemma ExaminedOnce(g: Segments)
    requires g.Valid() && NoRepeatedChildren(g)
    ensures NoDuplicates(Examined(g))
  {
    LoopsFromDistinct(g, AllStarts(|g.theta|));
  }

  // ----- rotations of one loop -----

  /** The same loop, entered k segments later. */
  function Rotated(w: Path, k: nat): Path
    requires |w| == 5 && k < 4
  {
    seq(5, i requires 0 <= i < 5 => w[(i + k) % 4])
  }

  lemma RotatedIsClosed(g: Segments, w: Path, k: nat)
    requires ClosedWalk(g, w) && k < 4
    ensures ClosedWalk(g, Rotated(w, k))
  {
    var v := Rotated(w, k);
    forall i: nat | i < 4 ensures Step(g, v, i) {
      var j := (i + k) % 4;
      assert Step(g, w, j);
      assert v[i + 1] == w[(j + 1) % 4] == w[j + 1];
    }
  }

  ghost predicate LargestAt(g: Segments, w: Path, k: nat)
    requires Within(g, w) && |w| == 5 && k < 4
  {
    forall i | 0 <= i < 4 :: g.theta[w[i]] <= g.theta[w[k]]
  }

  /** A closed walk is examined from exactly those of its segments that have the largest theta. */
  lemma ExaminedRotations(g: Segments, w: Path, k: nat)
    requires ClosedWalk(g, w) && k < 4
    ensures Rotated(w, k) in Examined(g) <==> LargestAt(g, w, k)
  {
    var v := Rotated(w, k);
    ExaminedExactly(g, v);
    RotatedIsClosed(g, w, k);
    assert v[0] == w[k];
    if LargestAt(g, w, k) {
      forall i | 0 <= i < 5 ensures g.Allowed(v[0], v[i]) {}
    } else {
      var i :| 0 <= i < 4 && g.theta[w[i]] > g.theta[w[k]];
      assert v[(i + 4 - k) % 4] == w[i];
    }
  }

  lemma SomeLargest(g: Segments, w: Path) returns (k: nat)
    requires Within(g, w) && |w| == 5
    ensures k < 4 && LargestAt(g, w, k)
  {
    var a := if g.theta[w[0]] >= g.theta[w[1]] then 0 else 1;
    var b := if g.theta[w[2]] >= g.theta[w[3]] then 2 else 3;
    k := if g.theta[w[a]] >= g.theta[w[b]] then a else b;
  }

  // ----- handed child lists -----

  /** From direction a to b by less than half a turn to the right. */
  predicate RightTurn(a: real, b: real) {
    -PI < Mod2pi(b - a) < 0.0
  }

  /** From a to b, moved by k whole turns, is less than half a turn to the right. */
  predicate RightBy(a: real, b: real, k: int) {
    -PI < Turn(b - a, k) < 0.0
  }

  lemma RightTurnIff(a: real, b: real)
    ensures RightTurn(a, b) <==> exists k :: RightBy(a, b, k)
  {
    var n := Mod2piWraps(b - a);
    hide Mod2pi;
    if RightTurn(a, b) { assert RightBy(a, b, n); }
    if k :| RightBy(a, b, k) { SameTurn(b - a, k, n); }
  }

  lemma SameTurn(x: real, k: int, n: int)
    requires -PI < Turn(x, k) < 0.0 && -PI <= Turn(x, n) <= PI
    ensures Turn(x, n) == Turn(x, k)
  {
    var d := (n - k) as real;
    assert Turn(x, n) - Turn(x, k) == d * TWO_PI;
    assert d >= 1.0 ==> d * TWO_PI >= TWO_PI;
    assert d <= -1.0 ==> d * TWO_PI <= -TWO_PI;
  }

  ghost predicate Follows(g: Segments, s: nat, i: nat)
    requires g.Valid() && s < |g.children| && i < |g.children[s]|
  {
    RightTurn(g.theta[s], g.theta[g.children[s][i]])
  }

  /** Every child turns right from its parent. */
  ghost predicate Handed(g: Segments) {
    g.Valid() && forall s: nat, i: nat | s < |g.children| && i < |g.children[s]| :: Follows(g, s, i)
  }

  /** Neither one right turn nor two come back to the same direction. */
  lemma TurnsDiffer(a: real, b: real, c: real)
    ensures RightTurn(a, b) ==> a != b
    ensures RightTurn(a, b) && RightTurn(b, c) ==> a != c
  {
    var j := Mod2piWraps(b - a);
    var k := Mod2piWraps(c - b);
    assert j as real + k as real == (j + k) as real;
    assert Mod2pi(0.0) == 0.0;
  }

  lemma HandedStep(g: Segments, w: Path, i: nat)
    requires ClosedWalk(g, w) && Handed(g) && i < 4
    ensures RightTurn(g.theta[w[i]], g.theta[w[i + 1]])
  {
    assert Step(g, w, i);
    var n: nat :| n < |g.children[w[i]]| && g.children[w[i]][n] == w[i + 1];
    assert Follows(g, w[i], n);
  }

  /** On handed child lists a closed walk has four directions, so four segments, all different. */
  lemma WalkIsQuad(g: Segments, w: Path)
    requires ClosedWalk(g, w) && Handed(g)
    ensures forall i, j | 0 <= i < j < 4 :: g.theta[w[i]] != g.theta[w[j]]
    ensures NoDuplicates(w[..4])
  {
    var t := g.theta;
    HandedStep(g, w, 0);
    HandedStep(g, w, 1);
    HandedStep(g, w, 2);
    HandedStep(g, w, 3);
    TurnsDiffer(t[w[0]], t[w[1]], t[w[2]]);
    TurnsDiffer(t[w[1]], t[w[2]], t[w[3]]);
    TurnsDiffer(t[w[2]], t[w[3]], t[w[0]]);
    TurnsDiffer(t[w[3]], t[w[0]], t[w[1]]);
  }

  /** Its four right turns add up to exactly one whole turn. */
  lemma WalkTurnsOnce(g: Segments, w: Path)
    requires ClosedWalk(g, w) && Handed(g)
    ensures var t := g.theta;
            Mod2pi(t[w[1]] - t[w[0]]) + Mod2pi(t[w[2]] - t[w[1]])
            + Mod2pi(t[w[3]] - t[w[2]]) + Mod2pi(t[w[0]] - t[w[3]]) == -TWO_PI
  {
    var t := g.theta;
    HandedStep(g, w, 0);
    HandedStep(g, w, 1);
    HandedStep(g, w, 2);
    HandedStep(g, w, 3);
    FourTurns(t[w[0]], t[w[1]], t[w[2]], t[w[3]]);
  }

  lemma FourTurns(a: real, b: real, c: real, d: real)
    requires RightTurn(a, b) && RightTurn(b, c) && RightTurn(c, d) && RightTurn(d, a)
    ensures Mod2pi(b - a) + Mod2pi(c - b) + Mod2pi(d - c) + Mod2pi(a - d) == -TWO_PI
  {
    var i := Mod2piWraps(b - a);
    var j := Mod2piWraps(c - b);
    var k := Mod2piWraps(d - c);
    var l := Mod2piWraps(a - d);
    WholeTurns(b - a, c - b, d - c, a - d, i, j, k, l);
  }

  lemma OneTurn(n: int, x: real, sum: real)
    requires x == n as real && sum == x * TWO_PI && -4.0 * PI < sum < 0.0
    ensures n == -1 && sum == -TWO_PI
  {
    assert x * TWO_PI + 2.0 * TWO_PI == (x + 2.0) * TWO_PI;
    assert -2.0 < x < 0.0;
  }

  /** Four angles that add up to none, reduced to right turns, add up to one whole turn. */
  lemma WholeTurns(a: real, b: real, c: real, d: real, i: int, j: int, k: int, l: int)
    requires a + b + c + d == 0.0
    requires -PI < Turn(a, i) < 0.0 && -PI < Turn(b, j) < 0.0 && -PI < Turn(c, k) < 0.0 && -PI < Turn(d, l) < 0.0
    ensures Turn(a, i) + Turn(b, j) + Turn(c, k) + Turn(d, l) == -TWO_PI
  {
    var n := i + j + k + l;
    var sum := Turn(a, i) + Turn(b, j) + Turn(c, k) + Turn(d, l);
    assert n as real == i as real + j as real + k as real + l as real;
    assert sum == n as real * TWO_PI;
    OneTurn(n, n as real, sum);
  }

  /** The search is canonical: every closed walk is examined from exactly one of its corners. */
  lemma QuadExaminedOnce(g: Segments, w: Path)
    requires ClosedWalk(g, w) && Handed(g)
    ensures exists k: nat :: k < 4 && Rotated(w, k) in Examined(g)
                             && forall j: nat | j < 4 && Rotated(w, j) in Examined(g) :: j == k
  {
    WalkIsQuad(g, w);
    var k := SomeLargest(g, w);
    ExaminedRotations(g, w, k);
    forall j: nat | j < 4 && Rotated(w, j) in Examined(g) ensures j == k {
      ExaminedRotations(g, w, j);
    }
  }

  // ----- why they must be handed -----

  ghost predicate DistinctThetas(g: Segments) {
    forall s, t | 0 <= s < |g.theta| && 0 <= t < |g.theta| && g.theta[s] == g.theta[t] :: s == t
  }

  /** The rotations of w that the search examines are all the same path. */
  ghost predicate ExaminedFromOne(g: Segments, w: Path)
    requires g.Valid() && |w| == 5
  {
    forall j: nat, k: nat | j < 4 && k < 4 && Rotated(w, j) in Examined(g) && Rotated(w, k) in Examined(g) ::
      Rotated(w, j) == Rotated(w, k)
  }

  /** The segment with the largest theta comes up once on the walk. */
  ghost predicate LargestOnce(g: Segments, w: Path)
    requires Within(g, w) && |w| == 5
  {
    forall j: nat, k: nat | j < 4 && k < 4 && LargestAt(g, w, j) && LargestAt(g, w, k) :: j == k
  }

  /** With distinct thetas a closed walk is examined from some rotation, and from only one unless
   *  it passes its largest segment twice without just going there and back. */
  lemma ExaminedFromOneIff(g: Segments, w: Path)
    requires ClosedWalk(g, w) && DistinctThetas(g)
    ensures exists k: nat :: k < 4 && Rotated(w, k) in Examined(g)
    ensures ExaminedFromOne(g, w) <==> LargestOnce(g, w) || (w[0] == w[2] && w[1] == w[3])
  {
    var k0 := SomeLargest(g, w);
    forall k: nat | k < 4 ensures Rotated(w, k) in Examined(g) <==> LargestAt(g, w, k) {
      ExaminedRotations(g, w, k);
    }
    if w[0] == w[2] && w[1] == w[3] {
      forall j: nat, k: nat | j < 4 && k < 4 && LargestAt(g, w, j) && LargestAt(g, w, k)
        ensures Rotated(w, j) == Rotated(w, k)
      {
        assert w[j] == w[k];
        ThereAndBack(w, j, k);
      }
    } else if j: nat, k: nat :| j < k < 4 && LargestAt(g, w, j) && LargestAt(g, w, k) {
      assert w[j] == w[k];
      SameRotation(w, j, k);
    }
  }

  lemma RotatedIs(w: Path, k: nat)
    requires |w| == 5 && k < 4
    ensures Rotated(w, k) == [w[k], w[(k + 1) % 4], w[(k + 2) % 4], w[(k + 3) % 4], w[k]]
  {}

  lemma ThereAndBack(w: Path, j: nat, k: nat)
    requires |w| == 5 && j < 4 && k < 4 && w[j] == w[k] && w[0] == w[2] && w[1] == w[3]
    ensures Rotated(w, j) == Rotated(w, k)
  {
    RotatedIs(w, j);
    RotatedIs(w, k);
  }

  lemma SameRotation(w: Path, j: nat, k: nat)
    requires |w| == 5 && j < k < 4 && !(w[0] == w[2] && w[1] == w[3])
    ensures Rotated(w, j) != Rotated(w, k)
  {
    RotatedIs(w, j);
    RotatedIs(w, k);
  }

  /** On child lists that are not handed the walk 0-1-0-2-0 is examined from both of its visits to segment 0. */
  lemma ExaminedTwice() returns (g: Segments, w: Path)
    ensures ClosedWalk(g, w) && DistinctThetas(g) && NoRepeatedChildren(g) && !ExaminedFromOne(g, w)
    ensures !Handed(g)
  {
    g := Segments([3.0, 2.0, 1.0], [[1, 2], [0], [0]]);
    w := [0, 1, 0, 2, 0];
    TwiceIsClosed(g, w);
    ExaminedRotations(g, w, 0);
    ExaminedRotations(g, w, 2);
    SameRotation(w, 0, 2);
    assert w[..4][0] == w[..4][2];
    if Handed(g) { WalkIsQuad(g, w); }
  }

  lemma TwiceIsClosed(g: Segments, w: Path)
    requires g == Segments([3.0, 2.0, 1.0], [[1, 2], [0], [0]]) && w == [0, 1, 0, 2, 0]
    ensures ClosedWalk(g, w) && LargestAt(g, w, 0) && LargestAt(g, w, 2)
    ensures DistinctThetas(g) && NoRepeatedChildren(g)
  {
    assert g.Valid();
    assert Within(g, w);
    assert Step(g, w, 0) && Step(g, w, 1) && Step(g, w, 2) && Step(g, w, 3);
  }

  // ----- the program -----

  /** The loops that pass the geometric tests, in order. */
  function Passing(good: Path -> bool, loops: seq<Path>): seq<Path> {
    if loops == [] then []
    else (if good(loops[0]) then [loops[0]] else []) + Passing(good, loops[1..])
  }

  lemma {:induction false} PassingJoin(good: Path -> bool, a: seq<Path>, b: seq<Path>)
    ensures Passing(good, a + b) == Passing(good, a) + Passing(good, b)
  {
    if a == [] {
      assert a + b == b;
      assert [] + Passing(good, b) == Passing(good, b);
    } else {
      PassingJoin(good, a[1..], b);
      assert (a + b)[0] == a[0] && (a + b)[1..] == a[1..] + b;
      Regroup(if good(a[0]) then [a[0]] else [], Passing(good, a[1..]), Passing(good, b));
    }
  }

  lemma {:induction false} PassingAre(good: Path -> bool, loops: seq<Path>, w: Path)
    ensures w in Passing(good, loops) <==> w in loops && good(w)
  {
    if loops != [] {
      PassingAre(good, loops[1..], w);
      assert loops == [loops[0]] + loops[1..];
    }
  }

  lemma {:induction false} PassingDistinct(good: Path -> bool, loops: seq<Path>)
    requires NoDuplicates(loops)
    ensures NoDuplicates(Passing(good, loops))
  {
    if loops != [] {
      TailDistinct(loops);
      PassingDistinct(good, loops[1..]);
      PassingAre(good, loops[1..], loops[0]);
    }
  }

  lemma Regroup<T>(a: seq<T>, b: seq<T>, c: seq<T>)
    ensures a + (b + c) == (a + b) + c && a + [] == a
  {}

  class QuadList {
    var items: seq<Path>

    constructor ()
      ensures items == []
    {
      items := [];
    }
  }

  method Search(g: Segments, good: Path -> bool, path: array<nat>, parent: nat, depth: nat, quads: QuadList)
    requires g.Valid() && path.Length == 5 && depth <= 4
    requires Within(g, path[..depth + 1]) && parent == path[depth]
    modifies path, quads
    ensures path[..depth + 1] == old(path[..depth + 1])
    ensures quads.items == old(quads.items) + Passing(good, Loops(g, old(path[..depth + 1])))
    decreases 4 - depth, 2
  {
    ghost var p := path[..depth + 1];
    if depth == 4 {
      assert p == path[..];
      LastStep(g, good, p);
      if path[4] == path[0] {
        if good(path[..]) {
          quads.items := quads.items + [path[..]];
        }
      }
      return;
    }
    SearchChildren(g, good, path, parent, depth, quads);
  }

  /** The loop of search over the children of parent. */
  method SearchChildren(g: Segments, good: Path -> bool, path: array<nat>, parent: nat, depth: nat, quads: QuadList)
    requires g.Valid() && path.Length == 5 && depth < 4
    requires Within(g, path[..depth + 1]) && parent == path[depth]
    modifies path, quads
    ensures path[..depth + 1] == old(path[..depth + 1])
    ensures quads.items == old(quads.items) + Passing(good, LoopsOver(g, old(path[..depth + 1]), g.children[parent]))
    decreases 4 - depth, 1
  {
    ghost var p := path[..depth + 1];
    var kids := g.children[parent];
    ghost var rests := SearchSteps(g, good, p, kids);
    ghost var all := quads.items + rests[0];
    var i := 0;
    while i < |kids|
      invariant i <= |kids| && path[..depth + 1] == p
      invariant quads.items + rests[i] == all
    {
      assert RestAt(g, good, p, kids, rests, i);
      ghost var here := Visited(g, good, p, kids[i]);
      Regroup(quads.items, here, rests[i + 1]);
      SearchChild(g, good, path, kids[i], depth, quads);
      i := i + 1;
    }
    Regroup(quads.items, [], []);
  }

  /** One turn of that loop: a child that is not allowed is skipped. */
  method SearchChild(g: Segments, good: Path -> bool, path: array<nat>, child: nat, depth: nat, quads: QuadList)
    requires g.Valid() && path.Length == 5 && depth < 4
    requires Within(g, path[..depth + 1]) && child < |g.theta|
    modifies path, quads
    ensures path[..depth + 1] == old(path[..depth + 1])
    ensures quads.items == old(quads.items)
            + Visited(g, good, old(path[..depth + 1]), child)
    decreases 4 - depth, 0
  {
    ghost var p := path[..depth + 1];
    assert path[0] == p[0];
    if g.theta[child] > g.theta[path[0]] {
      return;
    }
    path[depth + 1] := child;
    assert path[..depth + 2] == p + [child];
    Search(g, good, path, child, depth + 1, quads);
    assert path[..depth + 1] == path[..depth + 2][..depth + 1] == p;
  }

  ghost function Visited(g: Segments, good: Path -> bool, p: Path, child: nat): seq<Path>
    requires g.Valid() && Within(g, p) && 1 <= |p| <= 4 && child < |g.theta|
  {
    if g.Allowed(p[0], child) then Passing(good, Loops(g, p + [child])) else []
  }

  lemma LastStep(g: Segments, good: Path -> bool, p: Path)
    requires g.Valid() && Within(g, p) && |p| == 5
    ensures Passing(good, Loops(g, p)) == if p[4] == p[0] && good(p) then [p] else []
  {}

  /** What the loop over the children still has to find before child i. */
  ghost predicate RestAt(g: Segments, good: Path -> bool, p: Path, kids: seq<nat>, rests: seq<seq<Path>>, i: nat)
    requires g.Valid() && Within(g, p) && Within(g, kids) && 1 <= |p| <= 4 && i < |kids| && |rests| == |kids| + 1
  {
    rests[i] == Visited(g, good, p, kids[i]) + rests[i + 1]
  }

  lemma {:induction false} SearchSteps(g: Segments, good: Path -> bool, p: Path, kids: seq<nat>)
      returns (rests: seq<seq<Path>>)
    requires g.Valid() && Within(g, p) && Within(g, kids) && 1 <= |p| <= 4
    ensures |rests| == |kids| + 1 && rests[0] == Passing(good, LoopsOver(g, p, kids)) && rests[|kids|] == []
    ensures forall i: nat | i < |kids| :: RestAt(g, good, p, kids, rests, i)
    decreases |kids|
  {
    if kids == [] {
      rests := [[]];
    } else {
      var later := SearchSteps(g, good, p, kids[1..]);
      rests := [Passing(good, LoopsOver(g, p, kids))] + later;
      PassingJoin(good, if g.Allowed(p[0], kids[0]) then Loops(g, p + [kids[0]]) else [],
                  LoopsOver(g, p, kids[1..]));
      forall i: nat | i < |kids| ensures RestAt(g, good, p, kids, rests, i) {
        if i > 0 { assert RestAt(g, good, p, kids[1..], later, i - 1); }
      }
    }
  }

  /** Step seven of the detector: the quads are the examined loops that pass the tests. */
  method FindQuads(g: Segments, good: Path -> bool) returns (quads: QuadList)
    requires g.Valid()
    ensures fresh(quads)
    ensures quads.items == Passing(good, Examined(g))
  {
    quads := new QuadList();
    var tmp := new nat[5];
    ghost var rests := StartSteps(g, good, AllStarts(|g.theta|));
    for i := 0 to |g.theta|
      invariant fresh(quads) && fresh(tmp)
      invariant quads.items + rests[i] == rests[0]
    {
      ghost var here := Passing(good, Loops(g, [i]));
      Regroup(quads.items, here, rests[i + 1]);
      tmp[0] := i;
      assert tmp[..1] == [i];
      Search(g, good, tmp, i, 0, quads);
    }
    Regroup(quads.items, [], []);
  }

  lemma {:induction false} StartSteps(g: Segments, good: Path -> bool, starts: seq<nat>)
      returns (rests: seq<seq<Path>>)
    requires g.Valid() && Within(g, starts)
    ensures |rests| == |starts| + 1 && rests[0] == Passing(good, LoopsFrom(g, starts)) && rests[|starts|] == []
    ensures forall i: nat | i < |starts| :: rests[i] == Passing(good, Loops(g, [starts[i]])) + rests[i + 1]
    decreases |starts|
  {
    if starts == [] {
      rests := [[]];
    } else {
      var later := StartSteps(g, good, starts[1..]);
      rests := [Passing(good, LoopsFrom(g, starts))] + later;
      PassingJoin(good, Loops(g, [starts[0]]), LoopsFrom(g, starts[1..]));
    }
  }
}
