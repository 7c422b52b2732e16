/** Angles modulo one turn. Floats are modelled as reals; PI is the value of (float)M_PI. */
module MathUtil {
  const PI: real := 13176795.0 / 4194304.0
  const TWO_PI: real := 2.0 * PI

  /** theta moved by k whole turns. */
  function Turn(theta: real, k: int): real {
    theta + k as real * TWO_PI
  }

  function Abs(x: real): real {
    if x < 0.0 then -x else x
  }

  /** mod2pi(vin). */
  function Mod2pi(vin: real): real {
    var absv := Abs(vin);
    var q := absv / TWO_PI + 0.5;
    var r := absv - q.Floor as real * TWO_PI;
    if vin < 0.0 then -r else r
  }

  /** mod2pi(ref, v). */
  function Mod2piNear(ref: real, v: real): real {
    ref + Mod2pi(v - ref)
  }

  /** mod2pi only removes whole turns, and what is left is within half a turn. */
  lemma Mod2piWraps(v: real) returns (k: int)
    ensures Mod2pi(v) == Turn(v, k)
    ensures -PI <= Mod2pi(v) <= PI
  {
    var q := Abs(v) / TWO_PI + 0.5;
    assert q.Floor as real <= q < q.Floor as real + 1.0;
    assert Abs(v) == (q - 0.5) * TWO_PI;
    k := if v < 0.0 then q.Floor else -q.Floor;
  }

  lemma Mod2piNearWraps(ref: real, v: real) returns (k: int)
    ensures Mod2piNear(ref, v) == Turn(v, k)
    ensures -PI <= Mod2piNear(ref, v) - ref <= PI
  {
    k := Mod2piWraps(v - ref);
  }

  /** Some whole number of turns takes an angle into any interval one turn long. */
  lemma TurnInto(theta: real, low: real) returns (k: int)
    ensures low <= Turn(theta, k) <= low + TWO_PI
  {
    var q := (theta - low) / TWO_PI;
    assert q.Floor as real <= q < q.Floor as real + 1.0;
    assert theta - low == q * TWO_PI;
    assert q.Floor as real * TWO_PI <= q * TWO_PI <= (q.Floor as real + 1.0) * TWO_PI;
    k := -q.Floor;
    assert k as real == -(q.Floor as real);
    assert k as real * TWO_PI == -(q.Floor as real * TWO_PI);
  }
}

/** Greedy clustering of pixels by gradient direction and magnitude. */
module Edges {
  import opened MathUtil
  import opened Partition
  import opened UnionFind

  const THETA_THRESH: real := 100.0
  const MAG_THRESH: real := 1200.0

  datatype Edge = Edge(pixelIdxA: nat, pixelIdxB: nat, cost: int)

  function Min(a: real, b: real): real {
    if b < a then b else a
  }

  function Max(a: real, b: real): real {
    if a < b then b else a
  }

  /** The clusters, and the angle and magnitude ranges kept for each representative. */
  datatype Clusters = Clusters(labels: Labels, tmin: seq<real>, tmax: seq<real>, mmin: seq<real>, mmax: seq<real>)
  {
    ghost predicate WellFormed() {
      |labels| == |tmin| == |tmax| == |mmin| == |mmax| && IsPartition(labels)
    }
  }

  /** The ranges two clusters would have together, by representative. */
  function Shift(c: Clusters, a: nat, b: nat): real
    requires c.WellFormed() && a < |c.labels| && b < |c.labels|
  {
    var mid := (c.tmin[b] + c.tmax[b]) / 2.0;
    Mod2piNear((c.tmin[a] + c.tmax[a]) / 2.0, mid) - mid
  }

  function UnionMin(c: Clusters, a: nat, b: nat): real
    requires c.WellFormed() && a < |c.labels| && b < |c.labels|
  {
    Min(c.tmin[a], c.tmin[b] + Shift(c, a, b))
  }

  function UnionMax(c: Clusters, a: nat, b: nat): real
    requires c.WellFormed() && a < |c.labels| && b < |c.labels|
  {
    var low, high := UnionMin(c, a, b), Max(c.tmax[a], c.tmax[b] + Shift(c, a, b));
    if high - low > TWO_PI then low + TWO_PI else high
  }

  /** Whether two clusters are alike enough to merge. */
  predicate Alike(c: Clusters, a: nat, b: nat)
    requires c.WellFormed() && a < |c.labels| && b < |c.labels|
    requires |Class(c.labels, a)| + |Class(c.labels, b)| > 0
  {
    var n := (|Class(c.labels, a)| + |Class(c.labels, b)|) as real;
    UnionMax(c, a, b) - UnionMin(c, a, b)
      <= Min(c.tmax[a] - c.tmin[a], c.tmax[b] - c.tmin[b]) + THETA_THRESH / n
    && Max(c.mmax[a], c.mmax[b]) - Min(c.mmin[a], c.mmin[b])
      <= Min(c.mmax[a] - c.mmin[a], c.mmax[b] - c.mmin[b]) + MAG_THRESH / n
  }

  lemma ClassOfLabel(labels: Labels, x: nat)
    requires IsPartition(labels) && x < |labels|
    ensures |Class(labels, labels[x])| > 0
  {
    assert x in Class(labels, labels[x]);
  }

  /** Clusters a and b (representatives) made one. */
  function Merged(c: Clusters, a: nat, b: nat): (c': Clusters)
    requires c.WellFormed() && a < |c.labels| && b < |c.labels|
    ensures c'.WellFormed() && |c'.labels| == |c.labels|
  {
    var w := Winner(c.labels, a, b);
    JoinedIsPartition(c.labels, a, b);
    Clusters(Joined(c.labels, a, b),
             c.tmin[w := UnionMin(c, a, b)], c.tmax[w := UnionMax(c, a, b)],
             c.mmin[w := Min(c.mmin[a], c.mmin[b])], c.mmax[w := Max(c.mmax[a], c.mmax[b])])
  }

  /** What one edge does. */
  function MergeEdge(c: Clusters, e: Edge): (c': Clusters)
    requires c.WellFormed() && e.pixelIdxA < |c.labels| && e.pixelIdxB < |c.labels|
    ensures c'.WellFormed() && |c'.labels| == |c.labels|
  {
    var a, b := c.labels[e.pixelIdxA], c.labels[e.pixelIdxB];
    ClassOfLabel(c.labels, e.pixelIdxA);
    if a != b && Alike(c, a, b) then Merged(c, a, b) else c
  }

  ghost predicate EdgesInRange(edges: seq<Edge>, n: nat) {
    forall i | 0 <= i < |edges| :: edges[i].pixelIdxA < n && edges[i].pixelIdxB < n
  }

  /** All edges, first to last. */
  ghost function MergeAll(c: Clusters, edges: seq<Edge>): (c': Clusters)
    requires c.WellFormed() && EdgesInRange(edges, |c.labels|)
    ensures c'.WellFormed() && |c'.labels| == |c.labels|
  {
    if edges == [] then c
    else MergeEdge(MergeAll(c, edges[..|edges| - 1]), edges[|edges| - 1])
  }

  lemma MergeAllStep(c: Clusters, edges: seq<Edge>, i: nat)
    requires c.WellFormed() && EdgesInRange(edges, |c.labels|) && i < |edges|
    ensures MergeAll(c, edges[..i + 1]) == MergeEdge(MergeAll(c, edges[..i]), edges[i])
  {
    assert edges[..i + 1][..i] == edges[..i];
  }

  ghost function ClustersOf(uf: UnionFindSimple, tmin: array<real>, tmax: array<real>,
                            mmin: array<real>, mmax: array<real>): Clusters
    reads uf, tmin, tmax, mmin, mmax
  {
    Clusters(uf.labels, tmin[..], tmax[..], mmin[..], mmax[..])
  }

  /** The body of the loop for two different representatives. */
  method MergePair(uf: UnionFindSimple, ida: nat, idb: nat,
                   tmin: array<real>, tmax: array<real>, mmin: array<real>, mmax: array<real>)
    requires uf.Valid() && ida < uf.data.Length && idb < uf.data.Length && ida != idb
    requires uf.labels[ida] == ida && uf.labels[idb] == idb
    requires tmin.Length == tmax.Length == mmin.Length == mmax.Length == uf.data.Length
    requires tmin != tmax && tmin != mmin && tmin != mmax && tmax != mmin && tmax != mmax && mmin != mmax
    requires |Class(uf.labels, ida)| + |Class(uf.labels, idb)| > 0
    modifies uf, uf.data, tmin, tmax, mmin, mmax
    ensures uf.Valid()
    ensures var c := old(ClustersOf(uf, tmin, tmax, mmin, mmax));
            ClustersOf(uf, tmin, tmax, mmin, mmax) == if Alike(c, ida, idb) then Merged(c, ida, idb) else c
  {
    ghost var c := ClustersOf(uf, tmin, tmax, mmin, mmax);
    var sza := uf.GetSetSize(ida);
    var szb := uf.GetSetSize(idb);
    var tmina, tmaxa := tmin[ida], tmax[ida];
    var tminb, tmaxb := tmin[idb], tmax[idb];
    var costa := tmaxa - tmina;
    var costb := tmaxb - tminb;
    var bshift := Mod2piNear((tmina + tmaxa) / 2.0, (tminb + tmaxb) / 2.0) - (tminb + tmaxb) / 2.0;
    var tminab := Min(tmina, tminb + bshift);
    var tmaxab := Max(tmaxa, tmaxb + bshift);
    if tmaxab - tminab > TWO_PI {
      tmaxab := tminab + TWO_PI;
    }
    var mminab := Min(mmin[ida], mmin[idb]);
    var mmaxab := Max(mmax[ida], mmax[idb]);
    var costab := tmaxab - tminab;
    assert tminab == UnionMin(c, ida, idb) && tmaxab == UnionMax(c, ida, idb);
    var alike := costab <= Min(costa, costb) + THETA_THRESH / (sza + szb) as real
      && mmaxab - mminab <= Min(mmax[ida] - mmin[ida], mmax[idb] - mmin[idb]) + MAG_THRESH / (sza + szb) as real;
    assert alike == Alike(c, ida, idb);
    hide Alike, UnionMin, UnionMax;
    if alike {
      StoreMerged(uf, ida, idb, tmin, tmax, mmin, mmax, tminab, tmaxab, mminab, mmaxab);
    }
  }

  /** The part of it that merges. */
  method StoreMerged(uf: UnionFindSimple, ida: nat, idb: nat,
                     tmin: array<real>, tmax: array<real>, mmin: array<real>, mmax: array<real>,
                     tminab: real, tmaxab: real, mminab: real, mmaxab: real)
    requires uf.Valid() && ida < uf.data.Length && idb < uf.data.Length && ida != idb
    requires uf.labels[ida] == ida && uf.labels[idb] == idb
    requires tmin.Length == tmax.Length == mmin.Length == mmax.Length == uf.data.Length
    requires tmin != tmax && tmin != mmin && tmin != mmax && tmax != mmin && tmax != mmax && mmin != mmax
    modifies uf, uf.data, tmin, tmax, mmin, mmax
    ensures uf.Valid() && uf.labels == Joined(old(uf.labels), ida, idb)
    ensures var w := Winner(old(uf.labels), ida, idb);
            w < tmin.Length
            && tmin[..] == old(tmin[..])[w := tminab] && tmax[..] == old(tmax[..])[w := tmaxab]
            && mmin[..] == old(mmin[..])[w := mminab] && mmax[..] == old(mmax[..])[w := mmaxab]
  {
    JoinedIsPartition(uf.labels, ida, idb);
    var idab := uf.ConnectNodes(ida, idb);
    tmin[idab] := tminab;
    tmax[idab] := tmaxab;
    mmin[idab] := mminab;
    mmax[idab] := mmaxab;
  }

  /** The body of the loop. */
  method MergeOne(e: Edge, uf: UnionFindSimple,
                  tmin: array<real>, tmax: array<real>, mmin: array<real>, mmax: array<real>)
    requires uf.Valid() && e.pixelIdxA < uf.data.Length && e.pixelIdxB < uf.data.Length
    requires tmin.Length == tmax.Length == mmin.Length == mmax.Length == uf.data.Length
    requires tmin != tmax && tmin != mmin && tmin != mmax && tmax != mmin && tmax != mmax && mmin != mmax
    modifies uf, uf.data, tmin, tmax, mmin, mmax
    ensures uf.Valid()
    ensures ClustersOf(uf, tmin, tmax, mmin, mmax) == MergeEdge(old(ClustersOf(uf, tmin, tmax, mmin, mmax)), e)
  {
    var ida := uf.GetRepresentative(e.pixelIdxA);
    var idb := uf.GetRepresentative(e.pixelIdxB);
    if ida != idb {
      ClassOfLabel(uf.labels, e.pixelIdxA);
      MergePair(uf, ida, idb, tmin, tmax, mmin, mmax);
    }
  }

  method MergeEdges(edges: seq<Edge>, uf: UnionFindSimple,
                    tmin: array<real>, tmax: array<real>, mmin: array<real>, mmax: array<real>)
    requires uf.Valid() && EdgesInRange(edges, uf.data.Length)
    requires tmin.Length == tmax.Length == mmin.Length == mmax.Length == uf.data.Length
    requires tmin != tmax && tmin != mmin && tmin != mmax && tmax != mmin && tmax != mmax && mmin != mmax
    modifies uf, uf.data, tmin, tmax, mmin, mmax
    ensures uf.Valid()
    ensures ClustersOf(uf, tmin, tmax, mmin, mmax) == MergeAll(old(ClustersOf(uf, tmin, tmax, mmin, mmax)), edges)
  {
    ghost var start := ClustersOf(uf, tmin, tmax, mmin, mmax);
    assert edges[..0] == [];
    hide MergeEdge, MergeAll;
    var i := 0;
    while i < |edges|
      invariant i <= |edges|
      invariant uf.Valid() && |uf.labels| == |start.labels|
      invariant ClustersOf(uf, tmin, tmax, mmin, mmax) == MergeAll(start, edges[..i])
    {
      MergeAllStep(start, edges, i);
      MergeOne(edges[i], uf, tmin, tmax, mmin, mmax);
      i := i + 1;
    }
    assert edges[..|edges|] == edges;
  }

  // ----- what the ranges mean -----

  /** Some whole number of turns takes theta into [low, high]. */
  ghost predicate Covers(low: real, high: real, theta: real) {
    exists k :: low <= Turn(theta, k) <= high
  }

  ghost predicate IsLeast(c: Clusters, mag: seq<real>, r: nat, m: real)
    requires |mag| == |c.labels|
  {
    (forall p | 0 <= p < |mag| && c.labels[p] == r :: m <= mag[p])
    && exists p :: 0 <= p < |mag| && c.labels[p] == r && mag[p] == m
  }

  ghost predicate IsGreatest(c: Clusters, mag: seq<real>, r: nat, m: real)
    requires |mag| == |c.labels|
  {
    (forall p | 0 <= p < |mag| && c.labels[p] == r :: mag[p] <= m)
    && exists p :: 0 <= p < |mag| && c.labels[p] == r && mag[p] == m
  }

  /** Every pixel's angle lies in its cluster's angle range up to whole turns, no range exceeds a turn,
      and the magnitude range of a cluster is exactly that of its pixels. */
  ghost predicate Faithful(c: Clusters, theta: seq<real>, mag: seq<real>) {
    c.WellFormed() && |theta| == |mag| == |c.labels|
    && (forall p | 0 <= p < |theta| :: Covers(c.tmin[c.labels[p]], c.tmax[c.labels[p]], theta[p]))
    && (forall r | 0 <= r < |mag| && c.labels[r] == r ::
          0.0 <= c.tmax[r] - c.tmin[r] <= TWO_PI
          && IsLeast(c, mag, r, c.mmin[r]) && IsGreatest(c, mag, r, c.mmax[r]))
  }

  /** Before any merge, each pixel is a cluster with its own angle and magnitude. */
  lemma SingletonsFaithful(theta: seq<real>, mag: seq<real>)
    requires |theta| == |mag|
    ensures Faithful(Clusters(seq(|theta|, i => i), theta, theta, mag, mag), theta, mag)
  {
    var c := Clusters(seq(|theta|, i => i), theta, theta, mag, mag);
    forall p | 0 <= p < |theta| ensures Covers(c.tmin[c.labels[p]], c.tmax[c.labels[p]], theta[p]) {
      assert Turn(theta[p], 0) == theta[p];
    }
    forall r | 0 <= r < |mag| && c.labels[r] == r
      ensures IsLeast(c, mag, r, c.mmin[r]) && IsGreatest(c, mag, r, c.mmax[r])
    {
      assert mag[r] == c.mmin[r] == c.mmax[r];
    }
  }

  lemma TurnsCompose(theta: real, k: int, n: int)
    ensures Turn(Turn(theta, k), n) == Turn(theta, k + n)
  {
    assert (k + n) as real == k as real + n as real;
  }

  /** The united range covers whatever either range covered, clamped or not. */
  lemma UnionCovers(c: Clusters, a: nat, b: nat, theta: real)
    requires c.WellFormed() && a < |c.labels| && b < |c.labels|
    requires Covers(c.tmin[a], c.tmax[a], theta) || Covers(c.tmin[b], c.tmax[b], theta)
    ensures Covers(UnionMin(c, a, b), UnionMax(c, a, b), theta)
  {
    var mid := (c.tmin[b] + c.tmax[b]) / 2.0;
    var n := Mod2piNearWraps((c.tmin[a] + c.tmax[a]) / 2.0, mid);
    assert Shift(c, a, b) == n as real * TWO_PI;
    if UnionMax(c, a, b) == UnionMin(c, a, b) + TWO_PI {
      var k := TurnInto(theta, UnionMin(c, a, b));
    } else if Covers(c.tmin[a], c.tmax[a], theta) {
      var k :| c.tmin[a] <= Turn(theta, k) <= c.tmax[a];
      assert UnionMin(c, a, b) <= Turn(theta, k) <= UnionMax(c, a, b);
    } else {
      var k :| c.tmin[b] <= Turn(theta, k) <= c.tmax[b];
      TurnsCompose(theta, k, n);
      assert UnionMin(c, a, b) <= Turn(theta, k + n) <= UnionMax(c, a, b);
    }
  }

  /** Merging uses the range of the surviving representative for both clusters. */
  lemma MergedLabels(c: Clusters, a: nat, b: nat)
    requires c.WellFormed() && a < |c.labels| && b < |c.labels|
    requires c.labels[a] == a && c.labels[b] == b && a != b
    ensures var w := Winner(c.labels, a, b);
            (w == a || w == b) && w < |c.labels|
            && forall p | 0 <= p < |c.labels| ::
                 Merged(c, a, b).labels[p] == if c.labels[p] == a || c.labels[p] == b then w else c.labels[p]
  {}

  lemma MergedFaithful(c: Clusters, a: nat, b: nat, theta: seq<real>, mag: seq<real>)
    requires Faithful(c, theta, mag) && a < |c.labels| && b < |c.labels|
    requires c.labels[a] == a && c.labels[b] == b && a != b
    ensures Faithful(Merged(c, a, b), theta, mag)
  {
    var w, c' := Winner(c.labels, a, b), Merged(c, a, b);
    MergedLabels(c, a, b);
    forall p | 0 <= p < |theta| ensures Covers(c'.tmin[c'.labels[p]], c'.tmax[c'.labels[p]], theta[p]) {
      if c.labels[p] == a || c.labels[p] == b { UnionCovers(c, a, b, theta[p]); }
    }
    forall r | 0 <= r < |mag| && c'.labels[r] == r
      ensures 0.0 <= c'.tmax[r] - c'.tmin[r] <= TWO_PI
      ensures IsLeast(c', mag, r, c'.mmin[r]) && IsGreatest(c', mag, r, c'.mmax[r])
    {
      if r == w {
        UnionLeast(c, a, b, mag);
        UnionGreatest(c, a, b, mag);
      } else {
        UntouchedExtremes(c, a, b, mag, r);
      }
    }
  }

  lemma UnionLeast(c: Clusters, a: nat, b: nat, mag: seq<real>)
    requires c.WellFormed() && |mag| == |c.labels| && a < |c.labels| && b < |c.labels|
    requires c.labels[a] == a && c.labels[b] == b && a != b
    requires IsLeast(c, mag, a, c.mmin[a]) && IsLeast(c, mag, b, c.mmin[b])
    ensures IsLeast(Merged(c, a, b), mag, Winner(c.labels, a, b), Min(c.mmin[a], c.mmin[b]))
  {
    MergedLabels(c, a, b);
    var pa :| 0 <= pa < |mag| && c.labels[pa] == a && mag[pa] == c.mmin[a];
    var pb :| 0 <= pb < |mag| && c.labels[pb] == b && mag[pb] == c.mmin[b];
    assert Merged(c, a, b).labels[pa] == Merged(c, a, b).labels[pb] == Winner(c.labels, a, b);
  }

  lemma UnionGreatest(c: Clusters, a: nat, b: nat, mag: seq<real>)
    requires c.WellFormed() && |mag| == |c.labels| && a < |c.labels| && b < |c.labels|
    requires c.labels[a] == a && c.labels[b] == b && a != b
    requires IsGreatest(c, mag, a, c.mmax[a]) && IsGreatest(c, mag, b, c.mmax[b])
    ensures IsGreatest(Merged(c, a, b), mag, Winner(c.labels, a, b), Max(c.mmax[a], c.mmax[b]))
  {
    MergedLabels(c, a, b);
    var pa :| 0 <= pa < |mag| && c.labels[pa] == a && mag[pa] == c.mmax[a];
    var pb :| 0 <= pb < |mag| && c.labels[pb] == b && mag[pb] == c.mmax[b];
    assert Merged(c, a, b).labels[pa] == Merged(c, a, b).labels[pb] == Winner(c.labels, a, b);
  }

  lemma UntouchedExtremes(c: Clusters, a: nat, b: nat, mag: seq<real>, r: nat)
    requires c.WellFormed() && |mag| == |c.labels| && a < |c.labels| && b < |c.labels| && r < |c.labels|
    requires c.labels[a] == a && c.labels[b] == b && a != b
    requires r != Winner(c.labels, a, b) && Merged(c, a, b).labels[r] == r
    requires IsLeast(c, mag, r, c.mmin[r]) && IsGreatest(c, mag, r, c.mmax[r])
    ensures IsLeast(Merged(c, a, b), mag, r, c.mmin[r]) && IsGreatest(Merged(c, a, b), mag, r, c.mmax[r])
  {
    MergedLabels(c, a, b);
    var p :| 0 <= p < |mag| && c.labels[p] == r && mag[p] == c.mmin[r];
    var q :| 0 <= q < |mag| && c.labels[q] == r && mag[q] == c.mmax[r];
    assert Merged(c, a, b).labels[p] == r && Merged(c, a, b).labels[q] == r;
  }

  lemma MergeEdgeFaithful(c: Clusters, e: Edge, theta: seq<real>, mag: seq<real>)
    requires Faithful(c, theta, mag) && e.pixelIdxA < |c.labels| && e.pixelIdxB < |c.labels|
    ensures Faithful(MergeEdge(c, e), theta, mag)
  {
    if c.labels[e.pixelIdxA] != c.labels[e.pixelIdxB] {
      MergedFaithful(c, c.labels[e.pixelIdxA], c.labels[e.pixelIdxB], theta, mag);
    }
  }

  /** After any run of merges the cluster ranges are still faithful to the pixels. */
  lemma {:induction false} MergeAllFaithful(c: Clusters, edges: seq<Edge>, theta: seq<real>, mag: seq<real>)
    requires Faithful(c, theta, mag) && EdgesInRange(edges, |c.labels|)
    ensures Faithful(MergeAll(c, edges), theta, mag)
    decreases |edges|
  {
    if edges != [] {
      MergeAllFaithful(c, edges[..|edges| - 1], theta, mag);
      MergeEdgeFaithful(MergeAll(c, edges[..|edges| - 1]), edges[|edges| - 1], theta, mag);
    }
  }

  ghost function EdgeLinks(edges: seq<Edge>): seq<Link> {
    seq(|edges|, i requires 0 <= i < |edges| => (edges[i].pixelIdxA, edges[i].pixelIdxB))
  }

  /** Pixels that end in one cluster are joined by a chain of the edges. */
  lemma {:induction false} ClustersAreConnected(c: Clusters, edges: seq<Edge>, x: nat, y: nat)
    requires c.WellFormed() && EdgesInRange(edges, |c.labels|)
    requires forall p | 0 <= p < |c.labels| :: c.labels[p] == p
    requires x < |c.labels| && y < |c.labels| && MergeAll(c, edges).labels[x] == MergeAll(c, edges).labels[y]
    ensures Linked(EdgeLinks(edges), x, y)
    decreases |edges|
  {
    hide Linked, MergeEdge;
    if edges == [] {
      LinkedReflexive(EdgeLinks(edges), x);
    } else {
      var before, e := edges[..|edges| - 1], edges[|edges| - 1];
      var c' := MergeAll(c, before);
      assert EdgeLinks(edges) == EdgeLinks(before) + [(e.pixelIdxA, e.pixelIdxB)];
      forall u: nat, v: nat | u < |c.labels| && v < |c.labels| && c'.labels[u] == c'.labels[v]
        ensures Linked(EdgeLinks(edges), u, v)
      {
        ClustersAreConnected(c, before, u, v);
        LinkedMonotone(EdgeLinks(before), EdgeLinks(edges), u, v);
      }
      EdgeConnects(c', e, EdgeLinks(edges), x, y);
    }
  }

  /** One more edge joins only pixels that it links. */
  lemma EdgeConnects(c: Clusters, e: Edge, links: seq<Link>, x: nat, y: nat)
    requires c.WellFormed() && e.pixelIdxA < |c.labels| && e.pixelIdxB < |c.labels|
    requires (e.pixelIdxA, e.pixelIdxB) in links && x < |c.labels| && y < |c.labels|
    requires forall u: nat, v: nat {:trigger Linked(links, u, v)} |
               u < |c.labels| && v < |c.labels| && c.labels[u] == c.labels[v] :: Linked(links, u, v)
    requires MergeEdge(c, e).labels[x] == MergeEdge(c, e).labels[y]
    ensures Linked(links, x, y)
  {
    var a, b := e.pixelIdxA, e.pixelIdxB;
    if c.labels[x] == c.labels[y] {
      assert Linked(links, x, y);
    } else {
      MergedLabels(c, c.labels[a], c.labels[b]);
      LinkedByLink(links, a, b);
      LinkedByLink(links, b, a);
      if c.labels[x] == c.labels[a] {
        assert Linked(links, x, a) && Linked(links, b, y);
        LinkedTransitive(links, x, a, b);
        LinkedTransitive(links, x, b, y);
      } else {
        assert Linked(links, x, b) && Linked(links, a, y);
        LinkedTransitive(links, x, b, a);
        LinkedTransitive(links, x, a, y);
      }
    }
  }

  // ----- which clusters merge -----

  /** The width of two angle ranges together, the second moved by k whole turns; a whole turn at most. */
  function JointWidth(c: Clusters, a: nat, b: nat, k: int): real
    requires c.WellFormed() && a < |c.labels| && b < |c.labels|
  {
    var low := if Turn(c.tmin[b], k) < c.tmin[a] then Turn(c.tmin[b], k) else c.tmin[a];
    var high := if Turn(c.tmax[b], k) > c.tmax[a] then Turn(c.tmax[b], k) else c.tmax[a];
    if high - low > TWO_PI then TWO_PI else high - low
  }

  /** The width of two magnitude ranges together. */
  function JointMagnitude(c: Clusters, a: nat, b: nat): real
    requires c.WellFormed() && a < |c.labels| && b < |c.labels|
  {
    var low := if c.mmin[b] < c.mmin[a] then c.mmin[b] else c.mmin[a];
    var high := if c.mmax[b] > c.mmax[a] then c.mmax[b] else c.mmax[a];
    high - low
  }

  /** k turns take the middle of range b to within half a turn of the middle of range a. */
  predicate Nearest(c: Clusters, a: nat, b: nat, k: int)
    requires c.WellFormed() && a < |c.labels| && b < |c.labels|
  {
    -PI <= Turn((c.tmin[b] + c.tmax[b]) / 2.0, k) - (c.tmin[a] + c.tmax[a]) / 2.0 <= PI
  }

  lemma {:induction false} UnionIsJoint(c: Clusters, a: nat, b: nat, k: int)
    requires c.WellFormed() && a < |c.labels| && b < |c.labels| && Nearest(c, a, b, k)
    ensures UnionMax(c, a, b) - UnionMin(c, a, b) == JointWidth(c, a, b, k)
  {
    var mida, midb := (c.tmin[a] + c.tmax[a]) / 2.0, (c.tmin[b] + c.tmax[b]) / 2.0;
    var n := Mod2piNearWraps(mida, midb);
    assert Shift(c, a, b) == n as real * TWO_PI;
    assert -PI <= Turn(midb, n) - mida <= PI;
    OneApart(midb - mida, k, n);
  }

  /** Two ways to come within half a turn differ by a whole turn, and only if both are just half a turn away. */
  lemma OneApart(x: real, k: int, n: int)
    requires -PI <= Turn(x, k) <= PI && -PI <= Turn(x, n) <= PI
    ensures Turn(x, k) == Turn(x, n) || Turn(x, k) == -Turn(x, n) == PI || Turn(x, k) == -Turn(x, n) == -PI
  {
    var d := k - n;
    assert d as real == k as real - n as real;
    assert Turn(x, k) - Turn(x, n) == d as real * TWO_PI;
    assert -1 <= d <= 1;
  }

  /** An edge joins the clusters of its ends if and only if together they are hardly wider than the narrower of them,
      in angle and in magnitude: by no more than 100 and 1200, shared out among their pixels. */
  lemma {:induction false} JoinsExactly(c: Clusters, e: Edge, k: int)
    requires c.WellFormed() && e.pixelIdxA < |c.labels| && e.pixelIdxB < |c.labels|
    requires c.labels[e.pixelIdxA] != c.labels[e.pixelIdxB]
    requires Nearest(c, c.labels[e.pixelIdxA], c.labels[e.pixelIdxB], k)
    ensures var a, b := c.labels[e.pixelIdxA], c.labels[e.pixelIdxB];
            var n := (|Class(c.labels, a)| + |Class(c.labels, b)|) as real;
            n > 0.0
            && (MergeEdge(c, e).labels[e.pixelIdxA] == MergeEdge(c, e).labels[e.pixelIdxB]
                <==> (JointWidth(c, a, b, k) <= c.tmax[a] - c.tmin[a] + 100.0 / n
                      && JointWidth(c, a, b, k) <= c.tmax[b] - c.tmin[b] + 100.0 / n
                      && JointMagnitude(c, a, b) <= c.mmax[a] - c.mmin[a] + 1200.0 / n
                      && JointMagnitude(c, a, b) <= c.mmax[b] - c.mmin[b] + 1200.0 / n))
  {
    var a, b := c.labels[e.pixelIdxA], c.labels[e.pixelIdxB];
    ClassOfLabel(c.labels, e.pixelIdxA);
    UnionIsJoint(c, a, b, k);
    hide UnionMin, UnionMax, JointWidth, Class;
    if Alike(c, a, b) { MergedLabels(c, a, b); }
  }

  // ----- how far the pixels of a cluster can differ -----

  /** A range that grows by limit / n when the smaller of two clusters of n pixels together grows. */
  predicate Spread(width: real, limit: real, n: nat)
    requires n > 0
  {
    width <= limit * (1.0 - 1.0 / n as real)
  }

  lemma Halves(p: real, q: real, m: real, n: real)
    requires p * m == 1.0 && q * n == 1.0 && 0.0 < 2.0 * m <= n && p > 0.0 && q > 0.0
    ensures 2.0 * q <= p
  {
    assert p * q * n == p && p * q * m == q;
    assert p * q >= 0.0;
    assert p * q * (n - 2.0 * m) >= 0.0;
    assert p * q * (n - 2.0 * m) == p - 2.0 * q;
  }

  lemma SpreadGrows(width: real, limit: real, m: nat, n: nat)
    requires m > 0 && 2 * m <= n && limit >= 0.0 && Spread(width, limit, m)
    ensures Spread(width + limit / n as real, limit, n)
  {
    var p, q := 1.0 / m as real, 1.0 / n as real;
    assert p * m as real == 1.0 && q * n as real == 1.0;
    Halves(p, q, m as real, n as real);
    assert limit / n as real == limit * q;
    assert limit * (p - 2.0 * q) >= 0.0;
    assert limit * (1.0 - q) - (limit * (1.0 - p) + limit * q) == limit * (p - 2.0 * q);
  }

  ghost predicate SpreadAt(c: Clusters, r: nat)
    requires c.WellFormed() && r < |c.labels|
  {
    var n := |Class(c.labels, r)|;
    n > 0 && Spread(c.tmax[r] - c.tmin[r], 100.0, n) && Spread(c.mmax[r] - c.mmin[r], 1200.0, n)
  }

  ghost predicate AllSpread(c: Clusters) {
    c.WellFormed() && forall r: nat | r < |c.labels| && c.labels[r] == r :: SpreadAt(c, r)
  }

  lemma SinglesSpread(theta: seq<real>, mag: seq<real>)
    requires |theta| == |mag|
    ensures AllSpread(Clusters(seq(|theta|, i => i), theta, theta, mag, mag))
  {
    var c := Clusters(seq(|theta|, i => i), theta, theta, mag, mag);
    forall r: nat | r < |c.labels| && c.labels[r] == r ensures SpreadAt(c, r) {
      assert Class(c.labels, r) == {r};
    }
  }

  /** The survivor of a merge. */
  lemma {:induction false} MergedSpread(c: Clusters, a: nat, b: nat)
    requires AllSpread(c) && a < |c.labels| && b < |c.labels| && a != b && c.labels[a] == a && c.labels[b] == b
    requires |Class(c.labels, a)| + |Class(c.labels, b)| > 0 && Alike(c, a, b)
    ensures SpreadAt(Merged(c, a, b), Winner(c.labels, a, b))
  {
    assert SpreadAt(c, a) && SpreadAt(c, b);
    var na, nb, w := |Class(c.labels, a)|, |Class(c.labels, b)|, Winner(c.labels, a, b);
    var s, m := if na < nb then a else b, if na < nb then na else nb;
    JoinedClass(c.labels, a, b, w);
    SpreadGrows(c.tmax[s] - c.tmin[s], 100.0, m, na + nb);
    SpreadGrows(c.mmax[s] - c.mmin[s], 1200.0, m, na + nb);
    hide UnionMin, UnionMax, Class;
    var c' := Merged(c, a, b);
    assert c'.tmax[w] - c'.tmin[w] <= c.tmax[s] - c.tmin[s] + 100.0 / (na + nb) as real;
    assert c'.mmax[w] - c'.mmin[w] <= c.mmax[s] - c.mmin[s] + 1200.0 / (na + nb) as real;
  }

  lemma {:induction false} EdgeSpreads(c: Clusters, e: Edge)
    requires AllSpread(c) && e.pixelIdxA < |c.labels| && e.pixelIdxB < |c.labels|
    ensures AllSpread(MergeEdge(c, e))
  {
    var a, b, c' := c.labels[e.pixelIdxA], c.labels[e.pixelIdxB], MergeEdge(c, e);
    ClassOfLabel(c.labels, e.pixelIdxA);
    if a != b && Alike(c, a, b) {
      MergedSpread(c, a, b);
      MergedLabels(c, a, b);
      forall r: nat | r < |c'.labels| && c'.labels[r] == r && r != Winner(c.labels, a, b) ensures SpreadAt(c', r) {
        assert SpreadAt(c, r);
        JoinedClass(c.labels, a, b, r);
      }
    }
  }

  lemma {:induction false} EdgesSpread(c: Clusters, edges: seq<Edge>)
    requires AllSpread(c) && EdgesInRange(edges, |c.labels|)
    ensures AllSpread(MergeAll(c, edges))
    decreases |edges|
  {
    hide MergeEdge, SpreadAt;
    if edges != [] {
      EdgesSpread(c, edges[..|edges| - 1]);
      EdgeSpreads(MergeAll(c, edges[..|edges| - 1]), edges[|edges| - 1]);
    }
  }

  lemma {:induction false} PixelsWithin(c: Clusters, theta: seq<real>, mag: seq<real>, x: nat, y: nat)
    requires Faithful(c, theta, mag) && AllSpread(c)
    requires x < |c.labels| && y < |c.labels| && c.labels[x] == c.labels[y]
    ensures var n := |Class(c.labels, c.labels[x])|;
            n > 0 && mag[x] - mag[y] <= 1200.0 * (1.0 - 1.0 / n as real)
            && exists low, high :: Covers(low, high, theta[x]) && Covers(low, high, theta[y])
                 && high - low <= TWO_PI && high - low <= 100.0 * (1.0 - 1.0 / n as real)
  {
    hide Covers, Class;
    var r := c.labels[x];
    assert SpreadAt(c, r) && IsLeast(c, mag, r, c.mmin[r]) && IsGreatest(c, mag, r, c.mmax[r]);
    assert Covers(c.tmin[r], c.tmax[r], theta[x]) && Covers(c.tmin[r], c.tmax[r], theta[y]);
  }

  /** Whatever the edges, in a cluster of n pixels magnitudes differ by at most 1200 * (1 - 1 / n), and one range of at
      most 100 * (1 - 1 / n) and a whole turn has all the angles. */
  lemma {:induction false} ClusterSpread(theta: seq<real>, mag: seq<real>, edges: seq<Edge>, x: nat, y: nat)
    requires |theta| == |mag| && EdgesInRange(edges, |theta|) && x < |theta| && y < |theta|
    ensures var c := MergeAll(Clusters(seq(|theta|, i => i), theta, theta, mag, mag), edges);
            |c.labels| == |theta|
            && (c.labels[x] == c.labels[y] ==>
                  var n := |Class(c.labels, c.labels[x])|;
                  n > 0 && mag[x] - mag[y] <= 1200.0 * (1.0 - 1.0 / n as real)
                  && exists low, high :: Covers(low, high, theta[x]) && Covers(low, high, theta[y])
                       && high - low <= TWO_PI && high - low <= 100.0 * (1.0 - 1.0 / n as real))
  {
    var start := Clusters(seq(|theta|, i => i), theta, theta, mag, mag);
    SinglesSpread(theta, mag);
    EdgesSpread(start, edges);
    SingletonsFaithful(theta, mag);
    MergeAllFaithful(start, edges, theta, mag);
    var c := MergeAll(start, edges);
    hide MergeAll, Covers, Faithful, AllSpread, Class;
    assert |c.labels| == |theta|;
    if c.labels[x] == c.labels[y] { PixelsWithin(c, theta, mag, x, y); }
  }

  /** Two pixels that are clusters by themselves are joined by an edge between them if and only if their magnitudes
      differ by at most 600. */
  lemma {:induction false} SinglesJoinIff(c: Clusters, e: Edge, theta: seq<real>, mag: seq<real>)
    requires Faithful(c, theta, mag) && AllSpread(c)
    requires e.pixelIdxA < |c.labels| && e.pixelIdxB < |c.labels| && e.pixelIdxA != e.pixelIdxB
    requires Class(c.labels, e.pixelIdxA) == {e.pixelIdxA} && Class(c.labels, e.pixelIdxB) == {e.pixelIdxB}
    ensures MergeEdge(c, e).labels[e.pixelIdxA] == MergeEdge(c, e).labels[e.pixelIdxB]
       <==> -600.0 <= mag[e.pixelIdxA] - mag[e.pixelIdxB] <= 600.0
  {
    var a, b := e.pixelIdxA, e.pixelIdxB;
    SingleExtremes(c, a, theta, mag);
    SingleExtremes(c, b, theta, mag);
    var k := Mod2piNearWraps((c.tmin[a] + c.tmax[a]) / 2.0, (c.tmin[b] + c.tmax[b]) / 2.0);
    JoinsExactly(c, e, k);
  }

  lemma {:induction false} SingleExtremes(c: Clusters, a: nat, theta: seq<real>, mag: seq<real>)
    requires Faithful(c, theta, mag) && AllSpread(c) && a < |c.labels| && Class(c.labels, a) == {a}
    ensures c.labels[a] == a && c.tmin[a] == c.tmax[a] && c.mmin[a] == c.mmax[a] == mag[a]
  {
    assert a in Class(c.labels, a);
    assert SpreadAt(c, a) && IsLeast(c, mag, a, c.mmin[a]) && IsGreatest(c, mag, a, c.mmax[a]);
    forall p | 0 <= p < |mag| && c.labels[p] == a ensures p == a { assert p in Class(c.labels, a); }
  }
}
