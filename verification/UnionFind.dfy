/** Sets of nodes named by a representative: the meaning that the union-find forest must keep. */
module Partition {
  /** labels[x] is the representative of x. */
  type Labels = seq<nat>

  ghost predicate IsPartition(labels: Labels) {
    forall x | 0 <= x < |labels| :: labels[x] < |labels| && labels[labels[x]] == labels[x]
  }

  function Class(labels: Labels, r: nat): set<nat> {
    set x | 0 <= x < |labels| && labels[x] == r
  }

  /** The representative that survives joining a and b: the one of the strictly larger class, else b's. */
  function Winner(labels: Labels, a: nat, b: nat): nat
    requires a < |labels| && b < |labels|
  {
    if |Class(labels, labels[a])| > |Class(labels, labels[b])| then labels[a] else labels[b]
  }

  function Joined(labels: Labels, a: nat, b: nat): Labels
    requires a < |labels| && b < |labels|
  {
    seq(|labels|, x requires 0 <= x < |labels| =>
      if labels[x] == labels[a] || labels[x] == labels[b] then Winner(labels, a, b) else labels[x])
  }

  lemma JoinedIsPartition(labels: Labels, a: nat, b: nat)
    requires a < |labels| && b < |labels| && IsPartition(labels)
    ensures IsPartition(Joined(labels, a, b))
    ensures Joined(labels, a, b)[a] == Joined(labels, a, b)[b] == Winner(labels, a, b)
  {}

  /** Every node after a join: those of the smaller class, or of a's if the classes are equal, take the name of the
      other. */
  lemma JoinedAt(labels: Labels, a: nat, b: nat, x: nat)
    requires a < |labels| && b < |labels| && x < |labels| && labels[a] != labels[b]
    ensures var larger := |Class(labels, labels[a])| > |Class(labels, labels[b])|;
            Joined(labels, a, b)[x] ==
              if labels[x] == labels[a] && !larger then labels[b]
              else if labels[x] == labels[b] && larger then labels[a]
              else labels[x]
  {}

  lemma JoinedAlready(labels: Labels, a: nat, b: nat)
    requires a < |labels| && b < |labels| && labels[a] == labels[b]
    ensures Joined(labels, a, b) == labels
  {}

  lemma JoinedClass(labels: Labels, a: nat, b: nat, r: nat)
    requires a < |labels| && b < |labels| && labels[a] != labels[b]
    ensures |Class(Joined(labels, a, b), r)| ==
            if r == Winner(labels, a, b) then |Class(labels, labels[a])| + |Class(labels, labels[b])|
            else if r == labels[a] || r == labels[b] then 0
            else |Class(labels, r)|
  {
    var c := Class(Joined(labels, a, b), r);
    if r == Winner(labels, a, b) {
      assert c == Class(labels, labels[a]) + Class(labels, labels[b]);
    } else if r == labels[a] || r == labels[b] {
      assert c == {};
    } else {
      assert c == Class(labels, r);
    }
  }

  // ----- the equivalence closure of a list of links -----

  type Link = (nat, nat)

  ghost predicate Adjacent(links: seq<Link>, x: nat, y: nat) {
    (x, y) in links || (y, x) in links
  }

  ghost predicate IsPath(links: seq<Link>, p: seq<nat>, x: nat, y: nat) {
    p != [] && p[0] == x && p[|p| - 1] == y
    && forall i | 0 <= i < |p| - 1 :: Adjacent(links, p[i], p[i + 1])
  }

  /** x and y are joined by a chain of links, each usable both ways. */
  ghost predicate Linked(links: seq<Link>, x: nat, y: nat) {
    exists p :: IsPath(links, p, x, y)
  }

  lemma LinkedReflexive(links: seq<Link>, x: nat)
    ensures Linked(links, x, x)
  {
    assert IsPath(links, [x], x, x);
  }

  lemma LinkedByLink(links: seq<Link>, x: nat, y: nat)
    requires Adjacent(links, x, y)
    ensures Linked(links, x, y)
  {
    assert IsPath(links, [x, y], x, y);
  }

  lemma LinkedSymmetric(links: seq<Link>, x: nat, y: nat)
    requires Linked(links, x, y)
    ensures Linked(links, y, x)
  {
    var p :| IsPath(links, p, x, y);
    var q := seq(|p|, i requires 0 <= i < |p| => p[|p| - 1 - i]);
    forall i | 0 <= i < |q| - 1 ensures Adjacent(links, q[i], q[i + 1]) {
      var j := |p| - 2 - i;
      assert Adjacent(links, p[j], p[j + 1]);
    }
    assert IsPath(links, q, y, x);
  }

  lemma LinkedTransitive(links: seq<Link>, x: nat, y: nat, z: nat)
    requires Linked(links, x, y) && Linked(links, y, z)
    ensures Linked(links, x, z)
  {
    var p :| IsPath(links, p, x, y);
    var q :| IsPath(links, q, y, z);
    var t := p + q[1..];
    forall i | 0 <= i < |t| - 1 ensures Adjacent(links, t[i], t[i + 1]) {
      if i >= |p| - 1 {
        var j := i - (|p| - 1);
        assert t[i] == q[j] && t[i + 1] == q[j + 1];
        assert Adjacent(links, q[j], q[j + 1]);
      } else {
        assert t[i] == p[i] && t[i + 1] == p[i + 1];
      }
    }
    assert IsPath(links, t, x, z);
  }

  /** Being joined by links is an equivalence, so there are classes to name. */
  lemma LinkedIsEquivalence(links: seq<Link>, x: nat, y: nat, z: nat)
    ensures Linked(links, x, x)
    ensures Linked(links, x, y) <==> Linked(links, y, x)
    ensures Linked(links, x, y) && Linked(links, y, z) ==> Linked(links, x, z)
  {
    LinkedReflexive(links, x);
    if Linked(links, x, y) { LinkedSymmetric(links, x, y); }
    if Linked(links, y, x) { LinkedSymmetric(links, y, x); }
    if Linked(links, x, y) && Linked(links, y, z) { LinkedTransitive(links, x, y, z); }
  }

  lemma LinkedMonotone(links: seq<Link>, more: seq<Link>, x: nat, y: nat)
    requires Linked(links, x, y)
    requires forall l | l in links :: l in more
    ensures Linked(more, x, y)
  {
    var p :| IsPath(links, p, x, y);
    forall i | 0 <= i < |p| - 1 ensures Adjacent(more, p[i], p[i + 1]) {
      assert Adjacent(links, p[i], p[i + 1]);
    }
    assert IsPath(more, p, x, y);
  }

  ghost predicate InRange(links: seq<Link>, n: nat) {
    forall l | l in links :: l.0 < n && l.1 < n
  }

  /** labels names the classes of the equivalence closure of links. */
  ghost predicate Names(labels: Labels, links: seq<Link>) {
    InRange(links, |labels|)
    && forall x, y | 0 <= x < |labels| && 0 <= y < |labels| ::
         labels[x] == labels[y] <==> Linked(links, x, y)
  }

  /** A labelling that is constant along every link is constant along every path. */
  lemma {:induction false} ConstantAlongPath(labels: Labels, links: seq<Link>, p: seq<nat>, x: nat, y: nat)
    requires InRange(links, |labels|) && x < |labels|
    requires forall l | l in links :: labels[l.0] == labels[l.1]
    requires IsPath(links, p, x, y)
    ensures y < |labels| && labels[x] == labels[y]
    decreases |p|
  {
    if |p| > 1 {
      assert Adjacent(links, p[0], p[1]);
      forall i | 0 <= i < |p[1..]| - 1 ensures Adjacent(links, p[1..][i], p[1..][i + 1]) {
        assert Adjacent(links, p[i + 1], p[i + 2]);
      }
      ConstantAlongPath(labels, links, p[1..], p[1], y);
    }
  }

  /** Joining two classes names the closure with one more link. */
  lemma JoinedNames(labels: Labels, links: seq<Link>, a: nat, b: nat)
    requires a < |labels| && b < |labels| && Names(labels, links)
    ensures Names(Joined(labels, a, b), links + [(a, b)])
  {
    var labels', links' := Joined(labels, a, b), links + [(a, b)];
    forall l | l in links' ensures labels'[l.0] == labels'[l.1] {
      if l in links {
        LinkedByLink(links, l.0, l.1);
        assert labels[l.0] == labels[l.1];
      }
    }
    forall x, y | 0 <= x < |labels| && 0 <= y < |labels|
      ensures labels'[x] == labels'[y] <==> Linked(links', x, y)
    {
      if labels'[x] == labels'[y] {
        JoinedLinked(labels, links, a, b, x, y);
      }
      if Linked(links', x, y) {
        var p :| IsPath(links', p, x, y);
        ConstantAlongPath(labels', links', p, x, y);
      }
    }
  }

  lemma JoinedLinked(labels: Labels, links: seq<Link>, a: nat, b: nat, x: nat, y: nat)
    requires a < |labels| && b < |labels| && x < |labels| && y < |labels| && Names(labels, links)
    requires Joined(labels, a, b)[x] == Joined(labels, a, b)[y]
    ensures Linked(links + [(a, b)], x, y)
  {
    var links' := links + [(a, b)];
    assert (a, b) in links';
    LinkedByLink(links', a, b);
    LinkedByLink(links', b, a);
    forall u, v | 0 <= u < |labels| && 0 <= v < |labels| && labels[u] == labels[v] ensures Linked(links', u, v) {
      LinkedMonotone(links, links', u, v);
    }
    if labels[x] != labels[y] {
      if labels[x] == labels[a] {
        LinkedTransitive(links', x, a, b);
        LinkedTransitive(links', x, b, y);
      } else {
        LinkedTransitive(links', x, b, a);
        LinkedTransitive(links', x, a, y);
      }
    }
  }
}

/** Union by size with path compression, over a vector of parent links. */
module UnionFind {
  import opened Partition
  import opened Words

  datatype Data = Data(id: int, size: int)

  /** Node x leads to its representative through a node of larger rank, or is its own representative. */
  ghost predicate Leads(d: seq<Data>, rank: seq<nat>, labels: Labels, x: nat)
    requires |d| == |rank| == |labels| && IsPartition(labels) && x < |d|
  {
    0 <= d[x].id < |d| && labels[d[x].id] == labels[x]
    && (d[x].id == x <==> labels[x] == x)
    && rank[x] <= rank[labels[x]]
    && (d[x].id != x ==> rank[x] < rank[d[x].id])
  }

  ghost predicate Forest(d: seq<Data>, rank: seq<nat>, labels: Labels) {
    |d| == |rank| == |labels| && IsPartition(labels)
    && forall x: nat | x < |d| :: Leads(d, rank, labels, x)
  }

  /** Every representative records how many nodes it stands for, and is no deeper than its logarithm. */
  ghost predicate Sized(d: seq<Data>, rank: seq<nat>, labels: Labels) {
    |d| == |rank| == |labels|
    && forall r {:trigger labels[r]} | 0 <= r < |labels| && labels[r] == r ::
         d[r].size == |Class(labels, r)| && Pow2(rank[r]) <= d[r].size
  }

  /** How far x is below its representative in rank. */
  ghost function Below(d: seq<Data>, rank: seq<nat>, labels: Labels, x: nat): nat
    requires Forest(d, rank, labels) && x < |d|
  {
    assert Leads(d, rank, labels, x);
    rank[labels[x]] - rank[x]
  }

  /** How many parent links lead from x to its representative. */
  ghost function Depth(d: seq<Data>, rank: seq<nat>, labels: Labels, x: nat): nat
    requires Forest(d, rank, labels) && x < |d|
    decreases Below(d, rank, labels, x)
  {
    assert Leads(d, rank, labels, x);
    if d[x].id == x then 0 else 1 + Depth(d, rank, labels, d[x].id)
  }

  /** The nodes on the way from x to its representative. */
  ghost function Trail(d: seq<Data>, rank: seq<nat>, labels: Labels, x: nat): set<nat>
    requires Forest(d, rank, labels) && x < |d|
    decreases Below(d, rank, labels, x)
  {
    assert Leads(d, rank, labels, x);
    if d[x].id == x then {x} else {x} + Trail(d, rank, labels, d[x].id)
  }

  lemma {:induction false} DepthWithinRank(d: seq<Data>, rank: seq<nat>, labels: Labels, x: nat)
    requires Forest(d, rank, labels) && x < |d|
    ensures Depth(d, rank, labels, x) <= Below(d, rank, labels, x)
    decreases Below(d, rank, labels, x)
  {
    assert Leads(d, rank, labels, x);
    if d[x].id != x { DepthWithinRank(d, rank, labels, d[x].id); }
  }

  /** No lookup follows more than log2 of the class size links. */
  lemma DepthIsLogarithmic(d: seq<Data>, rank: seq<nat>, labels: Labels, x: nat)
    requires Forest(d, rank, labels) && Sized(d, rank, labels) && x < |d|
    ensures Pow2(Depth(d, rank, labels, x)) <= |Class(labels, labels[x])|
  {
    DepthWithinRank(d, rank, labels, x);
    Pow2Monotone(Depth(d, rank, labels, x), rank[labels[x]]);
    assert labels[labels[x]] == labels[x];
  }

  class UnionFindSimple {
    const data: array<Data>
    ghost var labels: Labels       // the representative of each node
    ghost var links: seq<Link>     // the connections asked for so far
    ghost var rank: seq<nat>       // an upper bound on the height of each node

    ghost predicate Valid()
      reads this, data
    {
      Forest(data[..], rank, labels) && Sized(data[..], rank, labels) && Names(labels, links)
    }

    constructor (maxId: nat)
      ensures Valid() && fresh(data) && data.Length == maxId
      ensures labels == seq(maxId, i => i) && links == []
    {
      data := new Data[maxId];
      new;
      for i := 0 to maxId
        invariant forall j | 0 <= j < i :: data[j] == Data(j, 1)
      {
        data[i] := Data(i, 1);
      }
      labels := seq(maxId, i => i);
      links := [];
      rank := seq(maxId, i => 0);
      forall r | 0 <= r < |labels| ensures |Class(labels, r)| == 1 {
        assert Class(labels, r) == {r};
      }
      forall x, y | 0 <= x < |labels| && 0 <= y < |labels|
        ensures labels[x] == labels[y] <==> Linked(links, x, y)
      {
        LinkedReflexive(links, x);
        if Linked(links, x, y) {
          var p :| IsPath(links, p, x, y);
          ConstantAlongPath(labels, links, p, x, y);
        }
      }
    }

    method GetRepresentative(thisId: nat) returns (root: nat)
      requires Valid() && thisId < data.Length
      modifies data
      ensures Valid() && root == labels[thisId]
      ensures forall x | 0 <= x < data.Length :: data[x].size == old(data[x].size)
      ensures forall x | 0 <= x < data.Length ::
                data[x].id == if x in Trail(old(data[..]), rank, labels, thisId) then root else old(data[x].id)
      decreases Below(data[..], rank, labels, thisId)
    {
      assert Leads(data[..], rank, labels, thisId);
      assert data[..][thisId] == data[thisId];
      if data[thisId].id == thisId {
        return thisId;
      }
      root := GetRepresentative(data[thisId].id);
      assert data[..][thisId] == data[thisId];
      Compressed(data[..], rank, labels, thisId);
      ghost var before := data[..];
      data[thisId] := data[thisId].(id := root);
      assert data[..] == before[thisId := before[thisId].(id := root)];
    }

    method GetSetSize(thisId: nat) returns (size: int)
      requires Valid() && thisId < data.Length
      modifies data
      ensures Valid() && size == |Class(labels, labels[thisId])|
    {
      var root := GetRepresentative(thisId);
      assert labels[root] == root;
      size := data[root].size;
      assert data[..][root] == data[root];
    }

    method ConnectNodes(aId: nat, bId: nat) returns (root: nat)
      requires Valid() && aId < data.Length && bId < data.Length
      modifies this, data
      ensures Valid() && |labels| == |old(labels)|
      ensures labels == Joined(old(labels), aId, bId)
      ensures links == old(links) + [(aId, bId)]
      ensures root == labels[aId] == labels[bId]
    {
      var aRoot := GetRepresentative(aId);
      var bRoot := GetRepresentative(bId);
      ghost var before := data[..];
      JoinedNames(labels, links, aId, bId);
      links := links + [(aId, bId)];
      if aRoot == bRoot {
        JoinedAlready(labels, aId, bId);
        return aRoot;
      }
      var asz := data[aRoot].size;
      var bsz := data[bRoot].size;
      assert before[aRoot] == data[aRoot] && before[bRoot] == data[bRoot];
      assert labels[aRoot] == aRoot && labels[bRoot] == bRoot;
      JoinedIsPartition(labels, aId, bId);
      if asz > bsz {
        AttachedForest(before, rank, labels, aId, bId, aRoot, bRoot);
        AttachedSized(before, rank, labels, aId, bId, aRoot, bRoot);
        rank := Raised(rank, aRoot, bRoot);
        Attach(aRoot, bRoot, bsz);
        root := aRoot;
      } else {
        AttachedForest(before, rank, labels, aId, bId, bRoot, aRoot);
        AttachedSized(before, rank, labels, aId, bId, bRoot, aRoot);
        rank := Raised(rank, bRoot, aRoot);
        Attach(bRoot, aRoot, asz);
        root := bRoot;
      }
      labels := Joined(labels, aId, bId);
    }

    /** Hangs the loser, which stands for size nodes, under the winner. */
    method Attach(winner: nat, loser: nat, size: int)
      requires winner < data.Length && loser < data.Length && winner != loser && size == data[loser].size
      modifies data
      ensures data[..] == Attached(old(data[..]), winner, loser)
    {
      data[loser] := data[loser].(id := winner);
      data[winner] := data[winner].(size := data[winner].size + size);
    }
  }

  ghost function Raised(rank: seq<nat>, winner: nat, loser: nat): seq<nat>
    requires winner < |rank| && loser < |rank|
  {
    if rank[winner] > rank[loser] then rank else rank[winner := rank[loser] + 1]
  }

  /** Pointing a node straight at its representative changes no class. */
  lemma Compressed(d: seq<Data>, rank: seq<nat>, labels: Labels, x: nat)
    requires Forest(d, rank, labels) && Sized(d, rank, labels)
    requires x < |d| && d[x].id != x
    ensures Forest(d[x := d[x].(id := labels[x])], rank, labels)
    ensures Sized(d[x := d[x].(id := labels[x])], rank, labels)
  {
    assert Leads(d, rank, labels, x) && Leads(d, rank, labels, d[x].id);
    var d' := d[x := d[x].(id := labels[x])];
    forall y: nat | y < |d'| ensures Leads(d', rank, labels, y) {
      assert Leads(d, rank, labels, y);
    }
  }

  /** The vector after hanging the loser under the winner. */
  function Attached(d: seq<Data>, winner: nat, loser: nat): seq<Data>
    requires winner < |d| && loser < |d|
  {
    d[loser := Data(winner, d[loser].size)][winner := Data(d[winner].id, d[winner].size + d[loser].size)]
  }

  lemma AttachedForest(d: seq<Data>, rank: seq<nat>, labels: Labels, a: nat, b: nat, winner: nat, loser: nat)
    requires Forest(d, rank, labels)
    requires a < |d| && b < |d| && labels[a] != labels[b]
    requires winner == Winner(labels, a, b) && loser == (if winner == labels[a] then labels[b] else labels[a])
    ensures Forest(Attached(d, winner, loser), Raised(rank, winner, loser), Joined(labels, a, b))
  {
    JoinedIsPartition(labels, a, b);
    var d', rank', labels' := Attached(d, winner, loser), Raised(rank, winner, loser), Joined(labels, a, b);
    assert labels[winner] == winner && labels[loser] == loser;
    assert Leads(d, rank, labels, winner) && Leads(d, rank, labels, loser);
    forall x: nat | x < |d'| ensures Leads(d', rank', labels', x) {
      assert Leads(d, rank, labels, x);
    }
  }

  lemma AttachedSized(d: seq<Data>, rank: seq<nat>, labels: Labels, a: nat, b: nat, winner: nat, loser: nat)
    requires Forest(d, rank, labels) && Sized(d, rank, labels)
    requires a < |d| && b < |d| && labels[a] != labels[b]
    requires winner == Winner(labels, a, b) && loser == (if winner == labels[a] then labels[b] else labels[a])
    ensures Sized(Attached(d, winner, loser), Raised(rank, winner, loser), Joined(labels, a, b))
  {
    JoinedIsPartition(labels, a, b);
    var d', rank', labels' := Attached(d, winner, loser), Raised(rank, winner, loser), Joined(labels, a, b);
    assert labels[winner] == winner && labels[loser] == loser;
    forall r {:trigger labels'[r]} | 0 <= r < |labels'| && labels'[r] == r
      ensures d'[r].size == |Class(labels', r)| && Pow2(rank'[r]) <= d'[r].size
    {
      JoinedClass(labels, a, b, r);
      assert r != loser;
      if r == winner {
        assert Pow2(rank[loser] + 1) == 2 * Pow2(rank[loser]);
      } else {
        assert labels[r] == r;
      }
    }
  }
}
