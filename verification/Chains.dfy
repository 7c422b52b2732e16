/** Linked lists threaded through an array of nodes: node n is followed by nexts[n]. */
module Chains {
  ghost predicate NoDuplicates<T>(q: seq<T>) {
    forall i, j | 0 <= i < j < |q| :: q[i] != q[j]
  }

  lemma TailDistinct<T>(q: seq<T>)
    requires NoDuplicates(q) && q != []
    ensures NoDuplicates(q[1..]) && q[0] !in q[1..]
  {
    forall i, j | 0 <= i < j < |q[1..]| ensures q[1..][i] != q[1..][j] { assert q[i + 1] != q[j + 1]; }
    forall j | 0 <= j < |q[1..]| ensures q[1..][j] != q[0] { assert q[0] != q[j + 1]; }
  }

  lemma {:induction false} AtMostOnce<T>(q: seq<T>, x: T)
    requires NoDuplicates(q)
    ensures multiset(q)[x] <= 1
  {
    if q != [] {
      assert q == [q[0]] + q[1..];
      TailDistinct(q);
      AtMostOnce(q[1..], x);
    }
  }

  /** Rearranging keeps elements distinct. */
  lemma RearrangedDistinct<T>(p: seq<T>, q: seq<T>)
    requires NoDuplicates(p) && multiset(p) == multiset(q)
    ensures NoDuplicates(q)
  {
    forall i, j | 0 <= i < j < |q| ensures q[i] != q[j] {
      AtMostOnce(p, q[i]);
      assert q == q[..i] + [q[i]] + q[i + 1..j] + [q[j]] + q[j + 1..];
      assert multiset(q)[q[i]] >= multiset([q[i]])[q[i]] + multiset([q[j]])[q[i]];
    }
  }

  const NULL := -1

  ghost predicate NextAt(nexts: seq<int>, nodes: seq<nat>, i: nat)
    requires i < |nodes|
  {
    nodes[i] < |nexts| && nexts[nodes[i]] == if i + 1 < |nodes| then nodes[i + 1] else NULL
  }

  ghost predicate PrevAt(prevs: seq<int>, nodes: seq<nat>, i: nat)
    requires i < |nodes|
  {
    nodes[i] < |prevs| && prevs[nodes[i]] == if i == 0 then NULL else nodes[i - 1]
  }

  /** first and the next links run through nodes, in order, and end in NULL. */
  ghost predicate Chained(first: int, nexts: seq<int>, nodes: seq<nat>) {
    first == (if nodes == [] then NULL else nodes[0])
    && forall i: nat | i < |nodes| :: NextAt(nexts, nodes, i)
  }

  ghost predicate BackChained(prevs: seq<int>, nodes: seq<nat>) {
    forall i: nat | i < |nodes| :: PrevAt(prevs, nodes, i)
  }

  lemma ChainedApart(first: int, nexts: seq<int>, nodes: seq<nat>, n: nat, v: int)
    requires Chained(first, nexts, nodes) && n !in nodes && n < |nexts|
    ensures Chained(first, nexts[n := v], nodes)
  {
    var nexts' := nexts[n := v];
    forall i: nat | i < |nodes| ensures NextAt(nexts', nodes, i) {
      assert NextAt(nexts, nodes, i);
    }
  }

  lemma ChainedRest(first: int, nexts: seq<int>, nodes: seq<nat>)
    requires Chained(first, nexts, nodes) && nodes != []
    ensures first == nodes[0] < |nexts| && Chained(nexts[first], nexts, nodes[1..])
  {
    assert NextAt(nexts, nodes, 0);
    forall i: nat | i < |nodes[1..]| ensures NextAt(nexts, nodes[1..], i) {
      assert NextAt(nexts, nodes, i + 1);
    }
  }

  /** The node at place k, or NULL past the end. */
  function NodeAt(nodes: seq<nat>, k: nat): int
    requires k <= |nodes|
  {
    if k < |nodes| then nodes[k] else NULL
  }

  function LinkedIn(nodes: seq<nat>, cur: nat, k: nat): seq<nat>
    requires k <= |nodes|
  {
    nodes[..k] + [cur] + nodes[k..]
  }

  lemma LinkedInAt(nodes: seq<nat>, cur: nat, k: nat, i: nat)
    requires k <= |nodes| && i <= |nodes|
    ensures LinkedIn(nodes, cur, k)[i] == if i < k then nodes[i] else if i == k then cur else nodes[i - 1]
  {}

  /** Linking a fresh node into a chain at place k. */
  lemma LinkedForward(first: int, nexts: seq<int>, nodes: seq<nat>, cur: nat, k: nat)
    requires Chained(first, nexts, nodes) && NoDuplicates(nodes) && cur !in nodes && cur < |nexts|
    requires k <= |nodes|
    ensures k == 0 ==> Chained(cur, nexts[cur := first], LinkedIn(nodes, cur, 0))
    ensures k > 0 ==> nodes[k - 1] < |nexts|
                      && Chained(first, nexts[cur := NodeAt(nodes, k)][nodes[k - 1] := cur], LinkedIn(nodes, cur, k))
  {
    var all := LinkedIn(nodes, cur, k);
    if k > 0 { assert NextAt(nexts, nodes, k - 1); }
    var nexts' := if k == 0 then nexts[cur := first] else nexts[cur := NodeAt(nodes, k)][nodes[k - 1] := cur];
    forall i: nat | i < |all| ensures NextAt(nexts', all, i) {
      LinkedInAt(nodes, cur, k, i);
      if i < |nodes| { LinkedInAt(nodes, cur, k, i + 1); }
      if i < k { assert NextAt(nexts, nodes, i); }
      if i > k { assert NextAt(nexts, nodes, i - 1); }
    }
    LinkedInAt(nodes, cur, k, 0);
  }

  lemma LinkedBackward(prevs: seq<int>, nodes: seq<nat>, cur: nat, k: nat)
    requires BackChained(prevs, nodes) && NoDuplicates(nodes) && cur !in nodes && cur < |prevs|
    requires k < |nodes|
    ensures nodes[k] < |prevs| && prevs[nodes[k]] == if k == 0 then NULL else nodes[k - 1]
    ensures BackChained(prevs[cur := prevs[nodes[k]]][nodes[k] := cur], LinkedIn(nodes, cur, k))
  {
    var all := LinkedIn(nodes, cur, k);
    assert PrevAt(prevs, nodes, k);
    var prevs' := prevs[cur := prevs[nodes[k]]][nodes[k] := cur];
    forall i: nat | i < |all| ensures PrevAt(prevs', all, i) {
      LinkedInAt(nodes, cur, k, i);
      if i > 0 { LinkedInAt(nodes, cur, k, i - 1); }
      if i < k { assert PrevAt(prevs, nodes, i); }
      if i > k { assert PrevAt(prevs, nodes, i - 1); }
    }
  }

  function Unlinked(nodes: seq<nat>, k: nat): seq<nat>
    requires k < |nodes|
  {
    nodes[..k] + nodes[k + 1..]
  }

  lemma UnlinkedAt(nodes: seq<nat>, k: nat, i: nat)
    requires k < |nodes| && i < |nodes| - 1
    ensures Unlinked(nodes, k)[i] == if i < k then nodes[i] else nodes[i + 1]
  {}

  /** Taking one element out of distinct ones leaves distinct ones, and none that equals it. */
  lemma {:induction false} DistinctRest(q: seq<nat>, i: nat)
    requires NoDuplicates(q) && i < |q|
    ensures NoDuplicates(Unlinked(q, i)) && forall j | 0 <= j < |q| - 1 :: Unlinked(q, i)[j] != q[i]
    ensures forall j | 0 <= j < |q| - 1 :: Unlinked(q, i)[j] in q
  {
    var rest := Unlinked(q, i);
    forall j | 0 <= j < |rest| ensures rest[j] != q[i] && rest[j] in q {
      UnlinkedAt(q, i, j);
      if j < i { assert q[j] != q[i]; } else { assert q[i] != q[j + 1]; }
    }
    forall j, k | 0 <= j < k < |rest| ensures rest[j] != rest[k] {
      UnlinkedAt(q, i, j);
      UnlinkedAt(q, i, k);
    }
  }

  /** Taking node k out of a chain. */
  lemma UnlinkedForward(first: int, nexts: seq<int>, nodes: seq<nat>, k: nat)
    requires Chained(first, nexts, nodes) && NoDuplicates(nodes) && k < |nodes|
    ensures nodes[k] < |nexts| && nexts[nodes[k]] == if k + 1 < |nodes| then nodes[k + 1] else NULL
    ensures k == 0 ==> Chained(nexts[nodes[0]], nexts, Unlinked(nodes, 0))
    ensures k > 0 ==> nodes[k - 1] < |nexts|
                      && Chained(first, nexts[nodes[k - 1] := nexts[nodes[k]]], Unlinked(nodes, k))
  {
    var rest := Unlinked(nodes, k);
    assert NextAt(nexts, nodes, k);
    if k > 0 { assert NextAt(nexts, nodes, k - 1); }
    var nexts' := if k == 0 then nexts else nexts[nodes[k - 1] := nexts[nodes[k]]];
    forall i: nat | i < |rest| ensures NextAt(nexts', rest, i) {
      UnlinkedAt(nodes, k, i);
      if i + 1 < |rest| { UnlinkedAt(nodes, k, i + 1); }
      if i < k { assert NextAt(nexts, nodes, i); } else { assert NextAt(nexts, nodes, i + 1); }
    }
  }

  lemma UnlinkedBackward(prevs: seq<int>, nodes: seq<nat>, k: nat)
    requires BackChained(prevs, nodes) && NoDuplicates(nodes) && k < |nodes|
    ensures nodes[k] < |prevs| && prevs[nodes[k]] == if k == 0 then NULL else nodes[k - 1]
    ensures if k + 1 == |nodes| then BackChained(prevs, Unlinked(nodes, k))
            else nodes[k + 1] < |prevs|
                 && BackChained(prevs[nodes[k + 1] := prevs[nodes[k]]], Unlinked(nodes, k))
  {
    var rest := Unlinked(nodes, k);
    assert PrevAt(prevs, nodes, k);
    if k + 1 < |nodes| { assert PrevAt(prevs, nodes, k + 1); }
    var prevs' := if k + 1 == |nodes| then prevs else prevs[nodes[k + 1] := prevs[nodes[k]]];
    forall i: nat | i < |rest| ensures PrevAt(prevs', rest, i) {
      UnlinkedAt(nodes, k, i);
      if i > 0 { UnlinkedAt(nodes, k, i - 1); }
      if i < k { assert PrevAt(prevs, nodes, i); } else { assert PrevAt(prevs, nodes, i + 1); }
    }
  }

  lemma BackChainedApart(prevs: seq<int>, nodes: seq<nat>, n: nat, v: int)
    requires BackChained(prevs, nodes) && n !in nodes && n < |prevs|
    ensures BackChained(prevs[n := v], nodes)
  {
    var prevs' := prevs[n := v];
    forall i: nat | i < |nodes| ensures PrevAt(prevs', nodes, i) {
      assert PrevAt(prevs, nodes, i);
    }
  }

  /** A node pushed onto the free list. */
  lemma ChainedPush(first: int, nexts: seq<int>, nodes: seq<nat>, n: nat)
    requires Chained(first, nexts, nodes) && n !in nodes && n < |nexts|
    ensures Chained(n, nexts[n := first], [n] + nodes)
  {
    var nexts', all := nexts[n := first], [n] + nodes;
    forall i: nat | i < |all| ensures NextAt(nexts', all, i) {
      if i > 0 { assert NextAt(nexts, nodes, i - 1); }
    }
  }
}
