/** Graph notions the structure generators are judged by: walks and
    connectivity, cycles, trees grown by attaching one new node at a time,
    endpoint degrees, and edges that follow a topological order. Edges are
    ordered pairs; for undirected notions either orientation counts. */
module GraphFacts {
  import opened Common

  /** Edge `e` joins `a` and `b`, in either orientation. */
  predicate Joins(e: Edge, a: int, b: int)
  {
    (e.0 == a && e.1 == b) || (e.0 == b && e.1 == a)
  }

  predicate Adjacent(edges: seq<Edge>, a: int, b: int)
  {
    (a, b) in edges || (b, a) in edges
  }

  /** `w` is a walk: consecutive vertices are adjacent. */
  ghost predicate IsWalk(edges: seq<Edge>, w: seq<int>)
  {
    |w| >= 1 && forall t :: 0 <= t < |w| - 1 ==> Adjacent(edges, w[t], w[t + 1])
  }

  ghost predicate Reaches(edges: seq<Edge>, a: int, b: int)
  {
    exists w :: IsWalk(edges, w) && w[0] == a && w[|w| - 1] == b
  }

  /** Nodes 1..n all reach each other. */
  ghost predicate Connected(n: int, edges: seq<Edge>)
  {
    forall a, b :: 1 <= a <= n && 1 <= b <= n ==> Reaches(edges, a, b)
  }

  function Backwards(w: seq<int>): (r: seq<int>)
    ensures |r| == |w| && forall i :: 0 <= i < |w| ==> r[i] == w[|w| - 1 - i]
  {
    seq(|w|, i requires 0 <= i < |w| => w[|w| - 1 - i])
  }

  lemma ReachesSymmetric(edges: seq<Edge>, a: int, b: int)
    requires Reaches(edges, a, b)
    ensures Reaches(edges, b, a)
  {
    var w :| IsWalk(edges, w) && w[0] == a && w[|w| - 1] == b;
    var r := Backwards(w);
    forall t | 0 <= t < |r| - 1 ensures Adjacent(edges, r[t], r[t + 1]) {
      assert Adjacent(edges, w[|w| - 2 - t], w[|w| - 1 - t]);
    }
    assert IsWalk(edges, r);
  }

  lemma ReachesTransitive(edges: seq<Edge>, a: int, b: int, c: int)
    requires Reaches(edges, a, b) && Reaches(edges, b, c)
    ensures Reaches(edges, a, c)
  {
    var w1 :| IsWalk(edges, w1) && w1[0] == a && w1[|w1| - 1] == b;
    var w2 :| IsWalk(edges, w2) && w2[0] == b && w2[|w2| - 1] == c;
    var w := w1 + w2[1..];
    forall t | 0 <= t < |w| - 1 ensures Adjacent(edges, w[t], w[t + 1]) {
      if t < |w1| - 1 {
        assert w[t] == w1[t] && w[t + 1] == w1[t + 1];
      } else {
        assert w[t] == w2[t - |w1| + 1] && w[t + 1] == w2[t - |w1| + 2];
      }
    }
    assert IsWalk(edges, w);
  }

  /** Adding edges keeps every walk a walk. */
  lemma ReachesWider(edges: seq<Edge>, more: seq<Edge>, a: int, b: int)
    requires Reaches(edges, a, b)
    requires forall e :: e in edges ==> e in more
    ensures Reaches(more, a, b)
  {
    var w :| IsWalk(edges, w) && w[0] == a && w[|w| - 1] == b;
    assert IsWalk(more, w);
  }

  /** If every node of 1..n occurs in `order` and reaches order[0], the
      graph is connected. */
  lemma ConnectedViaRoot(n: int, order: seq<int>, edges: seq<Edge>)
    requires |order| > 0
    requires forall v :: 1 <= v <= n ==> v in order
    requires forall i :: 0 <= i < |order| ==> Reaches(edges, order[i], order[0])
    ensures Connected(n, edges)
  {
    forall a, b | 1 <= a <= n && 1 <= b <= n ensures Reaches(edges, a, b) {
      assert a in order && b in order;
      var i :| 0 <= i < |order| && order[i] == a;
      var j :| 0 <= j < |order| && order[j] == b;
      ReachesSymmetric(edges, b, order[0]);
      ReachesTransitive(edges, a, order[0], b);
    }
  }

  /** A tree grown one node at a time, recorded in build order: edge k joins
      the new node order[k + 1] to the earlier node order[parents[k]], so
      every node after the first is attached to one placed before it. */
  ghost predicate AttachmentTree(order: seq<int>, parents: seq<nat>, built: seq<Edge>)
  {
    Distinct(order) && |parents| == |built| && |built| == Max(|order| - 1, 0)
    && forall k :: 0 <= k < |built| ==>
      parents[k] <= k && Joins(built[k], order[k + 1], order[parents[k]])
  }

  /** The walk from order[k] up the parent links to order[0]. */
  ghost function RootPath(order: seq<int>, parents: seq<nat>, built: seq<Edge>, k: nat): (path: seq<int>)
    requires AttachmentTree(order, parents, built) && k < |order|
    decreases k
  {
    if k == 0 then [order[0]] else [order[k]] + RootPath(order, parents, built, parents[k - 1])
  }

  lemma {:induction false} RootPathIsWalk(order: seq<int>, parents: seq<nat>, built: seq<Edge>, k: nat)
    requires AttachmentTree(order, parents, built) && k < |order|
    ensures var w := RootPath(order, parents, built, k);
      IsWalk(built, w) && w[0] == order[k] && w[|w| - 1] == order[0]
    decreases k
  {
    if k > 0 {
      var p := parents[k - 1];
      RootPathIsWalk(order, parents, built, p);
      var rest := RootPath(order, parents, built, p);
      var w := [order[k]] + rest;
      assert built[k - 1] in built;
      assert Adjacent(built, order[k], order[p]);
      forall t | 0 <= t < |w| - 1 ensures Adjacent(built, w[t], w[t + 1]) {
        if t > 0 {
          assert w[t] == rest[t - 1] && w[t + 1] == rest[t];
        }
      }
    }
  }

  /** Connectivity of an attachment tree: every node reaches the first one. */
  lemma AttachmentTreeConnected(order: seq<int>, parents: seq<nat>, built: seq<Edge>)
    requires AttachmentTree(order, parents, built)
    ensures forall k :: 0 <= k < |order| ==> Reaches(built, order[k], order[0])
  {
    forall k | 0 <= k < |order| ensures Reaches(built, order[k], order[0]) {
      RootPathIsWalk(order, parents, built, k);
    }
  }

  /** A closed trail: a walk from verts[0] back to itself whose steps use
      pairwise distinct edge positions idx[t]. */
  ghost predicate IsCycle(edges: seq<Edge>, idx: seq<int>, verts: seq<int>)
  {
    |idx| >= 1 && |verts| == |idx| + 1 && verts[0] == verts[|idx|]
    && (forall t :: 0 <= t < |idx| ==> 0 <= idx[t] < |edges| && Joins(edges[idx[t]], verts[t], verts[t + 1]))
    && (forall s, t :: 0 <= s < t < |idx| ==> idx[s] != idx[t])
  }

  /** Position of a largest entry. */
  function ArgMax(s: seq<int>): (m: nat)
    requires |s| >= 1
    ensures m < |s| && forall t :: 0 <= t < |s| ==> s[t] <= s[m]
  {
    if |s| == 1 then 0
    else
      var m := ArgMax(s[..|s| - 1]);
      assert forall t :: 0 <= t < |s| - 1 ==> s[t] == s[..|s| - 1][t];
      if s[|s| - 1] > s[m] then |s| - 1 else m
  }

  /** An edge built before the node order[m] arrived does not touch it. */
  lemma EarlierEdgeMissesLaterNode(order: seq<int>, parents: seq<nat>, built: seq<Edge>, j: nat, m: nat)
    requires AttachmentTree(order, parents, built)
    requires j < |built| && j + 1 < m < |order|
    ensures built[j].0 != order[m] && built[j].1 != order[m]
  {
    assert order[j + 1] != order[m];
    assert order[parents[j]] != order[m];
  }

  /** An attachment tree has no cycle: in any closed trail, the latest edge
      brings in a node that no other edge of the trail can touch. */
  lemma AttachmentTreeAcyclic(order: seq<int>, parents: seq<nat>, built: seq<Edge>, idx: seq<int>, verts: seq<int>)
    requires AttachmentTree(order, parents, built)
    ensures !IsCycle(built, idx, verts)
  {
    if IsCycle(built, idx, verts) {
      var L := |idx|;
      var tm := ArgMax(idx);
      var k := idx[tm];
      var w := order[k + 1];
      var p := parents[k];
      assert order[p] != w;
      // the latest edge joins w and order[p], and also verts[tm], verts[tm + 1]
      assert w == verts[tm] || w == verts[tm + 1];
      // the neighbouring step of the trail through w
      var tn := if w == verts[tm + 1] then (if tm + 1 == L then 0 else tm + 1)
                else (if tm == 0 then L - 1 else tm - 1);
      assert w == verts[tn] || w == verts[tn + 1];
      if tn == tm {
        assert false;
      } else {
        assert idx[tn] < k;
        assert Joins(built[idx[tn]], verts[tn], verts[tn + 1]);
        EarlierEdgeMissesLaterNode(order, parents, built, idx[tn], k + 1);
        assert false;
      }
    }
  }

  /** No closed trail at all. */
  ghost predicate Acyclic(edges: seq<Edge>)
  {
    forall idx, verts :: !IsCycle(edges, idx, verts)
  }

  /** A spanning tree of nodes 1..n: n - 1 edges between nodes of 1..n, no
      self-loop, every node reachable from every other, no cycle. */
  ghost predicate IsTree(n: int, edges: seq<Edge>)
  {
    |edges| == Max(n - 1, 0)
    && (forall e :: e in edges ==> 1 <= e.0 <= n && 1 <= e.1 <= n && e.0 != e.1)
    && Connected(n, edges) && Acyclic(edges)
  }

  /** A position of `x` in `s`. */
  function IndexOf<T(==)>(s: seq<T>, x: T): (i: nat)
    requires x in s
    ensures i < |s| && s[i] == x
  {
    if s[0] == x then 0 else 1 + IndexOf(s[1..], x)
  }

  /** A closed trail survives reordering the edges: each step is sent to the
      position its edge has in the other order. */
  lemma CycleTransfer(a: seq<Edge>, b: seq<Edge>, idx: seq<int>, verts: seq<int>) returns (idx2: seq<int>)
    requires Distinct(b) && multiset(a) == multiset(b)
    requires IsCycle(b, idx, verts)
    ensures IsCycle(a, idx2, verts)
  {
    forall t | 0 <= t < |idx| ensures b[idx[t]] in a {
      assert b[idx[t]] in multiset(b);
    }
    idx2 := seq(|idx|, t requires 0 <= t < |idx| => IndexOf(a, b[idx[t]]));
    forall s, t | 0 <= s < t < |idx| ensures idx2[s] != idx2[t] {
      assert b[idx[s]] != b[idx[t]];
    }
  }

  /** Each edge of an attachment tree brings in a node no earlier edge touches,
      so no edge repeats. */
  lemma AttachmentTreeDistinct(order: seq<int>, parents: seq<nat>, built: seq<Edge>)
    requires AttachmentTree(order, parents, built)
    ensures Distinct(built)
  {
    forall j, k | 0 <= j < k < |built| ensures built[j] != built[k] {
      EarlierEdgeMissesLaterNode(order, parents, built, j, k + 1);
    }
  }

  /** An attachment tree over a permutation of 1..n, in any edge order, is a
      spanning tree of 1..n without repeated edges. */
  lemma AttachmentTreeIsTree(n: nat, order: seq<int>, parents: seq<nat>, built: seq<Edge>, edges: seq<Edge>)
    requires IsPermutation(order, n) && AttachmentTree(order, parents, built)
    requires multiset(edges) == multiset(built)
    ensures IsTree(n, edges) && Distinct(edges)
  {
    PermutationFacts(order, n);
    assert |edges| == |multiset(edges)| == |built|;
    forall e | e in edges ensures e in built {
      assert e in multiset(built);
    }
    forall e | e in built ensures e in edges {
      assert e in multiset(edges);
    }
    forall e | e in edges ensures 1 <= e.0 <= n && 1 <= e.1 <= n && e.0 != e.1 {
      var k :| 0 <= k < |built| && built[k] == e;
      assert order[k + 1] != order[parents[k]];
    }
    if n > 0 {
      AttachmentTreeConnected(order, parents, built);
      forall k | 0 <= k < |order| ensures Reaches(edges, order[k], order[0]) {
        ReachesWider(built, edges, order[k], order[0]);
      }
      ConnectedViaRoot(n, order, edges);
    }
    AttachmentTreeDistinct(order, parents, built);
    DistinctPermuted(built, edges);
    forall idx, verts ensures !IsCycle(edges, idx, verts) {
      if IsCycle(edges, idx, verts) {
        var idx2 := CycleTransfer(built, edges, idx, verts);
        AttachmentTreeAcyclic(order, parents, built, idx2, verts);
      }
    }
  }

  /** Both ends of every edge, in edge order. */
  function Endpoints(edges: seq<Edge>): (s: seq<int>)
    ensures |s| == 2 * |edges|
  {
    if edges == [] then []
    else Endpoints(edges[..|edges| - 1]) + [edges[|edges| - 1].0, edges[|edges| - 1].1]
  }

  lemma EndpointsAppend(edges: seq<Edge>, e: Edge)
    ensures Endpoints(edges + [e]) == Endpoints(edges) + [e.0, e.1]
  {
    assert (edges + [e])[..|edges|] == edges;
  }

  /** How many edge ends sit at `v` (a self-loop counts twice). */
  function Degree(edges: seq<Edge>, v: int): (deg: nat)
  {
    multiset(Endpoints(edges))[v]
  }

  /** The first end of every edge. */
  function Firsts(edges: seq<Edge>): (r: seq<int>)
    ensures |r| == |edges|
  {
    if edges == [] then [] else Firsts(edges[..|edges| - 1]) + [edges[|edges| - 1].0]
  }

  /** The second end of every edge. */
  function Seconds(edges: seq<Edge>): (r: seq<int>)
    ensures |r| == |edges|
  {
    if edges == [] then [] else Seconds(edges[..|edges| - 1]) + [edges[|edges| - 1].1]
  }

  lemma {:induction false} FirstsSecondsAt(edges: seq<Edge>, i: nat)
    requires i < |edges|
    ensures Firsts(edges)[i] == edges[i].0 && Seconds(edges)[i] == edges[i].1
  {
    if i < |edges| - 1 {
      FirstsSecondsAt(edges[..|edges| - 1], i);
    }
  }

  /** The ends of the edges, taken as first ends then second ends. */
  lemma {:induction false} EndpointsSplit(edges: seq<Edge>)
    ensures multiset(Endpoints(edges)) == multiset(Firsts(edges)) + multiset(Seconds(edges))
  {
    if edges != [] {
      var init := edges[..|edges| - 1];
      var e := edges[|edges| - 1];
      EndpointsSplit(init);
      assert multiset(Endpoints(edges)) == multiset(Endpoints(init)) + multiset{e.0, e.1};
    }
  }

  lemma NextModulo(i: int, n: int)
    requires 0 <= i < n
    ensures (i + 1) % n == if i + 1 < n then i + 1 else 0
  {
  }

  /** The edges of a closed tour: first ends in tour order, second ends the
      tour rotated by one. */
  lemma CycleEnds(order: seq<int>, edges: seq<Edge>)
    requires |order| > 0 && |edges| == |order|
    requires forall i :: 0 <= i < |order| ==> edges[i] == (order[i], order[(i + 1) % |order|])
    ensures Firsts(edges) == order && Seconds(edges) == order[1..] + order[..1]
  {
    var n := |order|;
    var rot := order[1..] + order[..1];
    forall i | 0 <= i < n ensures Firsts(edges)[i] == order[i] && Seconds(edges)[i] == rot[i] {
      FirstsSecondsAt(edges, i);
      NextModulo(i, n);
    }
  }

  /** Joining order[i] to order[i + 1], and the last node back to the first,
      puts exactly two edge ends on every node of `order`. */
  lemma CycleDegrees(order: seq<int>, edges: seq<Edge>)
    requires |order| > 0 && |edges| == |order|
    requires forall i :: 0 <= i < |order| ==> edges[i] == (order[i], order[(i + 1) % |order|])
    ensures forall v :: Degree(edges, v) == 2 * multiset(order)[v]
  {
    CycleEnds(order, edges);
    EndpointsSplit(edges);
    assert order == order[..1] + order[1..];
    assert multiset(order[1..] + order[..1]) == multiset(order);
  }

  /** Every edge goes from an earlier to a later position of `order`. */
  ghost predicate RespectsOrder(order: seq<int>, edges: seq<Edge>)
  {
    forall e :: e in edges ==> exists i, j :: 0 <= i < j < |order| && e == (order[i], order[j])
  }

  /** A directed closed walk of at least one step. */
  ghost predicate IsDirectedCycle(edges: seq<Edge>, verts: seq<int>)
  {
    |verts| >= 2 && verts[0] == verts[|verts| - 1]
    && forall t :: 0 <= t < |verts| - 1 ==> (verts[t], verts[t + 1]) in edges
  }

  /** Along a directed walk that respects `order`, positions strictly grow. */
  lemma {:induction false} WalkClimbs(order: seq<int>, edges: seq<Edge>, verts: seq<int>, t: nat)
    requires Distinct(order) && RespectsOrder(order, edges)
    requires 0 < t < |verts|
    requires forall s :: 0 <= s < |verts| - 1 ==> (verts[s], verts[s + 1]) in edges
    ensures exists i, j :: 0 <= i < j < |order| && order[i] == verts[0] && order[j] == verts[t]
  {
    var e := (verts[t - 1], verts[t]);
    assert e in edges;
    var a, b :| 0 <= a < b < |order| && e == (order[a], order[b]);
    if t > 1 {
      WalkClimbs(order, edges, verts, t - 1);
      var i, j :| 0 <= i < j < |order| && order[i] == verts[0] && order[j] == verts[t - 1];
      assert j == a;
    }
  }

  /** No directed closed walk. */
  ghost predicate DirectedAcyclic(edges: seq<Edge>)
  {
    forall verts :: !IsDirectedCycle(edges, verts)
  }

  /** A graph whose edges all respect one order of distinct nodes has no
      directed cycle. */
  lemma RespectsOrderAcyclic(order: seq<int>, edges: seq<Edge>)
    requires Distinct(order) && RespectsOrder(order, edges)
    ensures DirectedAcyclic(edges)
  {
    forall verts ensures !IsDirectedCycle(edges, verts) {
      if IsDirectedCycle(edges, verts) {
        WalkClimbs(order, edges, verts, |verts| - 1);
      }
    }
  }
}
