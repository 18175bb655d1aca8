/** Graph samplers (namespace `gen_graphs`). Nodes are numbered from 1; an
    edge is a pair of nodes. Edge sets built through `std::set` come back in
    lexicographic order without repeated pairs. */
module Graphs {
  import opened Common
  import opened Engine
  import opened SortedSets
  import opened GraphFacts

  /** Every edge joins two different nodes of 1..n. */
  predicate Simple(n: int, edges: seq<Edge>)
  {
    forall e :: e in edges ==> 1 <= e.0 <= n && 1 <= e.1 <= n && e.0 != e.1
  }

  /** `tree(n)`: node i of a shuffled 1..n is joined to one of the i nodes
      before it, then the edges are shuffled. The ghost results are the node
      order, the chosen parent positions and the edges before the final
      shuffle. */
  method Tree(n: nat, rng: Rng) returns (edges: seq<Edge>, ghost order: seq<int>, ghost parents: seq<nat>, ghost built: seq<Edge>)
    modifies rng
    ensures IsPermutation(order, n) && AttachmentTree(order, parents, built)
    ensures multiset(edges) == multiset(built)
    ensures IsTree(n, edges) && Distinct(edges)
  {
    var nodes := rng.Shuffle(Iota(n));
    order := nodes;
    var pre: seq<Edge> := [];
    parents := [];
    var i := 1;
    while i < n
      invariant 1 <= i <= Max(n, 1) && |pre| == |parents| == i - 1
      invariant forall k :: 0 <= k < |pre| ==>
        parents[k] <= k && Joins(pre[k], nodes[k + 1], nodes[parents[k]])
    {
      var j := rng.UniformInt(0, i - 1);
      pre := pre + [(nodes[i], nodes[j])];
      parents := parents + [j];
      i := i + 1;
    }
    built := pre;
    PermutationFacts(order, n);
    edges := rng.Shuffle(pre);
    AttachmentTreeIsTree(n, order, parents, built, edges);
  }

  /** What `simple_graph(n, m)` returns: the lexicographically sorted set
      holding the edges of `tree` as they came, plus pairs (min, max) of two
      different nodes, Max(n - 1, m) pairs in all. The tree edges are not
      normalised, so an edge may be present in both orientations. */
  ghost predicate SimpleGraphShape(n: nat, m: int, tree: seq<Edge>, edges: seq<Edge>)
  {
    IsTree(n, tree) && EdgesAscending(edges) && Distinct(edges) && |edges| == Max(Max(n - 1, 0), m)
    && Simple(n, edges) && Connected(n, edges)
    && (forall e :: e in tree ==> e in edges)
    && (forall e :: e in edges && e !in tree ==> e.0 < e.1)
  }

  /** `simple_graph(n, m)`: the edges of `tree(n)`, then random pairs of
      different nodes until the set holds `m` edges. `None` is returned when
      `maxDraws` draws do not get there; with a single node the loop can
      never add an edge. */
  method SimpleGraph(n: nat, m: int, rng: Rng, maxDraws: nat) returns (res: Option<seq<Edge>>, ghost tree: seq<Edge>)
    requires n >= 1 || m <= 0
    modifies rng
    ensures IsTree(n, tree)
    ensures res.Some? ==> SimpleGraphShape(n, m, tree, res.value)
    ensures n == 1 && m > 0 ==> res.None?
    ensures m <= Max(n - 1, 0) ==> res.Some?
  {
    var t, order, parents, built := Tree(n, rng);
    tree := t;
    var s: seq<Edge> := [];
    for i := 0 to |t|
      invariant EdgesAscending(s) && |s| == i
      invariant forall e :: e in s <==> e in t[..i]
    {
      assert t[i] !in t[..i];
      s := InsertEdge(s, t[i]);
      assert t[..i + 1] == t[..i] + [t[i]];
    }
    assert t[..|t|] == t;
    var fuel := maxDraws;
    while |s| < m && fuel > 0
      invariant EdgesAscending(s) && |t| <= |s| <= Max(|t|, m)
      invariant Simple(n, s)
      invariant forall e :: e in t ==> e in s
      invariant forall e :: e in s && e !in t ==> e.0 < e.1
      invariant n == 1 ==> s == []
    {
      var u := rng.UniformInt(1, n);
      var v := rng.UniformInt(1, n);
      fuel := fuel - 1;
      if u != v {
        s := InsertEdge(s, if u < v then (u, v) else (v, u));
      }
    }
    if |s| < m {
      return None, tree;
    }
    forall a, b | 1 <= a <= n && 1 <= b <= n ensures Reaches(s, a, b) {
      ReachesWider(t, s, a, b);
    }
    EdgesAscendingIsDistinct(s);
    res := Some(s);
  }

  /** `weighted_graph(n, m, min_w, max_w)`: the edges of `simple_graph(n, m)`,
      in order, each given a weight drawn from [min_w, max_w]. */
  method WeightedGraph(n: nat, m: int, minW: int, maxW: int, rng: Rng, maxDraws: nat)
    returns (res: Option<seq<WeightedEdge>>, ghost tree: seq<Edge>, ghost graph: seq<Edge>)
    requires n >= 1 || m <= 0
    requires minW <= maxW || Max(n - 1, m) <= 0
    modifies rng
    ensures res.Some? ==> SimpleGraphShape(n, m, tree, graph) && |res.value| == |graph|
    ensures res.Some? ==> forall i :: 0 <= i < |graph| ==>
      res.value[i].0 == graph[i].0 && res.value[i].1 == graph[i].1 && minW <= res.value[i].2 <= maxW
    ensures n == 1 && m > 0 ==> res.None?
    ensures m <= Max(n - 1, 0) ==> res.Some?
  {
    var g;
    g, tree := SimpleGraph(n, m, rng, maxDraws);
    if g.None? {
      return None, tree, [];
    }
    var edges := g.value;
    graph := edges;
    var weighted: seq<WeightedEdge> := [];
    for i := 0 to |edges|
      invariant |weighted| == i
      invariant forall k :: 0 <= k < i ==>
        weighted[k].0 == edges[k].0 && weighted[k].1 == edges[k].1 && minW <= weighted[k].2 <= maxW
    {
      var w := rng.UniformInt(minW, maxW);
      weighted := weighted + [(edges[i].0, edges[i].1, w)];
    }
    res := Some(weighted);
  }

  /** `directed_graph(n, m)`: random ordered pairs of different nodes until
      the set holds `m` of them. With a single node no pair is ever kept. */
  method DirectedGraph(n: int, m: int, rng: Rng, maxDraws: nat) returns (res: Option<seq<Edge>>)
    requires n >= 1 || m <= 0
    modifies rng
    ensures res.Some? ==> EdgesAscending(res.value) && Distinct(res.value) && |res.value| == Max(m, 0) && Simple(n, res.value)
    ensures n == 1 && m > 0 ==> res.None?
    ensures m <= 0 ==> res.Some?
  {
    var s: seq<Edge> := [];
    var fuel := maxDraws;
    while |s| < m && fuel > 0
      invariant EdgesAscending(s) && |s| <= Max(m, 0) && Simple(n, s)
      invariant n == 1 ==> s == []
    {
      var u := rng.UniformInt(1, n);
      var v := rng.UniformInt(1, n);
      fuel := fuel - 1;
      if u != v {
        s := InsertEdge(s, (u, v));
      }
    }
    if |s| < m {
      return None;
    }
    EdgesAscendingIsDistinct(s);
    res := Some(s);
  }

  /** `dag(n, m)`: pairs (nodes[u], nodes[v]) with u < v over a shuffled
      1..n, until the set holds `m` of them. Every edge points forward in
      `order`, so the graph has no directed cycle. */
  method Dag(n: nat, m: int, rng: Rng, maxDraws: nat) returns (res: Option<seq<Edge>>, ghost order: seq<int>)
    requires n >= 2 || m <= 0
    modifies rng
    ensures IsPermutation(order, n)
    ensures res.Some? ==> EdgesAscending(res.value) && Distinct(res.value) && |res.value| == Max(m, 0) && Simple(n, res.value)
    ensures res.Some? ==> RespectsOrder(order, res.value) && DirectedAcyclic(res.value)
    ensures m <= 0 ==> res.Some?
  {
    var nodes := rng.Shuffle(Iota(n));
    order := nodes;
    PermutationFacts(order, n);
    var s: seq<Edge> := [];
    var fuel := maxDraws;
    while |s| < m && fuel > 0
      invariant EdgesAscending(s) && |s| <= Max(m, 0) && RespectsOrder(nodes, s)
    {
      var u := rng.UniformInt(0, n - 2);
      var v := rng.UniformInt(u + 1, n - 1);
      fuel := fuel - 1;
      s := InsertEdge(s, (nodes[u], nodes[v]));
    }
    if |s| < m {
      return None, order;
    }
    forall e | e in s ensures 1 <= e.0 <= n && 1 <= e.1 <= n && e.0 != e.1 {
      var i, j :| 0 <= i < j < n && e == (nodes[i], nodes[j]);
    }
    RespectsOrderAcyclic(order, s);
    EdgesAscendingIsDistinct(s);
    res := Some(s);
  }

  /** `bipartite(n1, n2, m)`: pairs (u, v) with u in 1..n1 and v in
      n1 + 1..n1 + n2, until the set holds `m` of them. */
  method Bipartite(n1: int, n2: int, m: int, rng: Rng, maxDraws: nat) returns (res: Option<seq<Edge>>)
    requires (n1 >= 1 && n2 >= 1) || m <= 0
    modifies rng
    ensures res.Some? ==> EdgesAscending(res.value) && Distinct(res.value) && |res.value| == Max(m, 0)
    ensures res.Some? ==> forall e :: e in res.value ==> 1 <= e.0 <= n1 < e.1 <= n1 + n2
    ensures m <= 0 ==> res.Some?
  {
    var s: seq<Edge> := [];
    var fuel := maxDraws;
    while |s| < m && fuel > 0
      invariant EdgesAscending(s) && |s| <= Max(m, 0)
      invariant forall e :: e in s ==> 1 <= e.0 <= n1 < e.1 <= n1 + n2
    {
      var u := rng.UniformInt(1, n1);
      var v := rng.UniformInt(1, n2);
      fuel := fuel - 1;
      s := InsertEdge(s, (u, v + n1));
    }
    if |s| < m {
      return None;
    }
    EdgesAscendingIsDistinct(s);
    res := Some(s);
  }

  /** `star(n, center)`: (center, i) for every i of 1..n other than the
      center, shuffled. */
  method Star(n: int, rng: Rng, center: int := 1) returns (edges: seq<Edge>)
    modifies rng
    ensures forall e :: e in edges <==> e.0 == center && 1 <= e.1 <= n && e.1 != center
    ensures Distinct(edges)
    ensures |edges| == if 1 <= center <= n then n - 1 else Max(n, 0)
    ensures 1 <= center <= n ==> Connected(n, edges)
  {
    var pre: seq<Edge> := [];
    var i := 1;
    while i <= n
      invariant 1 <= i <= Max(n + 1, 1)
      invariant forall e :: e in pre <==> e.0 == center && 1 <= e.1 < i && e.1 != center
      invariant forall k :: 0 <= k < |pre| ==> pre[k].1 < i
      invariant Distinct(pre)
      invariant |pre| == if 1 <= center < i then i - 2 else i - 1
    {
      if i != center {
        pre := pre + [(center, i)];
      }
      i := i + 1;
    }
    edges := rng.Shuffle(pre);
    forall e ensures e in edges <==> e in pre {
      calc {
        e in edges;
        e in multiset(edges);
        e in multiset(pre);
        e in pre;
      }
    }
    DistinctPermuted(pre, edges);
    if 1 <= center <= n {
      forall a | 1 <= a <= n ensures Reaches(edges, a, center) {
        if a != center {
          assert (center, a) in edges;
          assert IsWalk(edges, [a, center]);
        } else {
          assert IsWalk(edges, [a]);
        }
      }
      forall a, b | 1 <= a <= n && 1 <= b <= n ensures Reaches(edges, a, b) {
        ReachesSymmetric(edges, b, center);
        ReachesTransitive(edges, a, center, b);
      }
    }
  }

  /** `cycle(n)`: a shuffled 1..n joined in a ring, node i to node i + 1 and
      the last back to the first; each node ends up with two edge ends. */
  method Cycle(n: nat, rng: Rng) returns (edges: seq<Edge>, ghost order: seq<int>)
    modifies rng
    ensures IsPermutation(order, n) && |order| == |edges| == n
    ensures forall i :: 0 <= i < n ==> edges[i] == (order[i], order[(i + 1) % n])
    ensures forall v :: Degree(edges, v) == if 1 <= v <= n then 2 else 0
  {
    var nodes := rng.Shuffle(Iota(n));
    order := nodes;
    PermutationFacts(order, n);
    edges := [];
    for i := 0 to n
      invariant |edges| == i
      invariant forall k :: 0 <= k < i ==> edges[k] == (nodes[k], nodes[(k + 1) % n])
    {
      edges := edges + [(nodes[i], nodes[(i + 1) % n])];
    }
    forall v ensures Degree(edges, v) == if 1 <= v <= n then 2 else 0 {
      IotaCount(n, v);
      if n > 0 {
        CycleDegrees(order, edges);
      }
    }
  }

  /** 0 + 1 + ... + k. */
  function Triangle(k: int): (t: nat)
  {
    if k <= 0 then 0 else Triangle(k - 1) + k
  }

  lemma {:induction false} TriangleClosed(k: nat)
    ensures Triangle(k) == k * (k + 1) / 2
  {
    if k > 0 {
      TriangleClosed(k - 1);
      assert k * (k + 1) == (k - 1) * k + 2 * k;
    }
  }

  /** `complete(n)`: every pair (i, j) with 1 <= i < j <= n, row by row. */
  method Complete(n: int) returns (edges: seq<Edge>)
    ensures EdgesAscending(edges)
    ensures forall e :: e in edges <==> 1 <= e.0 < e.1 <= n
    ensures |edges| == if n >= 0 then n * (n - 1) / 2 else 0
  {
    edges := [];
    var i := 1;
    while i <= n
      invariant 1 <= i <= Max(n + 1, 1)
      invariant EdgesAscending(edges)
      invariant forall e :: e in edges <==> 1 <= e.0 < e.1 <= n && e.0 < i
      invariant |edges| == Triangle(n - 1) - Triangle(n - i)
    {
      var j := i + 1;
      while j <= n
        invariant i + 1 <= j <= n + 1
        invariant EdgesAscending(edges)
        invariant forall e :: e in edges <==> 1 <= e.0 < e.1 <= n && (e.0 < i || (e.0 == i && e.1 < j))
        invariant |edges| == Triangle(n - 1) - Triangle(n - i) + (j - i - 1)
      {
        edges := edges + [(i, j)];
        j := j + 1;
      }
      i := i + 1;
    }
    if n >= 1 {
      TriangleClosed(n - 1);
    }
  }

  /** `chain_tree(n)`: the path 1 - 2 - ... - n, edge k joining k + 1 and k + 2. */
  method ChainTree(n: int) returns (edges: seq<Edge>)
    ensures |edges| == Max(n - 1, 0)
    ensures forall k :: 0 <= k < |edges| ==> edges[k] == (k + 1, k + 2)
    ensures IsTree(n, edges)
  {
    edges := [];
    var i := 2;
    while i <= n
      invariant 2 <= i <= Max(n + 1, 2) && |edges| == i - 2
      invariant forall k :: 0 <= k < |edges| ==> edges[k] == (k + 1, k + 2)
    {
      edges := edges + [(i - 1, i)];
      i := i + 1;
    }
    PathIsTree(n, edges);
  }

  /** The path 1 - 2 - ... - n is a tree grown by attaching node k + 2 to
      node k + 1. */
  lemma PathIsTree(n: int, edges: seq<Edge>)
    requires |edges| == Max(n - 1, 0)
    requires forall k :: 0 <= k < |edges| ==> edges[k] == (k + 1, k + 2)
    ensures IsTree(n, edges)
  {
    var size := Max(n, 0);
    var order := Iota(size);
    var parents: seq<nat> := seq(|edges|, k requires 0 <= k < |edges| => k);
    assert AttachmentTree(order, parents, edges);
    AttachmentTreeIsTree(size, order, parents, edges, edges);
  }

  /** The edges of a `d`-regular graph on 1..n: n * d / 2 edges, no self-loop,
      every node the end of exactly d of them. Repeated edges are possible. */
  ghost predicate IsRegular(n: int, d: int, edges: seq<Edge>)
  {
    |edges| == n * d / 2 && Simple(n, edges)
    && forall v :: Degree(edges, v) == if 1 <= v <= n then d else 0
  }

  /** The stub list of `regular`: nodes 1..n in turn, each pushed `copies`
      times. */
  method Stubs(n: int, copies: nat) returns (nodes: seq<int>)
    ensures |nodes| == Max(n, 0) * copies
    ensures forall v :: multiset(nodes)[v] == if 1 <= v <= n then copies else 0
  {
    nodes := [];
    var i := 1;
    while i <= n
      invariant 1 <= i <= Max(n + 1, 1)
      invariant |nodes| == (i - 1) * copies
      invariant forall v :: multiset(nodes)[v] == if 1 <= v < i then copies else 0
    {
      var j := 0;
      while j < copies
        invariant 0 <= j <= copies
        invariant |nodes| == (i - 1) * copies + j
        invariant forall v :: multiset(nodes)[v] == if 1 <= v < i then copies else if v == i then j else 0
      {
        nodes := nodes + [i];
        j := j + 1;
      }
      assert (i - 1) * copies + copies == i * copies;
      i := i + 1;
    }
  }

  /** Stubs 2j and 2j + 1, the j-th pair `regular` forms. */
  function PairAt(stubs: seq<int>, j: nat): (pair: Edge)
    requires 2 * j + 1 < |stubs|
  {
    (stubs[2 * j], stubs[2 * j + 1])
  }

  /** The pairing pass of `regular`: stubs 2j and 2j + 1 become edge j, and
      the first pair holding the same node twice ends the pass with nothing. */
  method PairUp(stubs: seq<int>) returns (edges: seq<Edge>)
    requires |stubs| % 2 == 0
    ensures edges == [] || (2 * |edges| == |stubs| && Endpoints(edges) == stubs)
    ensures forall j :: 0 <= j < |edges| ==> edges[j] == PairAt(stubs, j) && edges[j].0 != edges[j].1
    ensures edges == [] && stubs != [] <==>
      exists j: nat :: 2 * j + 1 < |stubs| && PairAt(stubs, j).0 == PairAt(stubs, j).1
  {
    edges := [];
    var k := 0;
    while k < |stubs|
      invariant 0 <= k <= |stubs| && k == 2 * |edges|
      invariant Endpoints(edges) == stubs[..k]
      invariant forall j :: 0 <= j < |edges| ==> edges[j] == PairAt(stubs, j) && edges[j].0 != edges[j].1
    {
      if stubs[k] == stubs[k + 1] {
        assert PairAt(stubs, |edges|).0 == PairAt(stubs, |edges|).1;
        return [];
      }
      EndpointsAppend(edges, (stubs[k], stubs[k + 1]));
      edges := edges + [(stubs[k], stubs[k + 1])];
      assert stubs[..k + 2] == stubs[..k] + [stubs[k], stubs[k + 1]];
      k := k + 2;
    }
    assert stubs[..k] == stubs;
  }

  /** `regular(n, d)`: d copies of every node (the stubs), shuffled and paired
      off two by two. Nothing is returned when n * d is odd or d >= n, nor
      when some pair is a self-loop; `stubs` is the shuffled stub list. */
  method Regular(n: int, d: int, rng: Rng) returns (edges: seq<Edge>, ghost stubs: seq<int>)
    modifies rng
    ensures n * d % 2 != 0 || d >= n ==> edges == []
    ensures edges == [] || (1 <= d < n && IsRegular(n, d, edges))
    ensures !(n * d % 2 != 0 || d >= n) ==>
      (forall v :: multiset(stubs)[v] == if 1 <= v <= n then Max(d, 0) else 0)
      && (edges == [] && stubs != [] <==>
          exists j: nat :: 2 * j + 1 < |stubs| && PairAt(stubs, j).0 == PairAt(stubs, j).1)
  {
    if n * d % 2 != 0 || d >= n {
      return [], [];
    }
    var copies := Max(d, 0);
    var nodes := Stubs(n, copies);
    assert |nodes| == Max(n, 0) * copies;
    assert |nodes| % 2 == 0 by {
      if d >= 0 {
        assert |nodes| == n * d;
      }
    }
    var shuffled := rng.Shuffle(nodes);
    stubs := shuffled;
    edges := PairUp(shuffled);
    if edges != [] {
      PairedStubsRegular(n, d, stubs, edges);
    }
  }

  /** Pairing off stubs that hold each node of 1..n d times, with no pair a
      self-loop, gives a d-regular simple graph on 1..n. */
  lemma PairedStubsRegular(n: int, d: int, stubs: seq<int>, edges: seq<Edge>)
    requires 1 <= d && |stubs| == n * d
    requires forall v :: multiset(stubs)[v] == if 1 <= v <= n then d else 0
    requires 2 * |edges| == |stubs| && Endpoints(edges) == stubs
    requires forall j :: 0 <= j < |edges| ==> edges[j] == PairAt(stubs, j) && edges[j].0 != edges[j].1
    ensures IsRegular(n, d, edges)
  {
    forall e | e in edges ensures 1 <= e.0 <= n && 1 <= e.1 <= n && e.0 != e.1 {
      var j :| 0 <= j < |edges| && edges[j] == e;
      assert e.0 in multiset(stubs) && e.1 in multiset(stubs);
    }
  }

  /** The diameter `tree_with_diameter(n, diameter)` works with: at most n - 1. */
  function SpineLength(n: int, diameter: int): (d: int)
  {
    if diameter >= n then n - 1 else diameter
  }

  /** The spine length is the smaller of the requested diameter and n - 1. */
  lemma SpineLengthClamp(n: int, diameter: int)
    ensures SpineLength(n, diameter) <= n - 1 && SpineLength(n, diameter) <= diameter
    ensures SpineLength(n, diameter) == diameter || SpineLength(n, diameter) == n - 1
  {
  }

  /** The build order of `tree_with_diameter`: the spine, then the nodes
      attached after it. */
  function SpineOrder(path: seq<int>, n: int): (order: seq<int>)
    requires |path| <= Max(n, 0)
    ensures |order| == Max(n, 0) && order[..|path|] == path
    ensures forall k :: |path| <= k < |order| ==> order[k] == k + 1
  {
    path + seq(Max(n, 0) - |path|, k requires 0 <= k < Max(n, 0) - |path| => |path| + 1 + k)
  }

  /** The spine followed by the attached nodes is a permutation of 1..n. */
  lemma SpineOrderPermutation(path: seq<int>, n: int)
    requires |path| <= Max(n, 0) && IsPermutation(path, |path|)
    ensures IsPermutation(SpineOrder(path, n), Max(n, 0)) && Distinct(SpineOrder(path, n))
  {
    var order := SpineOrder(path, n);
    var rest := order[|path|..];
    assert order == path + rest;
    assert Iota(|path|) + rest == Iota(Max(n, 0));
    assert multiset(order) == multiset(path) + multiset(rest);
    PermutationFacts(order, Max(n, 0));
  }

  /** The edges `tree_with_diameter` lays down, before the final shuffle, form
      an attachment tree over the spine followed by the attached nodes. */
  lemma SpineBuildIsAttachment(path: seq<int>, n: int, parents: seq<nat>, pre: seq<Edge>)
    requires 1 <= |path| <= n || (path == [] && n <= 1)
    requires IsPermutation(path, |path|)
    requires |pre| == |parents| == Max(n - 1, 0)
    requires forall k :: 0 <= k < |path| - 1 ==> pre[k] == (path[k], path[k + 1]) && parents[k] == k
    requires forall k :: Max(|path| - 1, 0) <= k < |pre| ==>
      parents[k] < |path| && pre[k] == (path[parents[k]], k + 2)
    ensures IsPermutation(SpineOrder(path, n), Max(n, 0))
    ensures AttachmentTree(SpineOrder(path, n), parents, pre)
  {
    var order := SpineOrder(path, n);
    SpineOrderPermutation(path, n);
    forall k | 0 <= k < |pre| ensures parents[k] <= k && Joins(pre[k], order[k + 1], order[parents[k]]) {
      if k < |path| - 1 {
        assert order[k] == path[k] && order[k + 1] == path[k + 1];
      } else {
        assert order[parents[k]] == path[parents[k]];
      }
    }
  }

  /** The shuffled edges of `tree_with_diameter` form a spanning tree that
      contains the spine path and an edge from the spine to every later node. */
  lemma SpineTree(path: seq<int>, n: int, parents: seq<nat>, pre: seq<Edge>, edges: seq<Edge>)
    requires 1 <= |path| <= n || (path == [] && n <= 1)
    requires IsPermutation(path, |path|)
    requires |pre| == |parents| == Max(n - 1, 0)
    requires forall k :: 0 <= k < |path| - 1 ==> pre[k] == (path[k], path[k + 1]) && parents[k] == k
    requires forall k :: Max(|path| - 1, 0) <= k < |pre| ==>
      parents[k] < |path| && pre[k] == (path[parents[k]], k + 2)
    requires multiset(edges) == multiset(pre)
    ensures IsTree(n, edges) && Distinct(edges)
    ensures forall i :: 0 <= i < |path| - 1 ==> (path[i], path[i + 1]) in edges
    ensures forall v :: Max(|path|, 1) < v <= n ==> AttachedToSpine(path, edges, v)
  {
    SpineBuildIsAttachment(path, n, parents, pre);
    AttachmentTreeIsTree(Max(n, 0), SpineOrder(path, n), parents, pre, edges);
    forall e | e in pre ensures e in edges {
      assert e in multiset(edges);
    }
    forall i | 0 <= i < |path| - 1 ensures (path[i], path[i + 1]) in edges {
      assert pre[i] in pre;
    }
    forall v | Max(|path|, 1) < v <= n ensures AttachedToSpine(path, edges, v) {
      assert pre[v - 2] in pre;
    }
  }

  /** Node `v` hangs off some spine node. */
  ghost predicate AttachedToSpine(spine: seq<int>, edges: seq<Edge>, v: int)
  {
    exists a :: 0 <= a < |spine| && (spine[a], v) in edges
  }

  /** The spine loop of `tree_with_diameter`: consecutive nodes of `path`
      joined in order. */
  method SpineEdges(path: seq<int>) returns (pre: seq<Edge>)
    ensures |pre| == Max(|path| - 1, 0)
    ensures forall k :: 0 <= k < |pre| ==> pre[k] == (path[k], path[k + 1])
  {
    pre := [];
    var i := 0;
    while i < |path| - 1
      invariant 0 <= i <= Max(|path| - 1, 0) && |pre| == i
      invariant forall k :: 0 <= k < i ==> pre[k] == (path[k], path[k + 1])
    {
      pre := pre + [(path[i], path[i + 1])];
      i := i + 1;
    }
  }

  /** The attachment loop of `tree_with_diameter`: while fewer than n - 1
      edges exist, node `next` (counting up from |path| + 1) is joined to a
      random spine node. `parents` records the spine position chosen. */
  method AttachToSpine(path: seq<int>, n: int, pre0: seq<Edge>, ghost parents0: seq<nat>, rng: Rng)
    returns (pre: seq<Edge>, ghost parents: seq<nat>)
    requires 1 <= |path| <= n || (path == [] && n <= 1)
    requires |pre0| == |parents0| == Max(|path| - 1, 0)
    modifies rng
    ensures |pre| == |parents| == Max(n - 1, 0)
    ensures pre[..|pre0|] == pre0 && parents[..|pre0|] == parents0
    ensures forall k :: |pre0| <= k < |pre| ==> parents[k] < |path| && pre[k] == (path[parents[k]], k + 2)
  {
    pre, parents := pre0, parents0;
    var next := |path| + 1;
    while |pre| < n - 1
      invariant |pre0| <= |pre| <= Max(n - 1, 0) && |parents| == |pre|
      invariant |path| >= 1 ==> next == |pre| + 2
      invariant pre[..|pre0|] == pre0 && parents[..|pre0|] == parents0
      invariant forall k :: |pre0| <= k < |pre| ==> parents[k] < |path| && pre[k] == (path[parents[k]], k + 2)
    {
      var attach := rng.UniformInt(0, |path| - 1);
      pre := pre + [(path[attach], next)];
      parents := parents + [attach];
      next := next + 1;
    }
  }

  /** `tree_with_diameter(n, diameter)`: a shuffled 1..diameter + 1 joined as
      a path (the spine), then nodes diameter + 2, ..., n each attached to a
      spine node, then the edges shuffled. The result is a spanning tree; its
      exact diameter is not promised. */
  method TreeWithDiameter(n: int, diameter: int, rng: Rng) returns (edges: seq<Edge>, ghost spine: seq<int>)
    requires n >= 0 && (diameter >= 0 || (diameter == -1 && n <= 1))
    modifies rng
    ensures IsTree(n, edges) && Distinct(edges)
    ensures IsPermutation(spine, SpineLength(n, diameter) + 1)
    ensures |spine| == SpineLength(n, diameter) + 1
    ensures forall i :: 0 <= i < |spine| - 1 ==> (spine[i], spine[i + 1]) in edges
    ensures forall v :: Max(|spine|, 1) < v <= n ==> AttachedToSpine(spine, edges, v)
  {
    var d := SpineLength(n, diameter);
    var path := rng.Shuffle(Iota(d + 1));
    spine := path;
    var pre := SpineEdges(path);
    ghost var parents := seq(|pre|, k requires 0 <= k < |pre| => k);
    pre, parents := AttachToSpine(path, n, pre, parents, rng);
    edges := rng.Shuffle(pre);
    SpineTree(path, n, parents, pre, edges);
  }
}
