/** The `HLC` driver: the edge similarity graph (the line graph of the input,
    each line-graph edge scored by the similarity of the two endpoints its
    edges do not share), the single-threshold cut and the sweep that picks
    the cut of maximal partition density. */
module Hlc {
  import opened Wrappers
  import opened HlcClustering
  import opened HlcSimilarity
  import Sorting
  import Grouping

  /** An edge of the line graph: two edge indices of the input graph and the
      similarity score of the pair. */
  datatype LineEdge = LineEdge(source: nat, target: nat, score: real)

  /** Which calculator the source picks: Tanimoto when the graph carries a
      `weight` edge attribute, Jaccard otherwise. */
  datatype Measure = Unweighted | Weighted(weights: seq<real>)

  /** What a run records: the clusters as vertex sets, `last_threshold` and
      `last_partition_density`. */
  datatype Outcome = Outcome(clusters: seq<set<nat>>, lastThreshold: Option<real>, lastPartitionDensity: Option<real>)

  /** Every endpoint is a vertex of the graph (igraph guarantees this). */
  predicate WellFormed(g: Graph)
  {
    forall e :: 0 <= e < |g.edges| ==> g.edges[e].0 < g.vcount && g.edges[e].1 < g.vcount
  }

  predicate Share(a: Edge, b: Edge)
  {
    a.0 == b.0 || a.0 == b.1 || a.1 == b.0 || a.1 == b.1
  }

  /* ---------------------------------------------------------- line graph */

  /** The line graph restricted to the first `n` edges: every pair `i < j`
      of edges sharing a vertex, ordered by `j`, then `i`. */
  function LineGraphPrefix(E: seq<Edge>, n: nat): (r: seq<(nat, nat)>)
    requires n <= |E|
    ensures forall k :: 0 <= k < |r| ==> r[k].0 < r[k].1 < n && Share(E[r[k].0], E[r[k].1])
  {
    if n == 0 then [] else LineGraphPrefix(E, n - 1) + Adjacent(E, n - 1, n - 1)
  }

  /** Every pair of edges among the first `n` that share a vertex is listed. */
  lemma {:induction false} LineGraphPrefixComplete(E: seq<Edge>, n: nat, i: nat, j: nat)
    requires i < j < n <= |E| && Share(E[i], E[j])
    ensures (i, j) in LineGraphPrefix(E, n)
  {
    var init := LineGraphPrefix(E, n - 1);
    var adj := Adjacent(E, n - 1, n - 1);
    if j < n - 1 {
      LineGraphPrefixComplete(E, n - 1, i, j);
      assert (i, j) in init;
    } else {
      assert (i, j) in adj;
    }
  }

  /** The pairs `(i, j)` with `i < m` whose edges share a vertex. */
  function Adjacent(E: seq<Edge>, j: nat, m: nat): (r: seq<(nat, nat)>)
    requires j < |E| && m <= j
    ensures forall k :: 0 <= k < |r| ==> r[k].1 == j && r[k].0 < m && Share(E[r[k].0], E[j])
    ensures forall i :: 0 <= i < m && Share(E[i], E[j]) ==> (i, j) in r
    decreases m
  {
    if m == 0 then [] else Adjacent(E, j, m - 1) + (if Share(E[m - 1], E[j]) then [(m - 1, j)] else [])
  }

  /** `graph.linegraph()`: two edges are adjacent iff they share a vertex.
      igraph's own edge order is not part of the model. */
  function LineGraph(E: seq<Edge>): (r: seq<(nat, nat)>)
    ensures forall k :: 0 <= k < |r| ==> r[k].0 < r[k].1 < |E| && Share(E[r[k].0], E[r[k].1])
    ensures forall i, j :: 0 <= i < j < |E| && Share(E[i], E[j]) ==> (i, j) in r
  {
    forall i, j | 0 <= i < j < |E| && Share(E[i], E[j]) ensures (i, j) in LineGraphPrefix(E, |E|) {
      LineGraphPrefixComplete(E, |E|, i, j);
    }
    LineGraphPrefix(E, |E|)
  }

  /* -------------------------------------------------- endpoint selection */

  /** The pair of vertices a line-graph edge between edges `(a, b)` and
      `(c, d)` is scored by: the endpoints that are not shared. The last
      branch assumes `b == d` without checking it. */
  function NonShared(e1: Edge, e2: Edge): (r: (nat, nat))
    ensures r.0 == e1.0 || r.0 == e1.1
    ensures r.1 == e2.0 || r.1 == e2.1
  {
    var (a, b) := e1;
    var (c, d) := e2;
    if a == c then (b, d)
    else if a == d then (b, c)
    else if b == c then (a, d)
    else (a, c)
  }

  /** For two distinct loop-free edges meeting in exactly one vertex `x`,
      the scored pair is the far end of each edge. */
  lemma NonSharedFarEnds(e1: Edge, e2: Edge, x: nat)
    requires e1.0 != e1.1 && e2.0 != e2.1
    requires (e1.0 == x || e1.1 == x) && (e2.0 == x || e2.1 == x)
    requires {e1.0, e1.1} != {e2.0, e2.1}
    ensures {NonShared(e1, e2).0, x} == {e1.0, e1.1}
    ensures {NonShared(e1, e2).1, x} == {e2.0, e2.1}
    ensures NonShared(e1, e2).0 != x && NonShared(e1, e2).1 != x
  {
  }

  /** Swapping the two edges swaps the scored pair. */
  lemma NonSharedSwap(e1: Edge, e2: Edge, x: nat)
    requires e1.0 != e1.1 && e2.0 != e2.1
    requires (e1.0 == x || e1.1 == x) && (e2.0 == x || e2.1 == x)
    requires {e1.0, e1.1} != {e2.0, e2.1}
    ensures NonShared(e2, e1) == (NonShared(e1, e2).1, NonShared(e1, e2).0)
  {
    NonSharedFarEnds(e1, e2, x);
    NonSharedFarEnds(e2, e1, x);
  }

  /* -------------------------------------------------------------- scores */

  /** The score of one line-graph edge: the chosen calculator applied to
      the two endpoints its edges do not share. */
  function PairScore(g: Graph, rows: seq<Vector>, m: Measure, p: (nat, nat)): (r: Result<real>)
    requires WellFormed(g)
    requires m.Weighted? ==> |rows| == g.vcount
    requires p.0 < |g.edges| && p.1 < |g.edges|
    ensures m.Unweighted? ==> r.Success? && 0.0 <= r.value <= 1.0
    ensures r.Failure? ==> r.error == ZeroDivision
  {
    var (s, t) := NonShared(g.edges[p.0], g.edges[p.1]);
    match m
    case Unweighted => Success(Jaccard(g, s, t))
    case Weighted(_) => Tanimoto(rows, s, t)
  }

  /** Scores the pairs in order with the chosen calculator; the first
      division by zero aborts. */
  function ScorePairs(g: Graph, rows: seq<Vector>, m: Measure, pairs: seq<(nat, nat)>): (r: Result<seq<LineEdge>>)
    requires WellFormed(g)
    requires m.Weighted? ==> |rows| == g.vcount
    requires forall p :: p in pairs ==> p.0 < |g.edges| && p.1 < |g.edges|
    ensures m.Unweighted? ==> r.Success?
    ensures r.Failure? ==> r.error == ZeroDivision
    ensures r.Success? ==> |r.value| == |pairs| && forall i :: 0 <= i < |pairs| ==>
      && r.value[i].source == pairs[i].0
      && r.value[i].target == pairs[i].1
      && (m.Unweighted? ==> 0.0 <= r.value[i].score <= 1.0)
  {
    if |pairs| == 0 then Success([])
    else
      var score :- PairScore(g, rows, m, pairs[0]);
      var rest :- ScorePairs(g, rows, m, pairs[1..]);
      Success([LineEdge(pairs[0].0, pairs[0].1, score)] + rest)
  }

  /** `get_edge_similarity_graph`: the line graph with a score on every
      edge. Building the Tanimoto calculator fails on a vertex without edges,
      and a Tanimoto score fails on a zero denominator; Jaccard never fails. */
  function EdgeSimilarityGraph(g: Graph, m: Measure): (r: Result<seq<LineEdge>>)
    requires WellFormed(g)
    requires m.Weighted? ==> |m.weights| == |g.edges|
    ensures m.Unweighted? ==> r.Success?
    ensures m.Weighted? && (exists v :: 0 <= v < g.vcount && Degree(g, v) == 0) ==> r == Failure(ZeroDivision)
    ensures r.Failure? ==> r.error == ZeroDivision
    ensures r.Success? ==> |r.value| == |LineGraph(g.edges)| && forall i :: 0 <= i < |r.value| ==>
      && (r.value[i].source, r.value[i].target) == LineGraph(g.edges)[i]
      && (m.Unweighted? ==> 0.0 <= r.value[i].score <= 1.0)
  {
    var pairs := LineGraph(g.edges);
    match m
    case Unweighted => ScorePairs(g, [], m, pairs)
    case Weighted(w) =>
      var rows :- TanimotoVectors(g, w);
      ScorePairs(g, rows, m, pairs)
  }

  /* ------------------------------------------------------------- merging */

  predicate InRange(E: seq<Edge>, es: seq<LineEdge>)
  {
    forall i :: 0 <= i < |es| ==> es[i].source < |E| && es[i].target < |E|
  }

  /** The clustering after merging along every line-graph edge of `es`, in
      order. */
  function MergeAll(E: seq<Edge>, c: Clustering, es: seq<LineEdge>): (r: Clustering)
    requires Valid(E, c) && InRange(E, es)
    ensures Valid(E, r)
  {
    if |es| == 0 then c
    else
      var last := es[|es| - 1];
      MergeEdges(E, MergeAll(E, c, es[..|es| - 1]), last.source, last.target)
  }

  lemma MergeAllInit(E: seq<Edge>, es: seq<LineEdge>)
    requires InRange(E, es) && |es| > 0
    ensures InRange(E, es[..|es| - 1])
    ensures forall i :: 0 <= i < |es| - 1 ==> es[..|es| - 1][i] == es[i]
  {
  }

  /** Merging never separates two edges, and every merged pair ends up in one
      cluster. */
  lemma {:induction false} MergeAllJoins(E: seq<Edge>, c: Clustering, es: seq<LineEdge>)
    requires Valid(E, c) && InRange(E, es)
    ensures forall e, f :: 0 <= e < |E| && 0 <= f < |E| && Same(c, e, f) ==> Same(MergeAll(E, c, es), e, f)
    ensures forall i :: 0 <= i < |es| ==> Same(MergeAll(E, c, es), es[i].source, es[i].target)
  {
    if |es| > 0 {
      var init := es[..|es| - 1];
      MergeAllInit(E, es);
      MergeAllJoins(E, c, init);
      var p := MergeAll(E, c, init);
      var last := es[|es| - 1];
      var r := MergeAll(E, c, es);
      assert r == MergeEdges(E, p, last.source, last.target);
      MergeEdgesJoins(E, p, last.source, last.target);
      forall e, f | 0 <= e < |E| && 0 <= f < |E| && Same(c, e, f) ensures Same(r, e, f) {
        assert Same(p, e, f);
      }
      forall i | 0 <= i < |es| ensures Same(r, es[i].source, es[i].target) {
        if i < |es| - 1 {
          assert init[i] == es[i];
          assert Same(p, es[i].source, es[i].target);
        }
      }
    }
  }

  /** A set of edges that no line-graph edge of `es` leaves, and that no
      cluster of `c` straddles, is not straddled by any cluster afterwards:
      merging joins nothing beyond what `es` connects. */
  lemma {:induction false} MergeAllRespects(E: seq<Edge>, c: Clustering, es: seq<LineEdge>, S: set<nat>)
    requires Valid(E, c) && InRange(E, es)
    requires forall e, f :: 0 <= e < |E| && 0 <= f < |E| && Same(c, e, f) ==> (e in S <==> f in S)
    requires forall i :: 0 <= i < |es| ==> (es[i].source in S <==> es[i].target in S)
    ensures forall e, f :: 0 <= e < |E| && 0 <= f < |E| && Same(MergeAll(E, c, es), e, f) ==> (e in S <==> f in S)
  {
    if |es| > 0 {
      var init := es[..|es| - 1];
      MergeAllInit(E, es);
      MergeAllRespects(E, c, init, S);
      var p := MergeAll(E, c, init);
      var last := es[|es| - 1];
      var r := MergeAll(E, c, es);
      assert r == MergeEdges(E, p, last.source, last.target);
      MergeEdgesJoins(E, p, last.source, last.target);
      assert last.source in S <==> last.target in S;
      forall e, f | 0 <= e < |E| && 0 <= f < |E| && Same(r, e, f) ensures e in S <==> f in S {
        if Same(p, e, f) {
        } else if Same(p, e, last.source) && Same(p, f, last.target) {
          assert e in S <==> last.source in S;
          assert f in S <==> last.target in S;
        } else {
          assert Same(p, e, last.target) && Same(p, f, last.source);
          assert e in S <==> last.target in S;
          assert f in S <==> last.source in S;
        }
      }
    }
  }

  /* ---------------------------------------------------------- extraction */

  /** Python `zip`: pairs up to the shorter length. */
  function Zip<A, B>(a: seq<A>, b: seq<B>): (r: seq<(A, B)>)
    ensures |r| == if |a| < |b| then |a| else |b|
    ensures forall i :: 0 <= i < |r| ==> r[i] == (a[i], b[i])
  {
    if |a| == 0 || |b| == 0 then [] else [(a[0], b[0])] + Zip(a[1..], b[1..])
  }

  /** The key the extraction groups `(edge, cluster index)` pairs by. */
  function ClusterIndex(p: (Edge, nat)): nat
  {
    p.1
  }

  /** The vertices of the edges in a group of `(edge, cluster index)` pairs:
      `result[cluster_index].update(edge)`. */
  function EndpointSet(ps: seq<(Edge, nat)>): set<nat>
  {
    if |ps| == 0 then {} else {ps[0].0.0, ps[0].0.1} + EndpointSet(ps[1..])
  }

  /** A vertex is in the set exactly when it is an endpoint of some pair's
      edge. */
  lemma {:induction false} EndpointSetMeans(ps: seq<(Edge, nat)>)
    ensures forall v :: v in EndpointSet(ps) <==> exists i :: 0 <= i < |ps| && (ps[i].0.0 == v || ps[i].0.1 == v)
  {
    if |ps| > 0 {
      EndpointSetMeans(ps[1..]);
      assert forall i :: 1 <= i < |ps| ==> ps[1..][i - 1] == ps[i];
    }
  }

  /** The vertices of the edges whose cluster index is `ci`. */
  function ClusterVertices(E: seq<Edge>, membership: seq<nat>, ci: nat): set<nat>
    requires |membership| == |E|
  {
    (set e | 0 <= e < |E| && membership[e] == ci :: E[e].0) +
    (set e | 0 <= e < |E| && membership[e] == ci :: E[e].1)
  }

  function KeepLarge(sets: seq<set<nat>>, minSize: int): (r: seq<set<nat>>)
    ensures forall s :: s in r <==> s in sets && |s| >= minSize
  {
    if |sets| == 0 then []
    else (if |sets[0]| >= minSize then [sets[0]] else []) + KeepLarge(sets[1..], minSize)
  }

  function MapEndpoints(groups: seq<seq<(Edge, nat)>>): (r: seq<set<nat>>)
    ensures |r| == |groups|
    ensures forall i :: 0 <= i < |r| ==> r[i] == EndpointSet(groups[i])
  {
    if |groups| == 0 then [] else [EndpointSet(groups[0])] + MapEndpoints(groups[1..])
  }

  /** The end of both run modes: group the edges by cluster index in order of
      first appearance, take each group's vertices, keep those with at least
      `minSize` vertices. */
  function Extract(E: seq<Edge>, membership: seq<nat>, minSize: int): seq<set<nat>>
  {
    var g := Grouping.GroupBy(Zip(E, membership), ClusterIndex);
    KeepLarge(MapEndpoints(Grouping.Values(g)), minSize)
  }

  /** The pairs `(edge, cluster index)` the extraction groups. */
  lemma {:induction false} ZipFacts(E: seq<Edge>, membership: seq<nat>)
    requires |membership| == |E|
    ensures |Zip(E, membership)| == |E|
    ensures forall e :: 0 <= e < |E| ==> Zip(E, membership)[e] == (E[e], membership[e])
  {
    if |E| > 0 {
      ZipFacts(E[1..], membership[1..]);
    }
  }

  /** The group of cluster index `ci` covers exactly the vertices of the
      edges with that index. */
  lemma {:induction false} GroupVertices(E: seq<Edge>, membership: seq<nat>, ci: nat)
    requires |membership| == |E|
    ensures EndpointSet(Grouping.Members(Zip(E, membership), ClusterIndex, ci)) == ClusterVertices(E, membership, ci)
  {
    var zs := Zip(E, membership);
    var key := ClusterIndex;
    var ms := Grouping.Members(zs, key, ci);
    ZipFacts(E, membership);
    EndpointSetMeans(ms);
    forall v | v in EndpointSet(ms) ensures v in ClusterVertices(E, membership, ci) {
      var i :| 0 <= i < |ms| && (ms[i].0.0 == v || ms[i].0.1 == v);
      assert ms[i] in ms;
      var e :| 0 <= e < |zs| && zs[e] == ms[i];
      assert membership[e] == ci;
    }
    forall v | v in ClusterVertices(E, membership, ci) ensures v in EndpointSet(ms) {
      var e :| 0 <= e < |E| && membership[e] == ci && (E[e].0 == v || E[e].1 == v);
      assert zs[e] in zs;
      assert zs[e] in ms;
      var i :| 0 <= i < |ms| && ms[i] == zs[e];
    }
  }

  /** Grouping by cluster index lists exactly the indices in use. */
  lemma GroupedIndices(E: seq<Edge>, membership: seq<nat>)
    requires |membership| == |E|
    ensures forall ci :: ci in Grouping.GroupBy(Zip(E, membership), ClusterIndex).order ==>
      exists e :: 0 <= e < |E| && membership[e] == ci
    ensures forall e :: 0 <= e < |E| ==> membership[e] in Grouping.GroupBy(Zip(E, membership), ClusterIndex).order
  {
    var zs := Zip(E, membership);
    var g := Grouping.GroupBy(zs, ClusterIndex);
    ZipFacts(E, membership);
    Grouping.GroupByKeys(zs, ClusterIndex);
    forall ci | ci in g.order ensures exists e :: 0 <= e < |E| && membership[e] == ci {
      var x :| x in zs && ClusterIndex(x) == ci;
      var e :| 0 <= e < |zs| && zs[e] == x;
    }
    forall e | 0 <= e < |E| ensures membership[e] in g.order {
      assert zs[e] in zs && ClusterIndex(zs[e]) == membership[e];
    }
  }

  /** Each group's vertices are its cluster's vertices. */
  lemma GroupedClusters(E: seq<Edge>, membership: seq<nat>)
    requires |membership| == |E|
    ensures forall ci :: ci in Grouping.GroupBy(Zip(E, membership), ClusterIndex).members ==>
      EndpointSet(Grouping.GroupBy(Zip(E, membership), ClusterIndex).members[ci]) == ClusterVertices(E, membership, ci)
  {
    var zs := Zip(E, membership);
    var g := Grouping.GroupBy(zs, ClusterIndex);
    Grouping.GroupByLists(zs, ClusterIndex);
    forall ci | ci in g.members
      ensures EndpointSet(g.members[ci]) == ClusterVertices(E, membership, ci)
    {
      GroupVertices(E, membership, ci);
    }
  }

  /** The extracted clusters are exactly the vertex sets of the cluster
      indices in use that have at least `minSize` vertices. */
  lemma ExtractClusters(E: seq<Edge>, membership: seq<nat>, minSize: int)
    requires |membership| == |E|
    ensures forall s :: s in Extract(E, membership, minSize) ==>
      |s| >= minSize && exists e :: 0 <= e < |E| && s == ClusterVertices(E, membership, membership[e])
    ensures forall e :: 0 <= e < |E| && |ClusterVertices(E, membership, membership[e])| >= minSize ==>
      ClusterVertices(E, membership, membership[e]) in Extract(E, membership, minSize)
  {
    ExtractSound(E, membership, minSize);
    ExtractComplete(E, membership, minSize);
  }

  /** The vertex sets of the groups, in group order. */
  lemma GroupSets(E: seq<Edge>, membership: seq<nat>)
    requires |membership| == |E|
    ensures |MapEndpoints(Grouping.Values(Grouping.GroupBy(Zip(E, membership), ClusterIndex)))| ==
      |Grouping.GroupBy(Zip(E, membership), ClusterIndex).order|
    ensures forall i :: 0 <= i < |Grouping.GroupBy(Zip(E, membership), ClusterIndex).order| ==>
      MapEndpoints(Grouping.Values(Grouping.GroupBy(Zip(E, membership), ClusterIndex)))[i] ==
      ClusterVertices(E, membership, Grouping.GroupBy(Zip(E, membership), ClusterIndex).order[i])
  {
    var g := Grouping.GroupBy(Zip(E, membership), ClusterIndex);
    var sets := MapEndpoints(Grouping.Values(g));
    GroupedClusters(E, membership);
    forall i | 0 <= i < |g.order| ensures sets[i] == ClusterVertices(E, membership, g.order[i]) {
      assert g.order[i] in g.members;
    }
  }

  /** Every extracted cluster is large enough and is the vertex set of a
      cluster in use. */
  lemma ExtractSound(E: seq<Edge>, membership: seq<nat>, minSize: int)
    requires |membership| == |E|
    ensures forall s :: s in Extract(E, membership, minSize) ==>
      |s| >= minSize && exists e :: 0 <= e < |E| && s == ClusterVertices(E, membership, membership[e])
  {
    var g := Grouping.GroupBy(Zip(E, membership), ClusterIndex);
    var sets := MapEndpoints(Grouping.Values(g));
    GroupedIndices(E, membership);
    GroupSets(E, membership);
    SetsSound(E, membership, g.order, sets);
    assert Extract(E, membership, minSize) == KeepLarge(sets, minSize);
  }

  lemma SetsSound(E: seq<Edge>, membership: seq<nat>, order: seq<nat>, sets: seq<set<nat>>)
    requires |membership| == |E|
    requires |sets| == |order|
    requires forall i :: 0 <= i < |order| ==> sets[i] == ClusterVertices(E, membership, order[i])
    requires forall ci :: ci in order ==> exists e :: 0 <= e < |E| && membership[e] == ci
    ensures forall s :: s in sets ==> exists e :: 0 <= e < |E| && s == ClusterVertices(E, membership, membership[e])
  {
    forall s | s in sets ensures exists e :: 0 <= e < |E| && s == ClusterVertices(E, membership, membership[e]) {
      var i :| 0 <= i < |sets| && sets[i] == s;
      assert order[i] in order;
      var e :| 0 <= e < |E| && membership[e] == order[i];
    }
  }

  /** The vertex set of every cluster in use with at least `minSize`
      vertices is extracted. */
  lemma ExtractComplete(E: seq<Edge>, membership: seq<nat>, minSize: int)
    requires |membership| == |E|
    ensures forall e :: 0 <= e < |E| && |ClusterVertices(E, membership, membership[e])| >= minSize ==>
      ClusterVertices(E, membership, membership[e]) in Extract(E, membership, minSize)
  {
    var g := Grouping.GroupBy(Zip(E, membership), ClusterIndex);
    var sets := MapEndpoints(Grouping.Values(g));
    GroupedIndices(E, membership);
    GroupSets(E, membership);
    forall e | 0 <= e < |E| ensures ClusterVertices(E, membership, membership[e]) in sets {
      var i :| 0 <= i < |g.order| && g.order[i] == membership[e];
      assert sets[i] == ClusterVertices(E, membership, membership[e]);
    }
  }

  /* ---------------------------------------------------------- single cut */

  function AboveThreshold(es: seq<LineEdge>, threshold: real): (r: seq<LineEdge>)
    ensures forall x :: x in r <==> x in es && x.score > threshold
  {
    if |es| == 0 then []
    else (if es[0].score > threshold then [es[0]] else []) + AboveThreshold(es[1..], threshold)
  }

  lemma AboveThresholdInRange(E: seq<Edge>, lg: seq<LineEdge>, threshold: real)
    requires InRange(E, lg)
    ensures InRange(E, AboveThreshold(lg, threshold))
  {
    var kept := AboveThreshold(lg, threshold);
    forall i | 0 <= i < |kept| ensures kept[i].source < |E| && kept[i].target < |E| {
      assert kept[i] in lg;
    }
  }

  /** `_run_single`: delete the line-graph edges scoring at most the
      threshold, take the connected components of what is left (computed
      here by merging along the surviving line-graph edges), and record the
      threshold with no partition density. */
  function RunSingle(g: Graph, m: Measure, threshold: real, minSize: int): (r: Result<Outcome>)
    requires WellFormed(g)
    requires m.Weighted? ==> |m.weights| == |g.edges|
    ensures m.Unweighted? ==> r.Success?
    ensures r.Success? ==> r.value.lastThreshold == Some(threshold) && r.value.lastPartitionDensity == None
  {
    var lg :- EdgeSimilarityGraph(g, m);
    var kept := AboveThreshold(lg, threshold);
    ScoredInRange(g, m);
    AboveThresholdInRange(g.edges, lg, threshold);
    var final := MergeAll(g.edges, Initial(g.edges), kept);
    Success(Outcome(Extract(g.edges, final.membership, minSize), Some(threshold), None))
  }

  /** The single cut joins the two edges of every line-graph edge scoring
      above the threshold. */
  lemma RunSingleJoins(E: seq<Edge>, lg: seq<LineEdge>, threshold: real)
    requires InRange(E, lg)
    ensures InRange(E, AboveThreshold(lg, threshold))
    ensures forall x :: x in lg && x.score > threshold ==>
      Same(MergeAll(E, Initial(E), AboveThreshold(lg, threshold)), x.source, x.target)
  {
    var kept := AboveThreshold(lg, threshold);
    AboveThresholdInRange(E, lg, threshold);
    var final := MergeAll(E, Initial(E), kept);
    MergeAllJoins(E, Initial(E), kept);
    forall x | x in lg && x.score > threshold
      ensures Same(final, x.source, x.target)
    {
      var i :| 0 <= i < |kept| && kept[i] == x;
    }
  }

  /** The single cut joins nothing more: a set of edges that no line-graph
      edge above the threshold leaves is not straddled by any cluster. With
      `RunSingleJoins` the clusters are the connected components of the line
      graph without its low-scoring edges. */
  lemma RunSingleSeparates(E: seq<Edge>, lg: seq<LineEdge>, threshold: real, S: set<nat>)
    requires InRange(E, lg)
    requires forall x :: x in lg && x.score > threshold ==> (x.source in S <==> x.target in S)
    ensures InRange(E, AboveThreshold(lg, threshold))
    ensures forall e, f :: 0 <= e < |E| && 0 <= f < |E| ==>
      (Same(MergeAll(E, Initial(E), AboveThreshold(lg, threshold)), e, f) ==> (e in S <==> f in S))
  {
    var kept := AboveThreshold(lg, threshold);
    AboveThresholdInRange(E, lg, threshold);
    InitialSingletons(E);
    forall i | 0 <= i < |kept| ensures kept[i].source in S <==> kept[i].target in S {
      assert kept[i] in lg;
    }
    MergeAllRespects(E, Initial(E), kept, S);
  }

  /* --------------------------------------------------------------- sweep */

  /** `sorted(..., key=itemgetter("score"), reverse=True)`: non-increasing
      score, ties in line-graph order. */
  predicate ScoreDesc(a: LineEdge, b: LineEdge)
  {
    a.score >= b.score
  }

  function SortByScore(lg: seq<LineEdge>): seq<LineEdge>
  {
    Sorting.Sort(lg, ScoreDesc)
  }

  /** The sweep visits the line graph in non-increasing score order, and
      visits each line-graph edge exactly once. */
  lemma SortByScoreOrder(lg: seq<LineEdge>)
    ensures Sorting.SortedBy(SortByScore(lg), ScoreDesc)
    ensures multiset(SortByScore(lg)) == multiset(lg)
  {
    Sorting.SortSorted(lg, ScoreDesc);
  }

  /** The clustering after the first `k` merges of the sweep. */
  function StateAt(E: seq<Edge>, es: seq<LineEdge>, k: nat): (r: Clustering)
    requires InRange(E, es) && k <= |es|
    ensures Valid(E, r)
  {
    assert InRange(E, es[..k]) by {
      forall i | 0 <= i < k ensures es[..k][i] == es[i] { }
    }
    MergeAll(E, Initial(E), es[..k])
  }

  lemma StateAtStep(E: seq<Edge>, es: seq<LineEdge>, k: nat)
    requires InRange(E, es) && k < |es|
    ensures StateAt(E, es, k + 1) == MergeEdges(E, StateAt(E, es, k), es[k].source, es[k].target)
  {
    assert es[..k + 1][..k] == es[..k];
  }

  lemma StateAtZero(E: seq<Edge>, es: seq<LineEdge>)
    requires InRange(E, es)
    ensures StateAt(E, es, 0) == Initial(E)
  {
    assert es[..0] == [];
  }

  /** Position `k` starts a run of equal scores. */
  predicate GroupStart(es: seq<LineEdge>, k: nat)
    requires k < |es|
  {
    k == 0 || es[k - 1].score != es[k].score
  }

  /** The first `n` values of `f`, in order. */
  function Table(f: nat -> real, n: nat): (r: seq<real>)
    ensures |r| == n
  {
    if n == 0 then [] else Table(f, n - 1) + [f(n - 1)]
  }

  lemma {:induction false} TableAt(f: nat -> real, n: nat, j: nat)
    requires j < n
    ensures Table(f, n)[j] == f(j)
  {
    if j < n - 1 {
      TableAt(f, n - 1, j);
    }
  }

  /** The partition density before merge `j`. */
  ghost function DensityOf(E: seq<Edge>, es: seq<LineEdge>): nat -> real
  {
    (j: nat) => if InRange(E, es) && j < |es| then StateAt(E, es, j).d else 0.0
  }

  /** The partition density `d` before each of the first `n` merges. */
  ghost function Densities(E: seq<Edge>, es: seq<LineEdge>, n: nat): (r: seq<real>)
    ensures |r| == n
  {
    Table(DensityOf(E, es), n)
  }

  lemma DensitiesStep(E: seq<Edge>, es: seq<LineEdge>, k: nat)
    requires InRange(E, es) && k < |es|
    ensures Densities(E, es, k + 1) == Densities(E, es, k) + [StateAt(E, es, k).d]
  {
    assert DensityOf(E, es)(k) == StateAt(E, es, k).d;
  }

  lemma DensitiesAt(E: seq<Edge>, es: seq<LineEdge>, n: nat, j: nat)
    requires InRange(E, es) && j < n <= |es|
    ensures Densities(E, es, n)[j] == StateAt(E, es, j).d
  {
    TableAt(DensityOf(E, es), n, j);
  }

  /** Position `k` is a best cut for densities `ds`: a group start with
      maximal density among all group starts and strictly larger density
      than every later group start (on ties the last one wins). */
  predicate BestCutOf(es: seq<LineEdge>, ds: seq<real>, k: nat)
    requires |ds| == |es|
  {
    && k < |es|
    && GroupStart(es, k)
    && (forall j :: 0 <= j < |es| && GroupStart(es, j) ==> ds[j] <= ds[k])
    && (forall j :: k < j < |es| && GroupStart(es, j) ==> ds[j] < ds[k])
  }

  /** The cut the sweep selects: the state before some group's first merge,
      best among all group starts. The state after the final merge is never
      a candidate. */
  ghost predicate BestCut(E: seq<Edge>, es: seq<LineEdge>, k: nat)
    requires InRange(E, es)
  {
    BestCutOf(es, Densities(E, es, |es|), k)
  }

  /** The same condition, stated on the states themselves. */
  lemma BestCutMeans(E: seq<Edge>, es: seq<LineEdge>, k: nat)
    requires InRange(E, es)
    ensures BestCut(E, es, k) <==>
      && k < |es|
      && GroupStart(es, k)
      && (forall j :: 0 <= j < |es| && GroupStart(es, j) ==> StateAt(E, es, j).d <= StateAt(E, es, k).d)
      && (forall j :: k < j < |es| && GroupStart(es, j) ==> StateAt(E, es, j).d < StateAt(E, es, k).d)
  {
    forall j | 0 <= j < |es| ensures Densities(E, es, |es|)[j] == StateAt(E, es, j).d {
      DensitiesAt(E, es, |es|, j);
    }
  }

  /** The selection the sweep makes over the densities `ds` seen so far:
      the position of the last snapshot taken and the best density, which
      starts at -1. A snapshot is taken at a group start whose density is at
      least the best so far. */
  function Pick(es: seq<LineEdge>, ds: seq<real>): (r: (Option<nat>, real))
    requires |ds| <= |es|
    ensures r.0.Some? ==> r.0.value < |ds|
  {
    if |ds| == 0 then (None, -1.0)
    else
      var (at, maxD) := Pick(es, ds[..|ds| - 1]);
      var k := |ds| - 1;
      if GroupStart(es, k) && ds[k] >= maxD then (Some(k), ds[k]) else (at, maxD)
  }

  /** The snapshot `Pick` keeps is a best cut of the densities seen so far. */
  lemma {:induction false} PickBest(es: seq<LineEdge>, ds: seq<real>)
    requires |ds| <= |es|
    requires |ds| > 0 ==> ds[0] >= -1.0
    ensures Pick(es, ds).0.None? <==> |ds| == 0
    ensures Pick(es, ds).0.Some? ==> (
      var at := Pick(es, ds).0.value;
      && at < |ds|
      && GroupStart(es, at)
      && Pick(es, ds).1 == ds[at]
      && (forall j :: 0 <= j < |ds| && GroupStart(es, j) ==> ds[j] <= ds[at])
      && (forall j :: at < j < |ds| && GroupStart(es, j) ==> ds[j] < ds[at]))
  {
    if |ds| > 0 {
      var init := ds[..|ds| - 1];
      assert forall j :: 0 <= j < |init| ==> init[j] == ds[j];
      PickBest(es, init);
    }
  }

  /** Over the whole sweep, `Pick` chooses a best cut, and chooses one
      exactly when there is a line-graph edge. */
  lemma PickIsBestCut(E: seq<Edge>, es: seq<LineEdge>)
    requires InRange(E, es)
    ensures Pick(es, Densities(E, es, |es|)).0.None? <==> |es| == 0
    ensures Pick(es, Densities(E, es, |es|)).0.Some? ==> BestCut(E, es, Pick(es, Densities(E, es, |es|)).0.value)
  {
    if |es| > 0 {
      DensitiesAt(E, es, |es|, 0);
      StateAtZero(E, es);
    }
    PickBest(es, Densities(E, es, |es|));
  }

  datatype Snapshot = Snapshot(d: real, threshold: real, membership: seq<nat>)

  /** The snapshot of the sweep's state before merge `k`. */
  function SnapshotOf(E: seq<Edge>, es: seq<LineEdge>, k: nat): Snapshot
    requires InRange(E, es) && k < |es|
  {
    Snapshot(StateAt(E, es, k).d, es[k].score, StateAt(E, es, k).membership)
  }

  /** The check the sweep makes before merging line-graph edge `k`, whose
      state has density `d` and membership `membership`: at a new score,
      snapshot if `d` is at least the best so far. `ds` holds the densities
      of the earlier states. */
  method Consider(es: seq<LineEdge>, ghost ds: seq<real>, k: nat, d: real, membership: seq<nat>,
                  prev: Option<real>, maxD: real, best: Option<Snapshot>)
    returns (prev': Option<real>, maxD': real, best': Option<Snapshot>)
    requires k < |es| && |ds| == k
    requires k > 0 ==> prev == Some(es[k - 1].score)
    requires k == 0 ==> prev.None?
    requires maxD == Pick(es, ds).1
    requires best.None? <==> Pick(es, ds).0.None?
    ensures prev' == Some(es[k].score)
    ensures maxD' == Pick(es, ds + [d]).1
    ensures best' == if Pick(es, ds + [d]).0 == Some(k) then Some(Snapshot(d, es[k].score, membership)) else best
    ensures Pick(es, ds + [d]).0 != Some(k) ==> Pick(es, ds + [d]).0 == Pick(es, ds).0
  {
    assert (ds + [d])[..k] == ds;
    var score := es[k].score;
    prev', maxD', best' := prev, maxD, best;
    if prev != Some(score) {
      assert GroupStart(es, k);
      if d >= maxD {
        maxD' := d;
        best' := Some(Snapshot(d, score, membership));
      }
      prev' := Some(score);
    } else {
      assert !GroupStart(es, k);
    }
  }

  /** The merge loop of `_run_iterative`. Before the first merge of each new
      score it snapshots `(d, score, membership)` if `d` is at least the best
      seen so far (which starts at -1); the result is `None` exactly when
      there is nothing to merge. */
  method Sweep(E: seq<Edge>, es: seq<LineEdge>) returns (best: Option<Snapshot>)
    requires InRange(E, es)
    ensures best.None? <==> |es| == 0
    ensures best.Some? ==> exists k: nat :: BestCut(E, es, k) && best.value == SnapshotOf(E, es, k)
  {
    var c := Initial(E);
    var maxD: real := -1.0;
    var prev: Option<real> := None;
    best := None;
    ghost var ds: seq<real> := [];
    StateAtZero(E, es);
    for k := 0 to |es|
      invariant c == StateAt(E, es, k)
      invariant ds == Densities(E, es, k)
      invariant k > 0 ==> prev == Some(es[k - 1].score)
      invariant k == 0 ==> prev.None?
      invariant maxD == Pick(es, ds).1
      invariant best.None? <==> Pick(es, ds).0.None?
      invariant best.Some? ==> best.value == SnapshotOf(E, es, Pick(es, ds).0.value)
    {
      prev, maxD, best := Consider(es, ds, k, c.d, c.membership, prev, maxD, best);
      DensitiesStep(E, es, k);
      ds := ds + [c.d];
      StateAtStep(E, es, k);
      c := MergeEdges(E, c, es[k].source, es[k].target);
    }
    PickIsBestCut(E, es);
  }

  /** The result recorded for a snapshot: its clusters, its score as
      `last_threshold`, and its `d` scaled by 2/|E|. */
  function OutcomeOf(E: seq<Edge>, snap: Snapshot, minSize: int): Outcome
    requires |E| > 0
  {
    Outcome(Extract(E, snap.membership, minSize), Some(snap.threshold), Some(snap.d * (2.0 / |E| as real)))
  }

  /** What a successful sweep run yields: the outcome of a best cut of the
      sorted line graph `es`. */
  ghost predicate IterativeOutcome(E: seq<Edge>, es: seq<LineEdge>, minSize: int, o: Outcome)
  {
    && |E| > 0
    && InRange(E, es)
    && exists k: nat :: BestCut(E, es, k) && o == OutcomeOf(E, SnapshotOf(E, es, k), minSize)
  }

  lemma SortedInRange(g: Graph, m: Measure)
    requires WellFormed(g)
    requires m.Weighted? ==> |m.weights| == |g.edges|
    requires EdgeSimilarityGraph(g, m).Success?
    ensures InRange(g.edges, SortByScore(EdgeSimilarityGraph(g, m).value))
    ensures |SortByScore(EdgeSimilarityGraph(g, m).value)| == |LineGraph(g.edges)|
  {
    var lg := EdgeSimilarityGraph(g, m).value;
    ScoredInRange(g, m);
    SortByScoreOrder(lg);
    InRangePermuted(g.edges, lg, SortByScore(lg));
  }

  /** Every scored line-graph edge joins two edges of the graph. */
  lemma ScoredInRange(g: Graph, m: Measure)
    requires WellFormed(g)
    requires m.Weighted? ==> |m.weights| == |g.edges|
    requires EdgeSimilarityGraph(g, m).Success?
    ensures InRange(g.edges, EdgeSimilarityGraph(g, m).value)
  {
    var lg := EdgeSimilarityGraph(g, m).value;
    var pairs := LineGraph(g.edges);
    forall i | 0 <= i < |lg| ensures lg[i].source < |g.edges| && lg[i].target < |g.edges| {
      assert (lg[i].source, lg[i].target) == pairs[i];
    }
  }

  lemma InRangePermuted(E: seq<Edge>, a: seq<LineEdge>, b: seq<LineEdge>)
    requires InRange(E, a) && multiset(a) == multiset(b)
    ensures InRange(E, b)
  {
    forall i | 0 <= i < |b| ensures b[i].source < |E| && b[i].target < |E| {
      assert b[i] in multiset(a);
      var j :| 0 <= j < |a| && a[j] == b[i];
    }
  }

  /** `_run_iterative`: score the line graph, sort it, sweep, scale the best
      `d` by 2/|E| into `last_partition_density`, and extract the clusters of
      the best snapshot. With no edges at all the scaling divides by zero;
      with edges but no line-graph edges there is no snapshot and the final
      `zip` raises TypeError. */
  method RunIterative(g: Graph, m: Measure, minSize: int) returns (r: Result<Outcome>)
    requires WellFormed(g)
    requires m.Weighted? ==> |m.weights| == |g.edges|
    ensures |g.edges| == 0 ==> r == Failure(ZeroDivision)
    ensures EdgeSimilarityGraph(g, m).Failure? ==> r == Failure(ZeroDivision)
    ensures EdgeSimilarityGraph(g, m).Success? && |g.edges| > 0 && |LineGraph(g.edges)| == 0 ==> r == Failure(TypeError)
    ensures EdgeSimilarityGraph(g, m).Success? && |LineGraph(g.edges)| > 0 ==> r.Success?
    ensures r.Success? ==> (
      && EdgeSimilarityGraph(g, m).Success?
      && IterativeOutcome(g.edges, SortByScore(EdgeSimilarityGraph(g, m).value), minSize, r.value))
  {
    var scored := EdgeSimilarityGraph(g, m);
    if scored.Failure? {
      return Failure(ZeroDivision);
    }
    var es := SortByScore(scored.value);
    SortedInRange(g, m);
    var best := Sweep(g.edges, es);
    r := Finish(g.edges, es, best, minSize);
  }

  /** The end of `_run_iterative`: scale the best `d` by 2/|E|, record the
      best score, and extract the clusters of the best membership. */
  method Finish(E: seq<Edge>, es: seq<LineEdge>, best: Option<Snapshot>, minSize: int) returns (r: Result<Outcome>)
    requires InRange(E, es)
    requires best.None? <==> |es| == 0
    requires best.Some? ==> exists k: nat :: BestCut(E, es, k) && best.value == SnapshotOf(E, es, k)
    ensures |E| == 0 ==> r == Failure(ZeroDivision)
    ensures |E| > 0 && |es| == 0 ==> r == Failure(TypeError)
    ensures |E| > 0 && |es| > 0 ==> r.Success? && IterativeOutcome(E, es, minSize, r.value)
  {
    if |E| == 0 {
      return Failure(ZeroDivision);
    }
    if best.None? {
      return Failure(TypeError);
    }
    var snap := best.value;
    ghost var k: nat :| BestCut(E, es, k) && snap == SnapshotOf(E, es, k);
    r := Success(OutcomeOf(E, snap, minSize));
  }

  /** `run`: the sweep when no threshold is given, the single cut otherwise. */
  method Run(g: Graph, m: Measure, threshold: Option<real>, minSize: int) returns (r: Result<Outcome>)
    requires WellFormed(g)
    requires m.Weighted? ==> |m.weights| == |g.edges|
    ensures threshold.Some? ==> r == RunSingle(g, m, threshold.value, minSize)
    ensures threshold.None? && |g.edges| == 0 ==> r == Failure(ZeroDivision)
    ensures threshold.None? && r.Success? ==> (
      && EdgeSimilarityGraph(g, m).Success?
      && IterativeOutcome(g.edges, SortByScore(EdgeSimilarityGraph(g, m).value), minSize, r.value))
  {
    if threshold.None? {
      r := RunIterative(g, m, minSize);
    } else {
      r := RunSingle(g, m, threshold.value, minSize);
    }
  }
}
