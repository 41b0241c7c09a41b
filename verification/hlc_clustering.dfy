/** `EdgeCluster` and `EdgeClustering` of the hierarchical link clustering
    (Ahn et al., "Link communities reveal multiscale complexity in networks",
    Nature 2010): a partition of the edges of a graph into clusters, kept as
    union-by-size with a running sum `d` of the clusters' partition densities.

    Edges are indices into the graph's edge list `E`. A cluster id is the
    index of the slot in `clusters` that holds it; the source stores the same
    object in the slot of an absorbed cluster, which nothing reaches through
    `membership` any more, so the model stores a copy there. */
module HlcClustering {

  type Edge = (nat, nat)

  datatype EdgeCluster = EdgeCluster(vertices: set<nat>, edges: set<nat>)

  /** m(m-n+1)/((n-2)(n-1)) for `m` edges on `n` vertices. */
  function DensityFormula(m: real, n: real): real
    requires n > 2.0
  {
    m * (m - n + 1.0) / (n - 2.0) / (n - 1.0)
  }

  /** The number of edges times the relative density of the cluster: 0 for
      at most two vertices, else the formula. */
  function PartitionDensity(c: EdgeCluster): real
  {
    if |c.vertices| <= 2 then 0.0 else DensityFormula(|c.edges| as real, |c.vertices| as real)
  }

  /** A cluster with at least as many edges as a spanning tree needs has a
      non-negative density, and a tree contributes nothing. */
  lemma DensityOfConnected(c: EdgeCluster)
    requires |c.edges| + 1 >= |c.vertices|
    ensures PartitionDensity(c) >= 0.0
    ensures |c.edges| + 1 == |c.vertices| ==> PartitionDensity(c) == 0.0
  {
    if |c.vertices| > 2 {
      FormulaOfConnected(|c.edges| as real, |c.vertices| as real);
    }
  }

  lemma FormulaOfConnected(m: real, n: real)
    requires n > 2.0 && m >= 0.0 && m + 1.0 >= n
    ensures DensityFormula(m, n) >= 0.0
    ensures m + 1.0 == n ==> DensityFormula(m, n) == 0.0
  {
    var t := m * (m - n + 1.0);
    assert DensityFormula(m, n) == t / (n - 2.0) / (n - 1.0);
    MulNonNegative(m, m - n + 1.0);
    DivNonNegative(t, n - 2.0);
    DivNonNegative(t / (n - 2.0), n - 1.0);
    if m + 1.0 == n {
      DivExact(t, n - 2.0, 0.0);
      DivExact(0.0, n - 1.0, 0.0);
    }
  }

  lemma MulNonNegative(x: real, y: real)
    requires x >= 0.0 && y >= 0.0
    ensures x * y >= 0.0
  {
  }

  lemma DivNonNegative(x: real, y: real)
    requires x >= 0.0 && y > 0.0
    ensures x / y >= 0.0
  {
  }

  lemma DivExact(x: real, y: real, z: real)
    requires y != 0.0 && x == z * y
    ensures x / y == z
  {
  }

  /** A clique on more than two vertices contributes half its edge count, so a
      partition into cliques has overall density 1. */
  lemma DensityOfClique(c: EdgeCluster)
    requires |c.vertices| > 2
    requires 2 * |c.edges| == |c.vertices| * (|c.vertices| - 1)
    ensures PartitionDensity(c) == |c.edges| as real / 2.0
  {
    FormulaOfClique(|c.edges| as real, |c.vertices| as real);
  }

  lemma FormulaOfClique(m: real, n: real)
    requires n > 2.0 && 2.0 * m == n * (n - 1.0)
    ensures DensityFormula(m, n) == m / 2.0
  {
    assert m - n + 1.0 == (n - 1.0) * (n - 2.0) / 2.0;
    var t := m * (m - n + 1.0);
    assert t == (m * (n - 1.0) / 2.0) * (n - 2.0);
    DivExact(t, n - 2.0, m * (n - 1.0) / 2.0);
    DivExact(m * (n - 1.0) / 2.0, n - 1.0, m / 2.0);
  }

  /** `merge_from`: the union of both vertex sets and both edge sets. */
  function MergeFrom(c: EdgeCluster, other: EdgeCluster): EdgeCluster
  {
    EdgeCluster(c.vertices + other.vertices, c.edges + other.edges)
  }

  lemma MergeFromSymmetric(a: EdgeCluster, b: EdgeCluster)
    ensures MergeFrom(a, b) == MergeFrom(b, a)
  {
    assert a.vertices + b.vertices == b.vertices + a.vertices;
    assert a.edges + b.edges == b.edges + a.edges;
  }

  /** `is_smaller_than`: strictly fewer edges. */
  predicate IsSmallerThan(c: EdgeCluster, other: EdgeCluster)
  {
    |c.edges| < |other.edges|
  }

  datatype Clustering = Clustering(clusters: seq<EdgeCluster>, membership: seq<nat>, d: real)

  predicate Touches(E: seq<Edge>, e: nat, v: nat)
  {
    e < |E| && (E[e].0 == v || E[e].1 == v)
  }

  /** The vertices of a cluster are exactly the endpoints of its edges. */
  ghost predicate Spans(E: seq<Edge>, c: EdgeCluster)
  {
    forall v :: v in c.vertices <==> exists e :: e in c.edges && Touches(E, e, v)
  }

  /** The edges whose membership is `r`. */
  function Class(c: Clustering, r: nat): set<nat>
  {
    set e | 0 <= e < |c.membership| && c.membership[e] == r
  }

  predicate IsRoot(c: Clustering, r: nat)
  {
    r < |c.membership| && c.membership[r] == r
  }

  /** The density contribution of slot `k`: its cluster's if `k` is a live
      cluster id, else nothing. */
  function Term(c: Clustering, k: nat): real
    requires k < |c.membership| && k < |c.clusters|
  {
    if c.membership[k] == k then PartitionDensity(c.clusters[k]) else 0.0
  }

  /** The sum of the contributions of the first `n` slots. */
  function DensitySum(c: Clustering, n: nat): real
    requires n <= |c.membership| && n <= |c.clusters|
  {
    if n == 0 then 0.0 else DensitySum(c, n - 1) + Term(c, n - 1)
  }

  /** The clustering invariant: every edge points at a live cluster id, a live
      cluster holds exactly the edges pointing at it and spans their
      endpoints, and `d` is the sum of the live clusters' densities. */
  ghost predicate Valid(E: seq<Edge>, c: Clustering)
  {
    && |c.clusters| == |E|
    && |c.membership| == |E|
    && (forall e :: 0 <= e < |E| ==> c.membership[e] < |E| && c.membership[c.membership[e]] == c.membership[e])
    && (forall r :: 0 <= r < |E| && c.membership[r] == r ==>
          c.clusters[r].edges == Class(c, r) && Spans(E, c.clusters[r]))
    && c.d == DensitySum(c, |E|)
  }

  /** Edges `e` and `f` are in one cluster. */
  predicate Same(c: Clustering, e: nat, f: nat)
    requires e < |c.membership| && f < |c.membership|
  {
    c.membership[e] == c.membership[f]
  }

  /** The constructor: edge `i` alone in cluster `i`, whose vertices are its
      endpoints, and `d` is 0. */
  function Initial(E: seq<Edge>): (r: Clustering)
    ensures Valid(E, r)
  {
    var r := Clustering(seq(|E|, i requires 0 <= i < |E| => EdgeCluster({E[i].0, E[i].1}, {i})),
                        seq(|E|, i => i), 0.0);
    InitialValid(E, r);
    r
  }

  /** Every edge starts alone in its own cluster, spanning its endpoints,
      and the density sum starts at 0. */
  lemma InitialSingletons(E: seq<Edge>)
    ensures forall e, f :: 0 <= e < |E| && 0 <= f < |E| ==> (Same(Initial(E), e, f) <==> e == f)
    ensures forall e :: 0 <= e < |E| ==>
      Initial(E).clusters[e] == EdgeCluster({E[e].0, E[e].1}, {e}) && Initial(E).membership[e] == e
    ensures Initial(E).d == 0.0
  {
  }

  lemma InitialValid(E: seq<Edge>, r: Clustering)
    requires |r.clusters| == |E| && |r.membership| == |E| && r.d == 0.0
    requires forall i :: 0 <= i < |E| ==> r.clusters[i] == EdgeCluster({E[i].0, E[i].1}, {i})
    requires forall i :: 0 <= i < |E| ==> r.membership[i] == i
    ensures Valid(E, r)
  {
    forall k | 0 <= k < |E| ensures r.clusters[k].edges == Class(r, k) && Spans(E, r.clusters[k]) {
      InitialRoot(E, r, k);
    }
    InitialDensity(r, |E|);
  }

  /** A singleton slot holds exactly its own edge and spans its endpoints. */
  lemma InitialRoot(E: seq<Edge>, r: Clustering, k: nat)
    requires k < |E| == |r.membership|
    requires forall i :: 0 <= i < |r.membership| ==> r.membership[i] == i
    requires k < |r.clusters|
    requires r.clusters[k] == EdgeCluster({E[k].0, E[k].1}, {k})
    ensures r.clusters[k].edges == Class(r, k) && Spans(E, r.clusters[k])
  {
    assert k in Class(r, k);
    forall v | v in r.clusters[k].vertices
      ensures exists e :: e in r.clusters[k].edges && Touches(E, e, v)
    {
      assert Touches(E, k, v);
    }
  }

  lemma {:induction false} InitialDensity(c: Clustering, n: nat)
    requires n <= |c.membership| && n <= |c.clusters|
    requires forall k :: 0 <= k < n ==> |c.clusters[k].vertices| <= 2
    ensures DensitySum(c, n) == 0.0
  {
    if n > 0 {
      InitialDensity(c, n - 1);
    }
  }

  /** `lookup`: the cluster of an edge. */
  function Lookup(E: seq<Edge>, c: Clustering, e: nat): (r: EdgeCluster)
    requires Valid(E, c) && e < |E|
    ensures e in r.edges
    ensures forall f :: f in r.edges <==> 0 <= f < |E| && Same(c, e, f)
  {
    c.clusters[c.membership[e]]
  }

  /** `merge_edges`: joins the clusters of `e1` and `e2`. Nothing changes
      when they already share a cluster; otherwise the cluster with strictly
      fewer edges is absorbed into the other (on a tie, `e2`'s cluster is
      absorbed into `e1`'s), its edges are repointed, and `d` moves by the
      merged density minus both old densities. */
  function MergeEdges(E: seq<Edge>, c: Clustering, e1: nat, e2: nat): (r: Clustering)
    requires Valid(E, c)
    requires e1 < |E| && e2 < |E|
    ensures Valid(E, r)
  {
    var cid1 := c.membership[e1];
    var cid2 := c.membership[e2];
    if cid1 == cid2 then c
    else
      var keep := Keep(c, e1, e2);
      var gone := if keep == cid1 then cid2 else cid1;
      MergeValid(E, c, keep, gone);
      Merged(E, c, keep, gone)
  }

  /** The surviving cluster id of a genuine merge: `e2`'s cluster if `e1`'s
      is strictly smaller, else `e1`'s. */
  function Keep(c: Clustering, e1: nat, e2: nat): nat
    requires e1 < |c.membership| && e2 < |c.membership|
    requires c.membership[e1] < |c.clusters| && c.membership[e2] < |c.clusters|
  {
    if IsSmallerThan(c.clusters[c.membership[e1]], c.clusters[c.membership[e2]])
    then c.membership[e2] else c.membership[e1]
  }

  /** The clustering after absorbing cluster `gone` into cluster `keep`. */
  function Merged(E: seq<Edge>, c: Clustering, keep: nat, gone: nat): (r: Clustering)
    requires |c.membership| == |E| && |c.clusters| == |E|
    requires keep < |E| && gone < |E|
    ensures |r.clusters| == |E| && |r.membership| == |E|
  {
    var merged := MergeFrom(c.clusters[keep], c.clusters[gone]);
    Clustering(c.clusters[keep := merged][gone := merged],
               seq(|E|, e requires 0 <= e < |E| => if e in c.clusters[gone].edges then keep else c.membership[e]),
               c.d + PartitionDensity(merged) - PartitionDensity(c.clusters[keep]) - PartitionDensity(c.clusters[gone]))
  }

  /** Which edges share a cluster after `merge_edges`: those that did
      before, and any edge of `e1`'s cluster with any edge of `e2`'s. */
  lemma MergeEdgesJoins(E: seq<Edge>, c: Clustering, e1: nat, e2: nat)
    requires Valid(E, c)
    requires e1 < |E| && e2 < |E|
    ensures Same(MergeEdges(E, c, e1, e2), e1, e2)
    ensures forall e, f :: 0 <= e < |E| && 0 <= f < |E| ==>
      (Same(MergeEdges(E, c, e1, e2), e, f) <==>
        || Same(c, e, f)
        || (Same(c, e, e1) && Same(c, f, e2))
        || (Same(c, e, e2) && Same(c, f, e1)))
  {
    if Same(c, e1, e2) {
      MergeEdgesNoop(E, c, e1, e2);
    } else {
      var keep := Keep(c, e1, e2);
      var gone := if keep == c.membership[e1] then c.membership[e2] else c.membership[e1];
      var r := Merged(E, c, keep, gone);
      assert MergeEdges(E, c, e1, e2) == r;
      MergedShape(E, c, keep, gone);
      MergeJoin(E, c, r, e1, e2, keep, gone);
    }
  }

  /** Merging two edges of one cluster changes nothing. */
  lemma MergeEdgesNoop(E: seq<Edge>, c: Clustering, e1: nat, e2: nat)
    requires Valid(E, c)
    requires e1 < |E| && e2 < |E|
    requires Same(c, e1, e2)
    ensures MergeEdges(E, c, e1, e2) == c
  {
  }

  /** The merged cluster of a genuine merge: it lives at the id of the larger
      cluster (`e1`'s on a tie), holds the edges and vertices of both, and
      `d` moves by its density minus both old densities. */
  lemma MergeEdgesCluster(E: seq<Edge>, c: Clustering, e1: nat, e2: nat)
    requires Valid(E, c)
    requires e1 < |E| && e2 < |E|
    requires !Same(c, e1, e2)
    ensures MergeEdges(E, c, e1, e2).membership[e1] ==
      (if IsSmallerThan(c.clusters[c.membership[e1]], c.clusters[c.membership[e2]])
       then c.membership[e2] else c.membership[e1])
    ensures MergeEdges(E, c, e1, e2).clusters[MergeEdges(E, c, e1, e2).membership[e1]] ==
      MergeFrom(c.clusters[c.membership[e1]], c.clusters[c.membership[e2]])
    ensures MergeEdges(E, c, e1, e2).d ==
      c.d + PartitionDensity(MergeEdges(E, c, e1, e2).clusters[MergeEdges(E, c, e1, e2).membership[e1]])
          - PartitionDensity(c.clusters[c.membership[e1]])
          - PartitionDensity(c.clusters[c.membership[e2]])
  {
    var keep := Keep(c, e1, e2);
    var gone := if keep == c.membership[e1] then c.membership[e2] else c.membership[e1];
    var merged := MergeFrom(c.clusters[keep], c.clusters[gone]);
    var r := Merged(E, c, keep, gone);
    assert MergeEdges(E, c, e1, e2) == r;
    MergedShape(E, c, keep, gone);
    assert r.membership[e1] == keep;
    MergeFromSymmetric(c.clusters[keep], c.clusters[gone]);
  }

  /** How the repointing of `gone` to `keep` changes which edges share a
      cluster. */
  lemma MergeJoin(E: seq<Edge>, c: Clustering, r: Clustering, e1: nat, e2: nat, keep: nat, gone: nat)
    requires Valid(E, c) && e1 < |E| && e2 < |E|
    requires (keep == c.membership[e1] && gone == c.membership[e2]) || (keep == c.membership[e2] && gone == c.membership[e1])
    requires keep != gone
    requires |r.membership| == |E|
    requires forall e :: 0 <= e < |E| ==>
      r.membership[e] == if c.membership[e] == gone then keep else c.membership[e]
    ensures forall e, f :: 0 <= e < |E| && 0 <= f < |E| ==>
      (Same(r, e, f) <==>
        || Same(c, e, f)
        || (Same(c, e, e1) && Same(c, f, e2))
        || (Same(c, e, e2) && Same(c, f, e1)))
  {
    forall e, f | 0 <= e < |E| && 0 <= f < |E|
      ensures Same(r, e, f) <==>
        || Same(c, e, f)
        || (Same(c, e, e1) && Same(c, f, e2))
        || (Same(c, e, e2) && Same(c, f, e1))
    {
      assert c.membership[e] != gone ==> c.membership[c.membership[e]] == c.membership[e];
      assert r.membership[keep] == keep;
    }
  }

  /** A genuine merge of live cluster `gone` into live cluster `keep` keeps
      the clustering valid. */
  lemma MergeValid(E: seq<Edge>, c: Clustering, keep: nat, gone: nat)
    requires Valid(E, c)
    requires IsRoot(c, keep) && IsRoot(c, gone) && keep != gone
    ensures Valid(E, Merged(E, c, keep, gone))
  {
    MergedShape(E, c, keep, gone);
    MergeValidCore(E, c, keep, gone, Merged(E, c, keep, gone));
  }

  /** A genuine merge repoints exactly the edges of `gone`, stores the union
      at `keep`, and moves `d` by the change in density. */
  lemma MergedShape(E: seq<Edge>, c: Clustering, keep: nat, gone: nat)
    requires Valid(E, c)
    requires IsRoot(c, keep) && IsRoot(c, gone) && keep != gone
    ensures forall e :: 0 <= e < |E| ==>
      Merged(E, c, keep, gone).membership[e] == if c.membership[e] == gone then keep else c.membership[e]
    ensures Merged(E, c, keep, gone).clusters[keep] == MergeFrom(c.clusters[keep], c.clusters[gone])
    ensures Merged(E, c, keep, gone).d ==
      c.d + PartitionDensity(MergeFrom(c.clusters[keep], c.clusters[gone]))
          - PartitionDensity(c.clusters[keep]) - PartitionDensity(c.clusters[gone])
  {
    assert forall e :: 0 <= e < |E| ==> (e in c.clusters[gone].edges <==> c.membership[e] == gone);
  }

  /** The proof obligation of a genuine merge of live cluster `gone` into
      live cluster `keep`. */
  lemma MergeValidCore(E: seq<Edge>, c: Clustering, keep: nat, gone: nat, r: Clustering)
    requires Valid(E, c)
    requires IsRoot(c, keep) && IsRoot(c, gone) && keep != gone
    requires r.clusters == c.clusters[keep := MergeFrom(c.clusters[keep], c.clusters[gone])]
                                     [gone := MergeFrom(c.clusters[keep], c.clusters[gone])]
    requires |r.membership| == |E|
    requires forall e :: 0 <= e < |E| ==>
      r.membership[e] == if e in c.clusters[gone].edges then keep else c.membership[e]
    requires r.d == c.d + PartitionDensity(MergeFrom(c.clusters[keep], c.clusters[gone]))
                        - PartitionDensity(c.clusters[keep]) - PartitionDensity(c.clusters[gone])
    ensures Valid(E, r)
    ensures forall e :: 0 <= e < |E| ==>
      r.membership[e] == if c.membership[e] == gone then keep else c.membership[e]
  {
    assert forall e :: 0 <= e < |E| ==> (e in c.clusters[gone].edges <==> c.membership[e] == gone);
    MergedRoots(E, c, keep, gone, r);
    MergedSum(E, c, keep, gone, r);
  }

  /** After the merge every live cluster holds exactly its edges and spans
      their endpoints. */
  lemma MergedRoots(E: seq<Edge>, c: Clustering, keep: nat, gone: nat, r: Clustering)
    requires Valid(E, c)
    requires IsRoot(c, keep) && IsRoot(c, gone) && keep != gone
    requires r.clusters == c.clusters[keep := MergeFrom(c.clusters[keep], c.clusters[gone])]
                                     [gone := MergeFrom(c.clusters[keep], c.clusters[gone])]
    requires |r.membership| == |E|
    requires forall e :: 0 <= e < |E| ==>
      r.membership[e] == if c.membership[e] == gone then keep else c.membership[e]
    ensures forall x :: 0 <= x < |E| && r.membership[x] == x ==>
      r.clusters[x].edges == Class(r, x) && Spans(E, r.clusters[x])
  {
    assert r.membership[keep] == keep && r.membership[gone] == keep;
    forall x | 0 <= x < |E| && r.membership[x] == x
      ensures r.clusters[x].edges == Class(r, x) && Spans(E, r.clusters[x])
    {
      if x == keep {
        assert Class(r, keep) == Class(c, keep) + Class(c, gone);
        SpansUnion(E, c.clusters[keep], c.clusters[gone]);
      } else {
        assert c.membership[x] == x && x != gone;
        assert Class(r, x) == Class(c, x);
      }
    }
  }

  /** After the merge `d` is again the sum of the live clusters' densities. */
  lemma MergedSum(E: seq<Edge>, c: Clustering, keep: nat, gone: nat, r: Clustering)
    requires Valid(E, c)
    requires IsRoot(c, keep) && IsRoot(c, gone) && keep != gone
    requires r.clusters == c.clusters[keep := MergeFrom(c.clusters[keep], c.clusters[gone])]
                                     [gone := MergeFrom(c.clusters[keep], c.clusters[gone])]
    requires |r.membership| == |E|
    requires forall e :: 0 <= e < |E| ==>
      r.membership[e] == if c.membership[e] == gone then keep else c.membership[e]
    requires r.d == c.d + PartitionDensity(MergeFrom(c.clusters[keep], c.clusters[gone]))
                        - PartitionDensity(c.clusters[keep]) - PartitionDensity(c.clusters[gone])
    ensures r.d == DensitySum(r, |E|)
  {
    assert r.membership[keep] == keep && r.membership[gone] == keep;
    forall k | 0 <= k < |E| && k != keep && k != gone
      ensures Term(r, k) == Term(c, k)
    {
    }
    DensitySumUpdate(c, r, |E|, keep, gone);
  }

  lemma SpansUnion(E: seq<Edge>, a: EdgeCluster, b: EdgeCluster)
    requires Spans(E, a) && Spans(E, b)
    ensures Spans(E, MergeFrom(a, b))
  {
    var m := MergeFrom(a, b);
    forall v | exists e :: e in m.edges && Touches(E, e, v)
      ensures v in m.vertices
    {
      var e :| e in m.edges && Touches(E, e, v);
      if e in a.edges {
        assert v in a.vertices;
      } else {
        assert v in b.vertices;
      }
    }
  }

  /** Changing the contributions of two slots changes the sum by exactly
      their differences. */
  lemma {:induction false} DensitySumUpdate(c: Clustering, r: Clustering, n: nat, p: nat, q: nat)
    requires n <= |c.membership| && n <= |c.clusters| && n <= |r.membership| && n <= |r.clusters|
    requires p < n && q < n && p != q
    requires forall k :: 0 <= k < n && k != p && k != q ==> Term(r, k) == Term(c, k)
    ensures DensitySum(r, n) == DensitySum(c, n) + (Term(r, p) - Term(c, p)) + (Term(r, q) - Term(c, q))
  {
    DensitySumUpdateRec(c, r, n, p, q);
  }

  lemma {:induction false} DensitySumUpdateRec(c: Clustering, r: Clustering, n: nat, p: nat, q: nat)
    requires n <= |c.membership| && n <= |c.clusters| && n <= |r.membership| && n <= |r.clusters|
    requires p < |c.membership| && p < |c.clusters| && p < |r.membership| && p < |r.clusters|
    requires q < |c.membership| && q < |c.clusters| && q < |r.membership| && q < |r.clusters|
    requires p != q
    requires forall k :: 0 <= k < n && k != p && k != q ==> Term(r, k) == Term(c, k)
    ensures DensitySum(r, n) == DensitySum(c, n)
      + (if p < n then Term(r, p) - Term(c, p) else 0.0)
      + (if q < n then Term(r, q) - Term(c, q) else 0.0)
  {
    if n > 0 {
      DensitySumUpdateRec(c, r, n - 1, p, q);
    }
  }
}
