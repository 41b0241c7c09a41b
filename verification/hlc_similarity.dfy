/** The vertex similarities of the hierarchical link clustering: Jaccard on
    closed neighbourhoods for unweighted graphs, Tanimoto on weighted
    adjacency vectors for weighted ones. Both treat every vertex as linked to
    itself. */
module HlcSimilarity {
  import opened Wrappers

  type Edge = (nat, nat)

  /** An undirected graph: vertices `0 .. vcount-1` and an edge list. */
  datatype Graph = Graph(vcount: nat, edges: seq<Edge>)

  /** No loops and no multiple edges, which the source assumes of its input
      without checking. */
  predicate Simple(g: Graph)
  {
    && (forall e :: 0 <= e < |g.edges| ==> g.edges[e].0 != g.edges[e].1)
    && (forall e, f :: 0 <= e < f < |g.edges| ==>
          {g.edges[e].0, g.edges[e].1} != {g.edges[f].0, g.edges[f].1})
  }

  predicate Touches(g: Graph, e: nat, v: nat)
  {
    e < |g.edges| && (g.edges[e].0 == v || g.edges[e].1 == v)
  }

  /** The endpoint of edge `e` that is not `v`. */
  function Other(g: Graph, e: nat, v: nat): nat
    requires e < |g.edges|
  {
    if g.edges[e].0 == v then g.edges[e].1 else g.edges[e].0
  }

  function Neighbours(g: Graph, v: nat): set<nat>
  {
    (set e | 0 <= e < |g.edges| && g.edges[e].0 == v :: g.edges[e].1) +
    (set e | 0 <= e < |g.edges| && g.edges[e].1 == v :: g.edges[e].0)
  }

  /* ------------------------------------------------------------- Jaccard */

  /** The neighbourhood of `v` with `v` itself added. */
  function Closed(g: Graph, v: nat): (r: set<nat>)
    ensures v in r
    ensures forall u :: u in r <==> u == v || exists e :: Touches(g, e, v) && Other(g, e, v) == u
  {
    var r := Neighbours(g, v) + {v};
    assert forall e :: Touches(g, e, v) ==> Other(g, e, v) in r;
    assert forall u :: u in Neighbours(g, v) ==> exists e :: Touches(g, e, v) && Other(g, e, v) == u by {
      forall u | u in Neighbours(g, v) ensures exists e :: Touches(g, e, v) && Other(g, e, v) == u {
        if u in (set e | 0 <= e < |g.edges| && g.edges[e].0 == v :: g.edges[e].1) {
          var e :| 0 <= e < |g.edges| && g.edges[e].0 == v && g.edges[e].1 == u;
          assert Touches(g, e, v) && Other(g, e, v) == u;
        } else {
          var e :| 0 <= e < |g.edges| && g.edges[e].1 == v && g.edges[e].0 == u;
          assert Touches(g, e, v) && Other(g, e, v) == u;
        }
      }
    }
    r
  }

  /** `JaccardSimilarityCalculator.get_similarity`: the size of the
      intersection over the size of the union of the closed neighbourhoods,
      computed as |A∩B| / (|A| + |B| - |A∩B|). It lies in [0, 1] and is 1
      exactly when both closed neighbourhoods coincide. */
  function Jaccard(g: Graph, v1: nat, v2: nat): (r: real)
    ensures r == |Closed(g, v1) * Closed(g, v2)| as real / |Closed(g, v1) + Closed(g, v2)| as real
    ensures 0.0 <= r <= 1.0
    ensures r == 1.0 <==> Closed(g, v1) == Closed(g, v2)
  {
    var a := Closed(g, v1);
    var b := Closed(g, v2);
    var isect := |a * b|;
    OverlapBounds(a, b, v1);
    isect as real / (|a| + |b| - isect) as real
  }

  lemma OverlapBounds(a: set<nat>, b: set<nat>, v: nat)
    requires v in a
    ensures |a| + |b| - |a * b| == |a + b| > 0
    ensures 0.0 <= |a * b| as real / |a + b| as real <= 1.0
    ensures |a * b| as real / |a + b| as real == 1.0 <==> a == b
  {
    assert |a + b| == |a - b| + |b - a| + |a * b|;
    assert v in a + b;
    RatioBounds(|a * b| as real, |a + b| as real);
    if |a * b| == |a + b| {
      assert |a - b| == 0 && |b - a| == 0;
      assert a - b == {} && b - a == {};
      assert a == b;
    }
  }

  lemma RatioBounds(x: real, y: real)
    requires 0.0 <= x <= y && y > 0.0
    ensures 0.0 <= x / y <= 1.0
    ensures x / y == 1.0 <==> x == y
  {
    if x / y == 1.0 {
      assert x == (x / y) * y;
    }
  }

  /** Jaccard similarity does not depend on the order of its arguments, and
      every vertex is fully similar to itself. */
  lemma JaccardSymmetric(g: Graph, v1: nat, v2: nat)
    ensures Jaccard(g, v1, v2) == Jaccard(g, v2, v1)
    ensures Jaccard(g, v1, v1) == 1.0
  {
    assert Closed(g, v1) * Closed(g, v2) == Closed(g, v2) * Closed(g, v1);
    assert Closed(g, v1) + Closed(g, v2) == Closed(g, v2) + Closed(g, v1);
  }

  /* ------------------------------------------------------------ Tanimoto */

  /** A sparse vector: the items of a Python dict from vertex to weight, in
      insertion order. */
  type Vector = seq<(nat, real)>

  /** `vec.get(key, 0)`. */
  function Get(a: Vector, k: nat): real
  {
    if |a| == 0 then 0.0 else if a[0].0 == k then a[0].1 else Get(a[1..], k)
  }

  predicate HasKey(a: Vector, k: nat)
  {
    exists i :: 0 <= i < |a| && a[i].0 == k
  }

  predicate DistinctKeys(a: Vector)
  {
    forall i, j :: 0 <= i < j < |a| ==> a[i].0 != a[j].0
  }

  /** `sum(value * b.get(key, 0) for key, value in a.items())`. */
  function Dot(a: Vector, b: Vector): real
  {
    if |a| == 0 then 0.0 else a[0].1 * Get(b, a[0].0) + Dot(a[1..], b)
  }

  /** `sum(value * value for value in a.values())`. */
  function SqSum(a: Vector): real
  {
    if |a| == 0 then 0.0 else a[0].1 * a[0].1 + SqSum(a[1..])
  }

  lemma {:induction false} GetMissing(a: Vector, k: nat)
    requires !HasKey(a, k)
    ensures Get(a, k) == 0.0
  {
    if |a| > 0 {
      assert !HasKey(a[1..], k) by {
        forall i | 0 <= i < |a[1..]| ensures a[1..][i].0 != k {
          assert a[1..][i] == a[i + 1];
        }
      }
      GetMissing(a[1..], k);
    }
  }

  /** Prepending a fresh key to `a` adds exactly that key's product to the
      dot product of `b` with `a`. */
  lemma {:induction false} DotPrepend(b: Vector, k: nat, x: real, a: Vector)
    requires DistinctKeys(b)
    requires !HasKey(a, k)
    ensures Dot(b, [(k, x)] + a) == Dot(b, a) + x * Get(b, k)
  {
    if |b| > 0 {
      assert DistinctKeys(b[1..]) by {
        forall i, j | 0 <= i < j < |b[1..]| ensures b[1..][i].0 != b[1..][j].0 {
          assert b[1..][i] == b[i + 1] && b[1..][j] == b[j + 1];
        }
      }
      DotPrepend(b[1..], k, x, a);
      var j := b[0].0;
      assert ([(k, x)] + a)[1..] == a;
      if j == k {
        GetMissing(a, k);
        assert !HasKey(b[1..], k) by {
          forall i | 0 <= i < |b[1..]| ensures b[1..][i].0 != k {
            assert b[1..][i] == b[i + 1];
          }
        }
        GetMissing(b[1..], k);
      }
    }
  }

  /** Dot products of vectors with distinct keys are symmetric, which is why
      the source may iterate over whichever vector is smaller. */
  lemma {:induction false} DotSymmetric(a: Vector, b: Vector)
    requires DistinctKeys(a) && DistinctKeys(b)
    ensures Dot(a, b) == Dot(b, a)
  {
    if |a| == 0 {
      DotEmpty(b);
    } else {
      var rest := a[1..];
      assert DistinctKeys(rest) by {
        forall i, j | 0 <= i < j < |rest| ensures rest[i].0 != rest[j].0 {
          assert rest[i] == a[i + 1] && rest[j] == a[j + 1];
        }
      }
      assert !HasKey(rest, a[0].0) by {
        forall i | 0 <= i < |rest| ensures rest[i].0 != a[0].0 {
          assert rest[i] == a[i + 1];
        }
      }
      DotSymmetric(rest, b);
      DotPrepend(b, a[0].0, a[0].1, rest);
      assert [(a[0].0, a[0].1)] + rest == a;
      calc {
        Dot(a, b);
        a[0].1 * Get(b, a[0].0) + Dot(rest, b);
        Dot(b, rest) + a[0].1 * Get(b, a[0].0);
        Dot(b, [(a[0].0, a[0].1)] + rest);
        { assert [(a[0].0, a[0].1)] + rest == a; }
        Dot(b, a);
      }
    }
  }

  lemma {:induction false} DotEmpty(b: Vector)
    ensures Dot(b, []) == 0.0
  {
    if |b| > 0 {
      DotEmpty(b[1..]);
    }
  }

  /** The dot product of a vector with itself is its square sum. */
  lemma {:induction false} DotSelf(a: Vector)
    requires DistinctKeys(a)
    ensures Dot(a, a) == SqSum(a)
  {
    if |a| > 0 {
      var rest := a[1..];
      assert DistinctKeys(rest) by {
        forall i, j | 0 <= i < j < |rest| ensures rest[i].0 != rest[j].0 {
          assert rest[i] == a[i + 1] && rest[j] == a[j + 1];
        }
      }
      assert !HasKey(rest, a[0].0) by {
        forall i | 0 <= i < |rest| ensures rest[i].0 != a[0].0 {
          assert rest[i] == a[i + 1];
        }
      }
      DotSelf(rest);
      DotPrepend(rest, a[0].0, a[0].1, rest);
      assert [(a[0].0, a[0].1)] + rest == a;
      GetMissing(rest, a[0].0);
    }
  }

  /** The indices of the edges among the first `n` that touch `v`, in edge
      order. */
  function IncidentPrefix(g: Graph, v: nat, n: nat): (r: seq<nat>)
    requires n <= |g.edges|
    ensures forall i :: 0 <= i < |r| ==> r[i] < n && Touches(g, r[i], v)
    ensures forall i, j :: 0 <= i < j < |r| ==> r[i] < r[j]
    ensures forall e :: 0 <= e < n && Touches(g, e, v) ==> e in r
  {
    if n == 0 then []
    else IncidentPrefix(g, v, n - 1) + (if Touches(g, n - 1, v) then [n - 1] else [])
  }

  function Incident(g: Graph, v: nat): seq<nat>
  {
    IncidentPrefix(g, v, |g.edges|)
  }

  /** `graph.degree()[v]` for a graph without loops. */
  function Degree(g: Graph, v: nat): nat
  {
    |Incident(g, v)|
  }

  function SumWeights(w: seq<real>, es: seq<nat>): real
    requires forall i :: 0 <= i < |es| ==> es[i] < |w|
  {
    if |es| == 0 then 0.0 else w[es[0]] + SumWeights(w, es[1..])
  }

  /** `graph.strength(weights=attr)[v]`: the sum of the incident weights. */
  function Strength(g: Graph, w: seq<real>, v: nat): real
    requires |w| == |g.edges|
  {
    SumWeights(w, Incident(g, v))
  }

  /** The row the constructor builds for `v`: the weight towards each
      neighbour, then the self-weight strength/degree. */
  function TanimotoVector(g: Graph, w: seq<real>, v: nat): (r: Vector)
    requires |w| == |g.edges|
    requires Degree(g, v) > 0
    ensures |r| == Degree(g, v) + 1
    ensures r[|r| - 1] == (v, Strength(g, w, v) / Degree(g, v) as real)
    ensures forall u :: HasKey(r, u) <==> u in Closed(g, v)
  {
    var inc := Incident(g, v);
    var r := seq(|inc|, i requires 0 <= i < |inc| => (Other(g, inc[i], v), w[inc[i]]))
             + [(v, Strength(g, w, v) / Degree(g, v) as real)];
    RowKeys(g, v, inc, r);
    r
  }

  /** A row that lists the far end of every incident edge, then `v`, has
      exactly the closed neighbourhood of `v` as its keys. */
  lemma RowKeys(g: Graph, v: nat, inc: seq<nat>, r: Vector)
    requires |r| == |inc| + 1 && r[|inc|].0 == v
    requires forall i :: 0 <= i < |inc| ==> Touches(g, inc[i], v) && r[i].0 == Other(g, inc[i], v)
    requires forall e :: 0 <= e < |g.edges| && Touches(g, e, v) ==> e in inc
    ensures forall u :: HasKey(r, u) <==> u in Closed(g, v)
  {
    forall u | u in Closed(g, v) ensures HasKey(r, u) {
      if u != v {
        var e :| Touches(g, e, v) && Other(g, e, v) == u;
        var i :| 0 <= i < |inc| && inc[i] == e;
        assert r[i].0 == u;
      } else {
        assert r[|inc|].0 == u;
      }
    }
    forall u | HasKey(r, u) ensures u in Closed(g, v) {
      var i :| 0 <= i < |r| && r[i].0 == u;
      if i < |inc| {
        assert Touches(g, inc[i], v) && Other(g, inc[i], v) == u;
      }
    }
  }

  /** In a simple graph a row never repeats a vertex, so it is a faithful
      picture of the source's dict. */
  lemma TanimotoVectorDistinct(g: Graph, w: seq<real>, v: nat)
    requires Simple(g) && |w| == |g.edges| && Degree(g, v) > 0
    ensures DistinctKeys(TanimotoVector(g, w, v))
  {
    var inc := Incident(g, v);
    var r := TanimotoVector(g, w, v);
    forall i, j | 0 <= i < j < |r| ensures r[i].0 != r[j].0 {
      var e := inc[i];
      assert Touches(g, e, v);
      if j < |inc| {
        var f := inc[j];
        assert e < f && Touches(g, f, v);
        assert {g.edges[e].0, g.edges[e].1} != {g.edges[f].0, g.edges[f].1};
      } else {
        assert g.edges[e].0 != g.edges[e].1;
      }
    }
  }

  /** `TanimotoSimilarityCalculator(graph)`: one row per vertex. The
      constructor divides by every vertex's degree, so a vertex without edges
      makes it raise ZeroDivisionError. */
  function TanimotoVectors(g: Graph, w: seq<real>): (r: Result<seq<Vector>>)
    requires |w| == |g.edges|
    ensures r.Failure? <==> exists v :: 0 <= v < g.vcount && Degree(g, v) == 0
    ensures r.Failure? ==> r.error == ZeroDivision
    ensures r.Success? ==>
      && |r.value| == g.vcount
      && (forall v :: 0 <= v < g.vcount ==> r.value[v] == TanimotoVector(g, w, v))
  {
    if exists v :: 0 <= v < g.vcount && Degree(g, v) == 0 then Failure(ZeroDivision)
    else Success(seq(g.vcount, v requires 0 <= v < g.vcount => TanimotoVector(g, w, v)))
  }

  /** `TanimotoSimilarityCalculator.get_similarity`: the dot product of the
      two rows over the sum of their square sums minus the dot product,
      iterating over the shorter row. A zero denominator raises
      ZeroDivisionError. */
  function Tanimoto(rows: seq<Vector>, v1: nat, v2: nat): (r: Result<real>)
    requires v1 < |rows| && v2 < |rows|
  {
    var (small, large) := if |rows[v1]| > |rows[v2]| then (rows[v2], rows[v1]) else (rows[v1], rows[v2]);
    var numerator := Dot(small, large);
    var denominator := SqSum(rows[v1]) + SqSum(rows[v2]) - numerator;
    if denominator == 0.0 then Failure(ZeroDivision) else Success(numerator / denominator)
  }

  /** Tanimoto similarity does not depend on the order of its arguments: the
      swap only changes which row is iterated. */
  lemma TanimotoSymmetric(rows: seq<Vector>, v1: nat, v2: nat)
    requires v1 < |rows| && v2 < |rows|
    requires DistinctKeys(rows[v1]) && DistinctKeys(rows[v2])
    ensures Tanimoto(rows, v1, v2) == Tanimoto(rows, v2, v1)
  {
    DotSymmetric(rows[v1], rows[v2]);
  }

  /** A vertex is fully similar to itself unless its row is all zero. */
  lemma TanimotoSelf(rows: seq<Vector>, v: nat)
    requires v < |rows| && DistinctKeys(rows[v])
    ensures SqSum(rows[v]) != 0.0 ==> Tanimoto(rows, v, v) == Success(1.0)
    ensures SqSum(rows[v]) == 0.0 ==> Tanimoto(rows, v, v) == Failure(ZeroDivision)
  {
    DotSelf(rows[v]);
    var s := SqSum(rows[v]);
    if s != 0.0 {
      assert s / s == 1.0;
    }
  }

  /** The rows of a simple graph satisfy the premises of the two lemmas
      above. */
  lemma TanimotoRowsDistinct(g: Graph, w: seq<real>)
    requires Simple(g) && |w| == |g.edges| && TanimotoVectors(g, w).Success?
    ensures forall v :: 0 <= v < g.vcount ==> DistinctKeys(TanimotoVectors(g, w).value[v])
  {
    forall v | 0 <= v < g.vcount ensures DistinctKeys(TanimotoVectors(g, w).value[v]) {
      TanimotoVectorDistinct(g, w, v);
    }
  }
}
