/** The random-walk transition matrix of a weighted colexification graph
    (`get_transition_matrix`): nodes without neighbours are dropped, the
    weighted adjacency matrix `A` is built over the remaining nodes, `P = D A`
    with `D` the inverse of the diagonal degree matrix, and the powers
    `P^1 .. P^steps` are summed, optionally divided by `steps`.

    Reals stand for the source's floating-point numbers. */
module Transition {
  import opened Wrappers
  import opened Grouping
  import opened Matrices

  /** An undirected graph whose edges carry attribute dictionaries; an edge
      is the set of its endpoints, a singleton for a loop. */
  datatype WGraph = WGraph(nodes: seq<string>, edges: map<set<string>, map<string, real>>)

  /** What a networkx graph guarantees: nodes listed once, every edge joining
      one or two listed nodes. */
  predicate GraphOk(g: WGraph)
  {
    && Distinct(g.nodes)
    && (forall e | e in g.edges :: 1 <= |e| <= 2)
    && (forall e, x | e in g.edges && x in e :: x in g.nodes)
  }

  /** `len(graph[node]) >= 1`. */
  predicate HasNeighbour(g: WGraph, x: string)
  {
    exists e | e in g.edges :: x in e
  }

  /** Every edge carries the attribute `weight`. */
  predicate Weighted(g: WGraph, weight: string)
  {
    forall e | e in g.edges :: weight in g.edges[e]
  }

  /** Every edge carries a positive `weight`. */
  predicate PositivelyWeighted(g: WGraph, weight: string)
  {
    forall e | e in g.edges :: weight in g.edges[e] && g.edges[e][weight] > 0.0
  }

  predicate Symmetric(m: Matrix)
  {
    forall i, j | 0 <= i < |m| && 0 <= j < |m| && j < |m[i]| && i < |m[j]| :: m[i][j] == m[j][i]
  }

  /** The nodes with at least one neighbour, in graph order. */
  function Pruned(g: WGraph): (r: seq<string>)
    ensures forall x :: x in r <==> x in g.nodes && HasNeighbour(g, x)
  {
    Filter(g.nodes, x => HasNeighbour(g, x))
  }

  /** The weight of the edge between `x` and `y`, 0 when they are not
      adjacent. */
  function EdgeWeight(g: WGraph, x: string, y: string, weight: string): real
    requires Weighted(g, weight)
  {
    if {x, y} in g.edges then g.edges[{x, y}][weight] else 0.0
  }

  /** The weighted adjacency matrix over `nodes`; a `KeyError` when some edge
      lacks the attribute. */
  function Adjacency(g: WGraph, nodes: seq<string>, weight: string): (r: Result<Matrix>)
    ensures r.Failure? <==> !Weighted(g, weight)
    ensures r.Failure? ==> r.error == KeyError(weight)
    ensures r.Success? ==> Square(r.value, |nodes|)
    ensures r.Success? ==> forall i, j | 0 <= i < |nodes| && 0 <= j < |nodes| ::
      ({nodes[i], nodes[j]} in g.edges ==> r.value[i][j] == g.edges[{nodes[i], nodes[j]}][weight])
      && ({nodes[i], nodes[j]} !in g.edges ==> r.value[i][j] == 0.0)
  {
    if !Weighted(g, weight) then Failure(KeyError(weight))
    else
      var n := |nodes|;
      Success(seq(n, (i: int) requires 0 <= i < n =>
        seq(n, (j: int) requires 0 <= j < n => EdgeWeight(g, nodes[i], nodes[j], weight))))
  }

  /** The adjacency matrix is symmetric: both orders of a pair name the same
      edge. */
  lemma AdjacencySymmetric(g: WGraph, nodes: seq<string>, weight: string)
    ensures Adjacency(g, nodes, weight).Success? ==> Symmetric(Adjacency(g, nodes, weight).value)
  {
    var r := Adjacency(g, nodes, weight);
    if r.Success? {
      forall i, j | 0 <= i < |nodes| && 0 <= j < |nodes|
        ensures r.value[i][j] == r.value[j][i]
      {
        assert {nodes[i], nodes[j]} == {nodes[j], nodes[i]};
      }
    }
  }

  /** `D`: the diagonal matrix of inverted row sums. */
  function InverseDegrees(a: Matrix, n: nat): (r: Matrix)
    requires Square(a, n) && forall i | 0 <= i < n :: Sum(a[i]) != 0.0
    ensures Square(r, n)
    ensures forall i, j | 0 <= i < n && 0 <= j < n :: r[i][j] == if i == j then 1.0 / Sum(a[i]) else 0.0
  {
    seq(n, (i: int) requires 0 <= i < n =>
      seq(n, (j: int) requires 0 <= j < n => if i == j then 1.0 / Sum(a[i]) else 0.0))
  }

  /** `P = D A`: a `ZeroDivision` when some row of `A` sums to 0. */
  function StepMatrix(a: Matrix, n: nat): (r: Result<Matrix>)
    requires Square(a, n)
    ensures r.Success? ==> Square(r.value, n)
  {
    if exists i | 0 <= i < n :: Sum(a[i]) == 0.0 then Failure(ZeroDivision)
    else Success(MatMul(InverseDegrees(a, n), a, n))
  }

  lemma InverseTimes(s: real)
    requires s != 0.0
    ensures (1.0 / s) * s == 1.0
  {
  }

  /** Row `i` of `D A` is row `i` of `A` divided by its sum, and sums to 1. */
  lemma StepRow(a: Matrix, n: nat, i: nat)
    requires Square(a, n) && i < n && forall k | 0 <= k < n :: Sum(a[k]) != 0.0
    ensures MatMul(InverseDegrees(a, n), a, n)[i] == VScale(a[i], 1.0 / Sum(a[i]))
    ensures Sum(MatMul(InverseDegrees(a, n), a, n)[i]) == 1.0
  {
    var d := InverseDegrees(a, n);
    CombUnit(d[i], a, n, i);
    var s := Sum(a[i]);
    assert Sum(VScale(a[i], 1.0 / s)) == 1.0 by {
      SumScale(a[i], 1.0 / s);
      InverseTimes(s);
    }
  }

  /** `D A` divides every row of `A` by its sum, so every row of `P` sums to
      1; it fails exactly when some row of `A` sums to 0. */
  lemma StepMatrixRows(a: Matrix, n: nat)
    requires Square(a, n)
    ensures StepMatrix(a, n).Failure? <==> exists i | 0 <= i < n :: Sum(a[i]) == 0.0
    ensures StepMatrix(a, n).Failure? ==> StepMatrix(a, n).error == ZeroDivision
    ensures StepMatrix(a, n).Success? ==>
      && Square(StepMatrix(a, n).value, n)
      && RowsSumTo(StepMatrix(a, n).value, 1.0)
      && forall i | 0 <= i < n :: StepMatrix(a, n).value[i] == VScale(a[i], 1.0 / Sum(a[i]))
  {
    if forall i | 0 <= i < n :: Sum(a[i]) != 0.0 {
      forall i | 0 <= i < n
        ensures StepMatrix(a, n).value[i] == VScale(a[i], 1.0 / Sum(a[i]))
        ensures Sum(StepMatrix(a, n).value[i]) == 1.0
      {
        StepRow(a, n, i);
      }
    }
  }

  /** Non-negative weights give a non-negative step matrix. */
  lemma StepMatrixNonNegative(a: Matrix, n: nat)
    requires Square(a, n) && NonNegative(a)
    ensures StepMatrix(a, n).Success? ==> NonNegative(StepMatrix(a, n).value)
  {
    if forall i | 0 <= i < n :: Sum(a[i]) != 0.0 {
      var d := InverseDegrees(a, n);
      forall i | 0 <= i < n
        ensures Sum(a[i]) > 0.0
      {
        SumPositive(a[i], 0);
      }
      MatMulNonNegative(d, a, n);
    }
  }

  /** The first member of the result: the scalar `0` when `range(1, steps + 1)`
      is empty, a matrix otherwise. */
  datatype Walk = ScalarZero | Walk(m: Matrix)

  datatype TransitionResult = TransitionResult(walk: Walk, nodes: seq<string>, adjacency: Matrix)

  /** `sum(matrix_power(p, i) for i in range(1, steps + 1))`. With no nodes
      numpy reads the empty lists as vectors, `p` is a scalar and
      `matrix_power` raises a `LinAlgError` (a `ValueError`). */
  function SumOfPowers(p: Matrix, n: nat, steps: int): (r: Result<Walk>)
    requires Square(p, n)
    ensures r.Failure? <==> steps >= 1 && n == 0
    ensures r.Success? ==> (r.value.Walk? <==> steps >= 1)
    ensures r.Success? && r.value.Walk? ==> Square(r.value.m, n)
  {
    if steps <= 0 then Success(ScalarZero)
    else if n == 0 then Failure(ValueError("LinAlgError"))
    else Success(Walk(PowerSum(p, steps, n)))
  }

  /** `new_p_matrix / steps`. */
  function Normalized(w: Walk, n: nat, steps: int): (r: Result<Walk>)
    requires w.Walk? ==> Square(w.m, n) && steps >= 1
    ensures r.Failure? <==> steps == 0
    ensures r.Success? ==> (r.value.Walk? <==> w.Walk?)
    ensures r.Success? && r.value.Walk? ==> Square(r.value.m, n)
  {
    if steps == 0 then Failure(ZeroDivision)
    else
      match w
      case ScalarZero => Success(ScalarZero)
      case Walk(m) => Success(Walk(MScale(m, 1.0 / (steps as real), n)))
  }

  /** The summed powers, divided by `steps` when normalising. */
  function Walked(p: Matrix, n: nat, steps: int, normalize: bool): (r: Result<Walk>)
    requires Square(p, n)
    ensures r.Success? ==> (r.value.Walk? <==> steps >= 1)
    ensures r.Success? && r.value.Walk? ==> Square(r.value.m, n)
  {
    var walk :- SumOfPowers(p, n, steps);
    if normalize then Normalized(walk, n, steps) else Success(walk)
  }

  /** `get_transition_matrix(graph, steps, weight, normalize)`. */
  function TransitionMatrix(g: WGraph, steps: int, weight: string, normalize: bool): (r: Result<TransitionResult>)
    requires GraphOk(g)
    ensures !Weighted(g, weight) ==> r == Failure(KeyError(weight))
    ensures r.Success? ==> r.value.nodes == Pruned(g)
    ensures r.Success? ==> Square(r.value.adjacency, |Pruned(g)|)
    ensures r.Success? ==> (r.value.walk.Walk? <==> steps >= 1)
  {
    var nodes := Pruned(g);
    var n := |nodes|;
    var a :- Adjacency(g, nodes, weight);
    var p :- StepMatrix(a, n);
    var walk :- Walked(p, n, steps, normalize);
    Success(TransitionResult(walk, nodes, a))
  }

  /* ----------------------------------------------------------- properties */

  /** `nodes.index(y)`. */
  function Position(s: seq<string>, y: string): (j: nat)
    requires y in s
    ensures j < |s| && s[j] == y && y !in s[..j]
  {
    if s[0] == y then 0 else 1 + Position(s[1..], y)
  }

  /** An edge of one or two endpoints is `{x, y}` for each endpoint `x`. */
  lemma OtherEnd(e: set<string>, x: string) returns (y: string)
    requires x in e && 1 <= |e| <= 2
    ensures y in e && e == {x, y}
  {
    if e == {x} {
      y := x;
    } else {
      y :| y in e && y != x;
      if e != {x, y} {
        var z :| z in e && z !in {x, y};
        SubsetCard({x, y, z}, e);
        assert false;
      }
    }
  }

  /** Every kept node has a neighbour among the kept nodes, which is what the
      pruning is for: no row of the adjacency matrix is all zeros. */
  lemma PrunedRowHasEdge(g: WGraph, i: nat) returns (j: nat)
    requires GraphOk(g) && i < |Pruned(g)|
    ensures j < |Pruned(g)| && {Pruned(g)[i], Pruned(g)[j]} in g.edges
  {
    var nodes := Pruned(g);
    var x := nodes[i];
    assert x in nodes;
    var e :| e in g.edges && x in e;
    var y := OtherEnd(e, x);
    assert HasNeighbour(g, y);
    assert y in nodes;
    j := Position(nodes, y);
  }

  /** Some kept node's weights sum to 0 (only meaningful for a weighted
      graph). */
  predicate HasZeroRow(g: WGraph, weight: string)
  {
    && Weighted(g, weight)
    && exists i | 0 <= i < |Pruned(g)| :: Sum(Adjacency(g, Pruned(g), weight).value[i]) == 0.0
  }

  /** The error the source raises, and when: a `KeyError` for an edge
      without the attribute, a `ZeroDivision` for a node whose weights sum
      to 0, a `LinAlgError` when nothing is left to walk on, and a
      `ZeroDivision` when normalising over zero steps. */
  lemma TransitionOutcome(g: WGraph, steps: int, weight: string, normalize: bool)
    requires GraphOk(g)
    ensures TransitionMatrix(g, steps, weight, normalize).Failure? <==>
      !Weighted(g, weight) || HasZeroRow(g, weight) || (steps >= 1 && |Pruned(g)| == 0) || (normalize && steps == 0)
    ensures TransitionMatrix(g, steps, weight, normalize).Failure? ==>
      TransitionMatrix(g, steps, weight, normalize).error ==
        if !Weighted(g, weight) then KeyError(weight)
        else if HasZeroRow(g, weight) then ZeroDivision
        else if steps >= 1 then ValueError("LinAlgError")
        else ZeroDivision
  {
    if Weighted(g, weight) {
      StepMatrixRows(Adjacency(g, Pruned(g), weight).value, |Pruned(g)|);
    }
  }

  /** After one step or more the rows of the walk matrix sum to the number
      of steps, or to 1 when normalised. */
  lemma WalkedRows(p: Matrix, n: nat, steps: int, normalize: bool)
    requires Square(p, n) && RowsSumTo(p, 1.0)
    ensures Walked(p, n, steps, normalize).Success? && Walked(p, n, steps, normalize).value.Walk? ==>
      RowsSumTo(Walked(p, n, steps, normalize).value.m, if normalize then 1.0 else steps as real)
  {
    if steps >= 1 && n > 0 {
      var s := PowerSum(p, steps, n);
      PowerSumRows(p, steps, n);
      if normalize {
        assert Walked(p, n, steps, normalize).value.m == MScale(s, 1.0 / (steps as real), n);
        DividedRows(s, n, steps);
      } else {
        assert Walked(p, n, steps, normalize).value.m == s;
      }
    }
  }

  lemma DividedRows(s: Matrix, n: nat, steps: nat)
    requires Square(s, n) && steps >= 1 && RowsSumTo(s, steps as real)
    ensures RowsSumTo(MScale(s, 1.0 / (steps as real), n), 1.0)
  {
    MScaleRows(s, 1.0 / (steps as real), n, steps as real);
    InverseTimes(steps as real);
  }

  /** A non-negative step matrix walks to a non-negative matrix. */
  lemma WalkedNonNegative(p: Matrix, n: nat, steps: int, normalize: bool)
    requires Square(p, n) && NonNegative(p) && n > 0 && steps >= 1
    ensures Walked(p, n, steps, normalize).Success?
    ensures Walked(p, n, steps, normalize).value.Walk?
    ensures NonNegative(Walked(p, n, steps, normalize).value.m)
  {
    PowerSumNonNegative(p, steps, n, 1.0 / (steps as real));
  }

  /** The stages a successful run went through. */
  lemma TransitionStages(g: WGraph, steps: int, weight: string, normalize: bool)
    requires GraphOk(g) && TransitionMatrix(g, steps, weight, normalize).Success?
    ensures Adjacency(g, Pruned(g), weight).Success?
    ensures TransitionMatrix(g, steps, weight, normalize).value.adjacency == Adjacency(g, Pruned(g), weight).value
    ensures StepMatrix(Adjacency(g, Pruned(g), weight).value, |Pruned(g)|).Success?
    ensures TransitionMatrix(g, steps, weight, normalize).value.walk
         == Walked(StepMatrix(Adjacency(g, Pruned(g), weight).value, |Pruned(g)|).value, |Pruned(g)|, steps, normalize).value
  {
  }

  /** On success the adjacency matrix is symmetric and, after one step or
      more, every row of the result sums to the number of steps, or to 1
      when normalised: the rows are (summed) probability distributions. */
  lemma TransitionRows(g: WGraph, steps: int, weight: string, normalize: bool)
    requires GraphOk(g)
    ensures TransitionMatrix(g, steps, weight, normalize).Success? ==>
      Symmetric(TransitionMatrix(g, steps, weight, normalize).value.adjacency)
    ensures TransitionMatrix(g, steps, weight, normalize).Success? &&
            TransitionMatrix(g, steps, weight, normalize).value.walk.Walk? ==>
      RowsSumTo(TransitionMatrix(g, steps, weight, normalize).value.walk.m,
                if normalize then 1.0 else steps as real)
  {
    if TransitionMatrix(g, steps, weight, normalize).Success? {
      var nodes := Pruned(g);
      var n := |nodes|;
      TransitionStages(g, steps, weight, normalize);
      AdjacencySymmetric(g, nodes, weight);
      var a := Adjacency(g, nodes, weight).value;
      StepMatrixRows(a, n);
      WalkedRows(StepMatrix(a, n).value, n, steps, normalize);
    }
  }

  /** Positive weights give a non-negative adjacency matrix. */
  lemma PositiveAdjacency(g: WGraph, weight: string)
    requires PositivelyWeighted(g, weight)
    ensures Adjacency(g, Pruned(g), weight).Success?
    ensures NonNegative(Adjacency(g, Pruned(g), weight).value)
  {
    var nodes := Pruned(g);
    var a := Adjacency(g, nodes, weight).value;
    forall i, j | 0 <= i < |nodes| && 0 <= j < |nodes|
      ensures a[i][j] >= 0.0
    {
      var e := {nodes[i], nodes[j]};
      if e in g.edges {
        assert a[i][j] == g.edges[e][weight];
      }
    }
  }

  /** With positive weights every kept node's row has a positive sum. */
  lemma PositiveRow(g: WGraph, weight: string, i: nat)
    requires GraphOk(g) && PositivelyWeighted(g, weight) && i < |Pruned(g)|
    ensures Adjacency(g, Pruned(g), weight).Success?
    ensures Sum(Adjacency(g, Pruned(g), weight).value[i]) > 0.0
  {
    var nodes := Pruned(g);
    PositiveAdjacency(g, weight);
    var a := Adjacency(g, nodes, weight).value;
    var j := PrunedRowHasEdge(g, i);
    assert a[i][j] == g.edges[{nodes[i], nodes[j]}][weight];
    SumPositive(a[i], j);
  }

  /** With positive weights no row sums to 0, so the step matrix exists. */
  lemma PositiveRows(g: WGraph, weight: string)
    requires GraphOk(g) && PositivelyWeighted(g, weight)
    ensures !HasZeroRow(g, weight)
  {
    forall i | 0 <= i < |Pruned(g)|
      ensures Sum(Adjacency(g, Pruned(g), weight).value[i]) > 0.0
    {
      PositiveRow(g, weight, i);
    }
  }

  /** With positive weights, at least one edge and at least one step, the
      computation succeeds with a non-negative matrix. */
  lemma PositiveWeightsSucceed(g: WGraph, steps: int, weight: string, normalize: bool)
    requires GraphOk(g) && PositivelyWeighted(g, weight)
    requires |Pruned(g)| > 0 && steps >= 1
    ensures TransitionMatrix(g, steps, weight, normalize).Success?
    ensures TransitionMatrix(g, steps, weight, normalize).value.walk.Walk?
    ensures NonNegative(TransitionMatrix(g, steps, weight, normalize).value.walk.m)
  {
    var n := |Pruned(g)|;
    PositiveRows(g, weight);
    PositiveAdjacency(g, weight);
    TransitionOutcome(g, steps, weight, normalize);
    TransitionStages(g, steps, weight, normalize);
    var a := Adjacency(g, Pruned(g), weight).value;
    StepMatrixNonNegative(a, n);
    WalkedNonNegative(StepMatrix(a, n).value, n, steps, normalize);
  }
}
