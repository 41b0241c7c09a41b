/** The default plugin: the CLICS form of a word, the colexifier that groups
    forms sharing a CLICS form, the ego-neighbourhood ("subgraph") clusterer
    and the weight normalisation applied before community detection. */
module Plugin {
  import opened Wrappers
  import opened Grouping
  import opened Sorting
  import Db
  import Models

  /* ---------------------------------------------------------- clics_form */

  /** `clics_form` of the plugin: like the database's, but an empty word has
      no CLICS form at all. */
  function ClicsForm(translit: string -> string, word: string): (r: Option<string>)
    ensures r.None? <==> word == ""
    ensures r.Some? ==> forall i :: 0 <= i < |r.value| ==> Db.IsClicsChar(r.value[i])
  {
    if word == "" then None else Some(Db.ClicsForm(translit, word))
  }

  /** The two `clics_form` functions agree on every non-empty word. */
  lemma ClicsFormAgrees(translit: string -> string, word: string)
    requires word != ""
    ensures ClicsForm(translit, word) == Some(Db.ClicsForm(translit, word))
  {
  }

  /* ------------------------------------------------- full_colexification */

  /** A form takes part only with a non-empty CLICS form and a Concepticon id. */
  predicate Colexifiable(f: Models.Form)
  {
    Truthy(f.clicsForm) && Truthy(f.concepticonId)
  }

  function FormKey(f: Models.Form): string
  {
    f.clicsForm.GetOr("")
  }

  /** The dict the colexifier builds: CLICS form to the forms sharing it. */
  function ColexificationGroups(forms: seq<Models.Form>): Groups<string, Models.Form>
  {
    GroupBy(Filter(forms, Colexifiable), FormKey)
  }

  /** `full_colexification`: the groups of that dict, in first-seen order. */
  function FullColexification(forms: seq<Models.Form>): (r: seq<seq<Models.Form>>)
    ensures |r| == |ColexificationGroups(forms).order|
  {
    Values(ColexificationGroups(forms))
  }

  /** Every colexifiable form lies in some group. */
  lemma FullColexificationCovers(forms: seq<Models.Form>)
    ensures forall f :: f in forms && Colexifiable(f) ==>
      exists i :: 0 <= i < |FullColexification(forms)| && f in FullColexification(forms)[i]
  {
    var kept := Filter(forms, Colexifiable);
    assert FullColexification(forms) == Values(GroupBy(kept, FormKey));
    GroupValuesCover(kept, FormKey);
    forall f | f in forms && Colexifiable(f)
      ensures exists i :: 0 <= i < |FullColexification(forms)| && f in FullColexification(forms)[i]
    {
      assert f in kept;
    }
  }

  /** A form in a group is a colexifiable form of the input carrying the
      group's CLICS form. */
  lemma FullColexificationMember(forms: seq<Models.Form>, i: nat, f: Models.Form)
    requires i < |FullColexification(forms)| && f in FullColexification(forms)[i]
    ensures f in forms && Colexifiable(f) && FormKey(f) == ColexificationGroups(forms).order[i]
  {
    GroupValueIn(Filter(forms, Colexifiable), FormKey, i, f);
  }

  /** Every group is non-empty, and no two groups share a CLICS form. */
  lemma FullColexificationGroups(forms: seq<Models.Form>)
    ensures forall i :: 0 <= i < |FullColexification(forms)| ==> |FullColexification(forms)[i]| > 0
    ensures forall i, j :: 0 <= i < j < |FullColexification(forms)| ==>
      ColexificationGroups(forms).order[i] != ColexificationGroups(forms).order[j]
  {
    GroupValuesNonEmpty(Filter(forms, Colexifiable), FormKey);
  }

  /** Within a group the forms keep their input order: a group is exactly
      the colexifiable forms with its CLICS form, in input order. */
  lemma FullColexificationOrder(forms: seq<Models.Form>)
    ensures forall i :: 0 <= i < |FullColexification(forms)| ==>
      FullColexification(forms)[i] ==
        Members(Filter(forms, Colexifiable), FormKey, ColexificationGroups(forms).order[i])
  {
    GroupByLists(Filter(forms, Colexifiable), FormKey);
  }

  /** Two forms with one CLICS form and Concepticon ids form a single group
      of two. */
  lemma TwoFormsColexify(a: Models.Form, b: Models.Form)
    requires Colexifiable(a) && Colexifiable(b) && a.clicsForm == b.clicsForm
    ensures FullColexification([a, b]) == [[a, b]]
  {
    FilterAll([a, b], Colexifiable);
    GroupPair(a, b, FormKey);
  }

  /* ------------------------------------------------------------ subgraph */

  /** An undirected graph: its nodes in graph order, each edge stored once,
      in either direction. The `subgraph` clusterer has integer node ids. */
  datatype Graph<N(==)> = Graph(nodes: seq<N>, edges: set<(N, N)>)

  predicate Adjacent<N(==,!new)>(g: Graph<N>, a: N, b: N)
  {
    (a, b) in g.edges || (b, a) in g.edges
  }

  function Endpoints<N(==,!new)>(g: Graph<N>): set<N>
  {
    (set e | e in g.edges :: e.0) + (set e | e in g.edges :: e.1)
  }

  /** `set.union(*[set(graph[n]) for n in gen])`: every neighbour of a node of `gen`. */
  function NextGen<N(==,!new)>(g: Graph<N>, gen: set<N>): (r: set<N>)
    ensures forall m :: m in r <==> exists n :: n in gen && Adjacent(g, n, m)
  {
    set m | m in Endpoints(g) && exists n :: n in gen && Adjacent(g, n, m)
  }

  function Union<N(==,!new)>(gens: seq<set<N>>): set<N>
  {
    if |gens| == 0 then {} else Union(gens[..|gens| - 1]) + gens[|gens| - 1]
  }

  /** Limits of the neighbourhood growth. */
  const MaxNodes: nat := 30
  const MaxGeneration: nat := 50
  const MaxGenerations: nat := 3

  /** The `while` loop that grows generations around a node: it goes on while
      the last generation is non-empty, fewer than 30 nodes are collected and
      fewer than 3 generations exist, and stops early if the next generation
      would exceed 50 nodes. */
  function Grow<N(==,!new)>(g: Graph<N>, gens: seq<set<N>>): (r: seq<set<N>>)
    requires 1 <= |gens| <= MaxGenerations
    ensures |gens| <= |r| <= MaxGenerations && r[..|gens|] == gens
    decreases MaxGenerations - |gens|
  {
    var last := gens[|gens| - 1];
    if last != {} && |Union(gens)| < MaxNodes && |gens| < MaxGenerations then
      var next := NextGen(g, last);
      if |next| > MaxGeneration then gens
      else
        var r := Grow(g, gens + [next]);
        assert r[..|gens|] == (gens + [next])[..|gens|];
        r
    else gens
  }

  /** Growth ends only for one of the loop's reasons: an empty last
      generation, at least 30 nodes collected, three generations, or a next
      generation of more than 50 nodes. */
  lemma {:induction false} GrowStops<N(!new)>(g: Graph<N>, gens: seq<set<N>>)
    requires 1 <= |gens| <= MaxGenerations
    ensures var r := Grow(g, gens);
      || r[|r| - 1] == {}
      || |Union(r)| >= MaxNodes
      || |r| == MaxGenerations
      || |NextGen(g, r[|r| - 1])| > MaxGeneration
    decreases MaxGenerations - |gens|
  {
    var last := gens[|gens| - 1];
    if last != {} && |Union(gens)| < MaxNodes && |gens| < MaxGenerations && |NextGen(g, last)| <= MaxGeneration {
      GrowStops(g, gens + [NextGen(g, last)]);
    }
  }

  /** The neighbourhood of one node: the union of its generations. */
  function Neighbourhood<N(==,!new)>(g: Graph<N>, n: N): set<N>
  {
    Union(Grow(g, [{n}]))
  }

  /** Within two hops of `n`. */
  ghost predicate WithinTwo<N(!new)>(g: Graph<N>, n: N, m: N)
  {
    m == n || Adjacent(g, n, m) || exists k :: Adjacent(g, n, k) && Adjacent(g, k, m)
  }

  /** The generations are the node, its neighbours, and theirs. */
  lemma GrowGenerations<N(!new)>(g: Graph<N>, n: N)
    ensures Grow(g, [{n}])[0] == {n}
    ensures |Grow(g, [{n}])| >= 2 ==> Grow(g, [{n}])[1] == NextGen(g, {n})
    ensures |Grow(g, [{n}])| == 3 ==> Grow(g, [{n}])[2] == NextGen(g, NextGen(g, {n}))
  {
    var r := Grow(g, [{n}]);
    assert Union([{n}]) == {n};
    assert [{n}] + [NextGen(g, {n})] == [{n}, NextGen(g, {n})];
    if |r| >= 2 {
      var r2 := Grow(g, [{n}, NextGen(g, {n})]);
      assert r == r2;
      assert r2[..2] == [{n}, NextGen(g, {n})];
      if |r| == 3 {
        var next := NextGen(g, NextGen(g, {n}));
        assert [{n}, NextGen(g, {n})] + [next] == [{n}, NextGen(g, {n}), next];
        assert r2 == Grow(g, [{n}, NextGen(g, {n}), next]);
        assert r2[..3] == [{n}, NextGen(g, {n}), next];
      }
    }
  }

  lemma UnionMembers<N(!new)>(gens: seq<set<N>>, m: N)
    requires m in Union(gens)
    ensures exists i :: 0 <= i < |gens| && m in gens[i]
    decreases |gens|
  {
    if m !in gens[|gens| - 1] {
      UnionMembers(gens[..|gens| - 1], m);
      var i :| 0 <= i < |gens| - 1 && m in gens[..|gens| - 1][i];
      assert m in gens[i];
    }
  }

  lemma UnionContains<N(!new)>(gens: seq<set<N>>, i: nat)
    requires i < |gens|
    ensures gens[i] <= Union(gens)
    decreases |gens|
  {
    if i < |gens| - 1 {
      UnionContains(gens[..|gens| - 1], i);
    }
  }

  /** A neighbourhood holds its own node, and only nodes at most two hops away. */
  lemma NeighbourhoodBounds<N(!new)>(g: Graph<N>, n: N)
    ensures n in Neighbourhood(g, n)
    ensures forall m :: m in Neighbourhood(g, n) ==> WithinTwo(g, n, m)
  {
    var gens := Grow(g, [{n}]);
    GrowGenerations(g, n);
    UnionContains(gens, 0);
    forall m | m in Union(gens) ensures WithinTwo(g, n, m) {
      UnionMembers(gens, m);
      var i :| 0 <= i < |gens| && m in gens[i];
      HopsWithin(g, n, m, gens[..], i);
    }
  }

  lemma HopsWithin<N(!new)>(g: Graph<N>, n: N, m: N, gens: seq<set<N>>, i: nat)
    requires i < |gens| <= MaxGenerations && m in gens[i]
    requires gens[0] == {n}
    requires |gens| >= 2 ==> gens[1] == NextGen(g, {n})
    requires |gens| == 3 ==> gens[2] == NextGen(g, NextGen(g, {n}))
    ensures WithinTwo(g, n, m)
  {
    if i == 2 {
      var k :| k in NextGen(g, {n}) && Adjacent(g, k, m);
      assert Adjacent(g, n, k);
    } else if i == 1 {
      assert Adjacent(g, n, m);
    }
  }

  /** When a node has at most 50 neighbours, all of them join its
      neighbourhood (the first generation always grows). */
  lemma NeighbourhoodHasNeighbours<N(!new)>(g: Graph<N>, n: N)
    requires |NextGen(g, {n})| <= MaxGeneration
    ensures NextGen(g, {n}) <= Neighbourhood(g, n)
  {
    var gens := Grow(g, [{n}]);
    assert Union([{n}]) == {n};
    GrowGenerations(g, n);
    UnionContains(gens, 1);
  }

  /** The ordered pairs `(a, b)`, `a < b`, of a node set: the
      `itertools.combinations` of its int-sorted nodes. */
  function Pairs(sg: set<nat>): set<(nat, nat)>
  {
    set a, b | a in sg && b in sg && a < b :: (a, b)
  }

  /** Each edge as an int-sorted pair. */
  function SortedEdges(g: Graph<nat>): set<(nat, nat)>
  {
    set e | e in g.edges :: if e.0 <= e.1 then e else (e.1, e.0)
  }

  /** The yielding loop: stop once both pools are empty, otherwise remove the
      subgraph's nodes and pairs from the pools and yield it. */
  function Cover(sgs: seq<set<nat>>, nodes: set<nat>, edges: set<(nat, nat)>): (r: seq<set<nat>>)
    ensures |r| <= |sgs| && r == sgs[..|r|]
  {
    if |sgs| == 0 || (nodes == {} && edges == {}) then []
    else [sgs[0]] + Cover(sgs[1..], nodes - sgs[0], edges - Pairs(sgs[0]))
  }

  /** Larger neighbourhoods first (`sorted(..., key=len, reverse=True)`,
      which keeps equal sizes in input order). */
  function BySizeDesc(a: set<nat>, b: set<nat>): bool
  {
    |a| >= |b|
  }

  function Neighbourhoods(g: Graph<nat>): (r: seq<set<nat>>)
    ensures |r| == |g.nodes|
    ensures forall i :: 0 <= i < |r| ==> r[i] == Neighbourhood(g, g.nodes[i])
  {
    seq(|g.nodes|, i requires 0 <= i < |g.nodes| => Neighbourhood(g, g.nodes[i]))
  }

  /** `subgraph`: the node neighbourhoods, largest first, until every node
      and every edge is covered. */
  function Subgraph(g: Graph<nat>): (r: seq<set<nat>>)
  {
    Cover(Sort(Neighbourhoods(g), BySizeDesc), (set n | n in g.nodes), SortedEdges(g))
  }

  /** Every pair of every subgraph in `gens`. */
  function AllPairs(gens: seq<set<nat>>): set<(nat, nat)>
  {
    if |gens| == 0 then {} else Pairs(gens[0]) + AllPairs(gens[1..])
  }

  lemma {:induction false} UnionPrepend(s: set<nat>, gens: seq<set<nat>>)
    ensures Union([s] + gens) == s + Union(gens)
    decreases |gens|
  {
    if |gens| > 0 {
      UnionPrepend(s, gens[..|gens| - 1]);
      assert ([s] + gens)[..|gens|] == [s] + gens[..|gens| - 1];
    } else {
      assert [s] + gens == [s];
    }
  }

  /** The node pool is covered by what is yielded, provided the candidates
      cover it. */
  lemma {:induction false} CoverCovers(sgs: seq<set<nat>>, nodes: set<nat>, edges: set<(nat, nat)>)
    requires nodes <= Union(sgs)
    ensures nodes <= Union(Cover(sgs, nodes, edges))
  {
    if |sgs| > 0 && !(nodes == {} && edges == {}) {
      assert sgs == [sgs[0]] + sgs[1..];
      UnionPrepend(sgs[0], sgs[1..]);
      CoverCovers(sgs[1..], nodes - sgs[0], edges - Pairs(sgs[0]));
      UnionPrepend(sgs[0], Cover(sgs[1..], nodes - sgs[0], edges - Pairs(sgs[0])));
    }
  }

  /** The yielding stops before the candidates run out only once both pools
      are exhausted: every node and every edge of the pools is covered. */
  lemma {:induction false} CoverStops(sgs: seq<set<nat>>, nodes: set<nat>, edges: set<(nat, nat)>)
    requires |Cover(sgs, nodes, edges)| < |sgs|
    ensures nodes <= Union(Cover(sgs, nodes, edges))
    ensures edges <= AllPairs(Cover(sgs, nodes, edges))
  {
    if !(nodes == {} && edges == {}) {
      CoverStops(sgs[1..], nodes - sgs[0], edges - Pairs(sgs[0]));
      var tail := Cover(sgs[1..], nodes - sgs[0], edges - Pairs(sgs[0]));
      assert Cover(sgs, nodes, edges) == [sgs[0]] + tail;
      assert ([sgs[0]] + tail)[1..] == tail;
      UnionPrepend(sgs[0], tail);
    }
  }

  /** Every node's neighbourhood is among the sorted candidates, so together
      they hold every node. */
  lemma CandidatesCover(g: Graph<nat>)
    ensures (set n | n in g.nodes) <= Union(Sort(Neighbourhoods(g), BySizeDesc))
  {
    var hoods := Neighbourhoods(g);
    var sorted := Sort(hoods, BySizeDesc);
    SortSorted(hoods, BySizeDesc);
    forall n | n in g.nodes ensures n in Union(sorted) {
      var k :| 0 <= k < |g.nodes| && g.nodes[k] == n;
      NeighbourhoodBounds(g, n);
      assert hoods[k] in multiset(sorted);
      var i :| 0 <= i < |sorted| && sorted[i] == hoods[k];
      UnionContains(sorted, i);
    }
  }

  /** Every node of the graph lies in some yielded subgraph, and the yielded
      subgraphs come in non-increasing size. */
  lemma SubgraphCovers(g: Graph<nat>)
    ensures (set n | n in g.nodes) <= Union(Subgraph(g))
    ensures forall i, j :: 0 <= i < j < |Subgraph(g)| ==> |Subgraph(g)[i]| >= |Subgraph(g)[j]|
  {
    var sorted := Sort(Neighbourhoods(g), BySizeDesc);
    SortSorted(Neighbourhoods(g), BySizeDesc);
    CandidatesCover(g);
    CoverCovers(sorted, (set n | n in g.nodes), SortedEdges(g));
  }

  /* ------------------------------------------------- infomap normalising */

  /** The normalised weight `w² / (fA + fB - w)` of an edge of weight `w`
      between nodes of family frequencies `fA` and `fB`. */
  function NormalizedWeight(w: int, fa: int, fb: int): (r: Result<real>)
    ensures r.Failure? <==> fa + fb - w == 0
    ensures r.Failure? ==> r.error == ZeroDivision
    ensures r.Success? ==> r.value * (fa + fb - w) as real == (w * w) as real
  {
    if fa + fb - w == 0 then Failure(ZeroDivision)
    else Success((w * w) as real / (fa + fb - w) as real)
  }

  /** The formula is symmetric in the endpoints and, for a weight no larger
      than either frequency, lies in `(0, w]`, reaching `w` exactly when both
      frequencies equal the weight. */
  lemma NormalizedWeightBounds(w: int, fa: int, fb: int)
    requires 0 < w <= fa && w <= fb
    ensures NormalizedWeight(w, fa, fb) == NormalizedWeight(w, fb, fa)
    ensures NormalizedWeight(w, fa, fb).Success?
    ensures 0.0 < NormalizedWeight(w, fa, fb).value <= w as real
    ensures NormalizedWeight(w, fa, fb).value == w as real <==> fa == w && fb == w
  {
    assert (w * w) as real == w as real * w as real;
    assert (fa + fb - w) as real == fa as real + fb as real - w as real;
    SquareRatio(w as real, (fa + fb - w) as real);
  }

  /** For `0 < W <= D`: `0 < W·W/D <= W`, with equality exactly when `W = D`. */
  lemma SquareRatio(x: real, d: real)
    requires 0.0 < x <= d
    ensures 0.0 < x * x / d <= x
    ensures x * x / d == x <==> x == d
  {
    SquareRatioCore(x, x, d, x * x / d);
  }

  /** The argument of `SquareRatio` with the two factors of the square named
      apart, which keeps the solver's arithmetic linear in the products. */
  lemma SquareRatioCore(x: real, y: real, d: real, q: real)
    requires 0.0 < x <= d && y == x
    requires q * d == x * y
    ensures 0.0 < q <= x
    ensures q == x <==> x == d
  {
    MulPositive(x, y);
    if q <= 0.0 {
      MulNonPositive(q, d);
      assert false;
    }
    MulMonotone(y, d, x);
    assert y * x == x * y;
    if q > x {
      MulMonotone(x, q, d);
      assert false;
    }
    if q == x && x < d {
      assert false;
    }
    if x == d && q != x {
      if q < x {
        MulMonotone(q, x, x);
      } else {
        MulMonotone(x, q, x);
      }
      assert false;
    }
  }

  lemma MulPositive(a: real, b: real)
    requires a > 0.0 && b > 0.0
    ensures a * b > 0.0
  {
  }

  lemma MulNonPositive(a: real, c: real)
    requires a <= 0.0 && c > 0.0
    ensures a * c <= 0.0
  {
  }

  lemma MulMonotone(a: real, b: real, c: real)
    requires a <= b && c > 0.0
    ensures a * c <= b * c
    ensures a < b ==> a * c < b * c
  {
  }
}
