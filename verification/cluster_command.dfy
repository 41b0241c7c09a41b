/** The `cluster` command: it checks the algorithm name, orders the
    clusters an algorithm returns, labels every node with its cluster,
    names the clusters after their best-connected concept, collects each
    clustered node's strong links leaving its cluster, removes the nodes
    of singleton clusters and drops weak edges between clusters.

    The clustering algorithm itself is a parameter: only the list of
    clusters it returns enters the model. */
module ClusterCommand {
  import opened Wrappers
  import opened Strings
  import Grouping
  import Sorting

  /* ---------------------------------------------------------------- data */

  datatype EdgeAttrs = EdgeAttrs(familyWeight: int, wordWeight: int)

  /** The loaded colexification graph: its nodes in graph order, the
      `Gloss` attribute of each, and its undirected edges. */
  datatype Graph = Graph(nodes: seq<string>, gloss: map<string, string>, edges: map<set<string>, EdgeAttrs>)

  /** Nodes are distinct and every node has a gloss. */
  predicate GraphOk(g: Graph)
  {
    Grouping.Distinct(g.nodes) && forall i :: 0 <= i < |g.nodes| ==> g.nodes[i] in g.gloss
  }

  /** What a clustering algorithm promises: clusters of graph nodes. */
  predicate InGraph(g: Graph, cs: seq<seq<string>>)
  {
    forall i, j :: 0 <= i < |cs| && 0 <= j < |cs[i]| ==> cs[i][j] in g.nodes
  }

  /* ------------------------------------------------------------ dispatch */

  /** An algorithm name either lists the algorithms (`_` or an unknown
      name) or proceeds to clustering. */
  datatype Dispatch = Listing(rows: seq<(string, string)>) | Proceed

  predicate Registered(registry: seq<(string, string)>, algo: string)
  {
    exists i :: 0 <= i < |registry| && registry[i].0 == algo
  }

  /** An unknown name prints the algorithm table and then fails unless it
      is `_`; a known one needs the app scaffolding to exist. */
  function Select(algo: string, registry: seq<(string, string)>, appReady: bool): (r: Result<Dispatch>)
    ensures r.Failure? <==> (!Registered(registry, algo) && algo != "_") || (Registered(registry, algo) && !appReady)
    ensures r.Success? && r.value.Listing? <==> !Registered(registry, algo) && algo == "_"
  {
    if !Registered(registry, algo) then
      if algo != "_" then Failure(ArgumentError("Unknown cluster algorithm: " + algo))
      else Success(Listing(registry))
    else if !appReady then Failure(ArgumentError("\"clics makeapp\" must be run first"))
    else Success(Proceed)
  }

  /** Python `int(text)` on a `str`: whitespace around an optional sign and
      a non-empty run of decimal digits; any other text is a ValueError. */
  function IntOf(text: string): (r: Result<int>)
    ensures r.Failure? ==> r.error == ValueError("invalid literal for int() with base 10")
  {
    IntOfStripped(Strip(text))
  }

  /** `int` on text already stripped of surrounding whitespace. */
  function IntOfStripped(t: string): (r: Result<int>)
    ensures r.Failure? ==> r.error == ValueError("invalid literal for int() with base 10")
  {
    var d := Unsigned(t);
    if |d| == 0 || !AllDigits(d) then Failure(ValueError("invalid literal for int() with base 10"))
    else if t[0] == '-' then Success(0 - DigitsValue(d))
    else Success(DigitsValue(d))
  }

  /** The text after a leading sign, if there is one. */
  function Unsigned(t: string): (d: string)
    ensures |d| <= |t| && d == t[|t| - |d|..]
  {
    if |t| > 0 && (t[0] == '-' || t[0] == '+') then t[1..] else t
  }

  predicate AllDigits(s: string)
  {
    forall i :: 0 <= i < |s| ==> IsDigit(s[i])
  }

  /** Python `str(i)` for any integer. */
  function IntText(i: int): string
  {
    if i < 0 then "-" + Decimal(-i) else Decimal(i)
  }

  /** `int(str(i)) == i`: every integer's rendering reads back as itself. */
  lemma IntOfText(i: int)
    ensures IntOf(IntText(i)) == Success(i)
  {
    var s := IntText(i);
    IntTextTrimmed(i);
    StripTrimmed(s);
    IntOfStrippedText(i);
  }

  lemma IntTextTrimmed(i: int)
    ensures Trimmed(IntText(i))
  {
    var d := Decimal(if i < 0 then -i else i);
    assert IsDigit(d[0]) && IsDigit(d[|d| - 1]);
  }

  lemma IntOfStrippedText(i: int)
    ensures IntOfStripped(IntText(i)) == Success(i)
  {
    var n: nat := if i < 0 then -i else i;
    var s := IntText(i);
    assert Unsigned(s) == Decimal(n);
    DecimalRoundTrip(n);
  }

  /** Text without a single decimal digit is never a number. */
  lemma IntOfNeedsDigit(text: string)
    requires forall i :: 0 <= i < |text| ==> !IsDigit(text[i])
    ensures IntOf(text).Failure?
  {
    var t := Strip(text);
    var d := Unsigned(t);
    if |d| > 0 {
      StripWithin(text, |t| - |d|);
      assert d[0] == t[|t| - |d|];
    }
  }

  /** The `neighbor_weight` option: 5 when absent, otherwise its text read
      as an integer, which fails with a ValueError when it is not one. */
  function NeighbourWeight(option: Option<string>): (r: Result<int>)
    ensures option.None? ==> r == Success(5)
    ensures r.Failure? ==> option.Some? && r.error.ValueError?
  {
    if option.None? then Success(5) else IntOf(option.value)
  }

  /** A rendered integer is taken as that weight; text without a digit is
      rejected. */
  lemma NeighbourWeightMeans(option: Option<string>, w: int)
    ensures option == Some(IntText(w)) ==> NeighbourWeight(option) == Success(w)
    ensures option.Some? && (forall i :: 0 <= i < |option.value| ==> !IsDigit(option.value[i])) ==>
      NeighbourWeight(option).Failure?
  {
    if option == Some(IntText(w)) {
      IntOfText(w);
    }
    if option.Some? && (forall i :: 0 <= i < |option.value| ==> !IsDigit(option.value[i])) {
      IntOfNeedsDigit(option.value);
    }
  }

  /* ------------------------------------------------------------ ordering */

  /** The sort key `(-len(c), c)`: larger clusters first, equal sizes in
      list order of their contents. */
  predicate ClusterLe(x: seq<string>, y: seq<string>)
  {
    |x| > |y| || (|x| == |y| && SeqLe(x, y))
  }

  lemma ClusterLePreorder()
    ensures Sorting.TotalPreorder(ClusterLe)
  {
    forall x, y
      ensures ClusterLe(x, y) || ClusterLe(y, x)
    {
      SeqLeTotal(x, y);
    }
    forall x, y, z | ClusterLe(x, y) && ClusterLe(y, z)
      ensures ClusterLe(x, z)
    {
      if |x| == |y| == |z| {
        SeqLeTransitive(x, y, z);
      }
    }
  }

  function SortClusters(cs: seq<seq<string>>): seq<seq<string>>
  {
    Sorting.Sort(cs, ClusterLe)
  }

  /** The clusters are ordered by non-increasing size, equal sizes by
      contents, and none is lost or added. */
  lemma SortClustersOrder(cs: seq<seq<string>>)
    ensures var r := SortClusters(cs);
      && multiset(r) == multiset(cs)
      && (forall i, j :: 0 <= i < j < |r| ==> |r[i]| >= |r[j]|)
      && (forall i, j :: 0 <= i < j < |r| && |r[i]| == |r[j]| ==> SeqLe(r[i], r[j]))
  {
    ClusterLePreorder();
    Sorting.SortSorted(cs, ClusterLe);
  }

  /* -------------------------------------------------------------- labels */

  /** `D`: each vertex mapped to the 1-based index of the last cluster
      containing it, since later clusters overwrite earlier entries. */
  function Assign(cs: seq<seq<string>>): map<string, nat>
  {
    if |cs| == 0 then map[]
    else Assign(cs[..|cs| - 1]) + Fill(cs[|cs| - 1], |cs|)
  }

  /** Every element of `keys` mapped to `x`. */
  function Fill<V>(keys: seq<string>, x: V): map<string, V>
  {
    map v | v in keys :: x
  }

  function LabelIndex(cs: seq<seq<string>>, v: string): nat
  {
    if v in Assign(cs) then Assign(cs)[v] else 0
  }

  /** `D.get(node, '0')`. */
  function Label(cs: seq<seq<string>>, v: string): string
  {
    Decimal(LabelIndex(cs, v))
  }

  /** The label is 0 for a node in no cluster, and otherwise the number of
      the last cluster containing it. */
  lemma {:induction false} LabelIndexMeans(cs: seq<seq<string>>, v: string)
    ensures LabelIndex(cs, v) == 0 <==> forall i :: 0 <= i < |cs| ==> v !in cs[i]
    ensures LabelIndex(cs, v) <= |cs|
    ensures LabelIndex(cs, v) > 0 ==>
      v in cs[LabelIndex(cs, v) - 1] && forall j :: LabelIndex(cs, v) <= j < |cs| ==> v !in cs[j]
  {
    if |cs| > 0 {
      var n := |cs| - 1;
      LabelIndexMeans(cs[..n], v);
      if v !in cs[n] {
        assert LabelIndex(cs, v) == LabelIndex(cs[..n], v);
        assert forall i :: 0 <= i < n ==> cs[..n][i] == cs[i];
      }
    }
  }

  /** Two labels differ exactly when the cluster numbers differ. */
  lemma LabelsDiffer(cs: seq<seq<string>>, a: string, b: string)
    ensures Label(cs, a) != Label(cs, b) <==> LabelIndex(cs, a) != LabelIndex(cs, b)
  {
    if Label(cs, a) == Label(cs, b) {
      DecimalInjective(LabelIndex(cs, a), LabelIndex(cs, b));
    }
  }

  /* ------------------------------------------------------------- central */

  /** The elements of `xs` lying in `keep`, in the order of `xs`. */
  function Restrict(xs: seq<string>, keep: set<string>): (r: seq<string>)
    ensures |r| <= |xs|
    ensures forall x :: x in r <==> x in xs && x in keep
  {
    Grouping.Filter(xs, x => x in keep)
  }

  /** `graph.subgraph(nodes)` in graph order. */
  function SubgraphNodes(g: Graph, nodes: seq<string>): seq<string>
  {
    Restrict(g.nodes, set x | x in nodes)
  }

  /** The degree of `n` in the subgraph on `sg`; a loop counts twice. */
  function Degree(g: Graph, sg: seq<string>, n: string): nat
  {
    |set m | m in sg && m != n && {n, m} in g.edges| + (if {n} in g.edges then 2 else 0)
  }

  function Degrees(g: Graph, sg: seq<string>): (r: seq<(string, nat)>)
    ensures |r| == |sg| && forall i :: 0 <= i < |sg| ==> r[i] == (sg[i], Degree(g, sg, sg[i]))
  {
    seq(|sg|, (i: int) requires 0 <= i < |sg| => (sg[i], Degree(g, sg, sg[i])))
  }

  /** `sorted(sg.degree(), key=degree, reverse=True)`. */
  predicate DegreeDesc(p: (string, nat), q: (string, nat))
  {
    p.1 >= q.1
  }

  /** The subgraph's nodes with their degrees, highest degree first. */
  function ByDegree(g: Graph, sg: seq<string>): (r: seq<(string, nat)>)
    ensures |r| == |sg|
  {
    Sorting.Sort(Degrees(g, sg), DegreeDesc)
  }

  /** The head of the degree-sorted subgraph is a node of the cluster. */
  lemma ByDegreeHead(g: Graph, nodes: seq<string>)
    requires |SubgraphNodes(g, nodes)| > 1
    ensures ByDegree(g, SubgraphNodes(g, nodes))[0].0 in nodes
  {
    var sg := SubgraphNodes(g, nodes);
    var s := Degrees(g, sg);
    assert ByDegree(g, sg)[0] in multiset(s) by {
      Sorting.SortSorted(s, DegreeDesc);
    }
    var k :| 0 <= k < |s| && s[k] == ByDegree(g, sg)[0];
    assert sg[k] in sg;
  }

  /** The concept a cluster is named after: the first node of highest
      degree in a subgraph of several nodes, else the cluster's first node. */
  function CentralNode(g: Graph, nodes: seq<string>): (r: string)
    requires |nodes| > 0
    ensures r in nodes
  {
    var sg := SubgraphNodes(g, nodes);
    if |sg| > 1 then ByDegreeHead(g, nodes); ByDegree(g, sg)[0].0 else nodes[0]
  }

  /** The first of several equivalent elements keeps its place. */
  lemma {:induction false} FirstEquivalent(s: seq<(string, nat)>, z: (string, nat))
    requires |Sorting.Equivalents(s, z, DegreeDesc)| > 0
    ensures exists i :: (0 <= i < |s| && s[i] == Sorting.Equivalents(s, z, DegreeDesc)[0]
      && s[i].1 == z.1 && forall j :: 0 <= j < i ==> s[j].1 != z.1)
  {
    if s[0].1 != z.1 {
      FirstEquivalent(s[1..], z);
      var i :| 0 <= i < |s[1..]| && s[1..][i] == Sorting.Equivalents(s[1..], z, DegreeDesc)[0]
        && s[1..][i].1 == z.1 && forall j :: 0 <= j < i ==> s[1..][j].1 != z.1;
      assert s[i + 1] == Sorting.Equivalents(s, z, DegreeDesc)[0];
      forall j | 0 <= j < i + 1
        ensures s[j].1 != z.1
      {
        if j > 0 {
          assert s[j] == s[1..][j - 1];
        }
      }
    }
  }

  /** The head of the degree-sorted list has the highest degree. */
  lemma SortedHeadMax(s: seq<(string, nat)>)
    requires |s| > 0
    ensures forall j :: 0 <= j < |s| ==> s[j].1 <= Sorting.Sort(s, DegreeDesc)[0].1
  {
    var d := Sorting.Sort(s, DegreeDesc);
    Sorting.SortSorted(s, DegreeDesc);
    forall j | 0 <= j < |s|
      ensures s[j].1 <= d[0].1
    {
      assert s[j] in multiset(d);
    }
  }

  /** The head of the degree-sorted list is the first element of the
      unsorted list with its degree, since the sort is stable. */
  lemma SortedHeadFirst(s: seq<(string, nat)>)
    requires |s| > 0
    ensures var z := Sorting.Sort(s, DegreeDesc)[0];
      exists i :: (0 <= i < |s| && s[i] == z && forall j :: 0 <= j < i ==> s[j].1 != z.1)
  {
    var d := Sorting.Sort(s, DegreeDesc);
    var z := d[0];
    assert Sorting.TotalPreorder(DegreeDesc);
    assert Sorting.Equivalents(d, z, DegreeDesc)[0] == z;
    Sorting.SortStable(s, z, DegreeDesc);
    FirstEquivalent(s, z);
  }

  /** The head of the degree-sorted list has the highest degree, and it
      is the first element of the unsorted list that has it. */
  lemma SortedHeadFirstMax(s: seq<(string, nat)>)
    requires |s| > 0
    ensures var z := Sorting.Sort(s, DegreeDesc)[0];
      exists i :: (0 <= i < |s| && s[i] == z
        && (forall j :: 0 <= j < |s| ==> s[j].1 <= z.1)
        && (forall j :: 0 <= j < i ==> s[j].1 < z.1))
  {
    SortedHeadMax(s);
    SortedHeadFirst(s);
  }

  /** In a subgraph of several nodes the central concept has the highest
      degree, and it is the first node in graph order that has it. */
  lemma CentralIsFirstMax(g: Graph, nodes: seq<string>)
    requires |nodes| > 0
    requires |SubgraphNodes(g, nodes)| > 1
    ensures var sg, c := SubgraphNodes(g, nodes), CentralNode(g, nodes);
      exists i :: (0 <= i < |sg| && sg[i] == c
        && (forall j :: 0 <= j < |sg| ==> Degree(g, sg, sg[j]) <= Degree(g, sg, c))
        && (forall j :: 0 <= j < i ==> Degree(g, sg, sg[j]) < Degree(g, sg, c)))
  {
    var sg := SubgraphNodes(g, nodes);
    SortedHeadFirstMax(Degrees(g, sg));
  }

  /* -------------------------------------------------------------- naming */

  /** `'{algo}_{idx}_{gloss}'`. */
  function Name(algo: string, idx: nat, gloss: string): string
  {
    algo + "_" + Decimal(idx) + "_" + gloss
  }

  /** One entry of `sorted(Com.items())` with the name the naming loop gives it. */
  datatype Info = Info(idx: nat, nodes: seq<string>, name: string, central: string)

  function InfoOf(g: Graph, algo: string, idx: nat, nodes: seq<string>): (r: Info)
    requires GraphOk(g) && |nodes| > 0
    requires forall j :: 0 <= j < |nodes| ==> nodes[j] in g.nodes
    ensures r.idx == idx && r.nodes == nodes
  {
    var c := CentralNode(g, nodes);
    Info(idx, nodes, Name(algo, idx, g.gloss[c]), g.gloss[c])
  }

  /** `info` stands for cluster number `info.idx`, which is not empty. */
  predicate Describes(cs: seq<seq<string>>, info: Info)
  {
    1 <= info.idx <= |cs| && info.nodes == cs[info.idx - 1] && |info.nodes| > 0
  }

  lemma DescribesPrefix(cs: seq<seq<string>>, n: nat, info: Info)
    requires n <= |cs| && Describes(cs[..n], info)
    ensures Describes(cs, info)
  {
  }

  /** `Com` in index order: the non-empty clusters, numbered from 1. */
  function Infos(g: Graph, algo: string, cs: seq<seq<string>>): (r: seq<Info>)
    requires GraphOk(g) && InGraph(g, cs)
    ensures forall k :: 0 <= k < |r| ==> Describes(cs, r[k])
  {
    if |cs| == 0 then []
    else
      var n := |cs| - 1;
      InGraphPrefix(g, cs, n);
      var before := Infos(g, algo, cs[..n]);
      assert forall k :: 0 <= k < |before| ==> Describes(cs, before[k]) by {
        forall k | 0 <= k < |before| {
          DescribesPrefix(cs, n, before[k]);
        }
      }
      before + (if |cs[n]| > 0 then [InfoOf(g, algo, n + 1, cs[n])] else [])
  }

  /** One more cluster adds at most its own entry. */
  lemma InfosSnoc(g: Graph, algo: string, cs: seq<seq<string>>)
    requires GraphOk(g) && InGraph(g, cs) && |cs| > 0
    ensures InGraph(g, cs[..|cs| - 1])
    ensures var n := |cs| - 1; var before := Infos(g, algo, cs[..n]);
      && Infos(g, algo, cs)[..|before|] == before
      && (|cs[n]| == 0 ==> |Infos(g, algo, cs)| == |before|)
      && (|cs[n]| > 0 ==> |Infos(g, algo, cs)| == |before| + 1 && Infos(g, algo, cs)[|before|].idx == n + 1)
      && (forall k :: 0 <= k < |before| ==> before[k].idx <= n)
  {
    InGraphPrefix(g, cs, |cs| - 1);
  }

  /** Each entry carries the name the naming loop gives its cluster: the
      gloss of the cluster's central concept, after the algorithm name and
      the cluster number. */
  lemma {:induction false} InfosNamed(g: Graph, algo: string, cs: seq<seq<string>>, k: nat)
    requires GraphOk(g) && InGraph(g, cs) && k < |Infos(g, algo, cs)|
    ensures var info := Infos(g, algo, cs)[k];
      && CentralNode(g, info.nodes) in g.gloss
      && info.central == g.gloss[CentralNode(g, info.nodes)]
      && info.name == Name(algo, info.idx, info.central)
  {
    var n := |cs| - 1;
    InfosSnoc(g, algo, cs);
    var before := Infos(g, algo, cs[..n]);
    var r := Infos(g, algo, cs);
    if k < |before| {
      InfosNamed(g, algo, cs[..n], k);
      assert r[k] == r[..|before|][k];
    } else {
      assert r[k] == InfoOf(g, algo, n + 1, cs[n]);
    }
  }

  /** Every non-empty cluster gets an entry. */
  lemma {:induction false} InfosCover(g: Graph, algo: string, cs: seq<seq<string>>, i: nat)
    requires GraphOk(g) && InGraph(g, cs)
    requires i < |cs| && |cs[i]| > 0
    ensures exists k :: 0 <= k < |Infos(g, algo, cs)| && Infos(g, algo, cs)[k].idx == i + 1
  {
    var n := |cs| - 1;
    InfosSnoc(g, algo, cs);
    var before := Infos(g, algo, cs[..n]);
    var r := Infos(g, algo, cs);
    if i < n {
      assert cs[..n][i] == cs[i];
      InfosCover(g, algo, cs[..n], i);
      var k :| 0 <= k < |before| && before[k].idx == i + 1;
      assert r[k] == r[..|before|][k];
      assert 0 <= k < |r| && r[k].idx == i + 1;
    } else {
      assert |before| < |r| && r[|before|].idx == i + 1;
    }
  }

  /** The entry of a non-empty cluster. */
  lemma EntryFor(g: Graph, algo: string, cs: seq<seq<string>>, i: nat) returns (k: nat)
    requires GraphOk(g) && InGraph(g, cs)
    requires i < |cs| && |cs[i]| > 0
    ensures k < |Infos(g, algo, cs)| && Infos(g, algo, cs)[k].idx == i + 1
    ensures Infos(g, algo, cs)[k].nodes == cs[i]
  {
    InfosCover(g, algo, cs, i);
    k :| 0 <= k < |Infos(g, algo, cs)| && Infos(g, algo, cs)[k].idx == i + 1;
    assert Describes(cs, Infos(g, algo, cs)[k]);
  }

  /** The entries are in increasing cluster order, so no cluster number
      appears twice. */
  lemma {:induction false} InfosOrdered(g: Graph, algo: string, cs: seq<seq<string>>)
    requires GraphOk(g) && InGraph(g, cs)
    ensures forall k, l :: 0 <= k < l < |Infos(g, algo, cs)| ==> Infos(g, algo, cs)[k].idx < Infos(g, algo, cs)[l].idx
  {
    if |cs| > 0 {
      var n := |cs| - 1;
      InfosSnoc(g, algo, cs);
      InfosOrdered(g, algo, cs[..n]);
      var r := Infos(g, algo, cs);
      var before := Infos(g, algo, cs[..n]);
      forall k, l | 0 <= k < l < |r|
        ensures r[k].idx < r[l].idx
      {
        assert r[k] == r[..|before|][k];
        if l < |before| {
          assert r[l] == r[..|before|][l];
        }
      }
    }
  }

  /** The naming and OutEdge loops write to every node of each cluster in
      turn, so a node ends up with what its last cluster wrote. */
  function Stamp(infos: seq<Info>): map<string, Info>
  {
    if |infos| == 0 then map[]
    else Stamp(infos[..|infos| - 1]) + Fill(infos[|infos| - 1].nodes, infos[|infos| - 1])
  }

  lemma InGraphPrefix(g: Graph, cs: seq<seq<string>>, n: nat)
    requires InGraph(g, cs) && n <= |cs|
    ensures InGraph(g, cs[..n])
  {
    assert forall i :: 0 <= i < n ==> cs[..n][i] == cs[i];
  }

  lemma StampSnoc(infos: seq<Info>, last: Info, v: string)
    ensures var m := Stamp(infos + [last]);
      && (v in last.nodes ==> v in m && m[v] == last)
      && (v !in last.nodes ==> (v in m <==> v in Stamp(infos)) && (v in m ==> m[v] == Stamp(infos)[v]))
  {
    assert (infos + [last])[..|infos|] == infos;
  }

  /** What a node carries was written by one of the clusters containing it. */
  lemma {:induction false} StampMember(infos: seq<Info>, v: string)
    requires v in Stamp(infos)
    ensures Stamp(infos)[v] in infos && v in Stamp(infos)[v].nodes
  {
    var n := |infos| - 1;
    StampSnoc(infos[..n], infos[n], v);
    assert infos == infos[..n] + [infos[n]];
    if v !in infos[n].nodes {
      StampMember(infos[..n], v);
    }
  }

  lemma LabelIndexSnoc(cs: seq<seq<string>>, v: string)
    requires |cs| > 0
    ensures LabelIndex(cs, v) == if v in cs[|cs| - 1] then |cs| else LabelIndex(cs[..|cs| - 1], v)
  {
  }

  /** A node carries the name of the cluster its label points to, and a
      node without a cluster carries none. */
  lemma {:induction false} StampFollowsLabel(g: Graph, algo: string, cs: seq<seq<string>>, v: string)
    requires GraphOk(g) && InGraph(g, cs)
    ensures var m := Stamp(Infos(g, algo, cs));
      && (v in m <==> LabelIndex(cs, v) > 0)
      && (v in m ==> m[v].idx == LabelIndex(cs, v))
  {
    if |cs| > 0 {
      var n := |cs| - 1;
      InfosSnoc(g, algo, cs);
      StampFollowsLabel(g, algo, cs[..n], v);
      LabelIndexSnoc(cs, v);
      var before := Infos(g, algo, cs[..n]);
      var r := Infos(g, algo, cs);
      if |cs[n]| > 0 {
        assert r == before + [r[|before|]];
        assert r[|before|].nodes == cs[n];
        StampSnoc(before, r[|before|], v);
      } else {
        assert r == before;
      }
    }
  }

  /** What the naming loop leaves on a clustered node: the name and
      central concept of the last cluster containing it. */
  lemma StampNames(g: Graph, algo: string, cs: seq<seq<string>>, v: string)
    requires GraphOk(g) && InGraph(g, cs)
    ensures var m := Stamp(Infos(g, algo, cs)); var i := LabelIndex(cs, v);
      v in m ==>
        && 1 <= i <= |cs| && v in cs[i - 1]
        && m[v].nodes == cs[i - 1]
        && m[v].name == Name(algo, i, m[v].central)
        && CentralNode(g, cs[i - 1]) in g.gloss
        && m[v].central == g.gloss[CentralNode(g, cs[i - 1])]
  {
    var infos := Infos(g, algo, cs);
    var m := Stamp(infos);
    StampFollowsLabel(g, algo, cs, v);
    LabelIndexMeans(cs, v);
    if v in m {
      StampMember(infos, v);
      var k :| 0 <= k < |infos| && infos[k] == m[v];
      InfosNamed(g, algo, cs, k);
    }
  }

  /** `ClusterName` and `CentralConcept` start empty and are overwritten by
      every cluster containing the node. */
  function ClusterName(names: map<string, Info>, v: string): string
  {
    if v in names then names[v].name else ""
  }

  function CentralConcept(names: map<string, Info>, v: string): string
  {
    if v in names then names[v].central else ""
  }

  /** Cluster names identify clusters: the number between the first two
      underscores after the algorithm name is a run of digits. */
  lemma {:induction false} NamesDistinct(algo: string, i: nat, a: string, j: nat, b: string)
    requires Name(algo, i, a) == Name(algo, j, b)
    ensures i == j && a == b
  {
    var p := algo + "_";
    var u, w := Decimal(i) + "_" + a, Decimal(j) + "_" + b;
    assert Name(algo, i, a) == p + u && Name(algo, j, b) == p + w;
    assert u == (p + u)[|p|..] && w == (p + w)[|p|..];
    var di, dj := Decimal(i), Decimal(j);
    assert u[|di|] == '_' && w[|dj|] == '_';
    assert di == u[..|di|] && dj == w[..|dj|];
    DecimalInjective(i, j);
    assert a == u[|di| + 1..] && b == w[|dj| + 1..];
  }

  /* ------------------------------------------------------------- OutEdge */

  datatype OutEntry = OutEntry(clusterName: string, central: string, gloss: string, wordWeight: int, node: string)

  /** The strong links leaving a cluster from `node`, in graph order. */
  function Neighbours(g: Graph, node: string, sg: seq<string>, minWeight: int): (r: seq<string>)
    ensures forall n :: n in r <==>
      n in g.nodes && {node, n} in g.edges && g.edges[{node, n}].familyWeight >= minWeight && n !in sg
  {
    Grouping.Filter(g.nodes, (n: string) =>
      {node, n} in g.edges && g.edges[{node, n}].familyWeight >= minWeight && n !in sg)
  }

  /** The neighbour each entry lists. */
  function OutNodes(es: seq<OutEntry>): (r: seq<string>)
    ensures |r| == |es| && forall k :: 0 <= k < |es| ==> r[k] == es[k].node
  {
    seq(|es|, (k: int) requires 0 <= k < |es| => es[k].node)
  }

  function OutEdge(g: Graph, names: map<string, Info>, node: string, sg: seq<string>, minWeight: int): (r: seq<OutEntry>)
    requires GraphOk(g)
    ensures |r| == |Neighbours(g, node, sg, minWeight)|
    ensures forall i :: 0 <= i < |r| ==> r[i].node == Neighbours(g, node, sg, minWeight)[i]
  {
    var ns := Neighbours(g, node, sg, minWeight);
    seq(|ns|, (i: int) requires 0 <= i < |ns| =>
      assert ns[i] in g.nodes;
      var n := ns[i];
      OutEntry(ClusterName(names, n), CentralConcept(names, n), g.gloss[n], g.edges[{node, n}].wordWeight, n))
  }

  /* ------------------------------------------------------------- removal */

  /** The first node of every cluster whose subgraph has at most one node. */
  function Removed(g: Graph, infos: seq<Info>): (r: set<string>)
    ensures forall v :: v in r <==> exists k :: (0 <= k < |infos| && |infos[k].nodes| > 0
      && |SubgraphNodes(g, infos[k].nodes)| <= 1 && v == infos[k].nodes[0])
  {
    set k | 0 <= k < |infos| && |infos[k].nodes| > 0 && |SubgraphNodes(g, infos[k].nodes)| <= 1 :: infos[k].nodes[0]
  }

  /** A cluster made of one node, possibly repeated. */
  predicate Repeats(c: seq<string>, v: string)
  {
    |c| > 0 && forall j :: 0 <= j < |c| ==> c[j] == v
  }

  ghost predicate SingletonCluster(cs: seq<seq<string>>, v: string)
  {
    exists i :: 0 <= i < |cs| && Repeats(cs[i], v)
  }

  /** A filter of distinct nodes that only one node can pass keeps at
      most that node. */
  lemma {:induction false} RestrictAtMostOne(xs: seq<string>, keep: set<string>, x: string)
    requires Grouping.Distinct(xs)
    requires forall y :: y in keep ==> y == x
    ensures |Restrict(xs, keep)| <= 1
    ensures x !in xs ==> Restrict(xs, keep) == []
  {
    if |xs| > 0 {
      var n := |xs| - 1;
      assert Grouping.Distinct(xs[..n]) by {
        assert forall i :: 0 <= i < n ==> xs[..n][i] == xs[i];
      }
      RestrictAtMostOne(xs[..n], keep, x);
      if xs[n] in keep {
        assert xs[n] !in xs[..n];
      } else {
        assert x !in xs ==> x !in xs[..n];
      }
    }
  }

  /** A cluster's subgraph has at most one node exactly when the cluster
      repeats a single node, which is then the node that gets removed. */
  lemma SingletonSubgraph(g: Graph, nodes: seq<string>)
    requires GraphOk(g) && |nodes| > 0
    requires forall j :: 0 <= j < |nodes| ==> nodes[j] in g.nodes
    ensures |SubgraphNodes(g, nodes)| <= 1 <==> forall j :: 0 <= j < |nodes| ==> nodes[j] == nodes[0]
  {
    var sg := SubgraphNodes(g, nodes);
    if |sg| <= 1 {
      assert nodes[0] in sg;
      forall j | 0 <= j < |nodes|
        ensures nodes[j] == nodes[0]
      {
        assert nodes[j] in sg;
      }
    }
    if forall j :: 0 <= j < |nodes| ==> nodes[j] == nodes[0] {
      RestrictAtMostOne(g.nodes, (set x | x in nodes), nodes[0]);
    }
  }

  /** Whether cluster `i` is a single node, read off its entry. */
  lemma EntrySingleton(g: Graph, algo: string, cs: seq<seq<string>>, info: Info)
    requires GraphOk(g) && InGraph(g, cs) && Describes(cs, info)
    ensures |SubgraphNodes(g, info.nodes)| <= 1 <==> Repeats(cs[info.idx - 1], info.nodes[0])
  {
    var c := cs[info.idx - 1];
    assert forall j :: 0 <= j < |c| ==> c[j] in g.nodes;
    SingletonSubgraph(g, c);
  }

  lemma RemovedSingleton(g: Graph, algo: string, cs: seq<seq<string>>, v: string)
    requires GraphOk(g) && InGraph(g, cs)
    requires v in Removed(g, Infos(g, algo, cs))
    ensures SingletonCluster(cs, v)
  {
    var r := Infos(g, algo, cs);
    var k :| 0 <= k < |r| && |r[k].nodes| > 0 && |SubgraphNodes(g, r[k].nodes)| <= 1 && v == r[k].nodes[0];
    EntrySingleton(g, algo, cs, r[k]);
  }

  lemma SingletonRemoved(g: Graph, algo: string, cs: seq<seq<string>>, v: string)
    requires GraphOk(g) && InGraph(g, cs)
    requires SingletonCluster(cs, v)
    ensures v in Removed(g, Infos(g, algo, cs))
  {
    var r := Infos(g, algo, cs);
    var i :| 0 <= i < |cs| && Repeats(cs[i], v);
    var k := EntryFor(g, algo, cs, i);
    EntrySingleton(g, algo, cs, r[k]);
  }

  /** Exactly the nodes that make up a cluster on their own are removed. */
  lemma RemovedMeans(g: Graph, algo: string, cs: seq<seq<string>>, v: string)
    requires GraphOk(g) && InGraph(g, cs)
    ensures v in Removed(g, Infos(g, algo, cs)) <==> SingletonCluster(cs, v)
  {
    if v in Removed(g, Infos(g, algo, cs)) {
      RemovedSingleton(g, algo, cs, v);
    }
    if SingletonCluster(cs, v) {
      SingletonRemoved(g, algo, cs, v);
    }
  }

  /** An edge joins two clusters when its ends have different labels. */
  predicate CrossCluster(cs: seq<seq<string>>, e: set<string>)
  {
    exists a, b :: a in e && b in e && Label(cs, a) != Label(cs, b)
  }

  /** The edges that survive: both ends kept, and not a weak link (family
      weight below 5) between two clusters. */
  function KeptEdges(g: Graph, cs: seq<seq<string>>, removed: set<string>): map<set<string>, EdgeAttrs>
  {
    map e | e in g.edges && e !! removed && !(CrossCluster(cs, e) && g.edges[e].familyWeight < 5) :: g.edges[e]
  }

  /** A node's `Gloss`; every node has one in a graph satisfying `GraphOk`,
      so the empty default is never read there. */
  function GlossOf(g: Graph, v: string): string
  {
    if v in g.gloss then g.gloss[v] else ""
  }

  predicate MultiNode(g: Graph, nodes: seq<string>)
  {
    |SubgraphNodes(g, nodes)| > 1
  }

  /** `cluster_names`: the gloss of each node of a multi-node cluster mapped
      to the cluster's file stem, the cluster number for `subgraph` and
      otherwise the final name of the cluster's first node (which a later
      cluster containing that node may have overwritten). */
  function ClusterFiles(g: Graph, algo: string, infos: seq<Info>, names: map<string, Info>): map<string, string>
  {
    if |infos| == 0 then map[]
    else
      var n := |infos| - 1;
      var m := ClusterFiles(g, algo, infos[..n], names);
      var info := infos[n];
      if MultiNode(g, info.nodes) && |info.nodes| > 0 then
        m + FillSet(Glosses(g, info.nodes), Stem(algo, info.idx, info.nodes, names))
      else m
  }

  /** The stem of the file cluster number `idx` is written to: the number
      itself for `subgraph`, otherwise the final `ClusterName` of the
      cluster's first node. */
  function Stem(algo: string, idx: nat, nodes: seq<string>, names: map<string, Info>): string
  {
    if algo == "subgraph" then Decimal(idx)
    else if |nodes| > 0 then ClusterName(names, nodes[0])
    else ""
  }

  function Glosses(g: Graph, nodes: seq<string>): set<string>
  {
    set v | v in nodes :: GlossOf(g, v)
  }

  function FillSet<V>(keys: set<string>, x: V): map<string, V>
  {
    map v | v in keys :: x
  }

  ghost predicate HasGloss(g: Graph, nodes: seq<string>, gl: string)
  {
    exists j :: 0 <= j < |nodes| && GlossOf(g, nodes[j]) == gl
  }

  lemma GlossesMeans(g: Graph, nodes: seq<string>, gl: string)
    ensures gl in Glosses(g, nodes) <==> HasGloss(g, nodes, gl)
  {
    if gl in Glosses(g, nodes) {
      var v :| v in nodes && GlossOf(g, v) == gl;
      var j :| 0 <= j < |nodes| && nodes[j] == v;
    }
  }

  lemma MultiNodeNonEmpty(g: Graph, nodes: seq<string>)
    requires MultiNode(g, nodes)
    ensures |nodes| > 0
  {
    assert SubgraphNodes(g, nodes)[0] in SubgraphNodes(g, nodes);
  }

  lemma ClusterFilesSnoc(g: Graph, algo: string, infos: seq<Info>, names: map<string, Info>, gl: string)
    requires |infos| > 0
    ensures var n := |infos| - 1;
      gl in ClusterFiles(g, algo, infos, names) <==>
        gl in ClusterFiles(g, algo, infos[..n], names) || (MultiNode(g, infos[n].nodes) && HasGloss(g, infos[n].nodes, gl))
  {
    GlossesMeans(g, infos[|infos| - 1].nodes, gl);
    if MultiNode(g, infos[|infos| - 1].nodes) {
      MultiNodeNonEmpty(g, infos[|infos| - 1].nodes);
    }
  }

  /** Some multi-node cluster among `infos` has a node glossed `gl`. */
  ghost predicate FileGloss(g: Graph, infos: seq<Info>, gl: string)
  {
    exists k :: 0 <= k < |infos| && MultiNode(g, infos[k].nodes) && HasGloss(g, infos[k].nodes, gl)
  }

  lemma FileGlossSnoc(g: Graph, infos: seq<Info>, gl: string)
    requires |infos| > 0
    ensures var n := |infos| - 1;
      FileGloss(g, infos, gl) <==>
        FileGloss(g, infos[..n], gl) || (MultiNode(g, infos[n].nodes) && HasGloss(g, infos[n].nodes, gl))
  {
    var n := |infos| - 1;
    var init := infos[..n];
    if FileGloss(g, infos, gl) {
      var k :| 0 <= k < |infos| && MultiNode(g, infos[k].nodes) && HasGloss(g, infos[k].nodes, gl);
      if k < n {
        assert init[k] == infos[k];
      }
    }
    if FileGloss(g, init, gl) {
      var k :| 0 <= k < |init| && MultiNode(g, init[k].nodes) && HasGloss(g, init[k].nodes, gl);
      assert init[k] == infos[k];
    }
  }

  /** Entry `k` is a multi-node cluster with a node glossed `gl`. */
  ghost predicate FiledAt(g: Graph, infos: seq<Info>, gl: string, k: int)
  {
    0 <= k < |infos| && MultiNode(g, infos[k].nodes) && HasGloss(g, infos[k].nodes, gl)
  }

  /** A filed gloss keeps the stem of the last multi-node cluster that
      holds it: each cluster's loop overwrites what earlier ones wrote. */
  lemma {:induction false} ClusterFilesStem(g: Graph, algo: string, infos: seq<Info>, names: map<string, Info>, gl: string)
      returns (k: nat)
    requires gl in ClusterFiles(g, algo, infos, names)
    ensures FiledAt(g, infos, gl, k)
    ensures ClusterFiles(g, algo, infos, names)[gl] == Stem(algo, infos[k].idx, infos[k].nodes, names)
    ensures forall j :: k < j < |infos| ==> !FiledAt(g, infos, gl, j)
  {
    var n := |infos| - 1;
    var init := infos[..n];
    var m := ClusterFiles(g, algo, init, names);
    var r := ClusterFiles(g, algo, infos, names);
    GlossesMeans(g, infos[n].nodes, gl);
    if MultiNode(g, infos[n].nodes) {
      MultiNodeNonEmpty(g, infos[n].nodes);
    }
    if FiledAt(g, infos, gl, n) {
      k := n;
      assert r[gl] == Stem(algo, infos[n].idx, infos[n].nodes, names);
    } else {
      assert gl in m && r[gl] == m[gl];
      k := ClusterFilesStem(g, algo, init, names, gl);
      assert init[k] == infos[k];
      assert FiledAt(g, infos, gl, k);
      forall j | k < j < |infos|
        ensures !FiledAt(g, infos, gl, j)
      {
        if j < n {
          assert init[j] == infos[j];
          assert !FiledAt(g, init, gl, j);
        }
      }
    }
  }

  /** A gloss gets a file stem exactly when a node of a multi-node
      cluster has it. */
  lemma {:induction false} ClusterFilesKeys(g: Graph, algo: string, infos: seq<Info>, names: map<string, Info>, gl: string)
    ensures gl in ClusterFiles(g, algo, infos, names) <==> FileGloss(g, infos, gl)
  {
    if |infos| > 0 {
      ClusterFilesKeys(g, algo, infos[..|infos| - 1], names, gl);
      ClusterFilesSnoc(g, algo, infos, names, gl);
      FileGlossSnoc(g, infos, gl);
    }
  }

  /* ---------------------------------------------------------------- run */

  /** The attributes a node ends with. */
  datatype NodeOut = NodeOut(clusterLabel: string, clusterName: string, central: string, outEdge: Option<seq<OutEntry>>)

  datatype Clustered = Clustered(
    clusters: seq<seq<string>>, nodes: seq<string>, attrs: map<string, NodeOut>, edges: map<set<string>, EdgeAttrs>,
    clusterFiles: map<string, string>)

  datatype Outcome = Listed(rows: seq<(string, string)>) | Done(result: Clustered)

  /** The node attributes after the annotation, naming and OutEdge loops,
      for the nodes that are not removed. */
  function Attrs(g: Graph, cs: seq<seq<string>>, names: map<string, Info>, removed: set<string>, minWeight: int): map<string, NodeOut>
    requires GraphOk(g)
  {
    map v | v in g.nodes && v !in removed ::
      NodeOut(Label(cs, v), ClusterName(names, v), CentralConcept(names, v),
              if v in names then Some(OutEdge(g, names, v, names[v].nodes, minWeight)) else None)
  }

  /** The post-processing of clusters `cs`, already in their final order:
      labels, names, out-edges, node and edge removal, cluster files. */
  function Annotate(g: Graph, algo: string, cs: seq<seq<string>>, minWeight: int): (r: Clustered)
    requires GraphOk(g) && InGraph(g, cs)
  {
    var infos := Infos(g, algo, cs);
    var names := Stamp(infos);
    var removed := Removed(g, infos);
    Clustered(
      cs, Grouping.Filter(g.nodes, (v: string) => v !in removed), Attrs(g, cs, names, removed, minWeight),
      KeptEdges(g, cs, removed), ClusterFiles(g, algo, infos, names))
  }

  /** The post-processing of a clustering `raw` of the graph, once sorted. */
  function Process(g: Graph, algo: string, raw: seq<seq<string>>, minWeight: int): (r: Clustered)
    requires GraphOk(g) && InGraph(g, raw)
    ensures r.clusters == SortClusters(raw)
  {
    SortedInGraph(g, raw);
    Annotate(g, algo, SortClusters(raw), minWeight)
  }

  /** The command: algorithm selection, then post-processing of the
      clusters the algorithm returns. */
  function Run(algo: string, registry: seq<(string, string)>, appReady: bool, g: Graph,
               raw: seq<seq<string>>, neighbourWeight: Option<string>): (r: Result<Outcome>)
    requires GraphOk(g) && InGraph(g, raw)
    ensures r.Failure? <==>
      Select(algo, registry, appReady).Failure? ||
      (Select(algo, registry, appReady) == Success(Proceed) && NeighbourWeight(neighbourWeight).Failure?)
    ensures r.Success? ==> (r.value.Listed? <==> !Registered(registry, algo) && algo == "_")
    ensures r.Success? && r.value.Listed? ==> r.value.rows == registry
    ensures r.Success? && r.value.Done? ==> r.value.result.clusters == SortClusters(raw)
  {
    match Select(algo, registry, appReady)
    case Failure(e) => Failure(e)
    case Success(Listing(rows)) => Success(Listed(rows))
    case Success(Proceed) =>
      match NeighbourWeight(neighbourWeight)
      case Failure(e) => Failure(e)
      case Success(w) => Success(Done(Process(g, algo, raw, w)))
  }

  /** The names `pyclics.util` binds at module level: its imports, its
      `__all__` and its three functions. */
  const UtilNames: set<string> := {"defaultdict", "igraph", "__all__", "networkx2igraph", "get_communities", "full_colexification"}

  /** The command as written: its first statement imports `parse_kwargs`
      from `pyclics.util`, which binds no such name, so every call ends in
      an ImportError before the algorithm is even looked up. */
  function RunAsWritten(algo: string, registry: seq<(string, string)>, appReady: bool, g: Graph,
                        raw: seq<seq<string>>, neighbourWeight: Option<string>): (r: Result<Outcome>)
    requires GraphOk(g) && InGraph(g, raw)
  {
    if "parse_kwargs" !in UtilNames then Failure(ImportError("parse_kwargs"))
    else Run(algo, registry, appReady, g, raw, neighbourWeight)
  }

  /** Every call of the command as written fails, even the listing that
      the corrected command answers for an unknown algorithm `_`. */
  lemma RunAsWrittenFails(algo: string, registry: seq<(string, string)>, appReady: bool, g: Graph,
                          raw: seq<seq<string>>, neighbourWeight: Option<string>)
    requires GraphOk(g) && InGraph(g, raw)
    ensures RunAsWritten(algo, registry, appReady, g, raw, neighbourWeight) == Failure(ImportError("parse_kwargs"))
    ensures !Registered(registry, "_") ==>
      Run("_", registry, appReady, g, raw, neighbourWeight) == Success(Listed(registry))
  {
    assert "parse_kwargs" !in UtilNames by {
      assert "parse_kwargs"[0] != "defaultdict"[0] && "parse_kwargs"[0] != "igraph"[0];
      assert "parse_kwargs"[0] != "__all__"[0] && "parse_kwargs"[0] != "networkx2igraph"[0];
      assert "parse_kwargs"[0] != "get_communities"[0] && "parse_kwargs"[0] != "full_colexification"[0];
    }
  }

  /* ---------------------------------------------------------- properties */

  lemma SortedInGraph(g: Graph, raw: seq<seq<string>>)
    requires InGraph(g, raw)
    ensures InGraph(g, SortClusters(raw))
  {
    var cs := SortClusters(raw);
    SortClustersOrder(raw);
    forall i | 0 <= i < |cs|
      ensures forall j :: 0 <= j < |cs[i]| ==> cs[i][j] in g.nodes
    {
      assert cs[i] in multiset(raw);
    }
  }

  /** A two-ended edge crosses clusters exactly when its ends' labels differ. */
  lemma CrossPair(cs: seq<seq<string>>, a: string, b: string)
    ensures CrossCluster(cs, {a, b}) <==> Label(cs, a) != Label(cs, b)
  {
    if CrossCluster(cs, {a, b}) {
      var x, y :| x in {a, b} && y in {a, b} && Label(cs, x) != Label(cs, y);
    }
  }

  /** The nodes that survive: all but those forming a cluster on their own. */
  lemma AnnotateKeeps(g: Graph, algo: string, cs: seq<seq<string>>, minWeight: int, v: string)
    requires GraphOk(g) && InGraph(g, cs)
    ensures var r := Annotate(g, algo, cs, minWeight);
      && r.clusters == cs
      && (v in r.nodes <==> v in g.nodes && !SingletonCluster(r.clusters, v))
      && (v in r.attrs <==> v in r.nodes)
  {
    var infos := Infos(g, algo, cs);
    var removed := Removed(g, infos);
    var r := Annotate(g, algo, cs, minWeight);
    assert r.nodes == Grouping.Filter(g.nodes, (v: string) => v !in removed);
    assert r.attrs == Attrs(g, cs, Stamp(infos), removed, minWeight);
    RemovedMeans(g, algo, cs, v);
  }

  /** A surviving node's attributes: its label, and a cluster name and
      out-edge list exactly when it is clustered. */
  lemma AnnotateAttrs(g: Graph, algo: string, cs: seq<seq<string>>, minWeight: int, v: string)
    requires GraphOk(g) && InGraph(g, cs)
    ensures var r := Annotate(g, algo, cs, minWeight);
      v in r.attrs ==>
        && r.attrs[v].clusterLabel == Label(r.clusters, v)
        && (r.attrs[v].outEdge.Some? <==> LabelIndex(r.clusters, v) > 0)
        && (r.attrs[v].clusterName != "" <==> LabelIndex(r.clusters, v) > 0)
  {
    var infos := Infos(g, algo, cs);
    var names := Stamp(infos);
    var r := Annotate(g, algo, cs, minWeight);
    assert r.attrs == Attrs(g, cs, names, Removed(g, infos), minWeight);
    StampFollowsLabel(g, algo, cs, v);
    if v in r.attrs {
      var out := r.attrs[v];
      assert out.clusterLabel == Label(cs, v);
      assert out.outEdge.Some? <==> v in names;
      assert out.clusterName == ClusterName(names, v);
      if v in names {
        assert |names[v].name| > 0 by {
          StampMember(infos, v);
          var k :| 0 <= k < |infos| && infos[k] == names[v];
          InfosNamed(g, algo, cs, k);
        }
      }
    }
  }

  /** A clustered node is named after its own (last) cluster and that
      cluster's central concept. */
  lemma AnnotateNames(g: Graph, algo: string, cs: seq<seq<string>>, minWeight: int, v: string)
    requires GraphOk(g) && InGraph(g, cs)
    ensures var cs := Annotate(g, algo, cs, minWeight).clusters; LabelIndex(cs, v) <= |cs|
    ensures var r := Annotate(g, algo, cs, minWeight); var cs := r.clusters; var i := LabelIndex(cs, v);
      v in r.attrs && i > 0 ==>
        && v in cs[i - 1]
        && r.attrs[v].clusterName == Name(algo, i, r.attrs[v].central)
        && CentralNode(g, cs[i - 1]) in g.gloss
        && r.attrs[v].central == g.gloss[CentralNode(g, cs[i - 1])]
  {
    LabelIndexMeans(cs, v);
    var infos := Infos(g, algo, cs);
    var names := Stamp(infos);
    var r := Annotate(g, algo, cs, minWeight);
    assert r.attrs == Attrs(g, cs, names, Removed(g, infos), minWeight);
    if v in r.attrs && LabelIndex(cs, v) > 0 {
      assert v in names && names[v].name == Name(algo, LabelIndex(cs, v), names[v].central)
        && CentralNode(g, cs[LabelIndex(cs, v) - 1]) in g.gloss
        && names[v].central == g.gloss[CentralNode(g, cs[LabelIndex(cs, v) - 1])] by {
        StampNames(g, algo, cs, v);
        StampFollowsLabel(g, algo, cs, v);
      }
      assert r.attrs[v].clusterName == names[v].name && r.attrs[v].central == names[v].central;
    }
  }

  /** A clustered node lists exactly its strong links (family weight at
      least the threshold) to nodes outside its own cluster, in graph order. */
  lemma AnnotateOutEdge(g: Graph, algo: string, cs: seq<seq<string>>, minWeight: int, v: string, n: string)
    requires GraphOk(g) && InGraph(g, cs)
    ensures var cs := Annotate(g, algo, cs, minWeight).clusters; LabelIndex(cs, v) <= |cs|
    ensures var r := Annotate(g, algo, cs, minWeight); var cs := r.clusters; var i := LabelIndex(cs, v);
      v in r.attrs && i > 0 ==>
        && r.attrs[v].outEdge.Some?
        && (n in OutNodes(r.attrs[v].outEdge.value) <==>
              n in g.nodes && {v, n} in g.edges && g.edges[{v, n}].familyWeight >= minWeight && n !in cs[i - 1])
  {
    LabelIndexMeans(cs, v);
    var infos := Infos(g, algo, cs);
    var names := Stamp(infos);
    var r := Annotate(g, algo, cs, minWeight);
    assert r.attrs == Attrs(g, cs, names, Removed(g, infos), minWeight);
    if v in r.attrs && LabelIndex(cs, v) > 0 {
      assert v in names && names[v].nodes == cs[LabelIndex(cs, v) - 1] by {
        StampNames(g, algo, cs, v);
        StampFollowsLabel(g, algo, cs, v);
      }
      var es := OutEdge(g, names, v, names[v].nodes, minWeight);
      assert r.attrs[v].outEdge == Some(es);
      assert OutNodes(es) == Neighbours(g, v, cs[LabelIndex(cs, v) - 1], minWeight);
    }
  }

  /** An edge survives exactly when neither end was removed and it is not
      a weak link (family weight below 5) between two clusters; a
      surviving edge keeps its weights. */
  lemma AnnotateEdges(g: Graph, algo: string, cs: seq<seq<string>>, minWeight: int, a: string, b: string)
    requires GraphOk(g) && InGraph(g, cs)
    ensures var r := Annotate(g, algo, cs, minWeight); var cs := r.clusters;
      {a, b} in r.edges <==>
        && {a, b} in g.edges && !SingletonCluster(cs, a) && !SingletonCluster(cs, b)
        && (LabelIndex(cs, a) == LabelIndex(cs, b) || g.edges[{a, b}].familyWeight >= 5)
    ensures var r := Annotate(g, algo, cs, minWeight);
      {a, b} in r.edges ==> r.edges[{a, b}] == g.edges[{a, b}]
  {
    var infos := Infos(g, algo, cs);
    var removed := Removed(g, infos);
    var r := Annotate(g, algo, cs, minWeight);
    assert r.edges == KeptEdges(g, cs, removed);
    RemovedMeans(g, algo, cs, a);
    RemovedMeans(g, algo, cs, b);
    CrossPair(cs, a, b);
    LabelsDiffer(cs, a, b);
  }

  /** A gloss gets a cluster file exactly when a node of a multi-node
      cluster carries it. */
  lemma AnnotateFiles(g: Graph, algo: string, cs: seq<seq<string>>, minWeight: int, gl: string)
    requires GraphOk(g) && InGraph(g, cs)
    ensures var r := Annotate(g, algo, cs, minWeight); var cs := r.clusters;
      gl in r.clusterFiles <==> ClusterGloss(g, cs, gl)
  {
    var infos := Infos(g, algo, cs);
    var names := Stamp(infos);
    var r := Annotate(g, algo, cs, minWeight);
    assert r.clusterFiles == ClusterFiles(g, algo, infos, names);
    ClusterFilesKeys(g, algo, infos, names, gl);
    EntryMultiNode(g, algo, cs, gl);
  }

  /** Cluster `i` has more than one node and a node glossed `gl`. */
  ghost predicate FiledIn(g: Graph, cs: seq<seq<string>>, gl: string, i: int)
  {
    0 <= i < |cs| && MultiNode(g, cs[i]) && HasGloss(g, cs[i], gl)
  }

  /** A filed gloss is mapped to the stem of the last multi-node cluster
      holding it: that cluster's number for `subgraph`, otherwise the
      `ClusterName` the naming loop left on the cluster's first node. */
  lemma AnnotateStem(g: Graph, algo: string, cs: seq<seq<string>>, minWeight: int, gl: string)
    requires GraphOk(g) && InGraph(g, cs)
    requires gl in Annotate(g, algo, cs, minWeight).clusterFiles
    ensures var r := Annotate(g, algo, cs, minWeight); var cs := r.clusters;
      exists i ::
        && FiledIn(g, cs, gl, i)
        && |cs[i]| > 0
        && r.clusterFiles[gl] == (if algo == "subgraph" then Decimal(i + 1)
                                  else ClusterName(Stamp(Infos(g, algo, cs)), cs[i][0]))
        && forall j :: i < j < |cs| ==> !FiledIn(g, cs, gl, j)
  {
    var infos := Infos(g, algo, cs);
    var r := Annotate(g, algo, cs, minWeight);
    assert r.clusters == cs;
    assert r.clusterFiles == ClusterFiles(g, algo, infos, Stamp(infos));
    var i := LastFiled(g, algo, cs, gl);
  }

  /** The cluster whose stem a filed gloss keeps: the last filed one. */
  lemma LastFiled(g: Graph, algo: string, cs: seq<seq<string>>, gl: string) returns (i: nat)
    requires GraphOk(g) && InGraph(g, cs)
    requires gl in ClusterFiles(g, algo, Infos(g, algo, cs), Stamp(Infos(g, algo, cs)))
    ensures FiledIn(g, cs, gl, i) && |cs[i]| > 0
    ensures ClusterFiles(g, algo, Infos(g, algo, cs), Stamp(Infos(g, algo, cs)))[gl]
      == Stem(algo, i + 1, cs[i], Stamp(Infos(g, algo, cs)))
    ensures forall j :: FiledIn(g, cs, gl, j) ==> j <= i
  {
    var infos := Infos(g, algo, cs);
    var k := ClusterFilesStem(g, algo, infos, Stamp(infos), gl);
    i := EntryCluster(g, cs, infos, gl, k);
    forall j | FiledIn(g, cs, gl, j)
      ensures j <= i
    {
      FiledNotLater(g, algo, cs, gl, k, j);
    }
  }

  /** The cluster an entry filed under `gl` stands for. */
  lemma EntryCluster(g: Graph, cs: seq<seq<string>>, infos: seq<Info>, gl: string, k: nat) returns (i: nat)
    requires forall l :: 0 <= l < |infos| ==> Describes(cs, infos[l])
    requires FiledAt(g, infos, gl, k)
    ensures i < |cs| && infos[k].idx == i + 1 && infos[k].nodes == cs[i]
    ensures FiledIn(g, cs, gl, i) && |cs[i]| > 0
  {
    assert Describes(cs, infos[k]);
    i := infos[k].idx - 1;
  }

  lemma FiledNotLater(g: Graph, algo: string, cs: seq<seq<string>>, gl: string, k: nat, j: nat)
    requires GraphOk(g) && InGraph(g, cs)
    requires FiledAt(g, Infos(g, algo, cs), gl, k)
    requires forall l :: k < l < |Infos(g, algo, cs)| ==> !FiledAt(g, Infos(g, algo, cs), gl, l)
    requires FiledIn(g, cs, gl, j)
    ensures j < Infos(g, algo, cs)[k].idx
  {
    var infos := Infos(g, algo, cs);
    MultiNodeNonEmpty(g, cs[j]);
    var l := EntryFor(g, algo, cs, j);
    assert FiledAt(g, infos, gl, l);
    if l < k {
      InfosOrdered(g, algo, cs);
    }
  }

  /** Some multi-node cluster among `cs` has a node glossed `gl`. */
  ghost predicate ClusterGloss(g: Graph, cs: seq<seq<string>>, gl: string)
  {
    exists i :: 0 <= i < |cs| && MultiNode(g, cs[i]) && HasGloss(g, cs[i], gl)
  }

  lemma EntryGloss(g: Graph, algo: string, cs: seq<seq<string>>, gl: string)
    requires GraphOk(g) && InGraph(g, cs) && FileGloss(g, Infos(g, algo, cs), gl)
    ensures ClusterGloss(g, cs, gl)
  {
    var infos := Infos(g, algo, cs);
    var k :| 0 <= k < |infos| && MultiNode(g, infos[k].nodes) && HasGloss(g, infos[k].nodes, gl);
    var info := infos[k];
    assert Describes(cs, info);
    var i := info.idx - 1;
    assert cs[i] == info.nodes;
  }

  lemma ClusterGlossEntry(g: Graph, algo: string, cs: seq<seq<string>>, gl: string)
    requires GraphOk(g) && InGraph(g, cs) && ClusterGloss(g, cs, gl)
    ensures FileGloss(g, Infos(g, algo, cs), gl)
  {
    var infos := Infos(g, algo, cs);
    var i :| 0 <= i < |cs| && MultiNode(g, cs[i]) && HasGloss(g, cs[i], gl);
    assert |cs[i]| > 0 by {
      MultiNodeNonEmpty(g, cs[i]);
    }
    var k := EntryFor(g, algo, cs, i);
    assert MultiNode(g, infos[k].nodes) && HasGloss(g, infos[k].nodes, gl);
  }

  /** Reading the multi-node clusters off the entries or off the clusters
      gives the same glosses. */
  lemma EntryMultiNode(g: Graph, algo: string, cs: seq<seq<string>>, gl: string)
    requires GraphOk(g) && InGraph(g, cs)
    ensures FileGloss(g, Infos(g, algo, cs), gl) <==> ClusterGloss(g, cs, gl)
  {
    if FileGloss(g, Infos(g, algo, cs), gl) {
      EntryGloss(g, algo, cs, gl);
    }
    if ClusterGloss(g, cs, gl) {
      ClusterGlossEntry(g, algo, cs, gl);
    }
  }

}
