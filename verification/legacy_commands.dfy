/** The older all-in-one command module of pyclics, next to the newer
    per-command files: `colexification` (edges from the dictionary
    colexifier and `itertools.combinations`), `cluster`, the
    neighbourhood command `subgraph` and the infomap command
    `communities`.

    Past its edge loop, `colexification` is the newer command with a fixed
    summary size, and this module reuses that model. `communities` lives in
    its own module, `LegacyCommunities`. */
module LegacyCommands {
  import opened Wrappers
  import opened Strings
  import Grouping
  import Sorting
  import Models
  import Plugin
  import CC = ColexificationCommand
  import KC = ClusterCommand

  /* ------------------------------------------------------------- options */

  /** `option or fallback`: an absent or zero option takes the fallback. */
  function OrDefault(option: Option<int>, fallback: int): (r: int)
    ensures r != 0 || fallback == 0
    ensures option.Some? && option.value != 0 ==> r == option.value
    ensures option.None? || option.value == 0 ==> r == fallback
  {
    if option.Some? && option.value != 0 then option.value else fallback
  }

  /* -------------------------------------------------------- combinations */

  /** `itertools.combinations(range(lo, n), 2)`: the index pairs `(i, j)`
      with `lo <= i < j < n`, the first index running slowest. */
  function IndexPairs(lo: nat, n: nat): (r: seq<(nat, nat)>)
    ensures forall k :: 0 <= k < |r| ==> lo <= r[k].0 < r[k].1 < n
    decreases n - lo
  {
    if lo >= n then []
    else seq(n - lo - 1, (k: int) requires 0 <= k < n - lo - 1 => (lo, lo + 1 + k)) + IndexPairs(lo + 1, n)
  }

  /** Lexicographic order on index pairs. */
  predicate PairLess(p: (nat, nat), q: (nat, nat))
  {
    p.0 < q.0 || (p.0 == q.0 && p.1 < q.1)
  }

  /** Every pair `lo <= i < j < n` is produced. */
  lemma {:induction false} IndexPairsComplete(lo: nat, n: nat, i: nat, j: nat)
    requires lo <= i < j < n
    ensures (i, j) in IndexPairs(lo, n)
    decreases n - lo
  {
    var row := seq(n - lo - 1, (k: int) requires 0 <= k < n - lo - 1 => (lo, lo + 1 + k));
    assert IndexPairs(lo, n) == row + IndexPairs(lo + 1, n);
    if i == lo {
      assert row[j - lo - 1] == (i, j);
    } else {
      IndexPairsComplete(lo + 1, n, i, j);
    }
  }

  predicate Ascending(r: seq<(nat, nat)>)
  {
    forall a, b :: 0 <= a < b < |r| ==> PairLess(r[a], r[b])
  }

  /** The pairs come in strictly increasing lexicographic order, so none
      is produced twice. */
  lemma {:induction false} IndexPairsOrdered(lo: nat, n: nat)
    ensures Ascending(IndexPairs(lo, n))
    decreases n - lo
  {
    if lo < n {
      var row := seq(n - lo - 1, (k: int) requires 0 <= k < n - lo - 1 => (lo, lo + 1 + k));
      var rest := IndexPairs(lo + 1, n);
      IndexPairsOrdered(lo + 1, n);
      var r := IndexPairs(lo, n);
      assert r == row + rest;
      forall a, b | 0 <= a < b < |r|
        ensures PairLess(r[a], r[b])
      {
        if b < |row| {
          assert r[a] == row[a] && r[b] == row[b];
        } else if a < |row| {
          assert r[a] == row[a] && r[a].0 == lo;
          assert r[b] == rest[b - |row|] && r[b].0 >= lo + 1;
        } else {
          assert r[a] == rest[a - |row|] && r[b] == rest[b - |row|];
        }
      }
    }
  }

  /** There are `m * (m - 1) / 2` pairs of `m` indices. */
  lemma {:induction false} IndexPairsCount(lo: nat, n: nat)
    requires lo <= n
    ensures 2 * |IndexPairs(lo, n)| == (n - lo) * (n - lo - 1)
    decreases n - lo
  {
    if lo < n {
      IndexPairsCount(lo + 1, n);
      var m := n - lo;
      assert (m - 1) * (m - 2) + 2 * (m - 1) == m * (m - 1);
    }
  }

  /* -------------------------------------------- colexification edge loop */

  /** A form as the edge loop reads it. */
  function FormOf(f: Models.Form): CC.CForm
  {
    CC.CForm(Models.Gid(f.source, f.id), f.concepticonId.GetOr(""), f.clicsForm.GetOr(""), f.form)
  }

  /** Every pair of `ps` indexes into a group of `n` forms. */
  predicate PairsWithin(ps: seq<(nat, nat)>, n: nat)
  {
    forall k :: 0 <= k < |ps| ==> ps[k].0 < n && ps[k].1 < n
  }

  /** Pair `p` of `group` has two different Concepticon ids. */
  predicate Differ(group: seq<Models.Form>, p: (nat, nat))
    requires p.0 < |group| && p.1 < |group|
  {
    group[p.0].concepticonId != group[p.1].concepticonId
  }

  function ColexAt(v: CC.Variety, group: seq<Models.Form>, p: (nat, nat)): CC.Colex
    requires p.0 < |group| && p.1 < |group|
  {
    CC.Colex(v, FormOf(group[p.0]), FormOf(group[p.1]))
  }

  /** The inner loop over the pairs `ps` of one group: a pair counts when
      its Concepticon ids differ. */
  function PairColexes(v: CC.Variety, group: seq<Models.Form>, ps: seq<(nat, nat)>): seq<CC.Colex>
    requires PairsWithin(ps, |group|)
  {
    if |ps| == 0 then []
    else
      var p := ps[|ps| - 1];
      PairColexes(v, group, ps[..|ps| - 1]) + (if Differ(group, p) then [ColexAt(v, group, p)] else [])
  }

  /** Each colexification of the inner loop comes from a pair with
      different Concepticon ids. */
  lemma {:induction false} PairColexesSound(v: CC.Variety, group: seq<Models.Form>, ps: seq<(nat, nat)>, c: CC.Colex)
      returns (k: nat)
    requires PairsWithin(ps, |group|)
    requires c in PairColexes(v, group, ps)
    ensures k < |ps| && ps[k].0 < |group| && ps[k].1 < |group|
    ensures Differ(group, ps[k]) && c == ColexAt(v, group, ps[k])
  {
    var init := ps[..|ps| - 1];
    assert PairsWithin(init, |group|);
    if c in PairColexes(v, group, init) {
      k := PairColexesSound(v, group, init, c);
      assert ps[k] == init[k];
    } else {
      k := |ps| - 1;
    }
  }

  /** Each pair with different Concepticon ids yields a colexification. */
  lemma {:induction false} PairColexesComplete(v: CC.Variety, group: seq<Models.Form>, ps: seq<(nat, nat)>, k: nat)
    requires PairsWithin(ps, |group|)
    requires k < |ps| && ps[k].0 < |group| && ps[k].1 < |group| && Differ(group, ps[k])
    ensures ColexAt(v, group, ps[k]) in PairColexes(v, group, ps)
  {
    var init := ps[..|ps| - 1];
    assert PairsWithin(init, |group|);
    if k < |init| {
      assert init[k] == ps[k];
      PairColexesComplete(v, group, init, k);
    }
  }

  /** `for formA, formB in combinations(v, r=2)` with the Concepticon id test. */
  function GroupColexes(v: CC.Variety, group: seq<Models.Form>): seq<CC.Colex>
  {
    PairColexes(v, group, IndexPairs(0, |group|))
  }

  /** Some pair `i < j` of `group` with different Concepticon ids yields `c`. */
  ghost predicate FromPair(v: CC.Variety, group: seq<Models.Form>, c: CC.Colex)
  {
    exists i, j :: 0 <= i < j < |group| && group[i].concepticonId != group[j].concepticonId
      && c == CC.Colex(v, FormOf(group[i]), FormOf(group[j]))
  }

  lemma GroupColexesSound(v: CC.Variety, group: seq<Models.Form>, c: CC.Colex) returns (i: nat, j: nat)
    requires c in GroupColexes(v, group)
    ensures i < j < |group| && group[i].concepticonId != group[j].concepticonId
    ensures c == CC.Colex(v, FormOf(group[i]), FormOf(group[j]))
  {
    var ps := IndexPairs(0, |group|);
    var k := PairColexesSound(v, group, ps, c);
    i, j := ps[k].0, ps[k].1;
  }

  lemma GroupColexesComplete(v: CC.Variety, group: seq<Models.Form>, i: nat, j: nat)
    requires i < j < |group| && group[i].concepticonId != group[j].concepticonId
    ensures CC.Colex(v, FormOf(group[i]), FormOf(group[j])) in GroupColexes(v, group)
  {
    var ps := IndexPairs(0, |group|);
    IndexPairsComplete(0, |group|, i, j);
    var k :| 0 <= k < |ps| && ps[k] == (i, j);
    PairColexesComplete(v, group, ps, k);
  }

  /** A group yields exactly one colexification for each pair of positions
      `i < j` whose forms have different Concepticon ids. */
  lemma GroupColexesMeans(v: CC.Variety, group: seq<Models.Form>, c: CC.Colex)
    ensures c in GroupColexes(v, group) <==> FromPair(v, group, c)
  {
    if c in GroupColexes(v, group) {
      var i, j := GroupColexesSound(v, group, c);
    }
    if FromPair(v, group, c) {
      var i, j :| 0 <= i < j < |group| && group[i].concepticonId != group[j].concepticonId
        && c == CC.Colex(v, FormOf(group[i]), FormOf(group[j]));
      GroupColexesComplete(v, group, i, j);
    }
  }

  /** The loop over the groups `cols.items()`, in order. */
  function GroupsColexes(v: CC.Variety, groups: seq<seq<Models.Form>>): seq<CC.Colex>
  {
    if |groups| == 0 then []
    else GroupsColexes(v, groups[..|groups| - 1]) + GroupColexes(v, groups[|groups| - 1])
  }

  lemma {:induction false} GroupsColexesMeans(v: CC.Variety, groups: seq<seq<Models.Form>>, c: CC.Colex)
    ensures c in GroupsColexes(v, groups) <==> exists g :: 0 <= g < |groups| && c in GroupColexes(v, groups[g])
  {
    if |groups| > 0 {
      var init := groups[..|groups| - 1];
      var last := groups[|init|];
      assert GroupsColexes(v, groups) == GroupsColexes(v, init) + GroupColexes(v, last);
      GroupsColexesMeans(v, init, c);
      if c in GroupsColexes(v, init) {
        var g :| 0 <= g < |init| && c in GroupColexes(v, init[g]);
        assert groups[g] == init[g];
      } else if c !in GroupColexes(v, last) {
        forall g | 0 <= g < |groups| ensures c !in GroupColexes(v, groups[g]) {
          if g < |init| {
            assert init[g] == groups[g];
          } else {
            assert groups[g] == last;
          }
        }
      }
    }
  }

  /** The colexifications of one wordlist: the groups of the dictionary
      colexifier in key order (its values, as `Util.ListVariant` shows). */
  function WordlistColexes(v: CC.Variety, forms: seq<Models.Form>): seq<CC.Colex>
  {
    GroupsColexes(v, Plugin.FullColexification(forms))
  }

  /** Every colexification of a wordlist joins two forms of that wordlist
      with one non-empty CLICS form and two different, non-empty concepts:
      no edge is a self-loop. */
  lemma WordlistColexesSound(v: CC.Variety, forms: seq<Models.Form>, c: CC.Colex)
    requires c in WordlistColexes(v, forms)
    ensures c.variety == v
    ensures exists x, y :: x in forms && y in forms && c.a == FormOf(x) && c.b == FormOf(y)
    ensures c.a.clicsForm == c.b.clicsForm != ""
    ensures c.a.concept != c.b.concept && c.a.concept != "" && c.b.concept != ""
  {
    var groups := Plugin.FullColexification(forms);
    GroupsColexesMeans(v, groups, c);
    var g :| 0 <= g < |groups| && c in GroupColexes(v, groups[g]);
    var group := groups[g];
    var i, j := GroupColexesSound(v, group, c);
    Plugin.FullColexificationMember(forms, g, group[i]);
    Plugin.FullColexificationMember(forms, g, group[j]);
  }

  /** Every pair of positions `i < j` of a group with different Concepticon
      ids is a colexification of the wordlist. */
  lemma WordlistColexesComplete(v: CC.Variety, forms: seq<Models.Form>, g: nat, i: nat, j: nat)
    requires g < |Plugin.FullColexification(forms)|
    requires var group := Plugin.FullColexification(forms)[g];
      i < j < |group| && group[i].concepticonId != group[j].concepticonId
    ensures var group := Plugin.FullColexification(forms)[g];
      CC.Colex(v, FormOf(group[i]), FormOf(group[j])) in WordlistColexes(v, forms)
  {
    var groups := Plugin.FullColexification(forms);
    var c := CC.Colex(v, FormOf(groups[g][i]), FormOf(groups[g][j]));
    GroupColexesComplete(v, groups[g], i, j);
    GroupsColexesMeans(v, groups, c);
  }

  /** The colexifications of one `(variety, forms)` wordlist. */
  function WordlistOf(w: (CC.Variety, seq<Models.Form>)): seq<CC.Colex>
  {
    WordlistColexes(w.0, w.1)
  }

  /** The outer loop over the wordlists of all varieties. */
  function AllColexes(wordlists: seq<(CC.Variety, seq<Models.Form>)>): seq<CC.Colex>
  {
    Grouping.ConcatMap(wordlists, WordlistOf)
  }

  lemma AllColexesMeans(wordlists: seq<(CC.Variety, seq<Models.Form>)>, c: CC.Colex)
    ensures c in AllColexes(wordlists) <==>
      exists w :: 0 <= w < |wordlists| && c in WordlistColexes(wordlists[w].0, wordlists[w].1)
  {
    Grouping.ConcatMapMeans(wordlists, WordlistOf, c);
  }

  /** No colexification of the whole loop is a self-loop. */
  lemma AllColexesNoLoops(wordlists: seq<(CC.Variety, seq<Models.Form>)>, c: CC.Colex)
    requires c in AllColexes(wordlists)
    ensures c.a.concept != c.b.concept && |CC.KeyOf(c)| == 2
  {
    assert c.a.concept != c.b.concept by {
      AllColexesMeans(wordlists, c);
      var w :| 0 <= w < |wordlists| && c in WordlistColexes(wordlists[w].0, wordlists[w].1);
      WordlistColexesSound(wordlists[w].0, wordlists[w].1, c);
    }
    assert CC.KeyOf(c) == {c.a.concept, c.b.concept};
  }

  /* --------------------------------------------------------------- words */

  /** `words[formA.gid] = [formA.clics_form, formA.form]`: only the first
      form of a pair is recorded, and a later pair overwrites. */
  function Words(cs: seq<CC.Colex>): map<string, seq<string>>
  {
    if |cs| == 0 then map[]
    else
      var c := cs[|cs| - 1];
      Words(cs[..|cs| - 1])[c.a.gid := [c.a.clicsForm, c.a.form]]
  }

  /** A gid is recorded exactly when it is the first form of some
      colexification, and it holds that form's CLICS form and form as of
      the last such colexification. */
  lemma {:induction false} WordsMeans(cs: seq<CC.Colex>, gid: string)
    ensures gid in Words(cs) <==> exists i :: 0 <= i < |cs| && cs[i].a.gid == gid
    ensures gid in Words(cs) ==> exists i :: (0 <= i < |cs| && cs[i].a.gid == gid
      && Words(cs)[gid] == [cs[i].a.clicsForm, cs[i].a.form]
      && forall j :: i < j < |cs| ==> cs[j].a.gid != gid)
  {
    if |cs| > 0 {
      var n := |cs| - 1;
      var init := cs[..n];
      WordsMeans(init, gid);
      if cs[n].a.gid != gid {
        if gid in Words(init) {
          var i :| 0 <= i < |init| && init[i].a.gid == gid
            && Words(init)[gid] == [init[i].a.clicsForm, init[i].a.form]
            && forall j :: i < j < |init| ==> init[j].a.gid != gid;
          assert cs[i] == init[i];
          assert forall j :: i < j < |cs| ==> cs[j].a.gid != gid by {
            forall j | i < j < |cs| ensures cs[j].a.gid != gid {
              if j < n {
                assert cs[j] == init[j];
              }
            }
          }
        }
        if exists i :: 0 <= i < |cs| && cs[i].a.gid == gid {
          var i :| 0 <= i < |cs| && cs[i].a.gid == gid;
          assert init[i] == cs[i];
        }
      }
    }
  }

  /* ---------------------------------------------------- colexification */

  /** The summary lists at most ten edges. */
  const SummarySize: int := 10

  datatype ColexOutcome = ColexOutcome(words: map<string, seq<string>>, network: CC.Outcome)

  /** The `colexification` command: the threshold defaults to 1, the edge
      loop runs over the pairs of the dictionary colexifier, and the rest is
      the newer command with a summary of ten rows. */
  function Colexification(concepts: seq<string>, wordlists: seq<(CC.Variety, seq<Models.Form>)>,
                          edgefilter: string, threshold: Option<int>, nodenames: map<string, string>): (r: Result<ColexOutcome>)
    ensures r.Success? <==> CC.Run(concepts, AllColexes(wordlists), edgefilter, OrDefault(threshold, 1), SummarySize, nodenames).Success?
  {
    var cs := AllColexes(wordlists);
    match CC.Run(concepts, cs, edgefilter, OrDefault(threshold, 1), SummarySize, nodenames)
    case Failure(e) => Failure(e)
    case Success(o) => Success(ColexOutcome(Words(cs), o))
  }

  /** Some colexification of the loop links the two concepts of `k`. */
  lemma {:induction false} EntriesFrom(cs: seq<CC.Colex>, k: set<string>)
    requires |CC.EntriesOf(cs, k)| > 0
    ensures exists i :: 0 <= i < |cs| && CC.KeyOf(cs[i]) == k
  {
    var init := cs[..|cs| - 1];
    if CC.KeyOf(cs[|cs| - 1]) != k {
      EntriesFrom(init, k);
      var i :| 0 <= i < |init| && CC.KeyOf(init[i]) == k;
      assert cs[i] == init[i];
    }
  }

  /** The saved network has an edge for exactly the concept pairs that
      colexify in some wordlist and pass the filter, where a missing or zero
      threshold means 1; no edge is a self-loop, and the summary has at most
      ten rows, all of unfiltered edges. */
  lemma ColexificationGraph(concepts: seq<string>, wordlists: seq<(CC.Variety, seq<Models.Form>)>,
                            edgefilter: string, threshold: Option<int>, nodenames: map<string, string>, k: set<string>)
    requires Colexification(concepts, wordlists, edgefilter, threshold, nodenames).Success?
    ensures var cs := AllColexes(wordlists);
      var g := CC.Accumulate(CC.Start(concepts), cs).value;
      var saved := Colexification(concepts, wordlists, edgefilter, threshold, nodenames).value.network.graph;
      && (k in g.edges <==> |CC.EntriesOf(cs, k)| > 0)
      && (k in saved.edges <==> k in g.edges && CC.PassFilter(g.edges[k], edgefilter, OrDefault(threshold, 1)))
      && (k in saved.edges ==> |k| == 2)
    ensures var rows := Colexification(concepts, wordlists, edgefilter, threshold, nodenames).value.network.summary;
      |rows| <= SummarySize
  {
    var cs := AllColexes(wordlists);
    var t := OrDefault(threshold, 1);
    CC.RunGraph(concepts, cs, edgefilter, t, SummarySize, nodenames, k);
    var g := CC.Accumulate(CC.Start(concepts), cs).value;
    if k in g.edges {
      EntriesFrom(cs, k);
      var i :| 0 <= i < |cs| && CC.KeyOf(cs[i]) == k;
      AllColexesNoLoops(wordlists, cs[i]);
    }
    var g0 := CC.Start(concepts);
    CC.AccumulateOk(g0, cs);
    CC.SummaryRows(CC.Edges(g), edgefilter, t, SummarySize, nodenames);
  }

  /* ------------------------------------------------------------ cluster */

  datatype ClusterOutcome = Algorithms(names: seq<string>) | Clusters(threshold: int, clusters: seq<seq<string>>)

  /** The `cluster` command: the first argument names the algorithm, `list`
      lists the registered ones, an unknown name is a ParserError; the graph
      is loaded with the threshold (default 3) and the clusters `raw` the
      algorithm returns for it are sorted by `(-len(c), c)`. */
  function Cluster(args: seq<string>, registry: seq<string>, threshold: Option<int>, raw: seq<seq<string>>): (r: Result<ClusterOutcome>)
    ensures r.Failure? <==> |args| == 0 || (args[0] != "list" && args[0] !in registry)
    ensures |args| == 0 ==> r == Failure(IndexError)
    ensures |args| > 0 && args[0] != "list" && args[0] !in registry ==>
      r == Failure(ParserError("Unknown cluster algorithm: " + args[0]))
    ensures r.Success? ==> (r.value.Algorithms? <==> args[0] == "list")
    ensures r.Success? && r.value.Algorithms? ==> r.value.names == registry
    ensures r.Success? && r.value.Clusters? ==> r.value.threshold == OrDefault(threshold, 3)
  {
    if |args| == 0 then Failure(IndexError)
    else if args[0] == "list" then Success(Algorithms(registry))
    else if args[0] !in registry then Failure(ParserError("Unknown cluster algorithm: " + args[0]))
    else Success(Clusters(OrDefault(threshold, 3), KC.SortClusters(raw)))
  }

  /** The printed clusters are the algorithm's clusters, larger first and
      equal sizes by contents. */
  lemma ClusterOrder(args: seq<string>, registry: seq<string>, threshold: Option<int>, raw: seq<seq<string>>)
    requires Cluster(args, registry, threshold, raw).Success?
    requires Cluster(args, registry, threshold, raw).value.Clusters?
    ensures var cs := Cluster(args, registry, threshold, raw).value.clusters;
      && multiset(cs) == multiset(raw)
      && (forall i, j :: 0 <= i < j < |cs| ==> |cs[i]| >= |cs[j]|)
      && (forall i, j :: 0 <= i < j < |cs| && |cs[i]| == |cs[j]| ==> SeqLe(cs[i], cs[j]))
  {
    KC.SortClustersOrder(raw);
  }

  /* ------------------------------------------------------------ subgraph */

  /** Two graph nodes share an edge (`b in graph[a]`). */
  predicate Linked(g: KC.Graph, a: string, b: string)
  {
    a in g.nodes && b in g.nodes && {a, b} in g.edges
  }

  /** The graph as the neighbourhood growth reads it: `graph[n]` is the set
      of nodes sharing an edge with `n`. */
  function Adjacency(g: KC.Graph): Plugin.Graph<string>
  {
    Plugin.Graph(g.nodes, set a, b | a in g.nodes && b in g.nodes && {a, b} in g.edges :: (a, b))
  }

  lemma AdjacencyMeans(g: KC.Graph)
    ensures forall a, b :: Plugin.Adjacent(Adjacency(g), a, b) <==> Linked(g, a, b)
  {
    forall a, b ensures Plugin.Adjacent(Adjacency(g), a, b) <==> Linked(g, a, b) {
      assert {b, a} == {a, b};
    }
  }

  /** The neighbours of `v`: the first generation of its growth. */
  function Neighbours(g: KC.Graph, v: string): set<string>
  {
    Plugin.NextGen(Adjacency(g), {v})
  }

  /** `data['subgraph']`: the neighbourhood grown around `v`. */
  function Hood(g: KC.Graph, v: string): set<string>
  {
    Plugin.Neighbourhood(Adjacency(g), v)
  }

  /** A node's neighbourhood holds the node and only nodes at most two
      edges away; it holds all the node's neighbours unless there are more
      than 50 of them. */
  lemma HoodBounds(g: KC.Graph, v: string)
    ensures forall n :: n in Neighbours(g, v) <==> Linked(g, v, n)
    ensures v in Hood(g, v)
    ensures forall m :: m in Hood(g, v) ==>
      m == v || Linked(g, v, m) || exists k :: Linked(g, v, k) && Linked(g, k, m)
    ensures |Neighbours(g, v)| <= Plugin.MaxGeneration ==> Neighbours(g, v) <= Hood(g, v)
  {
    AdjacencyMeans(g);
    Plugin.NeighbourhoodBounds(Adjacency(g), v);
    if |Neighbours(g, v)| <= Plugin.MaxGeneration {
      Plugin.NeighbourhoodHasNeighbours(Adjacency(g), v);
    }
  }

  /** A neighbourhood lies within the graph's nodes. */
  lemma HoodInGraph(g: KC.Graph, v: string)
    requires v in g.nodes
    ensures forall m :: m in Hood(g, v) ==> m in g.nodes
    ensures v in KC.Restrict(g.nodes, Hood(g, v))
  {
    HoodBounds(g, v);
  }

  /** A node with more than 50 neighbours stops growing at once: its
      neighbourhood is the node alone. */
  lemma HubHood(g: KC.Graph, v: string)
    requires |Neighbours(g, v)| > Plugin.MaxGeneration
    ensures Hood(g, v) == {v}
  {
    var adj := Adjacency(g);
    assert Plugin.Union([{v}]) == {v} by {
      assert Plugin.Union([{v}]) == Plugin.Union([]) + {v};
    }
    assert Plugin.Grow(adj, [{v}]) == [{v}];
  }

  /** `sorted(..., key=len(subgraph), reverse=True)`: larger neighbourhoods first. */
  function LargerHood(g: KC.Graph): (string, string) -> bool
  {
    (a: string, b: string) => |Hood(g, a)| >= |Hood(g, b)|
  }

  lemma LargerHoodPreorder(g: KC.Graph)
    ensures Sorting.TotalPreorder(LargerHood(g))
  {
  }

  /** The order in which the naming loop visits the nodes. */
  function ProcessingOrder(g: KC.Graph): seq<string>
  {
    Sorting.Sort(g.nodes, LargerHood(g))
  }

  /** The loop visits every node once, larger neighbourhoods first and
      nodes with equally large neighbourhoods in graph order. */
  lemma ProcessingOrderMeans(g: KC.Graph, z: string)
    ensures var r := ProcessingOrder(g);
      && multiset(r) == multiset(g.nodes)
      && (forall i, j :: 0 <= i < j < |r| ==> |Hood(g, r[i])| >= |Hood(g, r[j])|)
      && Sorting.Equivalents(r, z, LargerHood(g)) == Sorting.Equivalents(g.nodes, z, LargerHood(g))
  {
    LargerHoodPreorder(g);
    Sorting.SortSorted(g.nodes, LargerHood(g));
    Sorting.SortStable(g.nodes, z, LargerHood(g));
  }

  lemma OrderInGraph(g: KC.Graph)
    ensures forall i :: 0 <= i < |ProcessingOrder(g)| ==> ProcessingOrder(g)[i] in g.nodes
  {
    var r := ProcessingOrder(g);
    ProcessingOrderMeans(g, "");
    forall i | 0 <= i < |r| ensures r[i] in g.nodes {
      assert r[i] in multiset(g.nodes);
    }
  }

  /** The `subgraph` attribute of every node, computed before the naming loop. */
  function HoodsMap(g: KC.Graph): (r: map<string, set<string>>)
    ensures forall v :: v in r <==> v in g.nodes
  {
    map v | v in g.nodes :: Hood(g, v)
  }

  /** `data['subgraph']` as the naming loop reads it. */
  function HoodOf(hoods: map<string, set<string>>, v: string): set<string>
  {
    if v in hoods then hoods[v] else {}
  }

  /** The gloss of the neighbourhood's central concept: its first node of
      highest degree, in graph order. */
  function CentralGloss(g: KC.Graph, hood: set<string>): string
  {
    var sg := KC.Restrict(g.nodes, hood);
    if |sg| == 0 then "" else KC.GlossOf(g, KC.CentralNode(g, sg))
  }

  /** `'subgraph_{nidx}_{gloss}'`. */
  function HoodName(g: KC.Graph, hood: set<string>, idx: nat): string
  {
    KC.Name("subgraph", idx, CentralGloss(g, hood))
  }

  /** A neighbourhood of more than one node gets a file and a `cluster_names` entry. */
  predicate Multi(g: KC.Graph, hood: set<string>)
  {
    |KC.Restrict(g.nodes, hood)| > 1
  }

  /** `nodes2cluster` as the number each distinct neighbourhood was given
      (its name is derived from the number), and `nidx`. */
  datatype Numbering<K> = Numbering(ids: map<K, nat>, next: nat)

  /** A key seen for the first time takes the next number. */
  function Number<K(==)>(n: Numbering<K>, k: K): (r: Numbering<K>)
    ensures k in r.ids
    ensures forall x :: x in n.ids ==> x in r.ids && r.ids[x] == n.ids[x]
  {
    if k in n.ids then n else Numbering(n.ids[k := n.next], n.next + 1)
  }

  /** The naming loop's state: the numbering, the `ClusterName` node
      attribute and `cluster_names`. */
  datatype Naming = Naming(nums: Numbering<set<string>>, clusterName: map<string, string>, clusterNames: map<string, string>)

  const NoNames: Naming := Naming(Numbering(map[], 1), map[], map[])

  /** One pass of the naming loop for node `v`, without the `OutEdge` part:
      the neighbourhood is numbered, `v` is named after it, and a
      neighbourhood of several nodes files `v`'s gloss under that name. */
  function NameStep(g: KC.Graph, hoods: map<string, set<string>>, st: Naming, v: string): Naming
  {
    var hood := HoodOf(hoods, v);
    var nums := Number(st.nums, hood);
    var name := HoodName(g, hood, nums.ids[hood]);
    Naming(nums, st.clusterName[v := name],
      if Multi(g, hood) then st.clusterNames[KC.GlossOf(g, v) := name] else st.clusterNames)
  }

  function NameAll(g: KC.Graph, hoods: map<string, set<string>>, xs: seq<string>): Naming
  {
    if |xs| == 0 then NoNames else NameStep(g, hoods, NameAll(g, hoods, xs[..|xs| - 1]), xs[|xs| - 1])
  }

  /** The loop as written: a node with a strong link leaving its
      neighbourhood builds `OutEdge` entries that read the `ClusterName` and
      `CentralConcept` attributes of the first node of its neighbourhood;
      the command never sets `CentralConcept`, so the lookup raises. */
  predicate Strays(g: KC.Graph, hoods: map<string, set<string>>, v: string, nw: int)
  {
    |KC.Neighbours(g, v, KC.Restrict(g.nodes, HoodOf(hoods, v)), nw)| > 0
  }

  function NameStepAsWritten(g: KC.Graph, hoods: map<string, set<string>>, nw: int, st: Naming, v: string): (r: Result<Naming>)
  {
    var next := NameStep(g, hoods, st, v);
    var sg := KC.Restrict(g.nodes, HoodOf(hoods, v));
    if Strays(g, hoods, v, nw) then
      Failure(KeyError(if |sg| > 0 && sg[0] in next.clusterName then "CentralConcept" else "ClusterName"))
    else Success(next)
  }

  function NameAllAsWritten(g: KC.Graph, hoods: map<string, set<string>>, nw: int, xs: seq<string>): (r: Result<Naming>)
  {
    if |xs| == 0 then Success(NoNames)
    else match NameAllAsWritten(g, hoods, nw, xs[..|xs| - 1])
      case Failure(e) => Failure(e)
      case Success(st) => NameStepAsWritten(g, hoods, nw, st, xs[|xs| - 1])
  }

  /* ---------------------------------------------- subgraph: the invariant */

  /** The numbering of a sequence of keys on its own. */
  function NumberAll<K(==)>(ks: seq<K>): Numbering<K>
  {
    if |ks| == 0 then Numbering(map[], 1) else Number(NumberAll(ks[..|ks| - 1]), ks[|ks| - 1])
  }

  /** The neighbourhoods in visiting order. */
  function HoodSeq(hoods: map<string, set<string>>, xs: seq<string>): (r: seq<set<string>>)
    ensures |r| == |xs| && forall i :: 0 <= i < |xs| ==> r[i] == HoodOf(hoods, xs[i])
  {
    seq(|xs|, (i: int) requires 0 <= i < |xs| => HoodOf(hoods, xs[i]))
  }

  lemma {:induction false} NameAllNumbers(g: KC.Graph, hoods: map<string, set<string>>, xs: seq<string>)
    ensures NameAll(g, hoods, xs).nums == NumberAll(HoodSeq(hoods, xs))
  {
    if |xs| > 0 {
      NameAllNumbers(g, hoods, xs[..|xs| - 1]);
      assert HoodSeq(hoods, xs)[..|xs| - 1] == HoodSeq(hoods, xs[..|xs| - 1]);
    }
  }

  /** The keys met in `ks`. */
  function Met<K>(ks: seq<K>): set<K>
  {
    set i | 0 <= i < |ks| :: ks[i]
  }

  /** The numbers given are `1 .. |met|`, one per key met. */
  ghost predicate IdsOk<K(!new)>(n: Numbering<K>, ks: seq<K>)
  {
    && n.ids.Keys == Met(ks)
    && n.next == |Met(ks)| + 1
    && (forall k :: k in n.ids ==> 1 <= n.ids[k] < n.next)
    && (forall k1, k2 :: k1 in n.ids && k2 in n.ids && n.ids[k1] == n.ids[k2] ==> k1 == k2)
  }

  /** Each distinct key is numbered by its first appearance: the j-th
      distinct one met gets j. */
  ghost predicate FirstSeen<K(!new)>(n: Numbering<K>, ks: seq<K>)
  {
    forall i :: 0 <= i < |ks| && ks[i] !in Met(ks[..i]) ==> ks[i] in n.ids && n.ids[ks[i]] == |Met(ks[..i])| + 1
  }

  lemma {:induction false} MetSnoc<K>(ks: seq<K>, k: K)
    ensures Met(ks + [k]) == Met(ks) + {k}
  {
    var ys := ks + [k];
    forall x | x in Met(ys) ensures x in Met(ks) + {k} {
      var i :| 0 <= i < |ys| && ys[i] == x;
      if i < |ks| {
        assert ks[i] == x;
      }
    }
    forall x | x in Met(ks) ensures x in Met(ys) {
      var i :| 0 <= i < |ks| && ks[i] == x;
      assert ys[i] == x;
    }
    assert ys[|ks|] == k;
  }

  /** Numbering keeps every number given so far and gives a new key the
      next one. */
  lemma {:induction false} IdsStep<K(!new)>(n: Numbering<K>, ks: seq<K>, k: K)
    requires IdsOk(n, ks)
    ensures IdsOk(Number(n, k), ks + [k])
    ensures forall x :: x in n.ids ==> Number(n, k).ids[x] == n.ids[x]
    ensures k !in Met(ks) ==> Number(n, k).ids[k] == |Met(ks)| + 1
  {
    MetSnoc(ks, k);
  }

  /** A key met first at the end gets the count of those met before it, plus one. */
  lemma {:induction false} FirstSeenStep<K(!new)>(n: Numbering<K>, ks: seq<K>, k: K)
    requires n.ids.Keys == Met(ks) && n.next == |Met(ks)| + 1 && FirstSeen(n, ks)
    ensures FirstSeen(Number(n, k), ks + [k])
  {
    var r := Number(n, k);
    var ys := ks + [k];
    forall i | 0 <= i < |ys| && ys[i] !in Met(ys[..i])
      ensures ys[i] in r.ids && r.ids[ys[i]] == |Met(ys[..i])| + 1
    {
      if i < |ks| {
        assert ys[..i] == ks[..i] && ys[i] == ks[i];
        assert ks[i] in n.ids;
      } else {
        assert ys[..i] == ks && ys[i] == k;
      }
    }
  }

  lemma {:induction false} NumberAllOk<K(!new)>(ks: seq<K>)
    ensures IdsOk(NumberAll(ks), ks) && FirstSeen(NumberAll(ks), ks)
  {
    if |ks| == 0 {
      assert Met(ks) == {};
    } else {
      var init := ks[..|ks| - 1];
      assert init + [ks[|ks| - 1]] == ks;
      NumberAllOk(init);
      IdsStep(NumberAll(init), init, ks[|ks| - 1]);
      FirstSeenStep(NumberAll(init), init, ks[|ks| - 1]);
    }
  }

  /** Every visited node is named after its neighbourhood's number. */
  ghost predicate NamesOk(g: KC.Graph, hoods: map<string, set<string>>, st: Naming, xs: seq<string>)
  {
    && (forall v :: v in xs ==> HoodOf(hoods, v) in st.nums.ids)
    && (forall v :: v in st.clusterName <==> v in xs)
    && (forall v :: v in st.clusterName ==>
          HoodOf(hoods, v) in st.nums.ids && st.clusterName[v] == HoodName(g, HoodOf(hoods, v), st.nums.ids[HoodOf(hoods, v)]))
  }

  /** `cluster_names` holds the glosses of the visited nodes with several
      nodes in their neighbourhood. */
  ghost predicate FilesOk(g: KC.Graph, hoods: map<string, set<string>>, st: Naming, xs: seq<string>)
  {
    forall gl :: gl in st.clusterNames <==> exists v :: v in xs && Multi(g, HoodOf(hoods, v)) && KC.GlossOf(g, v) == gl
  }

  /** Each filed gloss is filed under a neighbourhood name of a node with that gloss. */
  ghost predicate FilesNamed(g: KC.Graph, hoods: map<string, set<string>>, st: Naming)
  {
    forall gl :: gl in st.clusterNames ==> exists v :: FiledAs(g, hoods, st, v, gl)
  }

  /** `v`'s gloss is filed under the name of `v`'s neighbourhood. */
  ghost predicate FiledAs(g: KC.Graph, hoods: map<string, set<string>>, st: Naming, v: string, gl: string)
    requires gl in st.clusterNames
  {
    && Multi(g, HoodOf(hoods, v)) && KC.GlossOf(g, v) == gl
    && HoodOf(hoods, v) in st.nums.ids
    && st.clusterNames[gl] == HoodName(g, HoodOf(hoods, v), st.nums.ids[HoodOf(hoods, v)])
  }

  lemma {:induction false} NamesStep(g: KC.Graph, hoods: map<string, set<string>>, st: Naming, xs: seq<string>, v: string)
    requires NamesOk(g, hoods, st, xs)
    ensures NamesOk(g, hoods, NameStep(g, hoods, st, v), xs + [v])
  {
    var ys := xs + [v];
    assert forall x :: x in ys <==> x in xs || x == v;
  }

  lemma {:induction false} FilesStep(g: KC.Graph, hoods: map<string, set<string>>, st: Naming, xs: seq<string>, v: string)
    requires FilesOk(g, hoods, st, xs)
    ensures FilesOk(g, hoods, NameStep(g, hoods, st, v), xs + [v])
  {
    var r := NameStep(g, hoods, st, v);
    var ys := xs + [v];
    var multi := Multi(g, HoodOf(hoods, v));
    assert r.clusterNames.Keys == if multi then st.clusterNames.Keys + {KC.GlossOf(g, v)} else st.clusterNames.Keys;
    forall gl ensures gl in r.clusterNames <==> exists w :: w in ys && Multi(g, HoodOf(hoods, w)) && KC.GlossOf(g, w) == gl {
      if gl in r.clusterNames {
        if multi && KC.GlossOf(g, v) == gl {
          assert v in ys;
        } else {
          var w :| w in xs && Multi(g, HoodOf(hoods, w)) && KC.GlossOf(g, w) == gl;
          assert w in ys;
        }
      } else {
        forall w | w in ys ensures !(Multi(g, HoodOf(hoods, w)) && KC.GlossOf(g, w) == gl) {
          if w !in xs {
            assert w == v;
          }
        }
      }
    }
  }

  lemma {:induction false} FilesNamedStep(g: KC.Graph, hoods: map<string, set<string>>, st: Naming, v: string)
    requires FilesNamed(g, hoods, st)
    ensures FilesNamed(g, hoods, NameStep(g, hoods, st, v))
  {
    var r := NameStep(g, hoods, st, v);
    forall gl | gl in r.clusterNames ensures exists w :: FiledAs(g, hoods, r, w, gl) {
      if Multi(g, HoodOf(hoods, v)) && KC.GlossOf(g, v) == gl {
        FiledNew(g, hoods, st, v);
      } else {
        var w :| FiledAs(g, hoods, st, w, gl);
        FiledKept(g, hoods, st, v, w, gl);
      }
    }
  }

  /** The pass for `v` files `v`'s gloss under its neighbourhood's name. */
  lemma FiledNew(g: KC.Graph, hoods: map<string, set<string>>, st: Naming, v: string)
    requires Multi(g, HoodOf(hoods, v))
    ensures KC.GlossOf(g, v) in NameStep(g, hoods, st, v).clusterNames
    ensures FiledAs(g, hoods, NameStep(g, hoods, st, v), v, KC.GlossOf(g, v))
  {
  }

  /** A filing not overwritten by the pass for `v` stays valid. */
  lemma FiledKept(g: KC.Graph, hoods: map<string, set<string>>, st: Naming, v: string, w: string, gl: string)
    requires gl in st.clusterNames && FiledAs(g, hoods, st, w, gl)
    requires !(Multi(g, HoodOf(hoods, v)) && KC.GlossOf(g, v) == gl)
    ensures gl in NameStep(g, hoods, st, v).clusterNames && FiledAs(g, hoods, NameStep(g, hoods, st, v), w, gl)
  {
    var nums := Number(st.nums, HoodOf(hoods, v));
    assert NameStep(g, hoods, st, v).nums == nums;
    assert NameStep(g, hoods, st, v).clusterNames[gl] == st.clusterNames[gl];
  }

  /** After visiting `xs`, the state numbers and names as described. */
  lemma {:induction false} NameAllOk(g: KC.Graph, hoods: map<string, set<string>>, xs: seq<string>)
    ensures NamesOk(g, hoods, NameAll(g, hoods, xs), xs) && FilesOk(g, hoods, NameAll(g, hoods, xs), xs)
    ensures FilesNamed(g, hoods, NameAll(g, hoods, xs))
  {
    if |xs| > 0 {
      var init := xs[..|xs| - 1];
      assert init + [xs[|xs| - 1]] == xs;
      NameAllOk(g, hoods, init);
      NamesStep(g, hoods, NameAll(g, hoods, init), init, xs[|xs| - 1]);
      FilesStep(g, hoods, NameAll(g, hoods, init), init, xs[|xs| - 1]);
      FilesNamedStep(g, hoods, NameAll(g, hoods, init), xs[|xs| - 1]);
    }
  }

  /* ------------------------------------------------ subgraph: the crash */

  /** A node's links leave its neighbourhood only when it has more than 50
      neighbours, and then every strong link other than a loop does. */
  lemma StraysMeans(g: KC.Graph, v: string, nw: int)
    requires v in g.nodes
    ensures Strays(g, HoodsMap(g), v, nw) <==>
      && |Neighbours(g, v)| > Plugin.MaxGeneration
      && exists n :: n != v && Linked(g, v, n) && g.edges[{v, n}].familyWeight >= nw
  {
    var hoods := HoodsMap(g);
    assert HoodOf(hoods, v) == Hood(g, v);
    var sg := KC.Restrict(g.nodes, Hood(g, v));
    HoodBounds(g, v);
    if Strays(g, hoods, v, nw) {
      var ns := KC.Neighbours(g, v, sg, nw);
      assert ns[0] in ns;
      assert Linked(g, v, ns[0]) && ns[0] !in Hood(g, v);
    }
    if |Neighbours(g, v)| > Plugin.MaxGeneration && exists n :: n != v && Linked(g, v, n) && g.edges[{v, n}].familyWeight >= nw {
      var n :| n != v && Linked(g, v, n) && g.edges[{v, n}].familyWeight >= nw;
      HubHood(g, v);
      assert n !in sg;
      assert n in g.nodes && {v, n} in g.edges;
      assert n in KC.Neighbours(g, v, sg, nw);
    }
  }

  /** A stray node's neighbourhood is the node alone, which the pass has
      just named, so the lookup that fails is always `CentralConcept`. */
  lemma StepAsWritten(g: KC.Graph, nw: int, st: Naming, v: string)
    requires v in g.nodes
    ensures NameStepAsWritten(g, HoodsMap(g), nw, st, v) ==
      if Strays(g, HoodsMap(g), v, nw) then Failure(KeyError("CentralConcept"))
      else Success(NameStep(g, HoodsMap(g), st, v))
  {
    var hoods := HoodsMap(g);
    if Strays(g, hoods, v, nw) {
      assert HoodOf(hoods, v) == {v} by {
        StraysMeans(g, v, nw);
        HubHood(g, v);
      }
      var sg := KC.Restrict(g.nodes, {v});
      assert sg[0] == v by {
        assert v in sg;
        assert sg[0] in sg;
      }
    }
  }

  /** No node of `xs` has a strong link leaving its neighbourhood. */
  predicate Calm(g: KC.Graph, nw: int, xs: seq<string>)
  {
    forall i :: 0 <= i < |xs| ==> !Strays(g, HoodsMap(g), xs[i], nw)
  }

  lemma CalmSnoc(g: KC.Graph, nw: int, xs: seq<string>)
    requires |xs| > 0
    ensures Calm(g, nw, xs) <==> Calm(g, nw, xs[..|xs| - 1]) && !Strays(g, HoodsMap(g), xs[|xs| - 1], nw)
  {
    assert forall i :: 0 <= i < |xs| - 1 ==> xs[..|xs| - 1][i] == xs[i];
  }

  /** The naming loop as written finishes exactly when no visited node has a
      strong link leaving its neighbourhood, and then it agrees with the
      corrected loop; otherwise it stops with `KeyError('CentralConcept')`. */
  lemma {:induction false} NameAllAsWrittenMeans(g: KC.Graph, nw: int, xs: seq<string>)
    requires forall i :: 0 <= i < |xs| ==> xs[i] in g.nodes
    ensures var r := NameAllAsWritten(g, HoodsMap(g), nw, xs);
      && (r.Success? <==> Calm(g, nw, xs))
      && (r.Success? ==> r.value == NameAll(g, HoodsMap(g), xs))
      && (r.Failure? ==> r.error == KeyError("CentralConcept"))
  {
    if |xs| > 0 {
      var init := xs[..|xs| - 1];
      assert forall i :: 0 <= i < |init| ==> init[i] == xs[i];
      NameAllAsWrittenMeans(g, nw, init);
      CalmSnoc(g, nw, xs);
      var r := NameAllAsWritten(g, HoodsMap(g), nw, init);
      if r.Success? {
        StepAsWritten(g, nw, r.value, xs[|xs| - 1]);
      }
    }
  }

  /* --------------------------------------------------- subgraph: the command */

  /** What `subgraph` leaves behind: the `subgraph` attribute of every node
      (saved with the graph before the naming loop) and the naming loop's
      outcome. */
  datatype SubgraphRun<T> = SubgraphRun(hoods: map<string, set<string>>, naming: T)

  /** The command with its naming loop corrected: no `OutEdge` lookups of
      attributes the command never sets. */
  function Subgraph(g: KC.Graph): SubgraphRun<Naming>
  {
    SubgraphRun(HoodsMap(g), NameAll(g, HoodsMap(g), ProcessingOrder(g)))
  }

  /** The command as written; `neighbor_weight` defaults to 5. */
  function SubgraphAsWritten(g: KC.Graph, neighbourWeight: Option<int>): SubgraphRun<Result<Naming>>
  {
    SubgraphRun(HoodsMap(g), NameAllAsWritten(g, HoodsMap(g), OrDefault(neighbourWeight, 5), ProcessingOrder(g)))
  }

  /** A node with more than 50 neighbours and a link of family weight at
      least `w` to another node. */
  ghost predicate StrongHub(g: KC.Graph, v: string, w: int)
  {
    && |Neighbours(g, v)| > Plugin.MaxGeneration
    && exists n :: n != v && Linked(g, v, n) && g.edges[{v, n}].familyWeight >= w
  }

  lemma CalmMeans(g: KC.Graph, w: int)
    ensures Calm(g, w, ProcessingOrder(g)) <==> forall v :: v in g.nodes ==> !StrongHub(g, v, w)
  {
    var order := ProcessingOrder(g);
    assert forall v :: v in g.nodes <==> v in order by {
      ProcessingOrderMeans(g, "");
      assert forall v :: v in g.nodes <==> v in multiset(order);
    }
    forall v | v in g.nodes ensures StrongHub(g, v, w) <==> Strays(g, HoodsMap(g), v, w) {
      StraysMeans(g, v, w);
    }
    if !Calm(g, w, order) {
      var i :| 0 <= i < |order| && Strays(g, HoodsMap(g), order[i], w);
      assert order[i] in order;
    }
  }

  /** The command as written saves the neighbourhoods, then finishes only on
      a graph without a strong hub; there it names as the corrected command
      does, and on any other graph it stops with `KeyError('CentralConcept')`. */
  lemma SubgraphAsWrittenMeans(g: KC.Graph, neighbourWeight: Option<int>)
    ensures var r := SubgraphAsWritten(g, neighbourWeight);
      && r.hoods == Subgraph(g).hoods
      && (r.naming.Success? <==> forall v :: v in g.nodes ==> !StrongHub(g, v, OrDefault(neighbourWeight, 5)))
      && (r.naming.Success? ==> r.naming.value == Subgraph(g).naming)
      && (r.naming.Failure? ==> r.naming.error == KeyError("CentralConcept"))
  {
    OrderInGraph(g);
    NameAllAsWrittenMeans(g, OrDefault(neighbourWeight, 5), ProcessingOrder(g));
    CalmMeans(g, OrDefault(neighbourWeight, 5));
  }

  /** The saved `subgraph` attribute of a node: the node itself and nodes
      at most two links away, all its neighbours unless it has more than 50,
      and then the node alone. */
  lemma SubgraphHoods(g: KC.Graph, v: string)
    requires v in g.nodes
    ensures v in Subgraph(g).hoods
    ensures var h := Subgraph(g).hoods[v];
      && v in h
      && (forall m :: m in h ==> m in g.nodes && (m == v || Linked(g, v, m) || exists k :: Linked(g, v, k) && Linked(g, k, m)))
      && (|Neighbours(g, v)| <= Plugin.MaxGeneration ==> forall n :: Linked(g, v, n) ==> n in h)
      && (|Neighbours(g, v)| > Plugin.MaxGeneration ==> h == {v})
  {
    HoodBounds(g, v);
    HoodInGraph(g, v);
    if |Neighbours(g, v)| > Plugin.MaxGeneration {
      HubHood(g, v);
    }
  }

  /** The visiting order holds exactly the graph's nodes. */
  lemma OrderMembers(g: KC.Graph)
    ensures forall v :: v in ProcessingOrder(g) <==> v in g.nodes
  {
    ProcessingOrderMeans(g, "");
    assert forall v :: v in g.nodes <==> v in multiset(ProcessingOrder(g));
  }

  /* What the corrected command's naming loop leaves, in terms of the loop's
     invariants, one invariant at a time. */

  lemma SubgraphIds(g: KC.Graph)
    ensures var hs := HoodSeq(HoodsMap(g), ProcessingOrder(g));
      IdsOk(Subgraph(g).naming.nums, hs) && FirstSeen(Subgraph(g).naming.nums, hs)
  {
    var hoods, order := HoodsMap(g), ProcessingOrder(g);
    NameAllNumbers(g, hoods, order);
    NumberAllOk(HoodSeq(hoods, order));
  }

  lemma SubgraphNamesOk(g: KC.Graph)
    ensures NamesOk(g, HoodsMap(g), Subgraph(g).naming, ProcessingOrder(g))
  {
    NameAllOk(g, HoodsMap(g), ProcessingOrder(g));
  }

  lemma SubgraphFilesOk(g: KC.Graph)
    ensures FilesOk(g, HoodsMap(g), Subgraph(g).naming, ProcessingOrder(g))
    ensures FilesNamed(g, HoodsMap(g), Subgraph(g).naming)
  {
    NameAllOk(g, HoodsMap(g), ProcessingOrder(g));
  }

  /** The neighbourhood the naming loop reads for a node is the one grown
      around it. */
  lemma HoodOfGraph(g: KC.Graph, v: string)
    requires v in g.nodes
    ensures HoodOf(HoodsMap(g), v) == Hood(g, v)
  {
  }

  /** Exactly the graph's nodes are named. */
  lemma SubgraphNamed(g: KC.Graph)
    ensures forall v :: v in Subgraph(g).naming.clusterName <==> v in g.nodes
  {
    SubgraphNamesOk(g);
    OrderMembers(g);
  }

  /** Every node is named `subgraph_{k}_{gloss}` after its neighbourhood,
      where `gloss` is the neighbourhood's central concept and `k`, between 1
      and the number of distinct neighbourhoods, is the neighbourhood's
      number. */
  lemma SubgraphNameOf(g: KC.Graph, v: string)
    requires v in g.nodes
    ensures var r := Subgraph(g); var ids := r.naming.nums.ids;
      && v in r.naming.clusterName
      && Hood(g, v) in ids
      && 1 <= ids[Hood(g, v)] <= |Met(HoodSeq(r.hoods, ProcessingOrder(g)))|
      && r.naming.clusterName[v] == KC.Name("subgraph", ids[Hood(g, v)], CentralGloss(g, Hood(g, v)))
  {
    var r := Subgraph(g);
    var h := Hood(g, v);
    assert v in ProcessingOrder(g) by { OrderMembers(g); }
    HoodOfGraph(g, v);
    assert v in r.naming.clusterName && h in r.naming.nums.ids
      && r.naming.clusterName[v] == HoodName(g, h, r.naming.nums.ids[h]) by {
      SubgraphNamesOk(g);
    }
    assert 1 <= r.naming.nums.ids[h] < r.naming.nums.next == |Met(HoodSeq(r.hoods, ProcessingOrder(g)))| + 1 by {
      SubgraphIds(g);
    }
  }

  /** The neighbourhoods are numbered in visiting order: one not met before
      takes the count of the distinct ones met so far, plus one. */
  lemma SubgraphNumbering(g: KC.Graph)
    ensures var r := Subgraph(g); var order := ProcessingOrder(g); var hs := HoodSeq(r.hoods, order);
      forall i :: 0 <= i < |order| && hs[i] !in Met(hs[..i]) ==>
        hs[i] == Hood(g, order[i]) && hs[i] in r.naming.nums.ids && r.naming.nums.ids[hs[i]] == |Met(hs[..i])| + 1
  {
    SubgraphIds(g);
    OrderInGraph(g);
  }

  /** Two nodes share a name exactly when they share a neighbourhood. */
  lemma SubgraphSameName(g: KC.Graph, u: string, v: string)
    requires u in g.nodes && v in g.nodes
    ensures u in Subgraph(g).naming.clusterName && v in Subgraph(g).naming.clusterName
    ensures Subgraph(g).naming.clusterName[u] == Subgraph(g).naming.clusterName[v] <==> Hood(g, u) == Hood(g, v)
  {
    var r := Subgraph(g);
    var ids := r.naming.nums.ids;
    SubgraphNameOf(g, u);
    SubgraphNameOf(g, v);
    SubgraphIds(g);
    if r.naming.clusterName[u] == r.naming.clusterName[v] {
      KC.NamesDistinct("subgraph", ids[Hood(g, u)], CentralGloss(g, Hood(g, u)), ids[Hood(g, v)], CentralGloss(g, Hood(g, v)));
    }
  }

  /** `cluster_names` files the gloss of every node whose neighbourhood has
      several nodes, and nothing else. */
  lemma SubgraphFiled(g: KC.Graph, gl: string)
    ensures gl in Subgraph(g).naming.clusterNames <==>
      exists v :: v in g.nodes && Multi(g, Hood(g, v)) && KC.GlossOf(g, v) == gl
  {
    var r := Subgraph(g);
    SubgraphFilesOk(g);
    OrderMembers(g);
    if gl in r.naming.clusterNames {
      var v :| v in ProcessingOrder(g) && Multi(g, HoodOf(r.hoods, v)) && KC.GlossOf(g, v) == gl;
      HoodOfGraph(g, v);
    }
    if exists v :: v in g.nodes && Multi(g, Hood(g, v)) && KC.GlossOf(g, v) == gl {
      var v :| v in g.nodes && Multi(g, Hood(g, v)) && KC.GlossOf(g, v) == gl;
      HoodOfGraph(g, v);
      assert v in ProcessingOrder(g);
    }
  }

  /** A filed gloss is filed under the name of one of the nodes it belongs to. */
  lemma SubgraphFiledAs(g: KC.Graph, gl: string)
    requires gl in Subgraph(g).naming.clusterNames
    ensures exists v ::
      && v in g.nodes && Multi(g, Hood(g, v)) && KC.GlossOf(g, v) == gl
      && v in Subgraph(g).naming.clusterName && Subgraph(g).naming.clusterNames[gl] == Subgraph(g).naming.clusterName[v]
  {
    var r := Subgraph(g);
    assert exists w :: FiledAs(g, r.hoods, r.naming, w, gl) by { SubgraphFilesOk(g); }
    var v :| FiledAs(g, r.hoods, r.naming, v, gl);
    assert v in g.nodes by { MultiInGraph(g, v); }
    assert HoodOf(r.hoods, v) == Hood(g, v) by { HoodOfGraph(g, v); }
    assert v in r.naming.clusterName && r.naming.clusterNames[gl] == r.naming.clusterName[v] by {
      SubgraphNameOf(g, v);
    }
  }

  /** Only a graph node has a neighbourhood of several nodes. */
  lemma MultiInGraph(g: KC.Graph, v: string)
    requires Multi(g, HoodOf(HoodsMap(g), v))
    ensures v in g.nodes
  {
    var sg := KC.Restrict(g.nodes, HoodOf(HoodsMap(g), v));
    assert sg[0] in sg;
  }
}
