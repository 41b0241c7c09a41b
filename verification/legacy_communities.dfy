/** The legacy `communities` command: infomap clustering of the loaded
    graph. It reads every node's family frequency, optionally normalises
    the edge weights, orders the partition infomap returns by size, labels
    every node with its community and then post-processes the communities
    as `cluster` does, except for the glosses it files.

    The infomap partition itself is a parameter: only the list of
    communities it returns enters the model. */
module LegacyCommunities {
  import opened Wrappers
  import Grouping
  import Sorting
  import Plugin
  import KC = ClusterCommand
  import LC = LegacyCommands

  /* ------------------------------------------------------- vertex weights */

  /** Some node carries no `FamilyFrequency` attribute. */
  predicate MissingFrequency(g: KC.Graph, freq: map<string, int>)
  {
    exists v :: v in g.nodes && v !in freq
  }

  /** A node's family frequency; the default is never read once every node
      is known to carry one. */
  function FreqOf(freq: map<string, int>, v: string): int
  {
    if v in freq then freq[v] else 0
  }

  /* ---------------------------------------------------------- edge weights */

  /** The two ends of an edge, in graph order; a loop's ends coincide. */
  function Ends(g: KC.Graph, e: set<string>): (r: (string, string))
    ensures (exists v :: v in e && v in g.nodes) ==> r.0 in e && r.1 in e
  {
    var s := KC.Restrict(g.nodes, e);
    if |s| == 0 then ("", "") else
      assert s[0] in s && s[|s| - 1] in s;
      (s[0], s[|s| - 1])
  }

  /** `fA + fB - w`, the denominator of an edge's normalised weight. */
  function Denominator(g: KC.Graph, freq: map<string, int>, weights: map<set<string>, int>, e: set<string>): int
    requires e in weights
  {
    FreqOf(freq, Ends(g, e).0) + FreqOf(freq, Ends(g, e).1) - weights[e]
  }

  /** Some edge's denominator is zero. */
  predicate ZeroDenominator(g: KC.Graph, freq: map<string, int>, weights: map<set<string>, int>)
    requires forall e :: e in g.edges ==> e in weights
  {
    exists e :: e in g.edges && Denominator(g, freq, weights, e) == 0
  }

  /** The normalised weight `w² / (fA + fB - w)` of one edge whose
      denominator is not zero. */
  function EdgeWeight(g: KC.Graph, freq: map<string, int>, weights: map<set<string>, int>, e: set<string>): (r: real)
    requires e in weights && Denominator(g, freq, weights, e) != 0
    ensures r * Denominator(g, freq, weights, e) as real == (weights[e] * weights[e]) as real
  {
    Plugin.NormalizedWeight(weights[e], FreqOf(freq, Ends(g, e).0), FreqOf(freq, Ends(g, e).1)).value
  }

  /** The `weight` attribute the normalisation puts on every edge; the
      division by zero of any edge stops the command. */
  function Normalize(g: KC.Graph, freq: map<string, int>, weights: map<set<string>, int>): (r: Result<map<set<string>, real>>)
    requires forall e :: e in g.edges ==> e in weights
    ensures r.Failure? <==> ZeroDenominator(g, freq, weights)
    ensures r.Failure? ==> r.error == ZeroDivision
    ensures r.Success? ==> r.value.Keys == g.edges.Keys
    ensures r.Success? ==> forall e :: e in r.value ==>
      Denominator(g, freq, weights, e) != 0 && r.value[e] == EdgeWeight(g, freq, weights, e)
  {
    if ZeroDenominator(g, freq, weights) then Failure(ZeroDivision)
    else
      Success(map e | e in g.edges :: EdgeWeight(g, freq, weights, e))
  }

  /** Every edge's weight is positive and at most the frequency of either
      end, as a family weight is at most the family frequency of the
      concepts it joins. */
  predicate WeightsBounded(g: KC.Graph, freq: map<string, int>, weights: map<set<string>, int>)
    requires forall e :: e in g.edges ==> e in weights
  {
    forall e :: e in g.edges ==>
      0 < weights[e] <= FreqOf(freq, Ends(g, e).0) && weights[e] <= FreqOf(freq, Ends(g, e).1)
  }

  /** On such weights normalising never divides by zero, and every
      normalised weight lies in `(0, w]`, reaching `w` exactly when both ends
      have frequency `w`. */
  lemma NormalizeBounds(g: KC.Graph, freq: map<string, int>, weights: map<set<string>, int>, e: set<string>)
    requires forall e :: e in g.edges ==> e in weights
    requires WeightsBounded(g, freq, weights)
    requires e in g.edges
    ensures Normalize(g, freq, weights).Success?
    ensures var r := Normalize(g, freq, weights).value[e]; var (a, b) := Ends(g, e);
      && 0.0 < r <= weights[e] as real
      && (r == weights[e] as real <==> FreqOf(freq, a) == weights[e] && FreqOf(freq, b) == weights[e])
  {
    var (a, b) := Ends(g, e);
    Plugin.NormalizedWeightBounds(weights[e], FreqOf(freq, a), FreqOf(freq, b));
    assert !ZeroDenominator(g, freq, weights) by {
      forall d | d in g.edges ensures Denominator(g, freq, weights, d) != 0 {
        assert weights[d] <= FreqOf(freq, Ends(g, d).0);
      }
    }
  }

  /* ------------------------------------------------------------ ordering */

  /** `key=lambda x: len(x.vs), reverse=True`: larger communities first. */
  predicate LargerFirst(a: seq<string>, b: seq<string>)
  {
    |a| >= |b|
  }

  lemma LargerFirstPreorder()
    ensures Sorting.TotalPreorder(LargerFirst)
  {
  }

  /** The communities by non-increasing size, equal sizes in the order
      infomap returned them. */
  function BySize(comps: seq<seq<string>>): seq<seq<string>>
  {
    Sorting.Sort(comps, LargerFirst)
  }

  lemma BySizeOrder(comps: seq<seq<string>>, z: seq<string>)
    ensures var r := BySize(comps);
      && multiset(r) == multiset(comps)
      && (forall i, j :: 0 <= i < j < |r| ==> |r[i]| >= |r[j]|)
      && Sorting.Equivalents(r, z, LargerFirst) == Sorting.Equivalents(comps, z, LargerFirst)
  {
    LargerFirstPreorder();
    Sorting.SortSorted(comps, LargerFirst);
    Sorting.SortStable(comps, z, LargerFirst);
  }

  lemma BySizeInGraph(g: KC.Graph, comps: seq<seq<string>>)
    requires KC.InGraph(g, comps)
    ensures KC.InGraph(g, BySize(comps))
  {
    var r := BySize(comps);
    BySizeOrder(comps, []);
    forall i, j | 0 <= i < |r| && 0 <= j < |r[i]| ensures r[i][j] in g.nodes {
      assert r[i] in multiset(comps);
      var k :| 0 <= k < |comps| && comps[k] == r[i];
    }
  }

  /* ------------------------------------------------------------ labelling */

  /** A node in no community. */
  predicate Unclustered(comps: seq<seq<string>>, v: string)
  {
    forall i :: 0 <= i < |comps| ==> v !in comps[i]
  }

  /** The nodes `D[node]` fails on, in graph order. */
  function Strays(g: KC.Graph, comps: seq<seq<string>>): (r: seq<string>)
    ensures forall v :: v in r <==> v in g.nodes && Unclustered(comps, v)
  {
    Grouping.Filter(g.nodes, (v: string) => Unclustered(comps, v))
  }

  /** The first element a filter keeps is the first element of the input
      that passes. */
  lemma {:induction false} FilterFirst(xs: seq<string>, p: string -> bool) returns (i: nat)
    requires |Grouping.Filter(xs, p)| > 0
    ensures i < |xs| && xs[i] == Grouping.Filter(xs, p)[0]
    ensures forall j :: 0 <= j < i ==> !p(xs[j])
  {
    var n := |xs| - 1;
    var init := xs[..n];
    assert Grouping.Filter(xs, p) == Grouping.Filter(init, p) + (if p(xs[n]) then [xs[n]] else []);
    if |Grouping.Filter(init, p)| > 0 {
      i := FilterFirst(init, p);
      assert xs[i] == init[i];
      assert forall j :: 0 <= j < i ==> xs[j] == init[j];
    } else {
      i := n;
      forall j | 0 <= j < n ensures !p(xs[j]) {
        assert xs[j] == init[j] && init[j] in init;
      }
    }
  }

  /* ------------------------------------------------------- cluster names */

  /** The cluster name the naming loop left on `v`. */
  function NameOf(g: KC.Graph, cs: seq<seq<string>>, v: string): string
    requires KC.GraphOk(g) && KC.InGraph(g, cs)
  {
    KC.ClusterName(KC.Stamp(KC.Infos(g, "infomap", cs)), v)
  }

  /** `cluster_names[Gloss] = ClusterName` for the nodes of one community,
      each under its own cluster name. */
  function NodeFiles(g: KC.Graph, names: map<string, KC.Info>, nodes: seq<string>): (r: map<string, string>)
    ensures forall gl :: gl in r <==> KC.HasGloss(g, nodes, gl)
    ensures forall gl :: gl in r ==> exists j :: 0 <= j < |nodes| && KC.GlossOf(g, nodes[j]) == gl && r[gl] == KC.ClusterName(names, nodes[j])
  {
    if |nodes| == 0 then map[]
    else
      var n := |nodes| - 1;
      var m := NodeFiles(g, names, nodes[..n]);
      assert forall j :: 0 <= j < n ==> nodes[..n][j] == nodes[j];
      m[KC.GlossOf(g, nodes[n]) := KC.ClusterName(names, nodes[n])]
  }

  /** `cluster_names` over the communities in index order: only those of
      several nodes file their glosses. */
  function CommunityFiles(g: KC.Graph, infos: seq<KC.Info>, names: map<string, KC.Info>): (r: map<string, string>)
  {
    if |infos| == 0 then map[]
    else
      var n := |infos| - 1;
      var m := CommunityFiles(g, infos[..n], names);
      if KC.MultiNode(g, infos[n].nodes) then m + NodeFiles(g, names, infos[n].nodes) else m
  }

  /** A node of a multi-node community, glossed `gl`, whose name is `name`. */
  ghost predicate FiledUnder(g: KC.Graph, infos: seq<KC.Info>, names: map<string, KC.Info>, gl: string, name: string)
  {
    exists k, j :: 0 <= k < |infos| && KC.MultiNode(g, infos[k].nodes) && 0 <= j < |infos[k].nodes|
      && KC.GlossOf(g, infos[k].nodes[j]) == gl && name == KC.ClusterName(names, infos[k].nodes[j])
  }

  /** A gloss is filed exactly when a node of a multi-node community carries
      it, and then under the cluster name of such a node. */
  lemma {:induction false} CommunityFilesMeans(g: KC.Graph, infos: seq<KC.Info>, names: map<string, KC.Info>, gl: string)
    ensures gl in CommunityFiles(g, infos, names) <==> KC.FileGloss(g, infos, gl)
    ensures gl in CommunityFiles(g, infos, names) ==> FiledUnder(g, infos, names, gl, CommunityFiles(g, infos, names)[gl])
  {
    if |infos| > 0 {
      var n := |infos| - 1;
      var init := infos[..n];
      CommunityFilesMeans(g, init, names, gl);
      KC.FileGlossSnoc(g, infos, gl);
      var r := CommunityFiles(g, infos, names);
      var m := CommunityFiles(g, init, names);
      if gl in r {
        if KC.MultiNode(g, infos[n].nodes) && gl in NodeFiles(g, names, infos[n].nodes) {
          var j :| 0 <= j < |infos[n].nodes| && KC.GlossOf(g, infos[n].nodes[j]) == gl
            && NodeFiles(g, names, infos[n].nodes)[gl] == KC.ClusterName(names, infos[n].nodes[j]);
          assert FiledUnder(g, infos, names, gl, r[gl]);
        } else {
          var k, j :| 0 <= k < |init| && KC.MultiNode(g, init[k].nodes) && 0 <= j < |init[k].nodes|
            && KC.GlossOf(g, init[k].nodes[j]) == gl && m[gl] == KC.ClusterName(names, init[k].nodes[j]);
          assert init[k] == infos[k];
        }
      }
    }
  }

  /* --------------------------------------------------------------- command */

  /** What the command leaves: the normalised weights infomap was given
      (when asked for) and the post-processed graph. */
  datatype CommunityRun = CommunityRun(weights: Option<map<set<string>, real>>, result: KC.Clustered)

  /** The post-processing of the ordered communities: `cluster`'s, with the
      command's own `cluster_names`. */
  function Annotated(g: KC.Graph, cs: seq<seq<string>>, minWeight: int): KC.Clustered
    requires KC.GraphOk(g) && KC.InGraph(g, cs)
  {
    var infos := KC.Infos(g, "infomap", cs);
    KC.Annotate(g, "infomap", cs, minWeight).(clusterFiles := CommunityFiles(g, infos, KC.Stamp(infos)))
  }

  /** The command on a graph with family frequencies `freq`, edge weights
      `weights` (the attribute `--weight` names) and the partition `comps`
      infomap returns; `neighbor_weight` defaults to 5. */
  function Communities(g: KC.Graph, freq: map<string, int>, normalize: bool, weights: map<set<string>, int>,
                       comps: seq<seq<string>>, neighbourWeight: Option<int>): (r: Result<CommunityRun>)
    requires KC.GraphOk(g) && KC.InGraph(g, comps)
    requires forall e :: e in g.edges ==> e in weights
  {
    if MissingFrequency(g, freq) then Failure(KeyError("FamilyFrequency"))
    else
      var normalized := if normalize then Normalize(g, freq, weights) else Success(map[]);
      if normalized.Failure? then Failure(normalized.error)
      else
        var strays := Strays(g, comps);
        if |strays| > 0 then Failure(KeyError(strays[0]))
        else
          BySizeInGraph(g, comps);
          Success(CommunityRun(if normalize then Some(normalized.value) else None,
            Annotated(g, BySize(comps), LC.OrDefault(neighbourWeight, 5))))
  }

  /* ------------------------------------------------------------ properties */

  /** The command stops exactly when a node lacks a family frequency, when
      normalising divides by zero, or when a node lies in no community, in
      that order of precedence; the unclustered node reported is the first
      in graph order. */
  lemma CommunitiesFails(g: KC.Graph, freq: map<string, int>, normalize: bool, weights: map<set<string>, int>,
                         comps: seq<seq<string>>, neighbourWeight: Option<int>)
    requires KC.GraphOk(g) && KC.InGraph(g, comps)
    requires forall e :: e in g.edges ==> e in weights
    ensures var r := Communities(g, freq, normalize, weights, comps, neighbourWeight);
      && (r.Failure? <==>
            || MissingFrequency(g, freq)
            || (normalize && ZeroDenominator(g, freq, weights))
            || exists v :: v in g.nodes && Unclustered(comps, v))
      && (MissingFrequency(g, freq) ==> r == Failure(KeyError("FamilyFrequency")))
      && (!MissingFrequency(g, freq) && normalize && ZeroDenominator(g, freq, weights) ==> r == Failure(ZeroDivision))
      && (r.Failure? && !MissingFrequency(g, freq) && !(normalize && ZeroDenominator(g, freq, weights)) ==>
            exists i :: FirstStray(g, comps, i) && r == Failure(KeyError(g.nodes[i])))
  {
    var strays := Strays(g, comps);
    assert |strays| > 0 <==> exists v :: v in g.nodes && Unclustered(comps, v) by {
      if exists v :: v in g.nodes && Unclustered(comps, v) {
        var v :| v in g.nodes && Unclustered(comps, v);
        assert v in strays;
      }
      if |strays| > 0 {
        assert strays[0] in strays;
      }
    }
    if |strays| > 0 {
      var i := FilterFirst(g.nodes, (v: string) => Unclustered(comps, v));
      assert strays[0] in strays;
      assert FirstStray(g, comps, i);
    }
  }

  /** `g.nodes[i]` is the first node in graph order that lies in no community. */
  predicate FirstStray(g: KC.Graph, comps: seq<seq<string>>, i: int)
  {
    0 <= i < |g.nodes| && Unclustered(comps, g.nodes[i]) && forall j :: 0 <= j < i ==> !Unclustered(comps, g.nodes[j])
  }

  /** A successful run is the post-processing of the communities by size. */
  lemma CommunitiesSuccess(g: KC.Graph, freq: map<string, int>, normalize: bool, weights: map<set<string>, int>,
                           comps: seq<seq<string>>, neighbourWeight: Option<int>)
    requires KC.GraphOk(g) && KC.InGraph(g, comps)
    requires forall e :: e in g.edges ==> e in weights
    requires Communities(g, freq, normalize, weights, comps, neighbourWeight).Success?
    ensures KC.InGraph(g, BySize(comps))
    ensures !MissingFrequency(g, freq) && !(normalize && ZeroDenominator(g, freq, weights))
    ensures forall v :: v in g.nodes ==> !Unclustered(comps, v)
    ensures Communities(g, freq, normalize, weights, comps, neighbourWeight).value ==
      CommunityRun(if normalize then Some(Normalize(g, freq, weights).value) else None,
        Annotated(g, BySize(comps), LC.OrDefault(neighbourWeight, 5)))
  {
    BySizeInGraph(g, comps);
  }

  /** On success, the communities are infomap's, largest first, equal sizes
      in infomap's order, and the weights are the normalised ones exactly
      when normalising was asked for. */
  lemma CommunitiesOrder(g: KC.Graph, freq: map<string, int>, normalize: bool, weights: map<set<string>, int>,
                         comps: seq<seq<string>>, neighbourWeight: Option<int>, z: seq<string>)
    requires KC.GraphOk(g) && KC.InGraph(g, comps)
    requires forall e :: e in g.edges ==> e in weights
    requires Communities(g, freq, normalize, weights, comps, neighbourWeight).Success?
    ensures var r := Communities(g, freq, normalize, weights, comps, neighbourWeight).value; var cs := r.result.clusters;
      && multiset(cs) == multiset(comps)
      && (forall i, j :: 0 <= i < j < |cs| ==> |cs[i]| >= |cs[j]|)
      && Sorting.Equivalents(cs, z, LargerFirst) == Sorting.Equivalents(comps, z, LargerFirst)
      && (r.weights.Some? <==> normalize)
      && (normalize ==> r.weights == Some(Normalize(g, freq, weights).value))
  {
    CommunitiesSuccess(g, freq, normalize, weights, comps, neighbourWeight);
    BySizeOrder(comps, z);
    AnnotatedKeeps(g, BySize(comps), LC.OrDefault(neighbourWeight, 5));
  }

  lemma AnnotatedKeeps(g: KC.Graph, cs: seq<seq<string>>, minWeight: int)
    requires KC.GraphOk(g) && KC.InGraph(g, cs)
    ensures var r := Annotated(g, cs, minWeight); var c := KC.Annotate(g, "infomap", cs, minWeight);
      && r.clusters == cs
      && r.clusters == c.clusters && r.nodes == c.nodes && r.attrs == c.attrs && r.edges == c.edges
  {
    KC.AnnotateKeeps(g, "infomap", cs, minWeight, "");
  }

  /** On success the post-processing is `cluster`'s with algorithm name
      `infomap`, and every node carries the number of its community. */
  lemma CommunitiesAnnotate(g: KC.Graph, freq: map<string, int>, normalize: bool, weights: map<set<string>, int>,
                            comps: seq<seq<string>>, neighbourWeight: Option<int>)
    requires KC.GraphOk(g) && KC.InGraph(g, comps)
    requires forall e :: e in g.edges ==> e in weights
    requires Communities(g, freq, normalize, weights, comps, neighbourWeight).Success?
    ensures KC.InGraph(g, BySize(comps))
    ensures var r := Communities(g, freq, normalize, weights, comps, neighbourWeight).value.result;
      var c := KC.Annotate(g, "infomap", BySize(comps), LC.OrDefault(neighbourWeight, 5));
      && r.clusters == c.clusters && r.nodes == c.nodes && r.attrs == c.attrs && r.edges == c.edges
      && forall v :: v in g.nodes ==> KC.LabelIndex(r.clusters, v) > 0
  {
    var cs := BySize(comps);
    CommunitiesSuccess(g, freq, normalize, weights, comps, neighbourWeight);
    AnnotatedKeeps(g, cs, LC.OrDefault(neighbourWeight, 5));
    BySizeOrder(comps, []);
    forall v | v in g.nodes ensures KC.LabelIndex(cs, v) > 0 {
      var i :| 0 <= i < |comps| && v in comps[i];
      assert comps[i] in multiset(cs);
      var k :| 0 <= k < |cs| && cs[k] == comps[i];
      KC.LabelIndexMeans(cs, v);
    }
  }

  /** A node of a multi-node community among `cs`, glossed `gl`, whose
      cluster name is `name`. */
  ghost predicate GlossNamed(g: KC.Graph, cs: seq<seq<string>>, gl: string, name: string)
    requires KC.GraphOk(g) && KC.InGraph(g, cs)
  {
    exists i, j :: 0 <= i < |cs| && KC.MultiNode(g, cs[i]) && 0 <= j < |cs[i]|
      && KC.GlossOf(g, cs[i][j]) == gl && name == NameOf(g, cs, cs[i][j])
  }

  /** The glosses the post-processing files, read off the communities. */
  lemma AnnotatedFiles(g: KC.Graph, cs: seq<seq<string>>, minWeight: int, gl: string)
    requires KC.GraphOk(g) && KC.InGraph(g, cs)
    ensures var r := Annotated(g, cs, minWeight);
      && (gl in r.clusterFiles <==> KC.ClusterGloss(g, cs, gl))
      && (gl in r.clusterFiles ==> GlossNamed(g, cs, gl, r.clusterFiles[gl]))
  {
    var infos := KC.Infos(g, "infomap", cs);
    var files := CommunityFiles(g, infos, KC.Stamp(infos));
    assert Annotated(g, cs, minWeight).clusterFiles == files;
    FilesKeys(g, cs, gl);
    if gl in files {
      FilesNamed(g, cs, gl);
    }
  }

  lemma FilesKeys(g: KC.Graph, cs: seq<seq<string>>, gl: string)
    requires KC.GraphOk(g) && KC.InGraph(g, cs)
    ensures var infos := KC.Infos(g, "infomap", cs);
      gl in CommunityFiles(g, infos, KC.Stamp(infos)) <==> KC.ClusterGloss(g, cs, gl)
  {
    var infos := KC.Infos(g, "infomap", cs);
    CommunityFilesMeans(g, infos, KC.Stamp(infos), gl);
    KC.EntryMultiNode(g, "infomap", cs, gl);
  }

  lemma FilesNamed(g: KC.Graph, cs: seq<seq<string>>, gl: string)
    requires KC.GraphOk(g) && KC.InGraph(g, cs)
    requires var infos := KC.Infos(g, "infomap", cs); gl in CommunityFiles(g, infos, KC.Stamp(infos))
    ensures var infos := KC.Infos(g, "infomap", cs);
      GlossNamed(g, cs, gl, CommunityFiles(g, infos, KC.Stamp(infos))[gl])
  {
    var infos := KC.Infos(g, "infomap", cs);
    var names := KC.Stamp(infos);
    var files := CommunityFiles(g, infos, names);
    CommunityFilesMeans(g, infos, names, gl);
    var i, j := FiledInCluster(g, cs, infos, names, gl, files[gl]);
    assert files[gl] == NameOf(g, cs, cs[i][j]);
  }

  /** A filing read off the entries names a node of one of the clusters. */
  lemma FiledInCluster(g: KC.Graph, cs: seq<seq<string>>, infos: seq<KC.Info>, names: map<string, KC.Info>, gl: string, name: string)
      returns (i: nat, j: nat)
    requires forall k :: 0 <= k < |infos| ==> KC.Describes(cs, infos[k])
    requires FiledUnder(g, infos, names, gl, name)
    ensures i < |cs| && KC.MultiNode(g, cs[i]) && j < |cs[i]|
    ensures KC.GlossOf(g, cs[i][j]) == gl && name == KC.ClusterName(names, cs[i][j])
  {
    var k, j' :| 0 <= k < |infos| && KC.MultiNode(g, infos[k].nodes) && 0 <= j' < |infos[k].nodes|
      && KC.GlossOf(g, infos[k].nodes[j']) == gl && name == KC.ClusterName(names, infos[k].nodes[j']);
    assert KC.Describes(cs, infos[k]);
    i, j := infos[k].idx - 1, j';
  }

  /** `cluster_names` files the glosses of the nodes of multi-node
      communities, each under the cluster name left on one such node (where
      `cluster` uses the name of the community's first node). */
  lemma CommunitiesFiles(g: KC.Graph, freq: map<string, int>, normalize: bool, weights: map<set<string>, int>,
                         comps: seq<seq<string>>, neighbourWeight: Option<int>, gl: string)
    requires KC.GraphOk(g) && KC.InGraph(g, comps)
    requires forall e :: e in g.edges ==> e in weights
    requires Communities(g, freq, normalize, weights, comps, neighbourWeight).Success?
    ensures KC.InGraph(g, BySize(comps))
    ensures var r := Communities(g, freq, normalize, weights, comps, neighbourWeight).value.result; var cs := BySize(comps);
      && (gl in r.clusterFiles <==> KC.ClusterGloss(g, cs, gl))
      && (gl in r.clusterFiles ==> GlossNamed(g, cs, gl, r.clusterFiles[gl]))
  {
    CommunitiesSuccess(g, freq, normalize, weights, comps, neighbourWeight);
    AnnotatedFiles(g, BySize(comps), LC.OrDefault(neighbourWeight, 5), gl);
  }
}
