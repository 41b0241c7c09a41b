/** The dictionary form of the colexifier and `get_communities`, which reads
    a community assignment back from node attributes. */
module Util {
  import opened Grouping
  import Models
  import Plugin

  /** `full_colexification` of this module: the dict itself, CLICS form to
      the forms sharing it. */
  function FullColexification(forms: seq<Models.Form>): (r: map<string, seq<Models.Form>>)
  {
    Plugin.ColexificationGroups(forms).members
  }

  /** The keys are exactly the CLICS forms of colexifiable forms, and each
      key holds those forms with that CLICS form, in input order. */
  lemma FullColexificationKeys(forms: seq<Models.Form>)
    ensures forall k :: k in FullColexification(forms) <==>
      exists f :: f in forms && Plugin.Colexifiable(f) && Plugin.FormKey(f) == k
    ensures forall k :: k in FullColexification(forms) ==>
      FullColexification(forms)[k] == Members(Filter(forms, Plugin.Colexifiable), Plugin.FormKey, k)
  {
    var kept := Filter(forms, Plugin.Colexifiable);
    GroupByKeys(kept, Plugin.FormKey);
    GroupByLists(kept, Plugin.FormKey);
    forall k | k in FullColexification(forms)
      ensures exists f :: f in forms && Plugin.Colexifiable(f) && Plugin.FormKey(f) == k
    {
      var f :| f in kept && Plugin.FormKey(f) == k;
    }
  }

  /** The list variant is this dict's values in key order. */
  lemma ListVariant(forms: seq<Models.Form>)
    ensures |Plugin.FullColexification(forms)| == |Plugin.ColexificationGroups(forms).order|
    ensures forall i :: 0 <= i < |Plugin.FullColexification(forms)| ==>
      Plugin.FullColexification(forms)[i] == FullColexification(forms)[Plugin.ColexificationGroups(forms).order[i]]
  {
  }

  /** Two colexifiable forms sharing the CLICS form `k` give a list of two
      under `k`. */
  lemma TwoFormsShareKey(a: Models.Form, b: Models.Form)
    requires Plugin.Colexifiable(a) && Plugin.Colexifiable(b) && a.clicsForm == b.clicsForm
    ensures a.clicsForm.value in FullColexification([a, b])
    ensures FullColexification([a, b])[a.clicsForm.value] == [a, b]
  {
    FilterAll([a, b], Plugin.Colexifiable);
    GroupPair(a, b, Plugin.FormKey);
    assert FullColexification([a, b]) == map[Plugin.FormKey(a) := [a, b]];
  }

  /* ---------------------------------------------------- get_communities */

  /** Node ids in graph order and their attribute dicts. */
  datatype NodeData = NodeData(nodes: seq<string>, data: map<string, map<string, string>>)

  predicate HasAttr(g: NodeData, name: string, n: string)
  {
    n in g.data && name in g.data[n]
  }

  function AttrOf(g: NodeData, name: string, n: string): string
  {
    if HasAttr(g, name, n) then g.data[n][name] else ""
  }

  /** `get_communities`: community value to the nodes carrying it, in graph
      order; nodes without the attribute are skipped. */
  function GetCommunities(g: NodeData, name: string): (r: map<string, seq<string>>)
  {
    GroupBy(Filter(g.nodes, n => HasAttr(g, name, n)), n => AttrOf(g, name, n)).members
  }

  /** A node appears in a community exactly when it carries the attribute
      with that value, and each community lists its nodes in graph order. */
  lemma CommunitiesPartition(g: NodeData, name: string)
    ensures forall k, n :: k in GetCommunities(g, name) ==>
      (n in GetCommunities(g, name)[k] <==> n in g.nodes && HasAttr(g, name, n) && g.data[n][name] == k)
    ensures forall n :: n in g.nodes && HasAttr(g, name, n) ==> g.data[n][name] in GetCommunities(g, name)
    ensures forall k :: k in GetCommunities(g, name) ==>
      GetCommunities(g, name)[k] == Members(Filter(g.nodes, n => HasAttr(g, name, n)), n => AttrOf(g, name, n), k)
  {
    var kept := Filter(g.nodes, n => HasAttr(g, name, n));
    GroupByPartition(kept, n => AttrOf(g, name, n));
    GroupByLists(kept, n => AttrOf(g, name, n));
  }

  /** With one node carrying `infomap = x` and one without, the community
      `x` is that one node. */
  lemma CommunitiesExample(n1: string, n2: string, d1: map<string, string>, d2: map<string, string>)
    requires n1 != n2
    requires d1 == map["infomap" := "x"] && "infomap" !in d2
    ensures "x" in GetCommunities(NodeData([n1, n2], map[n1 := d1, n2 := d2]), "infomap")
    ensures GetCommunities(NodeData([n1, n2], map[n1 := d1, n2 := d2]), "infomap")["x"] == [n1]
  {
    var g := NodeData([n1, n2], map[n1 := d1, n2 := d2]);
    var p := n => HasAttr(g, "infomap", n);
    assert [n1, n2][..1] == [n1];
    assert Filter([n1], p) == [n1];
    assert Filter([n1, n2], p) == [n1];
    assert [n1][..0] == [];
    var key := n => AttrOf(g, "infomap", n);
    assert GroupBy([n1], key) == Groups(["x"], map["x" := [n1]]);
  }
}
