/** The `colexification` command: it builds the colexification graph from
    the colexifications the database yields, gathers per-language
    statistics, serialises and filters the edges, and selects the summary
    table.

    Python sets that are later serialised (`words`, `languages`,
    `families`) are duplicate-free sequences in insertion order. An edge
    is identified by the set of its two concepts, as in an undirected
    networkx graph; the graph keeps its nodes in insertion order and its
    edges in creation order, and `G.edges()` walks them the networkx way:
    node by node, each node followed by its neighbours not visited
    before it. */
module ColexificationCommand {
  import opened Wrappers
  import opened Strings
  import Grouping
  import Sorting

  /* --------------------------------------------------------------- clean */

  /** The characters `clean` drops: the separators of the serialised fields. */
  predicate Separator(c: char)
  {
    c == '/' || c == ',' || c == ';' || c == '"'
  }

  /** `clean(word)`: the word without separator characters. */
  function Clean(w: string): (r: string)
    ensures |r| <= |w|
  {
    if |w| == 0 then ""
    else Clean(w[..|w| - 1]) + (if Separator(w[|w| - 1]) then "" else [w[|w| - 1]])
  }

  /** `clean` keeps every other character, in order: it is the filter that
      rejects the separators. */
  lemma {:induction false} CleanIsFilter(w: string)
    ensures Clean(w) == Grouping.Filter(w, (c: char) => !Separator(c))
  {
    if |w| > 0 {
      CleanIsFilter(w[..|w| - 1]);
    }
  }

  /** `clean` removes exactly the separators. */
  lemma CleanMembers(w: string)
    ensures forall c :: c in Clean(w) <==> c in w && !Separator(c)
  {
    CleanIsFilter(w);
  }

  /** A word without separators is unchanged, so cleaning twice is cleaning once. */
  lemma {:induction false} CleanKeeps(w: string)
    requires forall i :: 0 <= i < |w| ==> !Separator(w[i])
    ensures Clean(w) == w
  {
    if |w| > 0 {
      var n := |w| - 1;
      assert Clean(w[..n]) == w[..n] by {
        CleanKeeps(w[..n]);
      }
      assert !Separator(w[n]);
      assert w == w[..n] + [w[n]];
    }
  }

  lemma CleanIdempotent(w: string)
    ensures Clean(Clean(w)) == Clean(w)
  {
    var r := Clean(w);
    CleanMembers(w);
    assert forall i :: 0 <= i < |r| ==> r[i] in r;
    CleanKeeps(r);
  }

  /* ---------------------------------------------------------------- data */

  datatype Variety = Variety(gid: string, family: string)

  datatype CForm = CForm(gid: string, concept: string, clicsForm: string, form: string)

  /** One colexification: two forms of one variety sharing a CLICS form. */
  datatype Colex = Colex(variety: Variety, a: CForm, b: CForm)

  datatype EdgeData = EdgeData(
    words: seq<(string, string)>, languages: seq<string>, families: seq<string>,
    wofam: seq<string>)

  /** The graph under construction: its nodes in insertion order, its
      edges in creation order (oriented as first created) and the data of
      each edge. */
  datatype Net = Net(nodes: seq<string>, order: seq<(string, string)>, edges: map<set<string>, EdgeData>)

  function Key(p: (string, string)): set<string>
  {
    {p.0, p.1}
  }

  function KeyOf(c: Colex): set<string>
  {
    Key((c.a.concept, c.b.concept))
  }

  /** `s.add(x)` on a set kept as a duplicate-free sequence. */
  function AddOnce<T(==,!new)>(s: seq<T>, x: T): (r: seq<T>)
    ensures Grouping.Distinct(s) ==> Grouping.Distinct(r)
    ensures forall y :: y in r <==> y in s || y == x
    ensures |s| <= |r| <= |s| + 1
  {
    if x in s then s else s + [x]
  }

  function Elems<T>(s: seq<T>): set<T>
  {
    set x | x in s
  }

  /** The `wofam` entry of one colexification: seven '/'-joined fields. */
  function WofamFields(c: Colex): seq<string>
  {
    [c.a.gid, c.b.gid, c.a.clicsForm, c.variety.gid, c.variety.family, Clean(c.a.form), Clean(c.b.form)]
  }

  function WofamEntry(c: Colex): string
  {
    Join(WofamFields(c), "/")
  }

  /** The seven fields can be read back from a `wofam` entry whenever the
      identifiers, the CLICS form and the family hold no '/': the two forms
      need no such condition, since `clean` removed it. */
  lemma WofamRoundTrip(c: Colex)
    requires '/' !in c.a.gid && '/' !in c.b.gid && '/' !in c.a.clicsForm
    requires '/' !in c.variety.gid && '/' !in c.variety.family
    ensures Split(WofamEntry(c), '/') == WofamFields(c)
  {
    var f := WofamFields(c);
    CleanMembers(c.a.form);
    CleanMembers(c.b.form);
    assert forall i :: 0 <= i < |f| ==> '/' !in f[i];
    JoinThenSplit(f, '/');
  }

  /* -------------------------------------------------------- accumulation */

  function EmptyEdge(): EdgeData
  {
    EdgeData([], [], [], [])
  }

  function DataOr(g: Net, k: set<string>): EdgeData
  {
    if k in g.edges then g.edges[k] else EmptyEdge()
  }

  /** The edge record after one more colexification: its sets record the
      word pair, the variety and the family, and one `wofam` entry is
      appended. */
  function Update(e: EdgeData, c: Colex): EdgeData
  {
    EdgeData(
      AddOnce(e.words, (c.a.gid, c.b.gid)), AddOnce(e.languages, c.variety.gid),
      AddOnce(e.families, c.variety.family), e.wofam + [WofamEntry(c)])
  }

  /** One iteration of the edge loop: `G[A]` fails with a KeyError when the
      first concept is not a node; otherwise the edge is created on first
      co-occurrence (adding the second concept as a node if need be) and
      updated. */
  function AddColex(g: Net, c: Colex): (r: Result<Net>)
    ensures r.Failure? <==> c.a.concept !in g.nodes
    ensures r.Failure? ==> r.error == KeyError(c.a.concept)
    ensures r.Success? ==> g.nodes <= r.value.nodes
    ensures r.Success? ==> forall x :: x in r.value.nodes <==> x in g.nodes || x == c.b.concept
  {
    var a, b := c.a.concept, c.b.concept;
    if a !in g.nodes then Failure(KeyError(a))
    else
      var k := Key((a, b));
      var order := if k in g.edges then g.order else g.order + [(a, b)];
      Success(Net(AddOnce(g.nodes, b), order, g.edges[k := Update(DataOr(g, k), c)]))
  }

  /** The edge loop over all colexifications; the first KeyError ends it. */
  function Accumulate(g: Net, cs: seq<Colex>): (r: Result<Net>)
  {
    if |cs| == 0 then Success(g)
    else
      match Accumulate(g, cs[..|cs| - 1])
      case Failure(e) => Failure(e)
      case Success(h) => AddColex(h, cs[|cs| - 1])
  }

  /* ---------------------------------------------------------- invariants */

  function KeysOf(order: seq<(string, string)>): set<set<string>>
  {
    if |order| == 0 then {} else KeysOf(order[..|order| - 1]) + {Key(order[|order| - 1])}
  }

  lemma {:induction false} InKeysOf(order: seq<(string, string)>, i: nat)
    requires i < |order|
    ensures Key(order[i]) in KeysOf(order)
  {
    if i < |order| - 1 {
      InKeysOf(order[..|order| - 1], i);
    }
  }

  /** The edge record the loop keeps: every set has at least the first
      occurrence's element, grows by at most one per occurrence, and holds
      no duplicates. */
  predicate EdgeOk(e: EdgeData)
  {
    && 1 <= |e.words| <= |e.wofam|
    && 1 <= |e.languages| <= |e.wofam|
    && 1 <= |e.families| <= |e.wofam|
    && Grouping.Distinct(e.words)
    && Grouping.Distinct(e.languages)
    && Grouping.Distinct(e.families)
  }

  /** Each node is listed once, each edge once in creation order, exactly
      the listed edges carry data, and both ends of each edge are nodes. */
  predicate NetOk(g: Net)
  {
    && Grouping.Distinct(g.nodes)
    && KeysDistinct(g.order)
    && g.edges.Keys == KeysOf(g.order)
    && EndsAreNodes(g.order, g.nodes)
    && EdgesOk(g.edges)
  }

  predicate KeysDistinct(order: seq<(string, string)>)
  {
    forall i, j :: 0 <= i < j < |order| ==> Key(order[i]) != Key(order[j])
  }

  predicate EndsAreNodes(order: seq<(string, string)>, nodes: seq<string>)
  {
    forall i :: 0 <= i < |order| ==> order[i].0 in nodes && order[i].1 in nodes
  }

  predicate EdgesOk(edges: map<set<string>, EdgeData>)
  {
    forall k :: k in edges ==> EdgeOk(edges[k])
  }

  /** Updating a well-formed record, or creating one, gives a well-formed record. */
  lemma UpdateOk(e: EdgeData, c: Colex)
    requires e == EmptyEdge() || EdgeOk(e)
    ensures EdgeOk(Update(e, c))
  {
  }

  /** A new edge goes to the end of the creation order. */
  lemma AppendKeyOk(order: seq<(string, string)>, p: (string, string))
    requires KeysDistinct(order)
    requires Key(p) !in KeysOf(order)
    ensures KeysDistinct(order + [p])
    ensures KeysOf(order + [p]) == KeysOf(order) + {Key(p)}
  {
    var o := order + [p];
    assert o[..|order|] == order;
    forall i, j | 0 <= i < j < |o|
      ensures Key(o[i]) != Key(o[j])
    {
      if j == |order| {
        InKeysOf(order, i);
      }
    }
  }

  /** The two shapes a successful step can take. */
  lemma AddColexShape(g: Net, c: Colex)
    requires AddColex(g, c).Success?
    ensures var h, k := AddColex(g, c).value, KeyOf(c);
      && h.nodes == AddOnce(g.nodes, c.b.concept)
      && h.edges == g.edges[k := Update(DataOr(g, k), c)]
      && h.order == if k in g.edges then g.order else g.order + [(c.a.concept, c.b.concept)]
  {
  }

  /** Adding one colexification keeps the graph well formed. */
  lemma AddColexOk(g: Net, c: Colex)
    requires NetOk(g)
    requires AddColex(g, c).Success?
    ensures NetOk(AddColex(g, c).value)
  {
    var h := AddColex(g, c).value;
    var k, p := KeyOf(c), (c.a.concept, c.b.concept);
    AddColexShape(g, c);
    UpdateOk(DataOr(g, k), c);
    EdgesOkUpdate(g.edges, k, Update(DataOr(g, k), c));
    KeysUpdate(g.edges, k, Update(DataOr(g, k), c));
    EndsGrow(g.order, p, g.nodes, h.nodes);
    if k !in g.edges {
      AppendKeyOk(g.order, p);
    }
  }

  lemma EdgesOkUpdate(edges: map<set<string>, EdgeData>, k: set<string>, e: EdgeData)
    requires EdgesOk(edges) && EdgeOk(e)
    ensures EdgesOk(edges[k := e])
  {
  }

  lemma KeysUpdate(edges: map<set<string>, EdgeData>, k: set<string>, e: EdgeData)
    ensures edges[k := e].Keys == edges.Keys + {k}
    ensures k in edges ==> edges[k := e].Keys == edges.Keys
  {
  }

  lemma EndsGrow(order: seq<(string, string)>, p: (string, string), nodes: seq<string>, more: seq<string>)
    requires EndsAreNodes(order, nodes) && forall x :: x in nodes ==> x in more
    requires p.0 in more && p.1 in more
    ensures EndsAreNodes(order, more) && EndsAreNodes(order + [p], more)
  {
  }

  /** The loop keeps the graph well formed. */
  lemma {:induction false} AccumulateOk(g: Net, cs: seq<Colex>)
    requires NetOk(g)
    requires Accumulate(g, cs).Success?
    ensures NetOk(Accumulate(g, cs).value)
  {
    if |cs| > 0 {
      AccumulateOk(g, cs[..|cs| - 1]);
      AddColexOk(Accumulate(g, cs[..|cs| - 1]).value, cs[|cs| - 1]);
    }
  }

  /** The loop fails exactly with a KeyError for a first concept missing
      from the initial nodes, and succeeds when every first concept is a
      node. */
  lemma {:induction false} AccumulateFailure(g: Net, cs: seq<Colex>)
    ensures Accumulate(g, cs).Failure? ==>
      exists i :: 0 <= i < |cs| && cs[i].a.concept !in g.nodes && Accumulate(g, cs).error == KeyError(cs[i].a.concept)
    ensures (forall i :: 0 <= i < |cs| ==> cs[i].a.concept in g.nodes) ==> Accumulate(g, cs).Success?
    ensures Accumulate(g, cs).Success? ==> g.nodes <= Accumulate(g, cs).value.nodes
  {
    if |cs| > 0 {
      var n := |cs| - 1;
      AccumulateFailure(g, cs[..n]);
      var r := Accumulate(g, cs[..n]);
      if r.Failure? {
        var i :| 0 <= i < n && cs[..n][i].a.concept !in g.nodes && r.error == KeyError(cs[..n][i].a.concept);
        assert cs[i] == cs[..n][i];
      } else {
        if (forall i :: 0 <= i < |cs| ==> cs[i].a.concept in g.nodes) {
          assert cs[n].a.concept in g.nodes;
        }
      }
    } else {
    }
  }

  /* -------------------------------------------------------- edge content */

  /** The `wofam` entries of the colexifications of one edge, in order. */
  function EntriesOf(cs: seq<Colex>, k: set<string>): seq<string>
  {
    if |cs| == 0 then []
    else EntriesOf(cs[..|cs| - 1], k) + (if KeyOf(cs[|cs| - 1]) == k then [WofamEntry(cs[|cs| - 1])] else [])
  }

  function PairsOf(cs: seq<Colex>, k: set<string>): set<(string, string)>
  {
    if |cs| == 0 then {}
    else PairsOf(cs[..|cs| - 1], k) + (if KeyOf(cs[|cs| - 1]) == k then {(cs[|cs| - 1].a.gid, cs[|cs| - 1].b.gid)} else {})
  }

  function VarietiesOf(cs: seq<Colex>, k: set<string>): set<string>
  {
    if |cs| == 0 then {}
    else VarietiesOf(cs[..|cs| - 1], k) + (if KeyOf(cs[|cs| - 1]) == k then {cs[|cs| - 1].variety.gid} else {})
  }

  function FamiliesOf(cs: seq<Colex>, k: set<string>): set<string>
  {
    if |cs| == 0 then {}
    else FamiliesOf(cs[..|cs| - 1], k) + (if KeyOf(cs[|cs| - 1]) == k then {cs[|cs| - 1].variety.family} else {})
  }

  /** What one edge holds after the loop: exactly one `wofam` entry per
      colexification of its two concepts, in order, and as its sets the
      word pairs, varieties and families of those colexifications. */
  predicate Holds(before: EdgeData, after: EdgeData, cs: seq<Colex>, k: set<string>)
  {
    && after.wofam == before.wofam + EntriesOf(cs, k)
    && Elems(after.words) == Elems(before.words) + PairsOf(cs, k)
    && Elems(after.languages) == Elems(before.languages) + VarietiesOf(cs, k)
    && Elems(after.families) == Elems(before.families) + FamiliesOf(cs, k)
  }

  /** A colexification leaves the edges of other concept pairs alone. */
  lemma AddColexOthers(g: Net, c: Colex, k: set<string>)
    requires AddColex(g, c).Success?
    requires k != KeyOf(c)
    ensures k in AddColex(g, c).value.edges <==> k in g.edges
    ensures k in g.edges ==> AddColex(g, c).value.edges[k] == g.edges[k]
  {
  }

  lemma ElemsAddOnce<T(!new)>(s: seq<T>, x: T)
    ensures Elems(AddOnce(s, x)) == Elems(s) + {x}
  {
  }

  /** One more colexification of the edge's concept pair. */
  lemma {:induction false} HoldsStep(before: EdgeData, e: EdgeData, cs: seq<Colex>, k: set<string>)
    requires |cs| > 0 && KeyOf(cs[|cs| - 1]) == k
    requires Holds(before, e, cs[..|cs| - 1], k)
    ensures Holds(before, Update(e, cs[|cs| - 1]), cs, k)
  {
    var n := |cs| - 1;
    var c := cs[n];
    var e' := Update(e, c);
    assert e'.wofam == before.wofam + EntriesOf(cs, k) by {
      assert EntriesOf(cs, k) == EntriesOf(cs[..n], k) + [WofamEntry(c)];
    }
    assert Elems(e'.words) == Elems(before.words) + PairsOf(cs, k) by {
      ElemsAddOnce(e.words, (c.a.gid, c.b.gid));
    }
    assert Elems(e'.languages) == Elems(before.languages) + VarietiesOf(cs, k) by {
      ElemsAddOnce(e.languages, c.variety.gid);
    }
    assert Elems(e'.families) == Elems(before.families) + FamiliesOf(cs, k) by {
      ElemsAddOnce(e.families, c.variety.family);
    }
  }

  /** Exactly the concept pairs that co-occur get an edge, and each edge
      holds what its colexifications contributed. */
  lemma {:induction false} AccumulateContent(g: Net, cs: seq<Colex>, k: set<string>)
    requires Accumulate(g, cs).Success?
    ensures var h := Accumulate(g, cs).value;
      && (k in h.edges <==> k in g.edges || |EntriesOf(cs, k)| > 0)
      && (k in h.edges ==> Holds(DataOr(g, k), h.edges[k], cs, k))
  {
    if |cs| == 0 {
    } else {
      var n := |cs| - 1;
      var c := cs[n];
      var h0 := Accumulate(g, cs[..n]).value;
      var h := Accumulate(g, cs).value;
      assert h == AddColex(h0, c).value;
      var before := DataOr(g, k);
      if k == KeyOf(c) {
        assert Holds(before, DataOr(h0, k), cs[..n], k) by {
          AccumulateContent(g, cs[..n], k);
          if k !in h0.edges {
            EmptyOf(cs[..n], k);
          }
        }
        AddColexShape(h0, c);
        HoldsStep(before, DataOr(h0, k), cs, k);
      } else {
        AccumulateContent(g, cs[..n], k);
        AddColexOthers(h0, c, k);
        OthersSkip(cs, k);
      }
    }
  }

  /** A colexification of another concept pair adds nothing to the edge. */
  lemma OthersSkip(cs: seq<Colex>, k: set<string>)
    requires |cs| > 0 && KeyOf(cs[|cs| - 1]) != k
    ensures EntriesOf(cs, k) == EntriesOf(cs[..|cs| - 1], k)
    ensures PairsOf(cs, k) == PairsOf(cs[..|cs| - 1], k)
    ensures VarietiesOf(cs, k) == VarietiesOf(cs[..|cs| - 1], k)
    ensures FamiliesOf(cs, k) == FamiliesOf(cs[..|cs| - 1], k)
  {
  }

  /** A concept pair without entries has no words, varieties or families. */
  lemma {:induction false} EmptyOf(cs: seq<Colex>, k: set<string>)
    requires EntriesOf(cs, k) == []
    ensures PairsOf(cs, k) == {} && VarietiesOf(cs, k) == {} && FamiliesOf(cs, k) == {}
  {
    if |cs| > 0 {
      EmptyOf(cs[..|cs| - 1], k);
    }
  }

  /* ----------------------------------------------------------- edge list */

  /** The other end of an edge at `u`, if `u` is one of its ends. */
  function OtherEnd(p: (string, string), u: string): seq<string>
  {
    if p.0 == u then [p.1] else if p.1 == u then [p.0] else []
  }

  /** The neighbours of `u` in the order networkx keeps them: a new edge is
      appended to the adjacency of both its ends, so they are the other
      ends of the edges at `u`, in creation order. */
  function Nbrs(order: seq<(string, string)>, u: string): seq<string>
  {
    if |order| == 0 then []
    else Nbrs(order[..|order| - 1], u) + OtherEnd(order[|order| - 1], u)
  }

  /** One node's turn in `G.edges()`: its neighbours not visited before,
      each edge oriented from the node. */
  function Visit(u: string, seen: seq<string>, ns: seq<string>): seq<(string, string)>
  {
    if |ns| == 0 then []
    else Visit(u, seen, ns[..|ns| - 1]) + (if ns[|ns| - 1] in seen then [] else [(u, ns[|ns| - 1])])
  }

  /** `G.edges()`: the nodes in insertion order, each followed by the edges
      to its neighbours not visited before it. */
  function NxOrder(nodes: seq<string>, order: seq<(string, string)>): seq<(string, string)>
  {
    if |nodes| == 0 then []
    else
      var n := |nodes| - 1;
      NxOrder(nodes[..n], order) + Visit(nodes[n], nodes[..n], Nbrs(order, nodes[n]))
  }

  lemma KeyIs(p: (string, string), u: string, w: string)
    ensures Key(p) == {u, w} <==> (p.0 == u && p.1 == w) || (p.0 == w && p.1 == u)
  {
    if Key(p) == {u, w} {
      assert p.0 in {u, w} && p.1 in {u, w} && u in Key(p) && w in Key(p);
    }
  }

  lemma {:induction false} KeysOfMeans(order: seq<(string, string)>, k: set<string>)
    ensures k in KeysOf(order) <==> exists i :: 0 <= i < |order| && Key(order[i]) == k
  {
    if |order| > 0 {
      var n := |order| - 1;
      KeysOfMeans(order[..n], k);
      if k in KeysOf(order[..n]) {
        var i :| 0 <= i < n && Key(order[..n][i]) == k;
        assert order[..n][i] == order[i];
      }
      if exists i :: 0 <= i < |order| && Key(order[i]) == k {
        var i :| 0 <= i < |order| && Key(order[i]) == k;
        if i < n {
          assert order[..n][i] == order[i];
        }
      }
    }
  }

  /** `w` is a neighbour of `u` exactly when the graph has the edge {u, w}. */
  lemma {:induction false} NbrsMeans(order: seq<(string, string)>, u: string, w: string)
    ensures w in Nbrs(order, u) <==> {u, w} in KeysOf(order)
  {
    if |order| > 0 {
      var n := |order| - 1;
      NbrsMeans(order[..n], u, w);
      KeyIs(order[n], u, w);
    }
  }

  /** With each edge created once, a neighbour is listed once. */
  lemma {:induction false} NbrsDistinct(order: seq<(string, string)>, u: string)
    requires KeysDistinct(order)
    ensures Grouping.Distinct(Nbrs(order, u))
  {
    if |order| > 0 {
      var n := |order| - 1;
      var init := order[..n];
      assert KeysDistinct(init) by {
        assert forall i :: 0 <= i < n ==> init[i] == order[i];
      }
      NbrsDistinct(init, u);
      var o := OtherEnd(order[n], u);
      if |o| == 1 {
        var w := o[0];
        KeyIs(order[n], u, w);
        LastKeyNew(order);
        NbrsMeans(init, u, w);
      }
    }
  }

  /** The last edge created is new. */
  lemma LastKeyNew(order: seq<(string, string)>)
    requires |order| > 0 && KeysDistinct(order)
    ensures Key(order[|order| - 1]) !in KeysOf(order[..|order| - 1])
  {
    var n := |order| - 1;
    KeysOfMeans(order[..n], Key(order[n]));
    assert forall i :: 0 <= i < n ==> order[..n][i] == order[i];
  }

  lemma {:induction false} VisitMeans(u: string, seen: seq<string>, ns: seq<string>, p: (string, string))
    ensures p in Visit(u, seen, ns) <==> p.0 == u && p.1 in ns && p.1 !in seen
  {
    if |ns| > 0 {
      VisitMeans(u, seen, ns[..|ns| - 1], p);
      assert ns == ns[..|ns| - 1] + [ns[|ns| - 1]];
    }
  }

  lemma KeysDistinctAppend(a: seq<(string, string)>, b: seq<(string, string)>)
    requires KeysDistinct(a) && KeysDistinct(b)
    requires forall i, j :: 0 <= i < |a| && 0 <= j < |b| ==> Key(a[i]) != Key(b[j])
    ensures KeysDistinct(a + b)
  {
    var c := a + b;
    forall i, j | 0 <= i < j < |c|
      ensures Key(c[i]) != Key(c[j])
    {
      if j < |a| {
      } else if i >= |a| {
        assert c[i] == b[i - |a|] && c[j] == b[j - |a|];
      } else {
        assert c[j] == b[j - |a|];
      }
    }
  }

  /** Distinct neighbours give distinct edges. */
  lemma {:induction false} VisitDistinct(u: string, seen: seq<string>, ns: seq<string>)
    requires Grouping.Distinct(ns)
    ensures KeysDistinct(Visit(u, seen, ns))
  {
    if |ns| > 0 {
      var n := |ns| - 1;
      var w := ns[n];
      VisitDistinct(u, seen, ns[..n]);
      var a := Visit(u, seen, ns[..n]);
      var b: seq<(string, string)> := if w in seen then [] else [(u, w)];
      forall i, j | 0 <= i < |a| && 0 <= j < |b|
        ensures Key(a[i]) != Key(b[j])
      {
        VisitMeans(u, seen, ns[..n], a[i]);
        var x := a[i].1;
        assert b[j] == (u, w);
        assert x != w by {
          var k :| 0 <= k < n && ns[k] == x;
        }
        if x != u {
          assert x in Key(a[i]) && x !in Key(b[j]);
        } else {
          assert w in Key(b[j]) && w !in Key(a[i]);
        }
      }
      KeysDistinctAppend(a, b);
    }
  }

  /** `G.edges()` yields `p` on the turn of `nodes[i]`: `p` leaves that node
      towards a neighbour not visited before it. */
  predicate EmittedAt(nodes: seq<string>, order: seq<(string, string)>, p: (string, string), i: int)
  {
    0 <= i < |nodes| && nodes[i] == p.0 && p.1 in Nbrs(order, p.0) && p.1 !in nodes[..i]
  }

  lemma EmittedAtPrefix(nodes: seq<string>, n: nat, order: seq<(string, string)>, p: (string, string), i: int)
    requires 0 <= i < n <= |nodes|
    ensures EmittedAt(nodes[..n], order, p, i) <==> EmittedAt(nodes, order, p, i)
  {
    assert nodes[..n][i] == nodes[i];
    assert nodes[..n][..i] == nodes[..i];
  }

  /** An edge comes out of `G.edges()` from some node `nodes[i]`, towards a
      neighbour not visited before it. */
  lemma NxOrderMeans(nodes: seq<string>, order: seq<(string, string)>, p: (string, string))
    ensures p in NxOrder(nodes, order) <==> exists i :: EmittedAt(nodes, order, p, i)
  {
    if p in NxOrder(nodes, order) {
      NxOrderEmitted(nodes, order, p);
    }
    if exists i :: EmittedAt(nodes, order, p, i) {
      var i :| EmittedAt(nodes, order, p, i);
      EmittedInOrder(nodes, order, p, i);
    }
  }

  lemma {:induction false} NxOrderEmitted(nodes: seq<string>, order: seq<(string, string)>, p: (string, string))
    requires p in NxOrder(nodes, order)
    ensures exists i :: EmittedAt(nodes, order, p, i)
  {
    var n := |nodes| - 1;
    var init := nodes[..n];
    var u := nodes[n];
    assert NxOrder(nodes, order) == NxOrder(init, order) + Visit(u, init, Nbrs(order, u));
    if p in NxOrder(init, order) {
      NxOrderEmitted(init, order, p);
      var i :| EmittedAt(init, order, p, i);
      EmittedAtPrefix(nodes, n, order, p, i);
    } else {
      VisitMeans(u, init, Nbrs(order, u), p);
      assert EmittedAt(nodes, order, p, n);
    }
  }

  lemma {:induction false} EmittedInOrder(nodes: seq<string>, order: seq<(string, string)>, p: (string, string), i: int)
    requires EmittedAt(nodes, order, p, i)
    ensures p in NxOrder(nodes, order)
  {
    var n := |nodes| - 1;
    var init := nodes[..n];
    var u := nodes[n];
    assert NxOrder(nodes, order) == NxOrder(init, order) + Visit(u, init, Nbrs(order, u));
    if i < n {
      EmittedAtPrefix(nodes, n, order, p, i);
      EmittedInOrder(init, order, p, i);
    } else {
      VisitMeans(u, init, Nbrs(order, u), p);
    }
  }

  /** Each edge comes out once: the edges from the last node visited go to
      nodes not visited before, so they differ from all earlier ones. */
  lemma {:induction false} NxOrderDistinct(nodes: seq<string>, order: seq<(string, string)>)
    requires Grouping.Distinct(nodes) && KeysDistinct(order)
    ensures KeysDistinct(NxOrder(nodes, order))
  {
    if |nodes| > 0 {
      var n := |nodes| - 1;
      var u := nodes[n];
      var seen := nodes[..n];
      NxOrderDistinct(seen, order);
      NbrsDistinct(order, u);
      VisitDistinct(u, seen, Nbrs(order, u));
      var a := NxOrder(seen, order);
      var b := Visit(u, seen, Nbrs(order, u));
      forall i, j | 0 <= i < |a| && 0 <= j < |b|
        ensures Key(a[i]) != Key(b[j])
      {
        NxOrderMeans(seen, order, a[i]);
        VisitMeans(u, seen, Nbrs(order, u), b[j]);
        assert a[i].0 in seen && u !in seen;
        assert a[i].0 in Key(a[i]) && a[i].0 !in Key(b[j]);
      }
      KeysDistinctAppend(a, b);
    }
  }

  lemma {:induction false} KeysOfCount(order: seq<(string, string)>)
    requires KeysDistinct(order)
    ensures |KeysOf(order)| == |order|
  {
    if |order| > 0 {
      var n := |order| - 1;
      assert KeysDistinct(order[..n]) by {
        assert forall i :: 0 <= i < n ==> order[..n][i] == order[i];
      }
      KeysOfCount(order[..n]);
      KeysOfMeans(order[..n], Key(order[n]));
    }
  }

  /** Nodes X, Y, Z, and the edges {Z, Y} and {X, Z} created in that
      order: `G.edges()` starts from X, so it yields (X, Z) before
      (Y, Z), both oriented away from their creation order. */
  lemma NxOrderExample()
    ensures NxOrder(["X", "Y", "Z"], [("Z", "Y"), ("X", "Z")]) == [("X", "Z"), ("Y", "Z")]
  {
    var nodes := ["X", "Y", "Z"];
    assert nodes[..2] == ["X", "Y"] && nodes[2] == "Z";
    ExampleFirstTwo();
    ExampleNbrs();
    ExampleVisits();
  }

  lemma ExampleFirstTwo()
    ensures NxOrder(["X", "Y"], ExampleOrder) == [("X", "Z"), ("Y", "Z")]
  {
    var nodes := ["X", "Y"];
    assert nodes[..1] == ["X"] && nodes[1] == "Y";
    ExampleFirst();
    ExampleNbrs();
    ExampleVisits();
  }

  lemma ExampleFirst()
    ensures NxOrder(["X"], ExampleOrder) == [("X", "Z")]
  {
    var nodes := ["X"];
    assert nodes[..0] == [] && nodes[0] == "X";
    ExampleNbrs();
    ExampleVisits();
  }

  const ExampleOrder: seq<(string, string)> := [("Z", "Y"), ("X", "Z")]

  lemma ExampleNbrs()
    ensures Nbrs(ExampleOrder, "X") == ["Z"]
    ensures Nbrs(ExampleOrder, "Y") == ["Z"]
    ensures Nbrs(ExampleOrder, "Z") == ["Y", "X"]
  {
    var first := [("Z", "Y")];
    assert ExampleOrder[..1] == first && first[..0] == [];
    assert Nbrs(first, "X") == [];
    assert Nbrs(first, "Y") == ["Z"];
    assert Nbrs(first, "Z") == ["Y"];
  }

  lemma ExampleVisits()
    ensures Visit("X", [], ["Z"]) == [("X", "Z")]
    ensures Visit("Y", ["X"], ["Z"]) == [("Y", "Z")]
    ensures Visit("Z", ["X", "Y"], ["Y", "X"]) == []
  {
    assert ["Z"][..0] == [];
    assert ["Y", "X"][..1] == ["Y"] && ["Y"][..0] == [];
    assert "Z" !in ["X"];
    assert "Y" in ["X", "Y"] && "X" in ["X", "Y"];
  }

  /** `p` runs from a node to one inserted no earlier. */
  ghost predicate FromEarlier(nodes: seq<string>, p: (string, string))
  {
    exists k :: 0 <= k < |nodes| && nodes[k] == p.0 && p.1 in nodes[k..]
  }

  /** Every pair `G.edges()` yields is an edge, from its end inserted first. */
  lemma NxOrderSound(g: Net, p: (string, string))
    requires NetOk(g)
    requires p in NxOrder(g.nodes, g.order)
    ensures Key(p) in KeysOf(g.order)
    ensures FromEarlier(g.nodes, p)
  {
    NxOrderMeans(g.nodes, g.order, p);
    var k :| EmittedAt(g.nodes, g.order, p, k);
    NbrsMeans(g.order, p.0, p.1);
    KeysOfMeans(g.order, {p.0, p.1});
    var j :| 0 <= j < |g.order| && Key(g.order[j]) == {p.0, p.1};
    KeyIs(g.order[j], p.0, p.1);
    assert g.order[j].0 in g.nodes && g.order[j].1 in g.nodes;
    NotBefore(g.nodes, k, p.1);
  }

  lemma NotBefore(s: seq<string>, k: nat, x: string)
    requires k <= |s| && x in s && x !in s[..k]
    ensures x in s[k..]
  {
    assert s == s[..k] + s[k..];
  }

  /** Every edge comes out of `G.edges()`. */
  lemma NxOrderComplete(g: Net, j: nat)
    requires NetOk(g)
    requires j < |g.order|
    ensures Key(g.order[j]) in KeysOf(NxOrder(g.nodes, g.order))
  {
    var o := NxOrder(g.nodes, g.order);
    var a, b := g.order[j].0, g.order[j].1;
    var ia :| 0 <= ia < |g.nodes| && g.nodes[ia] == a;
    var ib :| 0 <= ib < |g.nodes| && g.nodes[ib] == b;
    var p := if ia <= ib then (a, b) else (b, a);
    var ip := if ia <= ib then ia else ib;
    assert Key(p) == Key(g.order[j]);
    InKeysOf(g.order, j);
    NbrsMeans(g.order, p.0, p.1);
    assert p.1 !in g.nodes[..ip];
    assert EmittedAt(g.nodes, g.order, p, ip);
    NxOrderMeans(g.nodes, g.order, p);
    var i :| 0 <= i < |o| && o[i] == p;
    InKeysOf(o, i);
  }

  /** `G.edges()` lists every edge of the graph exactly once, and no
      other pair, oriented from the end inserted first. */
  lemma NxOrderOnce(g: Net)
    requires NetOk(g)
    ensures var o := NxOrder(g.nodes, g.order);
      && KeysDistinct(o)
      && KeysOf(o) == g.edges.Keys
      && |o| == |g.edges|
      && forall i :: 0 <= i < |o| ==> FromEarlier(g.nodes, o[i])
  {
    var o := NxOrder(g.nodes, g.order);
    NxOrderDistinct(g.nodes, g.order);
    forall k | k in KeysOf(o)
      ensures k in KeysOf(g.order)
    {
      KeysOfMeans(o, k);
      var i :| 0 <= i < |o| && Key(o[i]) == k;
      NxOrderSound(g, o[i]);
    }
    forall k | k in KeysOf(g.order)
      ensures k in KeysOf(o)
    {
      KeysOfMeans(g.order, k);
      var j :| 0 <= j < |g.order| && Key(g.order[j]) == k;
      NxOrderComplete(g, j);
    }
    KeysOfCount(o);
    forall i | 0 <= i < |o|
      ensures FromEarlier(g.nodes, o[i])
    {
      NxOrderSound(g, o[i]);
    }
  }

  /** `G.edges(data=True)`: the edges in `G.edges()` order with their data. */
  datatype EdgeRec = EdgeRec(a: string, b: string, data: EdgeData)

  function EdgeList(order: seq<(string, string)>, edges: map<set<string>, EdgeData>): (es: seq<EdgeRec>)
    requires KeysOf(order) <= edges.Keys
    ensures |es| == |order|
    ensures forall i :: 0 <= i < |es| ==>
      es[i].a == order[i].0 && es[i].b == order[i].1 && Key(order[i]) in edges && es[i].data == edges[Key(order[i])]
  {
    if |order| == 0 then []
    else
      var n := |order| - 1;
      EdgeList(order[..n], edges) + [EdgeRec(order[n].0, order[n].1, edges[Key(order[n])])]
  }

  function Edges(g: Net): seq<EdgeRec>
    requires NetOk(g)
  {
    NxOrderOnce(g);
    EdgeList(NxOrder(g.nodes, g.order), g.edges)
  }

  /** The record at position `i` is the edge `G.edges()` yields there,
      with its data. */
  lemma EdgeAt(g: Net, i: nat)
    requires NetOk(g)
    requires i < |NxOrder(g.nodes, g.order)|
    ensures var es, o := Edges(g), NxOrder(g.nodes, g.order);
      && |es| == |o| && (es[i].a, es[i].b) == o[i]
      && Key(o[i]) in g.edges && es[i].data == g.edges[Key(o[i])]
  {
    NxOrderOnce(g);
  }

  /** The edge records are the graph's edges, each once, with its data,
      oriented from the end inserted first. */
  lemma EdgesOnce(g: Net)
    requires NetOk(g)
    ensures var es := Edges(g);
      && |es| == |g.edges|
      && (forall i :: 0 <= i < |es| ==> {es[i].a, es[i].b} in g.edges && es[i].data == g.edges[{es[i].a, es[i].b}])
      && (forall i, j :: 0 <= i < j < |es| ==> {es[i].a, es[i].b} != {es[j].a, es[j].b})
      && (forall k :: k in g.edges ==> exists i :: 0 <= i < |es| && {es[i].a, es[i].b} == k)
      && (forall i :: 0 <= i < |es| ==> FromEarlier(g.nodes, (es[i].a, es[i].b)))
  {
    var o := NxOrder(g.nodes, g.order);
    var es := Edges(g);
    NxOrderOnce(g);
    forall i | 0 <= i < |es|
      ensures {es[i].a, es[i].b} in g.edges && es[i].data == g.edges[{es[i].a, es[i].b}]
      ensures FromEarlier(g.nodes, (es[i].a, es[i].b))
    {
      EdgeAt(g, i);
    }
    forall i, j | 0 <= i < j < |es|
      ensures {es[i].a, es[i].b} != {es[j].a, es[j].b}
    {
      EdgeAt(g, i);
      EdgeAt(g, j);
    }
    forall k | k in g.edges
      ensures exists i :: 0 <= i < |es| && {es[i].a, es[i].b} == k
    {
      KeysOfMeans(o, k);
      var i :| 0 <= i < |o| && Key(o[i]) == k;
      EdgeAt(g, i);
    }
  }

  /* ---------------------------------------------------------- statistics */

  /** The pass test of the statistics: only the weight the edge filter
      names is compared with the threshold. */
  predicate PassFilter(e: EdgeData, edgefilter: string, threshold: int)
  {
    && (edgefilter == "families" ==> |e.families| >= threshold)
    && (edgefilter == "languages" ==> |e.languages| >= threshold)
    && (edgefilter == "words" ==> |e.words| >= threshold)
  }

  /** Per-language counters: colexifications and potential colexifications,
      over all edges and over the edges passing the filter. */
  datatype Stats = Stats(all: nat, allPossible: nat, thr: nat, thrPossible: nat)

  /** `concepts` is a defaultdict: a language missing from it attests nothing. */
  predicate Attests(concepts: map<string, set<string>>, lang: string, c: string)
  {
    lang in concepts && c in concepts[lang]
  }

  /** The counters of one language after the edge loop: an edge without
      languages is skipped; a language on the edge counts a colexification
      and a potential one; any other language counts a potential one only
      if it attests both concepts. */
  function LangStats(es: seq<EdgeRec>, lang: string, concepts: map<string, set<string>>,
                     edgefilter: string, threshold: int): Stats
  {
    if |es| == 0 then Stats(0, 0, 0, 0)
    else
      var st := LangStats(es[..|es| - 1], lang, concepts, edgefilter, threshold);
      var e := es[|es| - 1];
      var pass: nat := if PassFilter(e.data, edgefilter, threshold) then 1 else 0;
      if |e.data.languages| == 0 then st
      else if lang in e.data.languages then
        Stats(st.all + 1, st.allPossible + 1, st.thr + pass, st.thrPossible + pass)
      else if Attests(concepts, lang, e.a) && Attests(concepts, lang, e.b) then
        Stats(st.all, st.allPossible + 1, st.thr, st.thrPossible + pass)
      else st
  }

  /** The counters are ordered: what passes the threshold is bounded by
      what is counted overall, and colexifications by potential ones. */
  lemma {:induction false} StatsBounds(es: seq<EdgeRec>, lang: string, concepts: map<string, set<string>>,
                                       edgefilter: string, threshold: int)
    ensures var st := LangStats(es, lang, concepts, edgefilter, threshold);
      && st.thr <= st.all <= st.allPossible
      && st.thr <= st.thrPossible <= st.allPossible
  {
    if |es| > 0 {
      StatsBounds(es[..|es| - 1], lang, concepts, edgefilter, threshold);
    }
  }

  predicate Colexifies(lang: string, e: EdgeRec)
  {
    lang in e.data.languages
  }

  /** An edge the language could colexify but does not. */
  predicate Potential(concepts: map<string, set<string>>, lang: string, e: EdgeRec)
  {
    && |e.data.languages| > 0
    && lang !in e.data.languages
    && Attests(concepts, lang, e.a) && Attests(concepts, lang, e.b)
  }

  /** The counters as numbers of edges: the edges carrying the language,
      plus the edges it could colexify. */
  lemma {:induction false} StatsCountAll(es: seq<EdgeRec>, lang: string, concepts: map<string, set<string>>,
                                         edgefilter: string, threshold: int)
    ensures var st := LangStats(es, lang, concepts, edgefilter, threshold);
      && st.all == |Grouping.Filter(es, (e: EdgeRec) => Colexifies(lang, e))|
      && st.allPossible == st.all + |Grouping.Filter(es, (e: EdgeRec) => Potential(concepts, lang, e))|
  {
    if |es| > 0 {
      StatsCountAll(es[..|es| - 1], lang, concepts, edgefilter, threshold);
    }
  }

  /** The threshold counters count the same edges, restricted to those
      passing the filter. */
  lemma {:induction false} StatsCountThreshold(es: seq<EdgeRec>, lang: string, concepts: map<string, set<string>>,
                                               edgefilter: string, threshold: int)
    ensures var st := LangStats(es, lang, concepts, edgefilter, threshold);
      && st.thr == |Grouping.Filter(es, (e: EdgeRec) => Colexifies(lang, e) && PassFilter(e.data, edgefilter, threshold))|
      && st.thrPossible == st.thr
           + |Grouping.Filter(es, (e: EdgeRec) => Potential(concepts, lang, e) && PassFilter(e.data, edgefilter, threshold))|
  {
    if |es| > 0 {
      StatsCountThreshold(es[..|es| - 1], lang, concepts, edgefilter, threshold);
    }
  }

  /* --------------------------------------------------------- colex2lang */

  /** The Glottocodes of the languages of `lang_map` found on an edge. */
  function Glottocodes(langMap: map<string, string>, e: EdgeRec): set<string>
  {
    set l | l in langMap && l in e.data.languages :: langMap[l]
  }

  /** `colex2lang`: for each edge, as first oriented, the Glottocodes of the
      languages colexifying it; an edge without any gets no entry. */
  function Colex2Lang(es: seq<EdgeRec>, langMap: map<string, string>): map<(string, string), set<string>>
  {
    if |es| == 0 then map[]
    else
      var m := Colex2Lang(es[..|es| - 1], langMap);
      var e := es[|es| - 1];
      var gs := Glottocodes(langMap, e);
      if gs == {} then m
      else m[(e.a, e.b) := (if (e.a, e.b) in m then m[(e.a, e.b)] else {}) + gs]
  }

  ghost predicate Reports(es: seq<EdgeRec>, langMap: map<string, string>, p: (string, string), gc: string)
  {
    exists i :: 0 <= i < |es| && (es[i].a, es[i].b) == p && gc in Glottocodes(langMap, es[i])
  }

  /** A Glottocode is listed for an edge exactly when some language of
      `lang_map` with that Glottocode colexifies it, and only such edges
      are listed. */
  lemma {:induction false} Colex2LangMeans(es: seq<EdgeRec>, langMap: map<string, string>, p: (string, string), gc: string)
    ensures var m := Colex2Lang(es, langMap);
      (p in m && gc in m[p]) <==> Reports(es, langMap, p, gc)
    ensures var m := Colex2Lang(es, langMap);
      p in m ==> m[p] != {}
  {
    if |es| > 0 {
      var n := |es| - 1;
      Colex2LangMeans(es[..n], langMap, p, gc);
      var m := Colex2Lang(es, langMap);
      if Reports(es, langMap, p, gc) {
        var i :| 0 <= i < |es| && (es[i].a, es[i].b) == p && gc in Glottocodes(langMap, es[i]);
        if i < n {
          assert es[..n][i] == es[i];
        }
      }
      if p in m && gc in m[p] {
        if !((es[n].a, es[n].b) == p && gc in Glottocodes(langMap, es[n])) {
          var i :| 0 <= i < n && (es[..n][i].a, es[..n][i].b) == p && gc in Glottocodes(langMap, es[..n][i]);
          assert es[..n][i] == es[i];
        }
      }
    }
  }

  /* ------------------------------------------------------- serialisation */

  /** An edge as written to the graph file: the three weights and the
      ';'-joined fields. */
  datatype SerialEdge = SerialEdge(
    wordWeight: nat, words: string, familyWeight: nat, families: string,
    languageWeight: nat, languages: string, wofam: string)

  function PairString(p: (string, string)): string
  {
    p.0 + "/" + p.1
  }

  function PairStrings(ws: seq<(string, string)>): (r: seq<string>)
    ensures |r| == |ws| && forall i :: 0 <= i < |ws| ==> r[i] == PairString(ws[i])
  {
    seq(|ws|, (i: int) requires 0 <= i < |ws| => PairString(ws[i]))
  }

  function SortStrings(xs: seq<string>): seq<string>
  {
    Sorting.Sort(xs, StrLe)
  }

  /** `words` and `families` are written sorted, `languages` and `wofam` in
      their own order. */
  function Serialize(e: EdgeData): SerialEdge
  {
    SerialEdge(
      |e.words|, Join(SortStrings(PairStrings(e.words)), ";"),
      |e.families|, Join(SortStrings(e.families), ";"),
      |e.languages|, Join(e.languages, ";"),
      Join(e.wofam, ";"))
  }

  lemma StrLePreorder()
    ensures Sorting.TotalPreorder(StrLe)
  {
    forall a, b
      ensures StrLe(a, b) || StrLe(b, a)
    {
      StrLeTotal(a, b);
    }
    forall a, b, c | StrLe(a, b) && StrLe(b, c)
      ensures StrLe(a, c)
    {
      StrLeTransitive(a, b, c);
    }
  }

  lemma DistinctElems<T>(s: seq<T>)
    requires Grouping.Distinct(s)
    ensures |Elems(s)| == |s|
  {
    if |s| > 0 {
      var n := |s| - 1;
      DistinctElems(s[..n]);
      assert Elems(s) == Elems(s[..n]) + {s[n]};
      assert s[n] !in Elems(s[..n]);
    }
  }

  /** The weights are the sizes of the sets they stand for; on an edge the
      loop built, each is at least one and at most the number of `wofam`
      entries. */
  lemma SerializeWeights(e: EdgeData)
    requires EdgeOk(e)
    ensures var s := Serialize(e);
      && s.wordWeight == |Elems(e.words)| && s.familyWeight == |Elems(e.families)|
      && s.languageWeight == |Elems(e.languages)|
      && 1 <= s.wordWeight <= |e.wofam| && 1 <= s.familyWeight <= |e.wofam|
      && 1 <= s.languageWeight <= |e.wofam|
  {
    DistinctElems(e.words);
    DistinctElems(e.families);
    DistinctElems(e.languages);
  }

  /** Splitting a sorted join gives the sorted pieces back. */
  lemma SortedJoinSplit(xs: seq<string>)
    requires |xs| >= 1
    requires forall i :: 0 <= i < |xs| ==> ';' !in xs[i]
    ensures var r := Split(Join(SortStrings(xs), ";"), ';');
      Sorting.SortedBy(r, StrLe) && multiset(r) == multiset(xs)
  {
    StrLePreorder();
    Sorting.SortSorted(xs, StrLe);
    var s := SortStrings(xs);
    forall i | 0 <= i < |s|
      ensures ';' !in s[i]
    {
      assert s[i] in multiset(xs);
    }
    JoinThenSplit(s, ';');
  }

  /** Reading an edge back: `words` and `families` come back sorted and with
      the same elements, `languages` and `wofam` exactly, provided no
      element holds the ';' separator. */
  lemma SerializeRoundTrip(e: EdgeData)
    requires EdgeOk(e) && |e.wofam| >= 1
    requires forall i :: 0 <= i < |e.words| ==> ';' !in PairString(e.words[i])
    requires forall i :: 0 <= i < |e.families| ==> ';' !in e.families[i]
    requires forall i :: 0 <= i < |e.languages| ==> ';' !in e.languages[i]
    requires forall i :: 0 <= i < |e.wofam| ==> ';' !in e.wofam[i]
    ensures var s := Serialize(e);
      && Sorting.SortedBy(Split(s.words, ';'), StrLe)
      && multiset(Split(s.words, ';')) == multiset(PairStrings(e.words))
      && Sorting.SortedBy(Split(s.families, ';'), StrLe)
      && multiset(Split(s.families, ';')) == multiset(e.families)
      && Split(s.languages, ';') == e.languages
      && Split(s.wofam, ';') == e.wofam
  {
    SortedJoinSplit(PairStrings(e.words));
    SortedJoinSplit(e.families);
    JoinThenSplit(e.languages, ';');
    JoinThenSplit(e.wofam, ';');
  }

  /* -------------------------------------------------------------- filter */

  /** The removal test: the if/elif chain over the edge filter's name. */
  predicate Ignored(s: SerialEdge, edgefilter: string, threshold: int)
  {
    if edgefilter == "families" then s.familyWeight < threshold
    else if edgefilter == "languages" then s.languageWeight < threshold
    else if edgefilter == "words" then s.wordWeight < threshold
    else false
  }

  /** The removal test and the statistics' pass test agree: an edge is
      removed exactly when it does not pass, and an unknown filter removes
      nothing. */
  lemma IgnoredIff(e: EdgeData, edgefilter: string, threshold: int)
    ensures Ignored(Serialize(e), edgefilter, threshold) <==> !PassFilter(e, edgefilter, threshold)
    ensures edgefilter != "families" && edgefilter != "languages" && edgefilter != "words" ==>
      !Ignored(Serialize(e), edgefilter, threshold)
  {
  }

  /** The graph as saved: the nodes and the serialised edges that survive
      the filter. */
  datatype SavedGraph = SavedGraph(nodes: seq<string>, edges: map<set<string>, SerialEdge>)

  function Filtered(g: Net, edgefilter: string, threshold: int): (r: SavedGraph)
    ensures r.nodes == g.nodes
    ensures forall k :: k in r.edges <==> k in g.edges && PassFilter(g.edges[k], edgefilter, threshold)
    ensures forall k :: k in r.edges ==> r.edges[k] == Serialize(g.edges[k])
  {
    assert forall k :: k in g.edges ==>
      (Ignored(Serialize(g.edges[k]), edgefilter, threshold) <==> !PassFilter(g.edges[k], edgefilter, threshold));
    SavedGraph(g.nodes, map k | k in g.edges && !Ignored(Serialize(g.edges[k]), edgefilter, threshold) :: Serialize(g.edges[k]))
  }

  /* --------------------------------------------------------------- table */

  /** A summary entry: an edge and its (families, languages, words) counts. */
  datatype Entry = Entry(a: string, b: string, fc: nat, lc: nat, wc: nat)

  function EntryOf(e: EdgeRec): Entry
  {
    Entry(e.a, e.b, |e.data.families|, |e.data.languages|, |e.data.words|)
  }

  function Entries(es: seq<EdgeRec>): (r: seq<Entry>)
    ensures |r| == |es| && forall i :: 0 <= i < |es| ==> r[i] == EntryOf(es[i])
  {
    seq(|es|, (i: int) requires 0 <= i < |es| => EntryOf(es[i]))
  }

  /** "May come before" for `sorted(..., reverse=True)` on the count tuple:
      the tuple is lexicographically at least as large. */
  predicate Desc(x: Entry, y: Entry)
  {
    x.fc > y.fc || (x.fc == y.fc && (x.lc > y.lc || (x.lc == y.lc && x.wc >= y.wc)))
  }

  lemma DescPreorder()
    ensures Sorting.TotalPreorder(Desc)
  {
  }

  /** The pairs of the removed edges, as `ignore_edges` lists them (the
      removal test is the failed pass test, by `IgnoredIff`). */
  function IgnoredPairs(es: seq<EdgeRec>, edgefilter: string, threshold: int): set<(string, string)>
  {
    set i | 0 <= i < |es| && !PassFilter(es[i].data, edgefilter, threshold) :: (es[i].a, es[i].b)
  }

  /** The entries whose edge was not removed, in order. */
  function Kept(s: seq<Entry>, ignored: set<(string, string)>): seq<Entry>
  {
    if |s| == 0 then []
    else (if (s[0].a, s[0].b) !in ignored then [s[0]] else []) + Kept(s[1..], ignored)
  }

  /** The table loop: a kept entry is appended and counted, and after every
      entry, kept or not, the loop stops once the count reaches `show`. */
  function Table(s: seq<Entry>, ignored: set<(string, string)>, show: int, count: nat): (r: seq<Entry>)
    ensures |r| <= if count < show then show - count else 1
  {
    if |s| == 0 then []
    else
      var keep := (s[0].a, s[0].b) !in ignored;
      var c := if keep then count + 1 else count;
      var row := if keep then [s[0]] else [];
      if c >= show then row else row + Table(s[1..], ignored, show, c)
  }

  function Min(a: int, b: int): int
  {
    if a <= b then a else b
  }

  /** With rows still to fill, the loop lists the first kept entries, as
      many as are missing. */
  lemma {:induction false} TableTakes(s: seq<Entry>, ignored: set<(string, string)>, show: int, count: nat)
    requires count < show
    ensures var k := Kept(s, ignored);
      Table(s, ignored, show, count) == k[..Min(show - count, |k|)]
  {
    if |s| > 0 {
      var k := Kept(s, ignored);
      var rest := Kept(s[1..], ignored);
      var t := Table(s, ignored, show, count);
      if (s[0].a, s[0].b) !in ignored {
        assert k == [s[0]] + rest;
        if count + 1 < show {
          var m := Min(show - count - 1, |rest|);
          assert t == [s[0]] + Table(s[1..], ignored, show, count + 1);
          assert Table(s[1..], ignored, show, count + 1) == rest[..m] by {
            TableTakes(s[1..], ignored, show, count + 1);
          }
          assert Min(show - count, |k|) == m + 1;
          assert k[..m + 1] == [s[0]] + rest[..m];
        } else {
          assert t == [s[0]];
          assert Min(show - count, |k|) == 1;
          assert k[..1] == [s[0]];
        }
      } else {
        assert k == rest;
        assert t == Table(s[1..], ignored, show, count);
        TableTakes(s[1..], ignored, show, count);
      }
    }
  }

  /** For `show` of at least one the summary holds the first `show` kept
      entries (or all of them); for `show` below one, at most the first
      entry, because the loop checks the count only after an entry. */
  lemma TableRows(s: seq<Entry>, ignored: set<(string, string)>, show: int)
    ensures show >= 1 ==>
      Table(s, ignored, show, 0) == Kept(s, ignored)[..Min(show, |Kept(s, ignored)|)]
    ensures show <= 0 ==>
      Table(s, ignored, show, 0) == (if |s| > 0 && (s[0].a, s[0].b) !in ignored then [s[0]] else [])
  {
    if show >= 1 {
      TableTakes(s, ignored, show, 0);
    }
  }

  /** The kept entries are exactly the entries of kept edges. */
  lemma {:induction false} KeptMembers(s: seq<Entry>, ignored: set<(string, string)>)
    ensures forall x :: x in Kept(s, ignored) <==> x in s && (x.a, x.b) !in ignored
  {
    if |s| > 0 {
      KeptMembers(s[1..], ignored);
      assert forall x :: x in s <==> x == s[0] || x in s[1..];
    }
  }

  /** Dropping entries keeps the order of the rest. */
  lemma {:induction false} KeptSorted(s: seq<Entry>, ignored: set<(string, string)>)
    requires Sorting.SortedBy(s, Desc)
    ensures Sorting.SortedBy(Kept(s, ignored), Desc)
  {
    if |s| > 0 {
      KeptSorted(s[1..], ignored);
      var rest := Kept(s[1..], ignored);
      KeptMembers(s[1..], ignored);
      assert forall j :: 0 <= j < |rest| ==> rest[j] in s[1..];
    }
  }

  /** The summary rows come in descending count order when the entries do. */
  lemma TableSorted(s: seq<Entry>, ignored: set<(string, string)>, show: int)
    requires Sorting.SortedBy(s, Desc)
    ensures Sorting.SortedBy(Table(s, ignored, show, 0), Desc)
  {
    TableRows(s, ignored, show);
    KeptSorted(s, ignored);
  }

  /** Every summary row is a kept entry. */
  lemma TableKept(s: seq<Entry>, ignored: set<(string, string)>, show: int)
    ensures forall x :: x in Table(s, ignored, show, 0) ==> x in s && (x.a, x.b) !in ignored
  {
    TableRows(s, ignored, show);
    KeptMembers(s, ignored);
    var k := Kept(s, ignored);
    if show >= 1 {
      assert forall x :: x in k[..Min(show, |k|)] ==> x in k;
    }
  }

  /** A summary row: both concepts with their glosses, and the counts. */
  datatype Row = Row(idA: string, conceptA: string, idB: string, conceptB: string, families: nat, languages: nat, words: nat)

  /** `nodenames[nodeA]` and `nodenames[nodeB]`: a concept without a gloss
      ends the loop with a KeyError. */
  function Rows(t: seq<Entry>, nodenames: map<string, string>): (r: Result<seq<Row>>)
    ensures r.Success? <==> forall i :: 0 <= i < |t| ==> t[i].a in nodenames && t[i].b in nodenames
    ensures r.Failure? ==> exists i :: (0 <= i < |t| &&
      ((t[i].a !in nodenames && r.error == KeyError(t[i].a)) || (t[i].b !in nodenames && r.error == KeyError(t[i].b))))
    ensures r.Success? ==> |r.value| == |t| && forall i :: 0 <= i < |t| ==>
      r.value[i].idA == t[i].a && r.value[i].idB == t[i].b &&
      r.value[i].conceptA == nodenames[t[i].a] && r.value[i].conceptB == nodenames[t[i].b] &&
      (r.value[i].families, r.value[i].languages, r.value[i].words) == (t[i].fc, t[i].lc, t[i].wc)
  {
    if |t| == 0 then Success([])
    else if t[0].a !in nodenames then Failure(KeyError(t[0].a))
    else if t[0].b !in nodenames then Failure(KeyError(t[0].b))
    else
      match Rows(t[1..], nodenames)
      case Failure(e) => Failure(e)
      case Success(rest) =>
        Success([Row(t[0].a, nodenames[t[0].a], t[0].b, nodenames[t[0].b], t[0].fc, t[0].lc, t[0].wc)] + rest)
  }

  /** The summary table: the entries sorted by descending count tuple,
      stably, then the table loop and the gloss lookup. */
  function Summary(es: seq<EdgeRec>, edgefilter: string, threshold: int, show: int,
                   nodenames: map<string, string>): Result<seq<Row>>
  {
    Rows(Table(Sorting.Sort(Entries(es), Desc), IgnoredPairs(es, edgefilter, threshold), show, 0), nodenames)
  }

  /** Some edge from `a` to `b` survives the filter. */
  ghost predicate Listed(es: seq<EdgeRec>, edgefilter: string, threshold: int, a: string, b: string)
  {
    exists j :: 0 <= j < |es| && (es[j].a, es[j].b) == (a, b) && PassFilter(es[j].data, edgefilter, threshold)
  }

  /** The summary lists only unfiltered edges, in descending count order,
      at most `show` of them (at most one when `show` is below one). */
  lemma SummaryRows(es: seq<EdgeRec>, edgefilter: string, threshold: int, show: int, nodenames: map<string, string>)
    ensures var r := Summary(es, edgefilter, threshold, show, nodenames);
      r.Success? ==>
        && |r.value| <= (if show >= 1 then show else 1)
        && forall i :: 0 <= i < |r.value| ==> Listed(es, edgefilter, threshold, r.value[i].idA, r.value[i].idB)
  {
    var s := Sorting.Sort(Entries(es), Desc);
    var ign := IgnoredPairs(es, edgefilter, threshold);
    var t := Table(s, ign, show, 0);
    var r := Summary(es, edgefilter, threshold, show, nodenames);
    if r.Success? {
      TableKept(s, ign, show);
      forall i | 0 <= i < |r.value|
        ensures Listed(es, edgefilter, threshold, r.value[i].idA, r.value[i].idB)
      {
        assert t[i] in t;
        assert t[i] in multiset(Entries(es)) by {
          Sorting.SortSorted(Entries(es), Desc);
        }
        var j :| 0 <= j < |es| && Entries(es)[j] == t[i];
      }
    }
  }

  function RowEntry(row: Row): Entry
  {
    Entry(row.idA, row.idB, row.families, row.languages, row.words)
  }

  /** The summary rows come in descending (families, languages, words) order. */
  lemma SummaryOrder(es: seq<EdgeRec>, edgefilter: string, threshold: int, show: int, nodenames: map<string, string>)
    ensures var r := Summary(es, edgefilter, threshold, show, nodenames);
      r.Success? ==> forall i, j :: 0 <= i < j < |r.value| ==> Desc(RowEntry(r.value[i]), RowEntry(r.value[j]))
  {
    var s := Sorting.Sort(Entries(es), Desc);
    var t := Table(s, IgnoredPairs(es, edgefilter, threshold), show, 0);
    var r := Summary(es, edgefilter, threshold, show, nodenames);
    Sorting.SortSorted(Entries(es), Desc);
    TableSorted(s, IgnoredPairs(es, edgefilter, threshold), show);
    if r.Success? {
      assert forall i :: 0 <= i < |t| ==> RowEntry(r.value[i]) == t[i];
    }
  }

  /* ---------------------------------------------------------------- run */

  /** What the command keeps: the graph it saves and the summary rows. */
  datatype Outcome = Outcome(graph: SavedGraph, summary: seq<Row>)

  /** `G.add_node` for each concept in turn: a repeated id keeps its
      first place. */
  function AddNodes(ids: seq<string>): (r: seq<string>)
    ensures Grouping.Distinct(r)
    ensures forall x :: x in r <==> x in ids
  {
    if |ids| == 0 then [] else AddOnce(AddNodes(ids[..|ids| - 1]), ids[|ids| - 1])
  }

  function Start(concepts: seq<string>): Net
  {
    Net(AddNodes(concepts), [], map[])
  }

  /** The command from the concept nodes to the saved graph: the edge loop,
      the summary table (whose gloss lookup comes first and may fail), and
      the filtered, serialised graph. */
  function Run(concepts: seq<string>, cs: seq<Colex>, edgefilter: string, threshold: int, show: int,
               nodenames: map<string, string>): (r: Result<Outcome>)
  {
    match Accumulate(Start(concepts), cs)
    case Failure(e) => Failure(e)
    case Success(g) =>
      AccumulateOk(Start(concepts), cs);
      match Summary(Edges(g), edgefilter, threshold, show, nodenames)
      case Failure(e) => Failure(e)
      case Success(rows) => Success(Outcome(Filtered(g, edgefilter, threshold), rows))
  }

  /** The saved graph has an edge for exactly the concept pairs that
      colexify somewhere and pass the filter; each weight lies between one
      and the number of colexifications of the pair, and the `wofam` field
      lists one entry per colexification, in order. */
  lemma RunGraph(concepts: seq<string>, cs: seq<Colex>, edgefilter: string, threshold: int, show: int,
                 nodenames: map<string, string>, k: set<string>)
    requires Run(concepts, cs, edgefilter, threshold, show, nodenames).Success?
    ensures var g := Accumulate(Start(concepts), cs).value;
      var saved := Run(concepts, cs, edgefilter, threshold, show, nodenames).value.graph;
      && (k in g.edges <==> |EntriesOf(cs, k)| > 0)
      && (k in saved.edges <==> k in g.edges && PassFilter(g.edges[k], edgefilter, threshold))
      && (k in saved.edges ==>
            && 1 <= saved.edges[k].wordWeight <= |EntriesOf(cs, k)|
            && 1 <= saved.edges[k].languageWeight <= |EntriesOf(cs, k)|
            && 1 <= saved.edges[k].familyWeight <= |EntriesOf(cs, k)|
            && saved.edges[k].wofam == Join(EntriesOf(cs, k), ";"))
  {
    var g0 := Start(concepts);
    var g := Accumulate(g0, cs).value;
    assert NetOk(g) by {
      AccumulateOk(g0, cs);
    }
    assert (k in g.edges <==> |EntriesOf(cs, k)| > 0) && (k in g.edges ==> g.edges[k].wofam == EntriesOf(cs, k)) by {
      AccumulateContent(g0, cs, k);
      assert DataOr(g0, k) == EmptyEdge();
    }
    if k in g.edges {
      SerializeWeights(g.edges[k]);
    }
  }

  /** The nodes stay within any set holding the initial nodes and every
      second concept. */
  lemma {:induction false} NodesWithin(g: Net, cs: seq<Colex>, bound: set<string>)
    requires Accumulate(g, cs).Success?
    requires forall x :: x in g.nodes ==> x in bound
    requires forall i :: 0 <= i < |cs| ==> cs[i].b.concept in bound
    ensures forall x :: x in Accumulate(g, cs).value.nodes ==> x in bound
  {
    if |cs| > 0 {
      NodesWithin(g, cs[..|cs| - 1], bound);
    }
  }

  /** The command fails only on a missing node or gloss: when the first
      concept of every colexification is a node and every concept involved
      has a gloss, it succeeds. */
  lemma RunSucceeds(concepts: seq<string>, cs: seq<Colex>, edgefilter: string, threshold: int, show: int,
                    nodenames: map<string, string>)
    requires forall i :: 0 <= i < |cs| ==> cs[i].a.concept in concepts
    requires forall x :: x in concepts ==> x in nodenames
    requires forall i :: 0 <= i < |cs| ==> cs[i].b.concept in nodenames
    ensures Run(concepts, cs, edgefilter, threshold, show, nodenames).Success?
  {
    var g0 := Start(concepts);
    AccumulateFailure(g0, cs);
    var g := Accumulate(g0, cs).value;
    assert NetOk(g) by {
      AccumulateOk(g0, cs);
    }
    NodesWithin(g0, cs, nodenames.Keys);
    var es := Edges(g);
    EdgesOnce(g);
    assert forall i :: 0 <= i < |es| ==> es[i].a in nodenames && es[i].b in nodenames by {
      forall i | 0 <= i < |es|
        ensures es[i].a in g.nodes && es[i].b in g.nodes
      {
        assert FromEarlier(g.nodes, (es[i].a, es[i].b));
        var k :| 0 <= k < |g.nodes| && g.nodes[k] == es[i].a && es[i].b in g.nodes[k..];
      }
    }
    SummarySucceeds(es, edgefilter, threshold, show, nodenames);
  }

  /** The summary fails only on an edge whose concept lacks a gloss. */
  lemma SummarySucceeds(es: seq<EdgeRec>, edgefilter: string, threshold: int, show: int,
                        nodenames: map<string, string>)
    requires forall i :: 0 <= i < |es| ==> es[i].a in nodenames && es[i].b in nodenames
    ensures Summary(es, edgefilter, threshold, show, nodenames).Success?
  {
    var ents := Entries(es);
    var s := Sorting.Sort(ents, Desc);
    var ign := IgnoredPairs(es, edgefilter, threshold);
    var t := Table(s, ign, show, 0);
    assert forall x :: x in s ==> x.a in nodenames && x.b in nodenames by {
      assert forall x :: x in ents ==> x.a in nodenames && x.b in nodenames;
      Sorting.SortSorted(ents, Desc);
      assert forall x :: x in s ==> x in multiset(ents);
    }
    assert forall x :: x in t ==> x.a in nodenames && x.b in nodenames by {
      TableKept(s, ign, show);
    }
    assert forall i :: 0 <= i < |t| ==> t[i].a in nodenames && t[i].b in nodenames;
  }
}
