/** The colexification network built from a wordlist (`get_colexifications`)
    and its cognacy weighting (`weight_by_cognacy`).

    A node is a concept id carrying one entry per attesting form; an edge joins
    two different concepts expressed by the same tokens in one language and
    carries one entry per such pair of forms. networkx's undirected edge
    `graph[c1][c2]` is keyed here by the set `{c1, c2}`, so `graph[c1][c2]`
    and `graph[c2][c1]` are the same entry, as they are in networkx. */
module Colexifications {
  import opened Wrappers
  import opened Grouping
  import opened Strings

  datatype Concept = Concept(id: string, gloss: string)

  /** A form: its id, its concept (possibly missing) and `str(form.sounds)`. */
  datatype Form = Form(id: string, concept: Option<Concept>, sounds: string)

  datatype Language = Language(id: string, glottocode: string, family: string, forms: seq<Form>)

  /** The four parallel lists every node and edge carries. */
  datatype Attestations = Attestations(words: seq<string>, varieties: seq<string>,
                                       languages: seq<string>, families: seq<string>)

  datatype Node = Node(occurrences: seq<string>, att: Attestations)

  datatype Edge = Edge(count: nat, att: Attestations)

  /** `order` is the node insertion order, the order networkx reports them in. */
  datatype Graph = Graph(order: seq<string>, nodes: map<string, Node>, edges: map<set<string>, Edge>)

  const NoAttestations := Attestations([], [], [], [])

  const EmptyGraph := Graph([], map[], map[])

  /** Every list has `n` entries. */
  predicate HasSize(a: Attestations, n: nat)
  {
    |a.words| == n && |a.varieties| == n && |a.languages| == n && |a.families| == n
  }

  /** One more entry: the tokens and the language's id, glottocode and family. */
  function Attest(a: Attestations, tokens: string, lang: Language): (r: Attestations)
    ensures forall n: nat :: HasSize(a, n) ==> HasSize(r, n + 1)
  {
    Attestations(a.words + [tokens], a.varieties + [lang.id],
                 a.languages + [lang.glottocode], a.families + [lang.family])
  }

  /* ------------------------------------------------------------ invariant */

  predicate NodeOk(n: Node)
  {
    |n.occurrences| > 0 && HasSize(n.att, |n.occurrences|)
  }

  predicate EdgeOk(e: Edge)
  {
    e.count > 0 && HasSize(e.att, e.count)
  }

  /** What the builder maintains: the order lists each node once; node lists
      have one entry per occurrence; edges join two different known concepts
      and have one entry per counted pair. */
  predicate WellFormed(g: Graph)
  {
    NodesOk(g.order, g.nodes) && EdgesOk(g.edges, g.nodes)
  }

  predicate NodesOk(order: seq<string>, nodes: map<string, Node>)
  {
    && Distinct(order)
    && (forall c | c in order :: c in nodes)
    && (forall c | c in nodes :: c in order)
    && (forall c | c in nodes :: NodeOk(nodes[c]))
  }

  predicate EdgesOk(edges: map<set<string>, Edge>, nodes: map<string, Node>)
  {
    && (forall k | k in edges :: EdgeOk(edges[k]) && |k| == 2)
    && (forall k, c | k in edges && c in k :: c in nodes)
  }

  /* ----------------------------------------------------------------- nodes */

  function Occurrences(g: Graph, c: string): seq<string>
  {
    if c in g.nodes then g.nodes[c].occurrences else []
  }

  /** Record one form of concept `c`: append to the node or create it. */
  function AddNode(g: Graph, c: string, formId: string, tokens: string, lang: Language): (r: Graph)
    ensures r.edges == g.edges
    ensures c in r.nodes && r.nodes.Keys == g.nodes.Keys + {c}
    ensures forall d | d in g.nodes && d != c :: d in r.nodes && r.nodes[d] == g.nodes[d]
  {
    if c in g.nodes then
      var n := g.nodes[c];
      g.(nodes := g.nodes[c := Node(n.occurrences + [formId], Attest(n.att, tokens, lang))])
    else
      g.(order := g.order + [c], nodes := g.nodes[c := Node([formId], Attest(NoAttestations, tokens, lang))])
  }

  /** Adding a node appends exactly one occurrence to it and keeps the graph
      well formed. */
  lemma AddNodeSound(g: Graph, c: string, formId: string, tokens: string, lang: Language)
    requires WellFormed(g)
    ensures WellFormed(AddNode(g, c, formId, tokens, lang))
    ensures Occurrences(AddNode(g, c, formId, tokens, lang), c) == Occurrences(g, c) + [formId]
  {
    var r := AddNode(g, c, formId, tokens, lang);
    if c !in g.nodes {
      assert c !in g.order;
      assert HasSize(NoAttestations, 0);
      forall i, j | 0 <= i < j < |r.order|
        ensures r.order[i] != r.order[j]
      {
        if j == |g.order| {
          assert r.order[i] == g.order[i] && g.order[i] in g.order;
        }
      }
    }
  }

  /** A form's id and concept id, for the forms that have a concept. */
  function Entries(forms: seq<Form>): (r: seq<(string, string)>)
    ensures |r| <= |forms|
  {
    if |forms| == 0 then []
    else
      var f := forms[|forms| - 1];
      Entries(forms[..|forms| - 1]) + (if f.concept.Some? then [(f.id, f.concept.value.id)] else [])
  }

  function ConceptIds(entries: seq<(string, string)>): (r: seq<string>)
    ensures |r| == |entries|
    ensures forall i :: 0 <= i < |r| ==> r[i] == entries[i].1
  {
    if |entries| == 0 then [] else ConceptIds(entries[..|entries| - 1]) + [entries[|entries| - 1].1]
  }

  /** How often `x` occurs in `xs`. */
  function Occ(xs: seq<string>, x: string): nat
  {
    if |xs| == 0 then 0 else Occ(xs[..|xs| - 1], x) + (if xs[|xs| - 1] == x then 1 else 0)
  }

  /** Nodes for one token group: one occurrence per entry, in order. */
  function AddNodes(g: Graph, entries: seq<(string, string)>, tokens: string, lang: Language): (r: Graph)
    ensures r.edges == g.edges
    ensures r.nodes.Keys == g.nodes.Keys + set i | 0 <= i < |entries| :: entries[i].1
  {
    if |entries| == 0 then g
    else
      var e := entries[|entries| - 1];
      var init := entries[..|entries| - 1];
      var r := AddNode(AddNodes(g, init, tokens, lang), e.1, e.0, tokens, lang);
      assert forall i | 0 <= i < |init| :: init[i] == entries[i];
      assert (set i | 0 <= i < |entries| :: entries[i].1) == (set i | 0 <= i < |init| :: init[i].1) + {e.1};
      r
  }

  /** Each node gains exactly as many occurrences as the group has entries
      for its concept, and the graph stays well formed. */
  lemma {:induction false} AddNodesSound(g: Graph, entries: seq<(string, string)>, tokens: string, lang: Language, c: string)
    requires WellFormed(g)
    ensures WellFormed(AddNodes(g, entries, tokens, lang))
    ensures |Occurrences(AddNodes(g, entries, tokens, lang), c)| == |Occurrences(g, c)| + Occ(ConceptIds(entries), c)
  {
    if |entries| > 0 {
      var e := entries[|entries| - 1];
      var init := entries[..|entries| - 1];
      AddNodesSound(g, init, tokens, lang, c);
      var mid := AddNodes(g, init, tokens, lang);
      AddNodeSound(mid, e.1, e.0, tokens, lang);
      assert ConceptIds(entries)[..|entries| - 1] == ConceptIds(init);
      if e.1 != c {
        assert Occurrences(AddNode(mid, e.1, e.0, tokens, lang), c) == Occurrences(mid, c);
      }
    }
  }

  /* ----------------------------------------------------------------- edges */

  /** The count on the edge between `a` and `b`, or 0 without one. */
  function CountOf(g: Graph, a: string, b: string): nat
  {
    if {a, b} in g.edges then g.edges[{a, b}].count else 0
  }

  /** One more co-occurrence of `c1` and `c2`: bump the edge or create it. */
  function AddEdge(g: Graph, c1: string, c2: string, tokens: string, lang: Language): (r: Graph)
    requires c1 != c2
    ensures r.order == g.order && r.nodes == g.nodes
    ensures r.edges.Keys == g.edges.Keys + {{c1, c2}}
    ensures forall k | k in g.edges && k != {c1, c2} :: r.edges[k] == g.edges[k]
  {
    var k := {c1, c2};
    if k in g.edges then
      var e := g.edges[k];
      g.(edges := g.edges[k := Edge(e.count + 1, Attest(e.att, tokens, lang))])
    else
      g.(edges := g.edges[k := Edge(1, Attest(NoAttestations, tokens, lang))])
  }

  lemma PairCard(a: string, b: string)
    requires a != b
    ensures |{a, b}| == 2
  {
  }

  /** Two keys name the same edge exactly when they name the same pair. */
  lemma SameKey(a: string, b: string, c: string, d: string)
    requires a != b
    ensures {a, b} == {c, d} <==> (a == c && b == d) || (a == d && b == c)
  {
    if {a, b} == {c, d} {
      assert c in {a, b} && d in {a, b} && a in {c, d} && b in {c, d};
    }
  }

  /** The edge between two known concepts keeps the graph well formed, and it
      adds exactly one to the count of that pair and nothing to any other. */
  lemma AddEdgeSound(g: Graph, c1: string, c2: string, tokens: string, lang: Language, a: string, b: string)
    requires WellFormed(g) && c1 != c2 && c1 in g.nodes && c2 in g.nodes
    ensures WellFormed(AddEdge(g, c1, c2, tokens, lang))
    ensures CountOf(AddEdge(g, c1, c2, tokens, lang), a, b) == CountOf(g, a, b) + (if {a, b} == {c1, c2} then 1 else 0)
  {
    var r := AddEdge(g, c1, c2, tokens, lang);
    assert HasSize(NoAttestations, 0);
    AddEdgeOk(g.edges, r.edges, g.nodes, c1, c2);
  }

  lemma AddEdgeOk(edges: map<set<string>, Edge>, edges': map<set<string>, Edge>, nodes: map<string, Node>, c1: string, c2: string)
    requires EdgesOk(edges, nodes) && c1 != c2 && c1 in nodes && c2 in nodes
    requires edges'.Keys == edges.Keys + {{c1, c2}}
    requires forall k | k in edges && k != {c1, c2} :: edges'[k] == edges[k]
    requires EdgeOk(edges'[{c1, c2}])
    ensures EdgesOk(edges', nodes)
  {
    PairCard(c1, c2);
    forall k, c | k in edges' && c in k
      ensures c in nodes
    {
      if k == {c1, c2} {
        assert c == c1 || c == c2;
      }
    }
  }

  /** The pairs of one form against the later forms of its group, skipping
      those of the same concept. */
  function AddPairs(g: Graph, c: string, rest: seq<string>, tokens: string, lang: Language): (r: Graph)
    ensures r.order == g.order && r.nodes == g.nodes
    decreases |rest|
  {
    if |rest| == 0 then g
    else
      var g' := if rest[0] == c then g else AddEdge(g, c, rest[0], tokens, lang);
      AddPairs(g', c, rest[1..], tokens, lang)
  }

  /** `combinations(zip(forms, concepts), r=2)`: every pair of positions
      `i < j` in order, skipping pairs of the same concept. */
  function AddGroupEdges(g: Graph, cs: seq<string>, tokens: string, lang: Language): (r: Graph)
    ensures r.order == g.order && r.nodes == g.nodes
    decreases |cs|
  {
    if |cs| == 0 then g
    else AddGroupEdges(AddPairs(g, cs[0], cs[1..], tokens, lang), cs[1..], tokens, lang)
  }

  /** `if len(set(all_concepts)) > 1`. */
  function AddGroup(g: Graph, cs: seq<string>, tokens: string, lang: Language): (r: Graph)
    ensures r.order == g.order && r.nodes == g.nodes
  {
    if |set c | c in cs| > 1 then AddGroupEdges(g, cs, tokens, lang) else g
  }

  /** How often `a` occurs in a sequence, counted from the front. */
  lemma {:induction false} OccFront(xs: seq<string>, x: string)
    requires |xs| > 0
    ensures Occ(xs, x) == (if xs[0] == x then 1 else 0) + Occ(xs[1..], x)
  {
    if |xs| > 1 {
      OccFront(xs[..|xs| - 1], x);
      assert xs[..|xs| - 1][1..] == xs[1..][..|xs| - 2];
    }
  }

  /** The pairs of `c` against `rest` count each later `b` once when `c` is
      `a`, and each later `a` once when `c` is `b`. */
  lemma {:induction false} AddPairsSound(g: Graph, c: string, rest: seq<string>, tokens: string, lang: Language, a: string, b: string)
    requires WellFormed(g) && a != b && c in g.nodes
    requires forall i | 0 <= i < |rest| :: rest[i] in g.nodes
    ensures WellFormed(AddPairs(g, c, rest, tokens, lang))
    ensures CountOf(AddPairs(g, c, rest, tokens, lang), a, b) ==
      CountOf(g, a, b) + (if c == a then Occ(rest, b) else if c == b then Occ(rest, a) else 0)
    decreases |rest|
  {
    if |rest| > 0 {
      var g' := if rest[0] == c then g else AddEdge(g, c, rest[0], tokens, lang);
      if rest[0] != c {
        AddEdgeSound(g, c, rest[0], tokens, lang, a, b);
        SameKey(a, b, c, rest[0]);
      }
      AddPairsSound(g', c, rest[1..], tokens, lang, a, b);
      OccFront(rest, a);
      OccFront(rest, b);
    }
  }

  /** Every pair of positions holding `a` and `b` adds exactly one to their
      edge: the count grows by the product of their numbers of occurrences. */
  lemma {:induction false} AddGroupEdgesSound(g: Graph, cs: seq<string>, tokens: string, lang: Language, a: string, b: string)
    requires WellFormed(g) && a != b
    requires forall i | 0 <= i < |cs| :: cs[i] in g.nodes
    decreases |cs|
    ensures WellFormed(AddGroupEdges(g, cs, tokens, lang))
    ensures CountOf(AddGroupEdges(g, cs, tokens, lang), a, b) == CountOf(g, a, b) + Occ(cs, a) * Occ(cs, b)
  {
    if |cs| > 0 {
      var rest := cs[1..];
      var g1 := AddPairs(g, cs[0], rest, tokens, lang);
      assert AddGroupEdges(g, cs, tokens, lang) == AddGroupEdges(g1, rest, tokens, lang);
      AddPairsSound(g, cs[0], rest, tokens, lang, a, b);
      AddGroupEdgesSound(g1, rest, tokens, lang, a, b);
      var p, q := Occ(rest, a), Occ(rest, b);
      var n0, n1 := CountOf(g, a, b), CountOf(g1, a, b);
      OccFront(cs, a);
      OccFront(cs, b);
      CountStep(n0, n1, if cs[0] == a then 1 else 0, if cs[0] == b then 1 else 0, p, q, Occ(cs, a), Occ(cs, b));
    }
  }

  /** The arithmetic of one step: the front concept pairs with the `q` or `p`
      later occurrences of the other one. */
  lemma CountStep(n0: int, n1: int, x: int, y: int, p: int, q: int, oa: int, ob: int)
    requires (x == 1 && y == 0 && n1 == n0 + q) || (x == 0 && y == 1 && n1 == n0 + p) || (x == 0 && y == 0 && n1 == n0)
    requires oa == x + p && ob == y + q
    ensures n1 + p * q == n0 + oa * ob
  {
  }

  /** A group of a single concept adds no edge, so the `len(set(...)) > 1`
      guard changes nothing: every count grows by the product above. */
  lemma AddGroupSound(g: Graph, cs: seq<string>, tokens: string, lang: Language, a: string, b: string)
    requires WellFormed(g) && a != b
    requires forall i | 0 <= i < |cs| :: cs[i] in g.nodes
    ensures WellFormed(AddGroup(g, cs, tokens, lang))
    ensures CountOf(AddGroup(g, cs, tokens, lang), a, b) == CountOf(g, a, b) + Occ(cs, a) * Occ(cs, b)
  {
    AddGroupEdgesSound(g, cs, tokens, lang, a, b);
    if |set c | c in cs| <= 1 {
      SingleConcept(cs, a, b);
    }
  }

  /** With at most one distinct concept, `a` or `b` does not occur. */
  lemma SingleConcept(cs: seq<string>, a: string, b: string)
    requires |set c | c in cs| <= 1 && a != b
    ensures Occ(cs, a) * Occ(cs, b) == 0
  {
    if Occ(cs, a) > 0 && Occ(cs, b) > 0 {
      OccMember(cs, a);
      OccMember(cs, b);
      assert {a, b} <= set c | c in cs;
      PairCard(a, b);
      SubsetCard({a, b}, set c | c in cs);
    }
  }

  lemma {:induction false} OccMember(xs: seq<string>, x: string)
    ensures Occ(xs, x) > 0 <==> x in xs
  {
    if |xs| > 0 {
      OccMember(xs[..|xs| - 1], x);
      assert xs == xs[..|xs| - 1] + [xs[|xs| - 1]];
    }
  }

  /* -------------------------------------------------------------- language */

  /** The forms whose concept gloss is selected, in order. Reading the gloss
      of a form without a concept raises `AttributeError`, before the later
      `if f.concept` filter is reached. */
  function Selected(forms: seq<Form>, concepts: seq<string>): (r: Result<seq<Form>>)
    ensures r.Success? <==> forall i | 0 <= i < |forms| :: forms[i].concept.Some?
    ensures r.Failure? ==> r.error == AttributeError
    ensures r.Success? ==> forall f :: f in r.value <==> f in forms && f.concept.value.gloss in concepts
  {
    if |forms| == 0 then Success([])
    else
      var f := forms[|forms| - 1];
      var init := Selected(forms[..|forms| - 1], concepts);
      assert forall i | 0 <= i < |forms| - 1 :: forms[..|forms| - 1][i] == forms[i];
      if init.Failure? then init
      else if f.concept.None? then Failure(AttributeError)
      else
        assert forms == forms[..|forms| - 1] + [f];
        Success(init.value + (if f.concept.value.gloss in concepts then [f] else []))
  }

  function Sounds(f: Form): string
  {
    f.sounds
  }

  /** Nodes for every token group of a language, group by group. */
  function AddAllNodes(g: Graph, tokens: seq<string>, groups: seq<seq<Form>>, lang: Language): (r: Graph)
    requires |tokens| == |groups|
    ensures r.edges == g.edges
  {
    if |groups| == 0 then g
    else
      var n := |groups| - 1;
      AddNodes(AddAllNodes(g, tokens[..n], groups[..n], lang), Entries(groups[n]), tokens[n], lang)
  }

  /** Every concept of every group is a node afterwards. */
  predicate Known(groups: seq<seq<Form>>, nodes: map<string, Node>)
  {
    forall i, j | 0 <= i < |groups| && 0 <= j < |Entries(groups[i])| :: Entries(groups[i])[j].1 in nodes
  }

  lemma {:induction false} AddAllNodesSound(g: Graph, tokens: seq<string>, groups: seq<seq<Form>>, lang: Language)
    requires |tokens| == |groups| && WellFormed(g)
    ensures WellFormed(AddAllNodes(g, tokens, groups, lang))
    ensures Known(groups, AddAllNodes(g, tokens, groups, lang).nodes)
    ensures g.nodes.Keys <= AddAllNodes(g, tokens, groups, lang).nodes.Keys
  {
    if |groups| > 0 {
      var n := |groups| - 1;
      var mid := AddAllNodes(g, tokens[..n], groups[..n], lang);
      var es := Entries(groups[n]);
      AddAllNodesSound(g, tokens[..n], groups[..n], lang);
      AddNodesSound(mid, es, tokens[n], lang, "");
      var r := AddNodes(mid, es, tokens[n], lang);
      KnownGrows(groups, mid.nodes, r.nodes);
    }
  }

  lemma KnownGrows(groups: seq<seq<Form>>, mid: map<string, Node>, r: map<string, Node>)
    requires |groups| > 0
    requires Known(groups[..|groups| - 1], mid)
    requires var es := Entries(groups[|groups| - 1]);
      r.Keys == mid.Keys + set i | 0 <= i < |es| :: es[i].1
    ensures Known(groups, r)
  {
    var n := |groups| - 1;
    var es := Entries(groups[n]);
    forall i, j | 0 <= i < |groups| && 0 <= j < |Entries(groups[i])|
      ensures Entries(groups[i])[j].1 in r
    {
      if i < n {
        assert groups[..n][i] == groups[i];
      } else {
        assert es[j].1 in set i | 0 <= i < |es| :: es[i].1;
      }
    }
  }

  /** Edges for every token group of a language, group by group. */
  function AddAllEdges(g: Graph, tokens: seq<string>, groups: seq<seq<Form>>, lang: Language): (r: Graph)
    requires |tokens| == |groups|
    ensures r.order == g.order && r.nodes == g.nodes
  {
    if |groups| == 0 then g
    else
      var n := |groups| - 1;
      AddGroup(AddAllEdges(g, tokens[..n], groups[..n], lang), ConceptIds(Entries(groups[n])), tokens[n], lang)
  }

  /** The pairs a language contributes to the edge between `a` and `b`:
      per token group, the product of the two concepts' numbers of forms. */
  function PairTotal(groups: seq<seq<Form>>, a: string, b: string): nat
  {
    if |groups| == 0 then 0
    else
      var cs := ConceptIds(Entries(groups[|groups| - 1]));
      PairTotal(groups[..|groups| - 1], a, b) + Occ(cs, a) * Occ(cs, b)
  }

  lemma {:induction false} AddAllEdgesSound(g: Graph, tokens: seq<string>, groups: seq<seq<Form>>, lang: Language, a: string, b: string)
    requires |tokens| == |groups| && WellFormed(g) && a != b
    requires Known(groups, g.nodes)
    ensures WellFormed(AddAllEdges(g, tokens, groups, lang))
    ensures CountOf(AddAllEdges(g, tokens, groups, lang), a, b) == CountOf(g, a, b) + PairTotal(groups, a, b)
  {
    if |groups| > 0 {
      var n := |groups| - 1;
      KnownPrefix(groups, g.nodes);
      AddAllEdgesSound(g, tokens[..n], groups[..n], lang, a, b);
      var mid := AddAllEdges(g, tokens[..n], groups[..n], lang);
      var cs := ConceptIds(Entries(groups[n]));
      assert forall j | 0 <= j < |cs| :: cs[j] in mid.nodes;
      AddGroupSound(mid, cs, tokens[n], lang, a, b);
    }
  }

  lemma KnownPrefix(groups: seq<seq<Form>>, nodes: map<string, Node>)
    requires |groups| > 0 && Known(groups, nodes)
    ensures Known(groups[..|groups| - 1], nodes)
  {
    var n := |groups| - 1;
    forall i, j | 0 <= i < n && 0 <= j < |Entries(groups[..n][i])|
      ensures Entries(groups[..n][i])[j].1 in nodes
    {
      assert groups[..n][i] == groups[i];
    }
  }

  /** One language: select its forms, group them by tokens, add the nodes of
      every group, then the edges of every group. */
  function AddLanguage(g: Graph, lang: Language, concepts: seq<string>): (r: Result<Graph>)
    ensures r.Success? <==> forall i | 0 <= i < |lang.forms| :: lang.forms[i].concept.Some?
  {
    var sel :- Selected(lang.forms, concepts);
    var cols := GroupBy(sel, Sounds);
    var groups := Values(cols);
    Success(AddAllEdges(AddAllNodes(g, cols.order, groups, lang), cols.order, groups, lang))
  }

  /** A language keeps the graph well formed, and adds to the edge between
      two concepts one count per pair of its forms sharing tokens. */
  lemma AddLanguageSound(g: Graph, lang: Language, concepts: seq<string>, a: string, b: string)
    requires WellFormed(g) && a != b
    requires AddLanguage(g, lang, concepts).Success?
    ensures WellFormed(AddLanguage(g, lang, concepts).value)
    ensures CountOf(AddLanguage(g, lang, concepts).value, a, b) ==
      CountOf(g, a, b) + PairTotal(Values(GroupBy(Selected(lang.forms, concepts).value, Sounds)), a, b)
  {
    var sel := Selected(lang.forms, concepts).value;
    var cols := GroupBy(sel, Sounds);
    var groups := Values(cols);
    AddAllNodesSound(g, cols.order, groups, lang);
    AddAllEdgesSound(AddAllNodes(g, cols.order, groups, lang), cols.order, groups, lang, a, b);
  }

  /** All languages in order. */
  function Build(g: Graph, langs: seq<Language>, concepts: seq<string>): (r: Result<Graph>)
    ensures r.Success? <==> forall l, i | l in langs && 0 <= i < |l.forms| :: l.forms[i].concept.Some?
  {
    if |langs| == 0 then Success(g)
    else
      var n := |langs| - 1;
      assert langs == langs[..n] + [langs[n]];
      var mid :- Build(g, langs[..n], concepts);
      AddLanguage(mid, langs[n], concepts)
  }

  lemma {:induction false} BuildSound(g: Graph, langs: seq<Language>, concepts: seq<string>)
    requires WellFormed(g)
    requires Build(g, langs, concepts).Success?
    ensures WellFormed(Build(g, langs, concepts).value)
  {
    if |langs| > 0 {
      var n := |langs| - 1;
      BuildSound(g, langs[..n], concepts);
      AddLanguageSound(Build(g, langs[..n], concepts).value, langs[n], concepts, "a", "b");
    }
  }

  /** The languages to read: those given, else all, or those of one family. */
  function SelectLanguages(all: seq<Language>, family: Option<string>, languages: Option<seq<Language>>): (r: seq<Language>)
    ensures languages.Some? ==> r == languages.value
    ensures languages.None? ==> forall l :: l in r <==> l in all && (family.None? || l.family == family.value)
  {
    if languages.Some? then languages.value
    else if family.None? then all
    else Filter(all, (l: Language) => l.family == family.value)
  }

  /** `get_colexifications`: without a concept list every gloss of the
      wordlist is used. */
  function GetColexifications(all: seq<Language>, glosses: seq<string>, family: Option<string>,
                              concepts: Option<seq<string>>, languages: Option<seq<Language>>): (r: Result<Graph>)
  {
    Build(EmptyGraph, SelectLanguages(all, family, languages), concepts.GetOr(glosses))
  }

  /** The result is well formed: equal-length node lists, no self-loops, and
      edge lists as long as the edge's count; it fails exactly when a read
      form has no concept. */
  lemma GetColexificationsSound(all: seq<Language>, glosses: seq<string>, family: Option<string>,
                                concepts: Option<seq<string>>, languages: Option<seq<Language>>)
    ensures var r := GetColexifications(all, glosses, family, concepts, languages);
      r.Success? <==> forall l, i | l in SelectLanguages(all, family, languages) && 0 <= i < |l.forms| :: l.forms[i].concept.Some?
    ensures var r := GetColexifications(all, glosses, family, concepts, languages);
      r.Success? ==> WellFormed(r.value)
  {
    var r := GetColexifications(all, glosses, family, concepts, languages);
    if r.Success? {
      BuildSound(EmptyGraph, SelectLanguages(all, family, languages), concepts.GetOr(glosses));
    }
  }

  /* ---------------------------------------------------------------- counts */

  /** `len(set(xs))`. */
  function CountDistinct(xs: seq<string>): nat
  {
    |set x | x in xs|
  }

  lemma {:induction false} CountDistinctBound(xs: seq<string>)
    ensures CountDistinct(xs) <= |xs|
    ensures |xs| > 0 ==> CountDistinct(xs) > 0
  {
    if |xs| > 0 {
      var n := |xs| - 1;
      CountDistinctBound(xs[..n]);
      assert (set x | x in xs) == (set x | x in xs[..n]) + {xs[n]} by {
        assert xs == xs[..n] + [xs[n]];
      }
      assert xs[n] in (set x | x in xs);
    }
  }

  /** On an edge, the distinct variety, language and family counts lie
      between 1 and the edge's count; on a node, between 1 and its number of
      occurrences. */
  lemma DistinctCountsBounded(g: Graph)
    requires WellFormed(g)
    ensures forall k | k in g.edges ::
      var e := g.edges[k];
      && 1 <= CountDistinct(e.att.varieties) <= e.count
      && 1 <= CountDistinct(e.att.languages) <= e.count
      && 1 <= CountDistinct(e.att.families) <= e.count
    ensures forall c | c in g.nodes ::
      var n := g.nodes[c];
      && 1 <= CountDistinct(n.att.varieties) <= |n.occurrences|
      && 1 <= CountDistinct(n.att.languages) <= |n.occurrences|
      && 1 <= CountDistinct(n.att.families) <= |n.occurrences|
  {
    forall k | k in g.edges
      ensures var e := g.edges[k];
        && 1 <= CountDistinct(e.att.varieties) <= e.count
        && 1 <= CountDistinct(e.att.languages) <= e.count
        && 1 <= CountDistinct(e.att.families) <= e.count
    {
      AttestationCounts(g.edges[k].att, g.edges[k].count);
    }
    forall c | c in g.nodes
      ensures var n := g.nodes[c];
        && 1 <= CountDistinct(n.att.varieties) <= |n.occurrences|
        && 1 <= CountDistinct(n.att.languages) <= |n.occurrences|
        && 1 <= CountDistinct(n.att.families) <= |n.occurrences|
    {
      AttestationCounts(g.nodes[c].att, |g.nodes[c].occurrences|);
    }
  }

  lemma AttestationCounts(a: Attestations, n: nat)
    requires HasSize(a, n) && n > 0
    ensures 1 <= CountDistinct(a.varieties) <= n
    ensures 1 <= CountDistinct(a.languages) <= n
    ensures 1 <= CountDistinct(a.families) <= n
  {
    CountDistinctBound(a.varieties);
    CountDistinctBound(a.languages);
    CountDistinctBound(a.families);
  }

  /* --------------------------------------------------------------- cognacy */

  /** A clustering routine called as `f(threshold, matrix, taxa=...)`; only
      the number of clusters it returns is used. */
  type Clustering = (real, seq<seq<real>>, seq<string>) -> nat

  /** Pairwise distances of the words, each split on whitespace, as the
      aligner reports them; filled for `i < j` and mirrored, zero on the
      diagonal. */
  function DistanceMatrix(words: seq<string>, align: (seq<string>, seq<string>) -> real): (m: seq<seq<real>>)
    ensures |m| == |words|
    ensures forall i | 0 <= i < |m| :: |m[i]| == |words| && m[i][i] == 0.0
    ensures forall i, j | 0 <= i < j < |m| :: m[i][j] == m[j][i] == align(Words(words[i]), Words(words[j]))
  {
    var n := |words|;
    seq(n, i requires 0 <= i < n =>
      seq(n, j requires 0 <= j < n =>
        if i < j then align(Words(words[i]), Words(words[j]))
        else if j < i then align(Words(words[j]), Words(words[i]))
        else 0.0))
  }

  /** `cognate_count` of one edge: 1 for a single occurrence; for two, 1 when
      the aligned distance of the two words is within the threshold and 2
      otherwise; for more, the number of clusters of the distance matrix,
      found by infomap or by flat UPGMA. Reading a second word that is not
      there raises `IndexError`. */
  function CognateCount(e: Edge, threshold: real, clusterMethod: string,
                        alignPair: (string, string) -> real,
                        alignTokens: (seq<string>, seq<string>) -> real,
                        infomap: Clustering, upgma: Clustering): (r: Result<nat>)
    ensures r.Failure? <==> e.count == 2 && |e.att.words| < 2
    ensures r.Success? && e.count <= 1 ==> r.value == 1
    ensures r.Success? && e.count == 2 ==>
      r.value in {1, 2} && (r.value == 1 <==> alignPair(e.att.words[0], e.att.words[1]) <= threshold)
    ensures r.Success? && e.count > 2 && clusterMethod == "infomap" ==>
      r.value == infomap(threshold, DistanceMatrix(e.att.words, alignTokens), e.att.languages)
    ensures r.Success? && e.count > 2 && clusterMethod != "infomap" ==>
      r.value == upgma(threshold, DistanceMatrix(e.att.words, alignTokens), e.att.languages)
  {
    if e.count > 1 then
      if e.count == 2 then
        if |e.att.words| < 2 then Failure(IndexError)
        else Success(if alignPair(e.att.words[0], e.att.words[1]) <= threshold then 1 else 2)
      else
        var m := DistanceMatrix(e.att.words, alignTokens);
        Success(if clusterMethod == "infomap" then infomap(threshold, m, e.att.languages)
                else upgma(threshold, m, e.att.languages))
    else Success(1)
  }

  /** `weight_by_cognacy`: a `cognate_count` for every edge. */
  function WeightByCognacy(g: Graph, threshold: real, clusterMethod: string,
                           alignPair: (string, string) -> real,
                           alignTokens: (seq<string>, seq<string>) -> real,
                           infomap: Clustering, upgma: Clustering): (r: Result<map<set<string>, nat>>)
    ensures r.Success? ==> r.value.Keys == g.edges.Keys
    ensures r.Failure? ==> r.error == IndexError
  {
    if forall k | k in g.edges :: CognateCount(g.edges[k], threshold, clusterMethod, alignPair, alignTokens, infomap, upgma).Success?
    then Success(map k | k in g.edges :: CognateCount(g.edges[k], threshold, clusterMethod, alignPair, alignTokens, infomap, upgma).value)
    else Failure(IndexError)
  }

  /** On a graph the builder produced, every edge gets its cognate count. */
  lemma WeightByCognacyTotal(g: Graph, threshold: real, clusterMethod: string,
                             alignPair: (string, string) -> real,
                             alignTokens: (seq<string>, seq<string>) -> real,
                             infomap: Clustering, upgma: Clustering)
    requires WellFormed(g)
    ensures var r := WeightByCognacy(g, threshold, clusterMethod, alignPair, alignTokens, infomap, upgma);
      && r.Success? && r.value.Keys == g.edges.Keys
      && forall k | k in g.edges ::
           r.value[k] == CognateCount(g.edges[k], threshold, clusterMethod, alignPair, alignTokens, infomap, upgma).value
  {
    forall k | k in g.edges
      ensures CognateCount(g.edges[k], threshold, clusterMethod, alignPair, alignTokens, infomap, upgma).Success?
    {
      assert EdgeOk(g.edges[k]);
    }
  }
}
