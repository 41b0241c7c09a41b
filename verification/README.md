# pyclics core in Dafny

pyclics builds CLICS, the Database of Cross-Linguistic Colexifications. It reads
wordlists from many languages. Two concepts are *colexified* in a language when
one word form of that language expresses both. A colexification network has
Concepticon concepts as nodes and colexifications as edges. Each edge is weighted
by how many words, languages and language families attest it. The network is
then clustered into communities of related concepts, and the clusters are
exported to a web app.

This project models the core of that pipeline as pure Dafny functions over
immutable datatypes, and proves properties of the model:

- **Hierarchical link clustering** (`Hlc`, `HlcClustering`, `HlcSimilarity`):
  - the line graph of the network, with each line-graph edge scored by the
    Jaccard or Tanimoto similarity of its two non-shared endpoints;
  - the union-by-size edge clustering with its running partition density;
  - the fixed-threshold cut, and the descending-score sweep that keeps the
    snapshot of maximal partition density.
- **Colexification builders**:
  - `Colexifications`: `get_colexifications`, `weight_by_cognacy` and
    `get_transition_matrix`. The last is in `Transition`, with matrix algebra
    over exact reals in `Matrices`.
  - `ColexificationCommand`: the `colexification` command. It accumulates
    edges, computes per-language statistics, serialises edges, filters them
    by threshold and prints the summary table.
  - `LegacyCommands`: the older `commands.py` versions of the
    `colexification`, `cluster` and `subgraph` commands.
- **Cluster post-processing**:
  - `ClusterCommand`: the `cluster` command. It orders the clusters, labels
    and names the nodes, computes OutEdge neighbours, and removes singleton
    clusters and weak cross-cluster edges.
  - `LegacyCommunities`: the older `communities` command.
- **Plugin and utility functions** (`Plugin`, `Util`): `clics_form`, the two
  `full_colexification` variants, the `subgraph` neighbourhood cover, the
  infomap weight normalisation and `get_communities`.
- **Small record helpers**:
  - `Db`: `clics_form` and `update_row`;
  - `Models`: `gid`, form initialisation, node attributes, GeoJSON feature,
    and `Network.fname` over a model of POSIX `PurePath`;
  - `MakeApp`: `parse_cluster_method`;
  - `Zenodo`: the OAI record's DOI, repository, dataset id, tag and DOI badge.

The shared modules are:

- `Wrappers`: `Option`/`Result`, with the Python exception classes as error values;
- `Strings`: split, join, strip, lower-casing and decimals;
- `Sorting`: a stable insertion sort, standing for Python's stable `sorted`;
- `Grouping`: group-by in first-seen order, standing for `defaultdict(list)`
  and `OrderedDict`.

External libraries are parameters of the model:

- the transliteration `unidecode`;
- lingpy alignment and clustering;
- the community-detection algorithms;
- the igraph and networkx calls, for which the model gives its own definitions.

A Python `set` that is iterated or joined becomes a duplicate-free sequence in
insertion order.

## Model

| member | source | states |
|---|---|---|
| Hlc.LineGraph | src/pyclics/hlc.py:292 | The line graph lists exactly the index pairs i < j of graph edges that share a vertex. |
| Hlc.NonSharedFarEnds | src/pyclics/hlc.py:307-321 | For two different edges meeting at a vertex x, the pair that gets scored is the far end of each edge, and neither end is x. |
| Hlc.NonSharedSwap | src/pyclics/hlc.py:307-321 | Swapping the two line-graph endpoints swaps the scored vertex pair. |
| Hlc.EdgeSimilarityGraph | src/pyclics/hlc.py:287-323 | There is one scored edge per line-graph pair, in line-graph order. With Jaccard it always succeeds and every score is in [0,1]. With Tanimoto an isolated vertex gives ZeroDivisionError, and that is the only possible error. |
| Hlc.MergeAllJoins | src/pyclics/hlc.py:345-350 | Merging along a list of line-graph edges puts both ends of each edge in one cluster, and never separates edges that were already together. |
| Hlc.MergeAllRespects | src/pyclics/hlc.py:345-350 | Merging joins clusters only along the listed pairs. A set of edges that no listed pair crosses, and that no existing cluster crosses, is not crossed afterwards either. |
| Hlc.ExtractSound | src/pyclics/hlc.py:402-406 | Every community returned is the vertex set of one edge cluster and has at least min_size vertices. |
| Hlc.ExtractComplete | src/pyclics/hlc.py:402-406 | Every edge cluster spanning at least min_size vertices is returned. |
| Hlc.AboveThreshold | src/pyclics/hlc.py:342 | Keeps exactly the line-graph edges scoring strictly above the threshold. Those at or below it are deleted. |
| Hlc.RunSingle | src/pyclics/hlc.py:325-350 | A fixed-threshold run cannot fail with Jaccard. It records the threshold and no partition density. |
| Hlc.RunSingleJoins | src/pyclics/hlc.py:335-350 | Every line-graph edge scoring above the threshold ends with both of its edges in one cluster. |
| Hlc.RunSingleSeparates | src/pyclics/hlc.py:335-350 | Clusters are the connected components of the kept line-graph edges: edges never share a cluster across a boundary that no kept line-graph edge crosses. |
| Hlc.SortByScoreOrder | src/pyclics/hlc.py:367-368 | The sorted line graph is in non-increasing score order and is a permutation of the scored edges. |
| Hlc.BestCutMeans | src/pyclics/hlc.py:380-392 | The chosen cut is the state just before the first merge of some score group. Its density is maximal among all such states, and no later group start reaches it, so later ties win. The state after the last merge is never a candidate. |
| Hlc.PickIsBestCut | src/pyclics/hlc.py:380-392 | The running maximum, which starts at -1, selects a best cut, and selects nothing exactly when the line graph is empty. |
| Hlc.Sweep | src/pyclics/hlc.py:366-399 | The sweep keeps no snapshot iff the line graph is empty. Otherwise it keeps the density, score and membership of a best cut, taken before that cut's merge. |
| Hlc.RunIterative | src/pyclics/hlc.py:352-406 | With no edges it raises ZeroDivisionError (from max_d * 2/ecount); a failed Tanimoto also gives ZeroDivisionError. With edges but an empty line graph, the zip over None raises TypeError. Otherwise it returns the communities of a best cut, with that cut's score and density·2/\|E\|. |
| Hlc.Finish | src/pyclics/hlc.py:395-406 | Turns the sweep's snapshot into the result, with the same three outcomes as the iterative run. |
| Hlc.Run | src/pyclics/hlc.py:274-285 | A given threshold means the single cut. Otherwise the sweep runs, and any success is the outcome of a best cut. |
| HlcClustering.DensityOfConnected | src/pyclics/hlc.py:149-157 | A cluster with at most one more vertex than edges has non-negative density. A tree-shaped cluster has density 0. |
| HlcClustering.DensityOfClique | src/pyclics/hlc.py:149-157 | A clique of more than two vertices has density m/2. |
| HlcClustering.MergeFromSymmetric | src/pyclics/hlc.py:159-163 | merge_from unions vertices and edges, so the merged cluster does not depend on the direction. |
| HlcClustering.InitialSingletons | src/pyclics/hlc.py:178-187 | Initially edge i is alone in cluster i, whose vertices are its endpoints; membership[i] = i and d = 0. |
| HlcClustering.Lookup | src/pyclics/hlc.py:189-191 | The cluster looked up for e holds exactly the edges that share e's membership. |
| HlcClustering.MergeEdgesJoins | src/pyclics/hlc.py:193-218 | After merge_edges(e1, e2) the two edges are together. Two edges are together iff they were before, or one was with e1 and the other with e2. |
| HlcClustering.MergeEdgesNoop | src/pyclics/hlc.py:193-218 | Merging two edges already in one cluster changes nothing. |
| HlcClustering.MergeEdgesCluster | src/pyclics/hlc.py:193-218 | The cluster with strictly fewer edges is absorbed, and on a tie e1's cluster is kept. The merged cluster is the union. d changes by the new density minus both old densities. |
| HlcClustering.MergeValid | src/pyclics/hlc.py:193-218 | Merging keeps the invariant: each membership points at a live cluster, each live cluster holds exactly the edges pointing at it and spans their endpoints, and d is the sum of the live clusters' densities. |
| HlcClustering.MergedSum | src/pyclics/hlc.py:211-218 | The incremental update of d equals the recomputed sum of cluster densities. |
| HlcSimilarity.Closed | src/pyclics/hlc.py:44-45 | A vertex's set is its closed neighbourhood: the vertex itself and every vertex an edge joins it to. |
| HlcSimilarity.Jaccard | src/pyclics/hlc.py:37-58 | The similarity is \|A∩B\|/\|A∪B\| of the closed neighbourhoods. It lies in [0,1] and is 1 exactly when the neighbourhoods are equal. |
| HlcSimilarity.JaccardSymmetric | src/pyclics/hlc.py:50-52 | Jaccard is symmetric, and a vertex has similarity 1 with itself. |
| HlcSimilarity.TanimotoVector | src/pyclics/hlc.py:96-109 | A vertex's vector has one entry per incident edge (the neighbour and the edge weight) plus the self-weight strength/degree. Its keys are exactly the closed neighbourhood. |
| HlcSimilarity.TanimotoVectors | src/pyclics/hlc.py:96-109 | Building the vectors fails with ZeroDivisionError exactly when some vertex has degree 0. |
| HlcSimilarity.DotSymmetric | src/pyclics/hlc.py:111-122 | The sparse dot product does not depend on which vector is iterated. |
| HlcSimilarity.TanimotoSymmetric | src/pyclics/hlc.py:111-122 | The Tanimoto similarity is symmetric in the two vertices. |
| HlcSimilarity.TanimotoSelf | src/pyclics/hlc.py:111-122 | A vertex has similarity 1 with itself, or ZeroDivisionError when its vector is all zeros. |
| Colexifications.AddNodeSound | src/pyclics/colexifications.py:41-65 | Adding a form's node appends exactly one entry to each of the node's lists, so the lists stay of equal length. |
| Colexifications.AddEdgeSound | src/pyclics/colexifications.py:73-88 | Adding an edge occurrence raises the count of that concept pair by one and leaves every other pair's count alone. Every list of every edge keeps length count. |
| Colexifications.AddGroupSound | src/pyclics/colexifications.py:67-88 | A token group adds occ(a)·occ(b) occurrences to the pair {a, b}: one per unordered pair of forms with different concepts, with no deduplication of variants. |
| Colexifications.SingleConcept | src/pyclics/colexifications.py:67-71 | A token group with fewer than two distinct concepts adds no edge. |
| Colexifications.Selected | src/pyclics/colexifications.py:30-38 | Selection raises AttributeError iff some form has no concept. Otherwise it keeps exactly the forms whose concept gloss is selected. |
| Colexifications.AddLanguageSound | src/pyclics/colexifications.py:33-88 | One language adds, to each concept pair, the pair count summed over its token groups, and keeps the graph well formed. |
| Colexifications.Build | src/pyclics/colexifications.py:33-88 | The loop over languages succeeds iff every form of every selected language has a concept. |
| Colexifications.SelectLanguages | src/pyclics/colexifications.py:24-28 | Given languages are used as they are. Otherwise all languages are used, restricted to one family when a family is given. |
| Colexifications.GetColexificationsSound | src/pyclics/colexifications.py:14-97 | get_colexifications succeeds iff no selected form lacks a concept, and then yields a well-formed graph (no self-loops, lists of length count). |
| Colexifications.DistinctCountsBounded | src/pyclics/colexifications.py:89-96 | The distinct variety, language and family counts (CountDistinct of each list) are between 1 and count on edges, and between 1 and the number of occurrences on nodes. |
| Colexifications.DistanceMatrix | src/pyclics/colexifications.py:127-132 | The matrix is square and symmetric, has a zero diagonal, and holds the alignment distance of each pair of words. |
| Colexifications.CognateCount | src/pyclics/colexifications.py:116-141 | The count is 1 when count ≤ 1. For count = 2 it is 1 iff the distance is within the threshold, else 2. Above 2 it is the number of clusters the chosen method returns. It fails exactly when count is 2 but fewer than two words are listed (the `words[1]` index). |
| Colexifications.WeightByCognacyTotal | src/pyclics/colexifications.py:100-141 | On a built graph, every edge gets its cognate count. |
| Transition.Pruned | src/pyclics/colexifications.py:149-152 | Keeps exactly the nodes with at least one neighbour, in graph order. |
| Transition.Adjacency | src/pyclics/colexifications.py:153-157 | The adjacency holds each edge's weight at both of its positions and 0 elsewhere. A missing weight attribute raises KeyError. |
| Transition.AdjacencySymmetric | src/pyclics/colexifications.py:153-157 | The adjacency matrix is symmetric. |
| Transition.StepMatrixRows | src/pyclics/colexifications.py:158-163 | P = D·A fails with ZeroDivisionError iff some row of A sums to 0. Otherwise each row is A's row divided by its sum, and sums to 1. |
| Transition.StepMatrixNonNegative | src/pyclics/colexifications.py:158-163 | Non-negative weights give a non-negative step matrix. |
| Transition.SumOfPowers | src/pyclics/colexifications.py:164-165 | Summing the powers P¹..P^steps fails (numpy's LinAlgError) iff steps ≥ 1 on an empty matrix. With steps < 1 the sum stays the scalar 0. |
| Transition.Normalized | src/pyclics/colexifications.py:168-169 | Dividing by steps fails iff steps is 0. |
| Transition.TransitionOutcome | src/pyclics/colexifications.py:144-171 | get_transition_matrix fails exactly on a missing weight (KeyError), a zero row (ZeroDivisionError), an empty pruned graph with steps ≥ 1 (LinAlgError), or normalising with steps = 0 (ZeroDivisionError), in that order of precedence. |
| Transition.TransitionRows | src/pyclics/colexifications.py:144-171 | On success the adjacency is symmetric. Every row of the walk matrix sums to 1 when normalised, and to steps otherwise. |
| Transition.PositiveWeightsSucceed | src/pyclics/colexifications.py:144-171 | With positive weights and steps ≥ 1, the result is always a non-negative walk matrix. |
| Matrices.MatPowRows | src/pyclics/colexifications.py:164 | A power of a row-stochastic matrix is row-stochastic. |
| Matrices.PowerSumRows | src/pyclics/colexifications.py:164-165 | Each row of the sum of the first k powers of a row-stochastic matrix sums to k. |
| Plugin.ClicsForm | src/pyclics/plugin.py:17-22 | clics_form is None exactly for the empty word. Otherwise the result uses only lower-case ASCII letters, digits and '@'. |
| Plugin.ClicsFormAgrees | src/pyclics/plugin.py:20-22 | On a non-empty word the plugin's clics_form agrees with the database's. |
| Plugin.FullColexificationCovers | src/pyclics/plugin.py:47-51 | Every form with both a CLICS form and a concept lies in some group. |
| Plugin.FullColexificationGroups | src/pyclics/plugin.py:47-51 | Every group is non-empty, and no two groups share a CLICS form. |
| Plugin.FullColexificationOrder | src/pyclics/plugin.py:47-51 | Each group holds exactly the kept forms with its CLICS form, in input order. |
| Plugin.TwoFormsColexify | src/pyclics/plugin.py:28-51 | Two forms with the same CLICS form give a single group holding both. |
| Plugin.NextGen | src/pyclics/plugin.py:64 | The next generation holds exactly the neighbours of the current one. |
| Plugin.GrowStops | src/pyclics/plugin.py:61-69 | Growth stops only on an empty generation, a union of at least 30 nodes, 3 generations, or a next generation of more than 50 nodes. |
| Plugin.GrowGenerations | src/pyclics/plugin.py:61-69 | The generations are the node, then its neighbours, then theirs. |
| Plugin.NeighbourhoodBounds | src/pyclics/plugin.py:61-70 | A neighbourhood contains its node and only nodes at most two hops away. |
| Plugin.NeighbourhoodHasNeighbours | src/pyclics/plugin.py:61-70 | When growth passes the first step, every neighbour belongs to the neighbourhood. |
| Plugin.CoverStops | src/pyclics/plugin.py:72-77 | The subgraphs yielded before both pools are empty cover every node and every edge. |
| Plugin.CandidatesCover | src/pyclics/plugin.py:72 | The size-sorted neighbourhoods cover every graph node. |
| Plugin.SubgraphCovers | src/pyclics/plugin.py:57-77 | The yielded subgraphs cover every graph node and come in non-increasing size order. |
| Plugin.NormalizedWeight | src/pyclics/plugin.py:88-95 | The normalised weight raises ZeroDivisionError iff fA + fB − w is 0; otherwise it is the quotient w²/(fA + fB − w), i.e. times the denominator it gives w². |
| Plugin.NormalizedWeightBounds | src/pyclics/plugin.py:88-95 | For 0 < w ≤ fA, fB the weight is symmetric in the endpoints, lies in (0, w], and equals w iff both frequencies equal w. |
| Util.FullColexificationKeys | src/pyclics/util.py:34-57 | The dict's keys are exactly the CLICS forms of the kept forms. Each key maps to its kept forms in input order, and forms with an empty CLICS form or no concept are skipped. |
| Util.ListVariant | src/pyclics/util.py:34-57 | The plugin's list of groups is this dict's values in first-key order. |
| Util.TwoFormsShareKey | src/pyclics/util.py:34-57 | Any two colexifiable forms that share a CLICS form end up in one group, under that form as key, holding exactly the two in input order. |
| Util.CommunitiesPartition | src/pyclics/util.py:23-31 | Nodes without the attribute are left out. Each other node lies in exactly the list keyed by its value, and each list is in graph order. |
| Util.CommunitiesExample | src/pyclics/util.py:23-31 | Of two nodes where only the first has infomap 'x', the community 'x' is ['n1']. |
| Db.ClicsForm | src/pyclics/db.py:11-15 | The result uses only lower-case ASCII letters, digits and '@', and is no longer than the transliterated word. |
| Db.KeepAllowedAll | src/pyclics/db.py:11-15 | Text made only of allowed characters is kept whole. |
| Db.KeepAllowedDrops | src/pyclics/db.py:11-15 | A disallowed character is dropped, and nothing around it changes. |
| Db.ClicsFormIdempotent | src/pyclics/db.py:14-15 | For an ASCII-preserving transliteration, applying clics_form twice gives the same result as applying it once. |
| Db.ClicsFormExamples | src/pyclics/db.py:14-15 | 'abC' and 'a.bC' both map to 'abc'. |
| Db.UpdateRow | src/pyclics/db.py:49-54 | Tables other than FormTable are unchanged. For FormTable the row needs a `Form` key, and the update appends exactly the key `clics_form` and the clics_form of a `Form` value, keeping the old keys and values as a prefix. |
| Db.UpdateRowUnique | src/pyclics/db.py:49-54 | With a single `Form` key, the appended value is the clics_form of exactly that key's value. |
| Models.Gid | src/pyclics/models.py:17-19 | The gid is the source, '-', then the id. |
| Models.GidInjective | src/pyclics/models.py:17-19 | With dash-free sources, the gid determines source and id. |
| Models.InitForm | src/pyclics/models.py:63-65 | A falsy gloss is replaced by the Concepticon gloss. A truthy gloss leaves the form unchanged, and no other field changes. |
| Models.InitFormIdempotent | src/pyclics/models.py:63-65 | Initialising twice is initialising once. |
| Models.NewConcept | src/pyclics/models.py:68-76 | A new concept's form, variety and family lists are empty. |
| Models.AsNodeAttrs | src/pyclics/models.py:78-91 | The three frequencies are the list lengths, and ID and ConcepticonId are both the concept id. |
| Models.NodeWordsRoundTrip | src/pyclics/models.py:78-91 | Splitting the Words attribute at ';' gives back the forms, one per unit of WordFrequency. |
| Models.AsGeoJson | src/pyclics/models.py:31-50 | The feature's key is the variety's gid. Its geometry is present iff both the `lon` and `lat` properties are, and is then the point (lon, lat). |
| Models.GeoJsonProperties | src/pyclics/models.py:37-49 | `name` and `language` are both the variety's name, `area` is its macro-area, `variety` is "std", and `lon`/`lat` carry the coordinates, missing ones staying missing. |
| Models.GeometryPresence | src/pyclics/models.py:31-50 | A variety has a point geometry iff both longitude and latitude are present. |
| Models.ParseStr | src/pyclics/models.py:99 | Reading back the string form of a normal PurePath gives the same path. |
| Models.FnamePath | src/pyclics/models.py:101-103 | The graph file's path is graphdir's path with the file name as one more part. |
| Models.FnameInCurrentDir | src/pyclics/models.py:101-103 | With graphdir '.' or '', the file name is 'g-t-e.gml' with no directory part. |
| Models.FnameTrailingSlash | src/pyclics/models.py:101-103 | graphdir 'a/' gives 'a/g-t-e.gml', with no doubled slash. |
| Models.FileNameRoundTrip | src/pyclics/models.py:101-103 | For dash-free fields, splitting the file name at '-' gives back graph name, threshold and edge filter. |
| MakeApp.ParseClusterMethod | src/pyclics/commands/makeapp.py:25-32 | Without '[' the result is (s.strip(), []). Every parsed name and argument is stripped and holds no ';'. |
| MakeApp.ParseFailure | src/pyclics/commands/makeapp.py:27-30 | The parse fails exactly when there is a '[' and either more than one '[' (the unpacking ValueError) or no closing ']' (the AssertionError). |
| MakeApp.RoundTrip | src/pyclics/commands/makeapp.py:25-32 | Parsing a rendered METHOD[arg;arg] gives back the stripped method and arguments. |
| MakeApp.ParseBracketed | src/pyclics/commands/makeapp.py:28-32 | With one '[' and a final ']', the arguments are the bracket content split at ';' and stripped. |
| MakeApp.EmptyBrackets | src/pyclics/commands/makeapp.py:30 | 'x[]' gives the single empty argument ['']. |
| Zenodo.DoiOf | src/pyclics/zenodo.py:28-30 | The DOI is '10.5281/zenodo.' followed by the record number after the last ':' of the id. |
| Zenodo.DoiPlain | src/pyclics/zenodo.py:28-30 | An id without ':' is used whole. |
| Zenodo.DoiMdEmbeds | src/pyclics/zenodo.py:58-61 | The badge embeds the DOI twice: once in the image URL and once in the link. |
| Zenodo.ReposOf | src/pyclics/zenodo.py:32-38 | Apart from the two special titles, the repository is the title up to its first ':'. |
| Zenodo.DatasetIdFails | src/pyclics/zenodo.py:40-46 | dataset_id raises IndexError iff the repository has no '/'. |
| Zenodo.DatasetIdOf | src/pyclics/zenodo.py:40-46 | 'owner/name: description' gives 'name'. |
| Zenodo.SearchTagMeans | src/pyclics/zenodo.py:10 | The search returns the match at the leftmost position where TAG_PATTERN matches, and nothing iff it matches nowhere. |
| Zenodo.SearchTagChars | src/pyclics/zenodo.py:10 | A found tag is a non-empty run of letters, digits and dots. |
| Zenodo.FirstTagIsFirst | src/pyclics/zenodo.py:48-56 | The tag comes from the first relation, in order, that matches; there is none iff no relation matches. |
| Zenodo.TagShape | src/pyclics/zenodo.py:48-56 | For a record that is not lexirumah, tag raises ValueError(id) iff no relation matches, and a found tag is a non-empty run of tag characters. A lexirumah record's tag starts with 'v', and its failure is AttributeError. |
| Zenodo.TagOfRelation | src/pyclics/zenodo.py:48-56 | A record whose first matching relation holds a GitHub tree URL gets that URL's tag. |
| ColexificationCommand.CleanMembers | src/pyclics/commands/colexification.py:37-38 | clean removes exactly '/', ',', ';' and '"'. |
| ColexificationCommand.CleanIsFilter | src/pyclics/commands/colexification.py:37-38 | clean keeps all other characters, in order. |
| ColexificationCommand.CleanIdempotent | src/pyclics/commands/colexification.py:37-38 | Cleaning twice is cleaning once. |
| ColexificationCommand.AddOnce | src/pyclics/commands/colexification.py:59-63 | set.add: the result holds the old elements and the new one, stays duplicate-free, and grows by at most one. |
| ColexificationCommand.WofamRoundTrip | src/pyclics/commands/colexification.py:64-76 | Splitting a wofam entry at '/' gives back its seven fields, since clean removes every '/' from the form fields. |
| ColexificationCommand.AddColex | src/pyclics/commands/colexification.py:48-76 | A colexification whose first concept is not a node raises KeyError. Otherwise no node is lost, and the second concept becomes a node. |
| ColexificationCommand.AddColexShape | src/pyclics/commands/colexification.py:49-76 | An edge is created only on its first co-occurrence, at the end of the creation order. Later colexifications only grow its sets and append to wofam. |
| ColexificationCommand.AddColexOthers | src/pyclics/commands/colexification.py:49-76 | A colexification leaves the edges of every other concept pair unchanged. |
| ColexificationCommand.AccumulateFailure | src/pyclics/commands/colexification.py:48-49 | The loop fails exactly with KeyError on a colexification whose first concept is not a node, and succeeds when every first concept is a node. |
| ColexificationCommand.AccumulateContent | src/pyclics/commands/colexification.py:48-76 | After the loop, an edge exists iff some colexification links its pair. Its words, languages and families are exactly those of those colexifications, and its wofam lists them in order. |
| ColexificationCommand.NbrsMeans | src/pyclics/commands/colexification.py:105 | w is listed as a neighbour of u iff the graph has the edge {u, w}; neighbours follow edge insertion order, as in networkx adjacency. |
| ColexificationCommand.VisitMeans | src/pyclics/commands/colexification.py:105 | Visiting u yields (u, w) exactly for the neighbours w not visited before. |
| ColexificationCommand.NxOrderMeans | src/pyclics/commands/colexification.py:105 | G.edges() yields (u, w) iff u is a node, w is a neighbour of u, and w was not visited before u in node order. |
| ColexificationCommand.NxOrderExample | src/pyclics/commands/colexification.py:105 | With nodes X, Y, Z and edges created as (Z, Y) then (X, Z), G.edges() yields (X, Z) then (Y, Z). |
| ColexificationCommand.NxOrderOnce | src/pyclics/commands/colexification.py:141-149 | G.edges() yields every edge exactly once, oriented from the end inserted first. |
| ColexificationCommand.EdgesOnce | src/pyclics/commands/colexification.py:141-149 | The edge list carries each edge's data, lists each edge exactly once, misses none, and orients each from its earlier node. |
| ColexificationCommand.StatsBounds | src/pyclics/commands/colexification.py:126-138 | Per language, threshold_counts ≤ all_counts ≤ all_possible and threshold_counts ≤ threshold_possible ≤ all_possible. |
| ColexificationCommand.StatsCountAll | src/pyclics/commands/colexification.py:105-138 | all_counts counts the edges the language attests. all_possible adds the edges, with a non-empty language set, whose two concepts the language has. |
| ColexificationCommand.StatsCountThreshold | src/pyclics/commands/colexification.py:116-138 | The threshold counts are the same counts, restricted to edges passing the filter. |
| ColexificationCommand.Colex2LangMeans | src/pyclics/commands/colexification.py:104-109 | A pair maps to a glottocode iff the pair's edge lists a variety with that glottocode, and no pair maps to an empty set. |
| ColexificationCommand.SerializeWeights | src/pyclics/commands/colexification.py:150-156 | WordWeight, FamilyWeight and LanguageWeight are the distinct-set sizes, each between 1 and the number of wofam entries. |
| ColexificationCommand.SerializeRoundTrip | src/pyclics/commands/colexification.py:150-158 | Splitting the serialised words and families gives them back sorted (as multisets). The languages come back unsorted, in insertion order. |
| ColexificationCommand.IgnoredIff | src/pyclics/commands/colexification.py:159-164 | An edge is ignored iff the weight of the chosen filter is below the threshold; an unknown filter ignores nothing. |
| ColexificationCommand.Filtered | src/pyclics/commands/colexification.py:148-166 | The saved graph keeps all nodes, and keeps exactly the edges passing the filter, with their serialised data. |
| ColexificationCommand.TableRows | src/pyclics/commands/colexification.py:178-188 | For show ≥ 1 the table is the first show kept entries. For show ≤ 0 the loop stops after the first entry, listed only if kept. |
| ColexificationCommand.TableSorted | src/pyclics/commands/colexification.py:179-181 | Table rows come in descending (families, languages, words) order. |
| ColexificationCommand.TableKept | src/pyclics/commands/colexification.py:182 | Every row belongs to an edge that was not filtered out. |
| ColexificationCommand.Rows | src/pyclics/commands/colexification.py:168-185 | A row's concepts are looked up in nodenames, and a missing id raises KeyError on that id. |
| ColexificationCommand.SummaryRows | src/pyclics/commands/colexification.py:140-188 | The summary has at most max(show, 1) rows, each an unfiltered edge of the graph. |
| ColexificationCommand.SummaryOrder | src/pyclics/commands/colexification.py:179-181 | Summary rows are in descending (families, languages, words) order. |
| ColexificationCommand.SummarySucceeds | src/pyclics/commands/colexification.py:168-188 | The summary fails only when an edge's concept has no gloss in nodenames. |
| ColexificationCommand.AddNodes | src/pyclics/commands/colexification.py:43-45 | The nodes are the concept ids, each once. |
| ColexificationCommand.RunGraph | src/pyclics/commands/colexification.py:34-190 | The saved graph has an edge iff some colexification links its pair and its weight passes the filter; saved edges carry the serialised data. |
| ColexificationCommand.RunSucceeds | src/pyclics/commands/colexification.py:34-190 | The command succeeds when every colexified concept is a node with a gloss. |
| ClusterCommand.Select | src/pyclics/commands/cluster.py:35-44 | An unknown name lists the algorithms, then raises ArgumentError unless it is '_'. A known name needs the app to be built. |
| ClusterCommand.NeighbourWeight | src/pyclics/commands/cluster.py:50 | neighbor_weight defaults to 5, and the only way to read it can fail is a ValueError on given text. |
| ClusterCommand.NeighbourWeightMeans | src/pyclics/commands/cluster.py:50 | Any integer's decimal text is read as that weight; text without a digit raises ValueError. |
| ClusterCommand.IntOf | src/pyclics/commands/cluster.py:50 | `int()` on text fails only with ValueError "invalid literal for int() with base 10". |
| ClusterCommand.IntOfText | src/pyclics/commands/cluster.py:50 | `int(str(i)) == i` for every integer, negative ones included. |
| ClusterCommand.IntOfNeedsDigit | src/pyclics/commands/cluster.py:50 | `int()` rejects any text that has no decimal digit. |
| ClusterCommand.SortClustersOrder | src/pyclics/commands/cluster.py:52 | Clusters are a permutation of the algorithm's, larger first, and equal sizes are ordered by contents. |
| ClusterCommand.LabelIndexMeans | src/pyclics/commands/cluster.py:55-63 | A node's label is the number of the last cluster containing it, or 0 when no cluster does. |
| ClusterCommand.LabelsDiffer | src/pyclics/commands/cluster.py:55-63 | Two labels differ iff the cluster numbers differ. |
| ClusterCommand.CentralIsFirstMax | src/pyclics/commands/cluster.py:67-70 | The central node has the highest degree in the induced subgraph, and is the first such node in subgraph order. |
| ClusterCommand.InfosNamed | src/pyclics/commands/cluster.py:66-77 | Each cluster's name is '{algo}_{idx}_{gloss}', where gloss is the central node's gloss. |
| ClusterCommand.InfosCover | src/pyclics/commands/cluster.py:55-59 | Every non-empty cluster gets an entry with its number. |
| ClusterCommand.InfosOrdered | src/pyclics/commands/cluster.py:66 | Entries come in increasing cluster number. |
| ClusterCommand.StampFollowsLabel | src/pyclics/commands/cluster.py:75-77 | A node carries a cluster name iff it is clustered, and then the name of the cluster its label gives. |
| ClusterCommand.StampNames | src/pyclics/commands/cluster.py:66-77 | The name a node carries is that of the last cluster containing it, built from that cluster's central gloss. |
| ClusterCommand.NamesDistinct | src/pyclics/commands/cluster.py:71 | Different cluster numbers give different names. |
| ClusterCommand.Neighbours | src/pyclics/commands/cluster.py:88-92 | The OutEdge neighbours are exactly the graph neighbours outside the cluster whose FamilyWeight is at least neighbor_weight, in graph order. |
| ClusterCommand.OutEdge | src/pyclics/commands/cluster.py:93-102 | OutEdge has one entry per such neighbour, in order. |
| ClusterCommand.RemovedMeans | src/pyclics/commands/cluster.py:103-112 | A node is removed iff it makes up a cluster on its own (the cluster's subgraph has one node). |
| ClusterCommand.ClusterFilesKeys | src/pyclics/commands/cluster.py:103-109 | The cluster-names file lists exactly the glosses of nodes in clusters with more than one node. |
| ClusterCommand.ClusterFilesStem | src/pyclics/commands/cluster.py:102-109 | Later clusters overwrite earlier ones: a gloss keeps the file stem of the last multi-node cluster holding it, and no later cluster holds it. |
| ClusterCommand.LastFiled | src/pyclics/commands/cluster.py:102-109 | The cluster that decides a gloss's stem is filed, and every other filed cluster for that gloss comes before it. |
| ClusterCommand.Process | src/pyclics/commands/cluster.py:52-120 | The post-processing works on the size-sorted clusters. |
| ClusterCommand.Run | src/pyclics/commands/cluster.py:30-123 | Corrected run: it fails exactly when selection fails, or when it proceeds and neighbor_weight is not an integer. '_' lists the algorithms, and a finished run holds the clusters in sorted order. |
| ClusterCommand.RunAsWrittenFails | src/pyclics/commands/cluster.py:31 | As written, every call raises ImportError on parse_kwargs, even '_', which the corrected run answers with the listing. |
| ClusterCommand.CrossPair | src/pyclics/commands/cluster.py:117-118 | An edge crosses clusters iff its ends' labels differ. |
| ClusterCommand.AnnotateKeeps | src/pyclics/commands/cluster.py:103-112 | The surviving nodes are the graph nodes, except those forming a cluster on their own. |
| ClusterCommand.AnnotateAttrs | src/pyclics/commands/cluster.py:62-94 | Each survivor carries its label. It has a cluster name and an OutEdge list iff it is clustered. |
| ClusterCommand.AnnotateNames | src/pyclics/commands/cluster.py:66-77 | A clustered survivor is named after the last cluster containing it and that cluster's central gloss. |
| ClusterCommand.AnnotateOutEdge | src/pyclics/commands/cluster.py:84-102 | A clustered survivor's OutEdge lists exactly its strong neighbours outside its cluster. |
| ClusterCommand.AnnotateEdges | src/pyclics/commands/cluster.py:112-120 | An edge survives iff both ends survive and either the labels agree or FamilyWeight ≥ 5. Its data is unchanged. |
| ClusterCommand.AnnotateFiles | src/pyclics/commands/cluster.py:103-109 | Exactly the glosses of nodes in multi-node clusters are filed. |
| ClusterCommand.AnnotateStem | src/pyclics/commands/cluster.py:102-109 | A filed gloss maps to the stem of the last multi-node cluster holding it. For `subgraph` that stem is the cluster number; otherwise it is the ClusterName the naming loop left on the cluster's first node. |
| ClusterCommand.EntryMultiNode | src/pyclics/commands/cluster.py:103-109 | Filing read off the entries agrees with filing read off the clusters. |
| LegacyCommands.OrDefault | src/pyclics/commands.py:116 | `option or fallback`: an absent or zero option takes the fallback. |
| LegacyCommands.IndexPairsComplete | src/pyclics/commands.py:142 | combinations(v, 2) yields every index pair i < j. |
| LegacyCommands.IndexPairsOrdered | src/pyclics/commands.py:142 | The pairs come in lexicographic order. |
| LegacyCommands.IndexPairsCount | src/pyclics/commands.py:142 | There are m(m−1)/2 pairs of m items. |
| LegacyCommands.GroupColexesMeans | src/pyclics/commands.py:141-145 | A group yields a colexification iff it comes from a pair of forms in the group with different concept ids. |
| LegacyCommands.WordlistColexesSound | src/pyclics/commands.py:138-145 | Every colexification links two of the wordlist's forms that share a non-empty CLICS form and have different, non-empty concepts. |
| LegacyCommands.WordlistColexesComplete | src/pyclics/commands.py:138-145 | Every such pair within a group is produced. |
| LegacyCommands.AllColexesMeans | src/pyclics/commands.py:138-145 | The loop yields exactly the colexifications of each wordlist. |
| LegacyCommands.AllColexesNoLoops | src/pyclics/commands.py:144 | No colexification is a self-loop. |
| LegacyCommands.WordsMeans | src/pyclics/commands.py:145 | words.json has a gid iff some colexification's first form has it, and holds the CLICS form and form of the last such colexification. |
| LegacyCommands.Colexification | src/pyclics/commands.py:113-205 | The legacy command succeeds iff the shared colexification pipeline does, with threshold `or 1`. |
| LegacyCommands.ColexificationGraph | src/pyclics/commands.py:146-205 | An edge exists iff some colexification links its pair. It is saved iff it also passes the edge filter at threshold `or 1`. The summary table is bounded by its fixed size. |
| LegacyCommands.Cluster | src/pyclics/commands.py:208-231 | 'list' lists the algorithms, and an unknown name raises ParserError. The graph threshold defaults to 3. |
| LegacyCommands.ClusterOrder | src/pyclics/commands.py:229 | Clusters are sorted larger first, and equal sizes by contents, as a permutation. |
| LegacyCommands.HoodBounds | src/pyclics/commands.py:295-303 | A neighbourhood holds its node and only nodes within two hops. It holds every neighbour unless the node has more than 50. |
| LegacyCommands.HubHood | src/pyclics/commands.py:299-300 | A node with more than 50 neighbours has only itself as its neighbourhood. |
| LegacyCommands.ProcessingOrderMeans | src/pyclics/commands.py:311-313 | Nodes are visited by non-increasing neighbourhood size, as a stable permutation of graph order. |
| LegacyCommands.NumberAllOk | src/pyclics/commands.py:316-320 | Neighbourhoods are numbered from 1 in order of first appearance. |
| LegacyCommands.StraysMeans | src/pyclics/commands.py:325-345 | The naming step reaches the CentralConcept lookup iff the node has more than 50 neighbours and a link with FamilyWeight ≥ neighbor_weight. |
| LegacyCommands.StepAsWritten | src/pyclics/commands.py:311-346 | As written, a naming step raises KeyError('CentralConcept') on such a node, and is the corrected step otherwise. |
| LegacyCommands.NameAllAsWrittenMeans | src/pyclics/commands.py:311-350 | As written, the naming loop succeeds iff it meets no such node, and then agrees with the corrected loop. |
| LegacyCommands.SubgraphAsWrittenMeans | src/pyclics/commands.py:286-355 | As written, subgraph fails with KeyError('CentralConcept') iff some node is a strong hub, and otherwise equals the corrected command. |
| LegacyCommands.SubgraphHoods | src/pyclics/commands.py:295-303 | Every node's stored neighbourhood holds the node and only graph nodes within two hops. It holds all neighbours of a node with at most 50, and only the node itself otherwise. |
| LegacyCommands.SubgraphNamed | src/pyclics/commands.py:311-322 | Exactly the graph's nodes get a cluster name. |
| LegacyCommands.SubgraphNameOf | src/pyclics/commands.py:314-322 | A node's name is 'subgraph_{n}_{gloss}'. n is its neighbourhood's first-seen number, and gloss is that neighbourhood's central gloss. |
| LegacyCommands.SubgraphNumbering | src/pyclics/commands.py:316-320 | A neighbourhood met for the first time takes the next number. |
| LegacyCommands.SubgraphSameName | src/pyclics/commands.py:314-322 | Two nodes share a name iff they share a neighbourhood. |
| LegacyCommands.SubgraphFiled | src/pyclics/commands.py:347-350 | A gloss is filed iff it belongs to a node whose neighbourhood has more than one node. |
| LegacyCommands.SubgraphFiledAs | src/pyclics/commands.py:347-350 | A filed gloss is filed under the name of one such node. |
| LegacyCommunities.Normalize | src/pyclics/commands.py:373-378 | With normalize, every edge gets w²/(fA + fB − w); a zero denominator raises ZeroDivisionError. |
| LegacyCommunities.NormalizeBounds | src/pyclics/commands.py:373-378 | For 0 < w ≤ fA, fB the weight lies in (0, w], and equals w iff both frequencies equal w. |
| LegacyCommunities.BySizeOrder | src/pyclics/commands.py:392 | Communities are sorted by non-increasing size, as a stable permutation. |
| LegacyCommunities.Strays | src/pyclics/commands.py:397-398 | The nodes D[node] fails on are exactly the graph nodes in no community. |
| LegacyCommunities.CommunitiesFails | src/pyclics/commands.py:370-398 | The command fails exactly on a missing FamilyFrequency (KeyError), a zero normalisation denominator (ZeroDivisionError), or an unclustered node (KeyError on the first such node), in that order. |
| LegacyCommunities.CommunitiesSuccess | src/pyclics/commands.py:358-461 | A successful run is the shared post-processing of the size-sorted communities. |
| LegacyCommunities.CommunitiesOrder | src/pyclics/commands.py:373-395 | The clusters are the communities by size, and normalised weights are present iff normalize is set. |
| LegacyCommunities.CommunitiesAnnotate | src/pyclics/commands.py:397-458 | Nodes, attributes and edges are those of the cluster post-processing, under the name infomap. Every node gets a label > 0. |
| LegacyCommunities.CommunitiesFiles | src/pyclics/commands.py:441-447 | Exactly the glosses of nodes in multi-node communities are filed, each under the name of a community holding it. |
| LegacyCommunities.AnnotatedFiles | src/pyclics/commands.py:441-447 | The post-processing files exactly the glosses of multi-node clusters, each under a cluster holding it. |
| Sorting.SortSorted | src/pyclics/commands/cluster.py:52 | The sort used for every sorted() is ordered and a permutation. |
| Sorting.SortStable | src/pyclics/commands/cluster.py:52 | The sort is stable: equivalent elements keep their input order, as Python's sorted does. |
| Grouping.GroupByOrder | src/pyclics/plugin.py:47-51 | Grouping keeps keys in first-seen order and members in input order, as the defaultdict loop does. |
| Strings.JoinThenSplit | src/pyclics/commands/colexification.py:151-158 | Splitting a ';'-join of pieces without ';' gives the pieces back. |

## Left out

- igraph's `linegraph`, `clusters`, `similarity_jaccard` and `community_infomap`, and `networkx2igraph` (src/pyclics/hlc.py:60-88, src/pyclics/util.py:9-20): these are foreign code. The model defines its own line graph and connected components, and treats infomap and the other cluster algorithms as a given list of clusters.
- HlcSimilarity.Jaccard: this models the in-file closed-neighbourhood calculator. When igraph supports pair queries, HLC runs `OptimizedJaccardSimilarityCalculator` instead (src/pyclics/hlc.py:60-88, 297-298). That one uses igraph's open neighbourhoods with `loops=False`, and is not modelled.
- Hlc.Sweep: densities are exact `real`s, not Python floats, so the `d >= max_d` tie test is decided exactly. Float rounding could change which tie wins.
- Hlc.BestCutMeans: exact reals, as for Hlc.Sweep.
- HlcSimilarity.TanimotoSymmetric: exact reals. With floats, the two iteration orders can round differently, so the source's result may not be exactly symmetric.
- HlcClustering.MergedSum: exact reals. The source accumulates `d` in floats, which can drift from the recomputed sum.
- Transition.TransitionRows: exact reals. numpy's float matrices only approximate row sums of 1 or steps. numpy's `matrix_power` is modelled as repeated multiplication, and its LinAlgError as `ValueError("LinAlgError")`.
- Colexifications.CognateCount: lingpy's `Pairwise` alignment, `infomap_clustering` and `flat_upgma` are parameters. Only how their results are combined is modelled.
- ClusterCommand.NeighbourWeight: the option is taken to be the text given on the command line. util.py defines no `parse_kwargs`, so this type is an assumption; a value that is already numeric is not modelled.
- ClusterCommand.IntOf: only ASCII digits with an optional sign and surrounding whitespace are accepted. Python also accepts `_` between digits and non-ASCII decimal digits. The error message leaves out the repr of the text.
- Plugin.NormalizedWeight: the weight is an exact `real`, where Python's true division gives a float (src/pyclics/plugin.py:88-95). This holds for Plugin.NormalizedWeightBounds too: its bounds and its equality case are exact, and float rounding could break them.
- LegacyCommunities.Normalize: exact `real` weights, as for Plugin.NormalizedWeight, where src/pyclics/commands.py:373-378 computes floats. LegacyCommunities.NormalizeBounds proves its bounds over these exact reals.
- ClusterCommand.Run: it assumes, as does ClusterCommand.Process, that the clusterer returns only graph nodes and that every node has a `Gloss` (`InGraph`, `GraphOk`). The source checks neither. A missing `Gloss` or an unknown node would raise KeyError at src/pyclics/commands/cluster.py:70-74, 99 or 109.
- LegacyCommunities.Communities: it makes the same two assumptions about the infomap communities and `Gloss` (src/pyclics/commands.py:397-413), and the source checks neither.
- Colexifications.DistinctCountsBounded: the distinct counts are stated through CountDistinct over the stored lists. The `variety_count`, `language_count` and `family_count` attributes that src/pyclics/colexifications.py:89-96 writes onto nodes and edges are not separate fields of the model.
- Plugin.SubgraphCovers: node ids are `nat`s, so the ValueError that `int(i)` raises on a non-numeric id is not modelled (src/pyclics/plugin.py:59, 76).
- infomap (src/pyclics/plugin.py:80-103): community detection is left out; only the weight normalisation (Plugin.NormalizedWeight) is modelled.
- ColexificationCommand.SerializeRoundTrip: `languages` is a Python set, joined at src/pyclics/commands/colexification.py:157 in hash order. The model joins in insertion order, so the exact string is not promised, only the same languages.
- ClusterCommand.CentralIsFirstMax: "first" is taken in graph node order. For a subgraph under half the graph's size, networkx iterates the subgraph's node set instead, so the tie-break among equal-degree nodes may differ.
- ClusterCommand.CentralNode: the same graph-order assumption as ClusterCommand.CentralIsFirstMax.
- LegacyCommands.SubgraphNameOf: the central gloss assumes the same graph-order tie-break as ClusterCommand.CentralIsFirstMax.
- LegacyCommands.SubgraphAsWrittenMeans: the legacy commands use `graph.node`, which networkx removed in 2.4. The model assumes a networkx older than 2.4, where `.node` still exists.
- LegacyCommunities.CommunitiesFails: assumes networkx older than 2.4, as LegacyCommands.SubgraphAsWrittenMeans does.
- ColexificationCommand.RunGraph: `threshold` is an `int`. The command-line default is None (src/pyclics/__main__.py:22), on which the source's `<` comparisons raise TypeError. That error is not modelled.
- Zenodo.TagShape: relation texts are strings. A `None` relation (an empty XML element), on which `TAG_PATTERN.search` raises TypeError, is not modelled.
- Zenodo.SearchTagMeans: TAG_PATTERN's unescaped '.' in `github.com` matches any character. The model matches it as written.
- Models.FnamePath: models POSIX `PurePath` only: repeated slashes and '.' parts collapse. Windows paths and the filesystem are not modelled.
- LegacyCommands.SubgraphFiledAs: the gloss is filed under the name of *some* node with that gloss, not provably the last writer.
- LegacyCommunities.CommunitiesFiles: the same weakening as LegacyCommands.SubgraphFiledAs.
- ClusterCommand.AnnotateStem: the stem is taken to be the whole file name before `.json`. A gloss containing '/' would make src/pyclics/commands/cluster.py:104-106 write into a subdirectory and record only the last path component; that case is not modelled.
- Db.UpdateRow: with duplicate `Form` keys, `dict(zip(...))` takes the last one. The model promises the value of *some* `Form` key, and Db.UpdateRowUnique pins it down for a single key.
- The transliteration `unidecode` is a parameter of Db.ClicsForm and Plugin.ClicsForm. Db.ClicsFormIdempotent assumes it leaves ASCII text unchanged.
- All SQL and file I/O is left out: the database queries, `load`, `datasets`, `api`, GML and JSON writing, `Network.save`/`graph`, the `write_js_var` files, and the colex2lang/colexstats files. Their inputs (concept lists, colexification streams, nodenames, language maps) are parameters.
- The string form of OutEdge entries (src/pyclics/commands/cluster.py:113-115) is left out; only the neighbour lists are modelled.
- MakeApp's `run` (src/pyclics/commands/makeapp.py:35-63) copies files and writes JSON, and is left out except for `parse_cluster_method`. `words.json` is modelled by LegacyCommands.WordsMeans.
- Zenodo HTTP paging and XML parsing (`iter_records`, `from_oai`), `datasetspec`, `geojson`, `graph_stats`, articulation points, `runapp`, the CLI, and `dev/chen.py` are outside the core.
- Same-concept variant deduplication in `_iter_colexifications` is not shown in `api.py`. The builders modelled here do not deduplicate.

The model follows the code in these points:

- the builder counts every pair of forms with different concepts, without deduplicating variants;
- the fixed-threshold cut deletes line-graph edges whose score is `<=` the threshold;
- the sweep lets later ties win, because it tests `>=`;
- clusters smaller than `min_size` are dropped in both modes;
- the diffusion matrix's error branches are modelled as they occur.

## Findings

| source | as written | input that shows it | evidently intended | confidence | as-written member | corrected member |
|---|---|---|---|---|---|---|
| src/pyclics/commands/cluster.py:31 | `run` imports `parse_kwargs` from `pyclics.util`, but util.py defines no such name, so every call raises ImportError before doing anything. `makeapp` calls it at src/pyclics/commands/makeapp.py:60. | any call, e.g. algorithm `_`, which should only list the algorithms | run proceeds: it lists or clusters | not executed | ClusterCommand.RunAsWrittenFails | ClusterCommand.Run |
| src/pyclics/commands.py:340-345 | for each neighbour of a node, the subgraph command appends a second OutEdge entry that reads `_graph.node[n]['CentralConcept']`. The command never sets that attribute, so on a graph without it, such as the default `network` graph, it raises KeyError('CentralConcept'). On a graph that already carries the attribute, the same entry fails one lookup later: `_graph[node][n]` at line 344 raises KeyError(node), because n is the node itself and there is no self-loop. | a node with more than 50 neighbours (its neighbourhood is only itself) and a link with FamilyWeight ≥ neighbor_weight | each node is named and numbered after its neighbourhood without the command failing. The OutEdge lists are outside the corrected model, which covers naming, numbering and filing only | not executed | LegacyCommands.SubgraphAsWrittenMeans | LegacyCommands.SubgraphSameName |
