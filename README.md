# Graph summary and query helpers of the citation/collaboration network analysis

This project models, in Dafny, the logic of the repository's graph analysis
that is visible in `libs/backend.py` and `libs/frontend.py`:

- `funct_1` (`libs/backend.py`): the summary of a citation graph (directed)
  or a collaboration graph (undirected): the node and edge lists, the density
  m/(n(n-1)) or 2m/(n(n-1)), the sparsity flag (density below 0.5), the
  average degree 2m/n, the hubs (nodes whose degree is strictly above the 95th
  percentile of the degree distribution), and the two return shapes (ten
  values with in/out degrees for a citation graph, eight for a collaboration
  graph). Every way it raises is modelled as an error value: a name that is
  neither 'citation' nor 'collaboration' leaves `density` unbound; fewer than
  two nodes divides by zero; 'citation' on an undirected graph has no in/out
  degrees.
- The top-N-by-degree selection used by `visual_3`, `visual_4` and
  `visual_5`: Python's stable `sorted(..., reverse=True)` over the degree
  dictionary, then the slice `[:N]` (also for a negative or too large N).
  The same three lines stand at libs/frontend.py:269-271, 335-337 and
  453-455; the table cites the first.
- The shortest-path table of `visual_3`: the rows (from, to, paper) built
  with `zip`, the consecutive edges, and the edge-to-step-number dictionary.
- The same-component test of `visual_4` and the choice of the layout
  positions it zooms on.
- The loop of `visual_5` that finds the community index of each paper for
  the legend, including the early return on an empty community list and the
  unbound-variable error when a paper is in no community.

Modules: `Wrappers` (Option, Result), `Sequences` (Python slicing,
distinctness, subsequences), `Graphs` (node ids, edges, the degree
dictionary, the handshake lemma), `Summary` (`funct_1`), `Selection` (top-N),
`PathTable` (path table and labels), `Partitions` (component and community
membership).

Numbers are exact reals. The degree dictionary is its list of items
`(node, degree)` in iteration order. Outputs of networkx (`G.degree()`, the
component list, the layout positions) and of `funct_3`/`funct_5` (path,
papers, communities) are inputs.

The top-N selection is a slice `[:N]` of the sorted items, so every N is
accepted: an N above the node count yields all nodes, N = 0 yields none, and a
negative N drops |N| items from the end. The sort is stable, so nodes of equal
degree keep their order in the degree dictionary.

## Model

| member | source | states |
|---|---|---|
| Summary.KindOfIgnoresCase | libs/backend.py:25-30 | the graph name is compared after lower-casing, so lower-casing it first selects the same branch |
| Summary.MixedCaseName | libs/backend.py:25 | a name in mixed case, "CiTaTiOn", selects the citation branch |
| Summary.Density | libs/backend.py:24-32 | density times n(n-1) is m for a citation graph and 2m for a collaboration graph; it is an error exactly when n < 2 (zero denominator) and is never negative |
| Summary.AverageDegree | libs/backend.py:40-41 | the average degree times n is 2m |
| Summary.Hubs | libs/backend.py:44-48 | an item is a hub exactly when it is in the degree dictionary and its degree is strictly above the threshold; there are at most as many hubs as items |
| Summary.HubsInDictionaryOrder | libs/backend.py:48 | the hubs are a subsequence of the degree dictionary: its order is kept |
| Summary.Summarize | libs/backend.py:18-56 | the three error cases each exactly when they occur, in program order; the return shape with in/out degrees exactly for 'citation'; nodes, edges, degrees and threshold passed through; the density, sparsity flag (density < 0.5), average degree and hub membership of the result |
| Summary.SparseIffFewEdges | libs/backend.py:34-38 | the sparsity flag holds exactly when 2m < n(n-1) for a citation graph and 4m < n(n-1) for a collaboration graph |
| Summary.AverageDegreeIsMeanDegree | libs/backend.py:40-41 | when the dictionary holds each node's degree in the edge list, 2m/n is the mean of the dictionary's degrees |
| Summary.HubCount | libs/backend.py:44-48 | at most n hubs, in dictionary order, and a node whose degree equals the threshold is not a hub |
| Graphs.Handshake | libs/backend.py:40 | over distinct nodes that include every edge endpoint, the endpoint counts sum to twice the number of edges |
| Graphs.DegreeTotalHandshake | libs/backend.py:40-44 | the degrees of a graph's degree dictionary sum to 2m |
| Selection.SortByDegree | libs/frontend.py:270 | the sorted items are a permutation of the dictionary's items |
| Selection.SortKeys | libs/frontend.py:270 | the sorted items carry the same node ids as the dictionary (as a multiset) |
| Selection.SortNonIncreasing | libs/frontend.py:270 | the sorted degrees never increase |
| Selection.SortStable | libs/frontend.py:270 | for every degree, the items of that degree come out in dictionary order (the sort is stable) |
| Selection.TopItems | libs/frontend.py:270-271 | the number of selected items follows Python's `[:N]`: min(N, count) for N >= 0, max(0, count + N) otherwise |
| Selection.SelectTopN | libs/frontend.py:269-271 | the selected node list has min(N, number of nodes) entries for N >= 0 (max(0, count + N) for negative N) and lists the ids of the selected items in order |
| Selection.TopItemsOrdered | libs/frontend.py:270-271 | the selected nodes appear in non-increasing degree order |
| Selection.TopItemsDominate | libs/frontend.py:269-271 | no node left out of the selection has a strictly higher degree than a selected node |
| Selection.TopItemsStable | libs/frontend.py:270-271 | for every degree, the selected nodes of that degree are the first ones of that degree in dictionary order, in that order |
| Selection.TopNodesDistinct | libs/frontend.py:269-271 | the selected ids are distinct nodes of the graph |
| Selection.TopItemsSubset | libs/frontend.py:269-271 | each selected item, with its degree, is an item of the degree dictionary |
| PathTable.PathRows | libs/frontend.py:242-244 | the table has min(max(len(path) - 1, 0), len(papers)) rows and row i is (path[i], path[i+1], papers[i]) |
| PathTable.PathEdges | libs/frontend.py:273 | the path edges are the len(path) - 1 consecutive pairs (path[i], path[i+1]) |
| PathTable.RowsOfWellFormedPath | libs/frontend.py:241-244 | a path of k >= 1 nodes with k - 1 papers gives exactly k - 1 rows, row i joining edge i and paper i |
| PathTable.Labels | libs/frontend.py:275 | the label dictionary's keys are the path edges; each label lies in 1..len(edges), names a position holding that edge, and no later position holds it (the later position overwrites) |
| PathTable.LabelOfStep | libs/frontend.py:273-275 | step i is labelled at least i+1, and exactly i+1 when the same edge does not occur later on the path |
| PathTable.LabelsOfSimplePath | libs/frontend.py:273-275 | on a path with no repeated edge, the label of step i is i+1 |
| Partitions.InSameComponent | libs/frontend.py:362-363 | true exactly when some component in the list contains both authors |
| Partitions.SameComponentOfPartition | libs/frontend.py:362-363 | over disjoint components, the two authors share a component exactly when the second is in the component of the first |
| Partitions.LegendCommunities | libs/frontend.py:417-483 | an empty community list returns early; otherwise the index of each paper is the last community containing it, and a paper in no community is an unbound-variable error, paper_1's checked first |
| Partitions.SameLegendIndexIffSameCommunity | libs/frontend.py:473-477 | over disjoint communities, the two papers get the same index exactly when one community holds both |
| Partitions.ZoomPositions | libs/frontend.py:362-374 | the zoomed positions are those of the last component holding authorA when both authors share a component, otherwise those of every component holding either author; each position is the layout's own |

## Left out

- Plotting, dataframes and table styling (`matplotlib`, `pandas`, `display`, `show`, `print`): presentation only.
- `visual_1`, `visual_2` and `visual_id_finder` beyond their calls: they only lay out what `funct_1`, `funct_2` and `id_finder` return.
- The zoom bounding boxes (min/max of layout coordinates): floating point on a random spring layout; `ZoomPositions` stops at the positions selected.
- The random community colours in `visual_5`: nondeterministic.
- networkx itself: `G.degree()`, `G.in_degree()`, `G.out_degree()`, `G.subgraph`, `nx.connected_components`, `nx.spring_layout`, `nx.is_directed`. Their results are inputs; `G.subgraph` applied to the selected node list is not modelled.
- `np.percentile`: the 95th-percentile threshold is a parameter of `Summarize` and `Hubs`, not computed.
- `funct_2`, `funct_3`, `funct_4`, `funct_5` and `id_finder`: only their calls are in the source files; their bodies (centralities, shortest-path chaining, minimum cut, community splitting, name lookup) are not part of this model. The path, papers, components and communities they produce are inputs.
- Rounding of density and average degree for display: values are exact reals.
- Summary.KindOfIgnoresCase: `str.lower()` is modelled on ASCII letters only; for the comparison with 'citation' and 'collaboration' this gives the same branch, since no other character lower-cases to a single one of the letters of those names.
