# Territory planner: graph construction

This project models the graph construction of the territory-balancing
service in Dafny. The service splits a set of grid cells (h3 or quadbin
cells, each with a demand and a score) into territories of balanced
demand. Before the partitioner runs, the service does these steps:

- It decodes the request positionally (`parse_request_input`).
- It numbers the cells by the dense rank of their geoids and sorts them
  by that number.
- It builds a weighted adjacency list from the radius-1 rings of the grid
  (`compute_weighted_edges_index`), through the adapter chosen by grid
  type (`get_functions`).
- It rescales the demands (`fexp` and the two-stage rule of
  `TerritoryBalancingProblem.__post_init__`).
- It assembles the weighted graph.
- It adds bridge edges until the graph is connected
  (`connect_components`).

The model is functional. Graphs, edges, cells and requests are immutable
datatypes. The grid libraries (`k_ring`, `h3_distance`,
`cell_to_tile`), `np.exp` and `random.choice` are function parameters,
and their stated assumptions are predicates: `ValidExp`, `Picks` and
`SymmetricRing`. Python exceptions become `Failure` values of a
`Result` type.

Modules:

| module | file | what it models |
|---|---|---|
| `Wrappers` | wrappers.dfy | `Result` and the error kinds the Python code raises |
| `Sorting` | sorting.dfy | stable sort by key, ascending set iteration, distinct keys |
| `Grid` | grid.dfy | `quadbin_distance`, `get_functions` |
| `Magnitude` | magnitude.dfy | `fexp` and powers of ten |
| `Similarity` | similarity.dfy | the edge weight `int(1000 * (1 + exp(-2 abs(sa - sb))))` |
| `Table` | table.dfy | rows, the dense rank, `sort_values("node")` |
| `EdgeBuilder` | edges.dfy | `compute_weighted_edges_index` |
| `Demand` | demand.dfy | the demand rescaling of `__post_init__`, `int()` of the node weights |
| `Graphs` | graph.dfy | the networkx graph: nodes, node weights, edge map, components |
| `Components` | components.dfy | `connected_components` sorted by size, eccentricity, `center` |
| `Repair` | repair.dfy | `connect_components` |
| `RepairStall` | stall.dfy | the repair loop on cells farther apart than its sentinel, and the search it evidently intends |
| `Assembly` | assembly.dfy | the graph assembly of `__post_init__` |
| `Request` | request.dfy | `parse_request_input` on JSON values |
| `Pipeline` | pipeline.dfy | `solve_territory_balancing` up to the solver |

Where the code and its design description differ, the model follows the
code. Three cases matter:

- The repair loop adds one bridge per non-largest component on *every*
  pass, and it may need several passes. It does not add exactly
  (#components − 1) edges overall.
- `get_functions` with an unsupported tag does not return a value. Its
  locals are unbound at the `return`, so the call raises.
- `__post_init__` calls `get_functions` again for the distance. The edge
  list comes from the caller.

## Model

| member | source | states |
|---|---|---|
| Magnitude.Fexp | cloudrun/territorybalance/app/territory_balancing.py:24-25 | fexp(0) = 0; for f ≠ 0, 10^fexp(f) ≤ abs(f) < 10^(fexp(f)+1) |
| Magnitude.FexpUnique | cloudrun/territorybalance/app/territory_balancing.py:24-25 | fexp(f) is the only integer e whose decade [10^e, 10^(e+1)) holds abs(f) |
| Magnitude.FexpDivPow10 | cloudrun/territorybalance/app/territory_balancing.py:141 | dividing a non-zero value by 10^k lowers its fexp by exactly k |
| Magnitude.FexpBelowOne | cloudrun/territorybalance/app/territory_balancing.py:136 | fexp(x) < 1 exactly when abs(x) < 10 |
| Magnitude.FexpAtLeast | cloudrun/territorybalance/app/territory_balancing.py:140 | for n > 0, fexp(x) ≥ n exactly when abs(x) ≥ 10^n |
| Magnitude.FexpOfRoot | cloudrun/territorybalance/app/territory_balancing.py:136 | for a standard deviation s ≥ 0 with s² = v, fexp(s) < 1 exactly when v < 100 |
| Grid.QuadbinDistance | cloudrun/territorybalance/app/territory_balancing.py:16-19 | the distance is non-negative, and zero exactly when the two tiles share x and y |
| Grid.QuadbinDistanceMetric | cloudrun/territorybalance/app/territory_balancing.py:16-19 | the distance is zero from a cell to itself, symmetric, and obeys the triangle inequality |
| Grid.GetFunctions | cloudrun/territorybalance/app/territory_balancing.py:50-65 | 'h3' and 'quadbin' give the library ring minus its centre, the matching distance and the index builder; any other tag fails with UnsupportedGridType |
| Grid.RingWithoutCentreSymmetric | cloudrun/territorybalance/app/territory_balancing.py:52-56 | removing the centre from a symmetric ring leaves it symmetric |
| Similarity.Weight | cloudrun/territorybalance/app/territory_balancing.py:34 | every weight lies in [1000, 2000], and equal scores give 2000 |
| Similarity.WeightMonotone | cloudrun/territorybalance/app/territory_balancing.py:34 | a larger score difference never gives a larger weight |
| Similarity.WeightSymmetric | cloudrun/territorybalance/app/territory_balancing.py:103 | the weight does not depend on the order of the two scores |
| Table.DenseRank | cloudrun/territorybalance/app/main.py:44 | each row keeps its geoid, demand and score, and its node is the number of distinct geoids strictly below its own |
| Table.DenseRankOrder | cloudrun/territorybalance/app/main.py:44 | geoid_a < geoid_b iff node_a < node_b, and equal geoids iff equal nodes |
| Table.DenseRankRange | cloudrun/territorybalance/app/main.py:44 | the node ids are exactly 0 … d−1 for d distinct geoids |
| Table.SortByNode | cloudrun/territorybalance/app/main.py:45 | the result is sorted by node and is a permutation of the input |
| Table.SortedRankedPositions | cloudrun/territorybalance/app/main.py:44-45 | with distinct geoids, after ranking and sorting the row at position k has node k |
| Table.SortedRankedGeoidsAscend | cloudrun/territorybalance/app/main.py:44-45 | with distinct geoids, after ranking and sorting the geoids ascend with the position |
| Table.ResortIsIdentity | cloudrun/territorybalance/app/territory_balancing.py:124-125 | sorting again a table whose position k holds node k changes nothing, so the reindexing keeps node = position |
| EdgeBuilder.GridMap | cloudrun/territorybalance/app/territory_balancing.py:29 | on a table without repeated geoids, the map holds exactly the table's geoids, and each maps to its own cell |
| EdgeBuilder.Candidates | cloudrun/territorybalance/app/territory_balancing.py:30-39 | every candidate edge has a weight in [1000, 2000] |
| EdgeBuilder.CandidatesSound | cloudrun/territorybalance/app/territory_balancing.py:30-39 | every candidate joins a table cell to a cell of its ring that is in the table and has a larger geoid, weighted by their scores |
| EdgeBuilder.CandidatesComplete | cloudrun/territorybalance/app/territory_balancing.py:30-39 | every ring cell in the table with a larger geoid than its table cell gives a candidate |
| EdgeBuilder.ComputeWeightedEdgesIndex | cloudrun/territorybalance/app/territory_balancing.py:27-40 | fails with DuplicateGeoid exactly when geoids repeat; otherwise the result is sorted by (i, j), is a permutation of the candidate pairs, and has every weight in [1000, 2000] |
| EdgeBuilder.BuiltEdgeSound | cloudrun/territorybalance/app/territory_balancing.py:30-38 | every built edge joins a table cell a to a table cell b in a's ring with a_id < b_id, weighted by their scores |
| EdgeBuilder.BuiltEdgeComplete | cloudrun/territorybalance/app/territory_balancing.py:30-38 | every table pair a, b with b in a's ring and a_id < b_id gives a built edge |
| EdgeBuilder.AdjacentCellsJoined | cloudrun/territorybalance/app/territory_balancing.py:36-38 | with a symmetric ring, two ring-adjacent table cells are joined by an edge from the smaller geoid to the larger |
| EdgeBuilder.BuiltEdgesAscend | cloudrun/territorybalance/app/territory_balancing.py:38 | when node order follows geoid order, every built edge has i < j: no self-loops |
| EdgeBuilder.BuiltEdgesStrictlySorted | cloudrun/territorybalance/app/territory_balancing.py:40 | with distinct node ids, the output is strictly sorted by (i, j), so no pair appears twice |
| Demand.SumScale | cloudrun/territorybalance/app/territory_balancing.py:137 | scaling every demand by c scales the sum by c |
| Demand.SumDivide | cloudrun/territorybalance/app/territory_balancing.py:141 | dividing every demand by p divides the sum by p |
| Demand.SampleVariance | cloudrun/territorybalance/app/territory_balancing.py:136 | the square of `std()` for two demands or more, never negative |
| Demand.Amplify | cloudrun/territorybalance/app/territory_balancing.py:136-137 | fewer than two demands fail (the spread is undefined); otherwise the demands are scaled by 1000 when spread and mean are small, and by 1 otherwise |
| Demand.AmplifyCondition | cloudrun/territorybalance/app/territory_balancing.py:136 | the amplification test equals the source's test fexp(std) < 1 and fexp(mean) < 1, and equals fexp(std) < 1 and abs(mean) < 10 |
| Demand.ReduceShift | cloudrun/territorybalance/app/territory_balancing.py:140-141 | the division exponent is positive exactly when fexp(sum) ≥ 9 |
| Demand.Reduce | cloudrun/territorybalance/app/territory_balancing.py:140-141 | the result is the demands divided by 10^shift; its sum has fexp ≤ 8, exactly 8 after a division, and without a division nothing changes |
| Demand.Normalise | cloudrun/territorybalance/app/territory_balancing.py:136-141 | succeeds exactly on two demands or more, keeps the length, and leaves a sum with fexp ≤ 8 |
| Demand.NormaliseCommonFactor | cloudrun/territorybalance/app/territory_balancing.py:136-141 | the normalised demands are the input times one positive factor, so ratios are kept |
| Demand.Trunc | cloudrun/territorybalance/app/territory_balancing.py:152 | int() truncates toward zero: abs(n) ≤ abs(x) < abs(n)+1, and the sign is kept |
| Demand.NodeWeights | cloudrun/territorybalance/app/territory_balancing.py:151-152 | one weight per demand, each the demand truncated toward zero |
| Graphs.AddEdges | cloudrun/territorybalance/app/territory_balancing.py:106 | the node set grows by exactly the edges' endpoints, the node list is unchanged when they are already nodes, node weights are kept, and a well-formed graph stays well-formed |
| Graphs.AddEdgesKeys | cloudrun/territorybalance/app/territory_balancing.py:154 | after adding a list of edges, the graph has an edge under a key exactly when it had one or the list uses that key |
| Graphs.AddEdgesKeepsWeight | cloudrun/territorybalance/app/territory_balancing.py:106 | an existing edge the list does not touch keeps its weight |
| Graphs.AddEdgesWeight | cloudrun/territorybalance/app/territory_balancing.py:154 | when no two listed edges share a key, each keeps its weight in the graph |
| Graphs.AddEdgesStoredBy | cloudrun/territorybalance/app/territory_balancing.py:106 | when each weight is a function of its key, so is the stored weight, whichever duplicate comes last |
| Graphs.ConnectedMeansOneComp | cloudrun/territorybalance/app/territory_balancing.py:68 | in a connected graph every node reaches every other |
| Graphs.OneCompMeansConnected | cloudrun/territorybalance/app/territory_balancing.py:68 | a non-empty graph in which every node reaches every other is connected |
| Graphs.CompsShrink | cloudrun/territorybalance/app/territory_balancing.py:106 | adding edges never adds components |
| Graphs.CompsShrinkStrict | cloudrun/territorybalance/app/territory_balancing.py:106 | adding an edge between two components lowers the component count |
| Components.ComponentList | cloudrun/territorybalance/app/territory_balancing.py:73 | the list holds every component exactly once, with no repeats |
| Components.SortedComponents | cloudrun/territorybalance/app/territory_balancing.py:73-74 | the same components, sorted by size from largest to smallest |
| Components.Ecc | cloudrun/territorybalance/app/territory_balancing.py:83 | the ball of that radius around the node is its whole component |
| Components.EccLeast | cloudrun/territorybalance/app/territory_balancing.py:83 | the eccentricity is the least radius whose ball holds the whole component |
| Components.Center | cloudrun/territorybalance/app/territory_balancing.py:83 | the centre is exactly the nodes of the component with least eccentricity |
| Components.CenterNonEmpty | cloudrun/territorybalance/app/territory_balancing.py:83 | a non-empty component has a centre, so random.choice does not fail |
| Repair.ClosestNode | cloudrun/territorybalance/app/territory_balancing.py:84-92 | the search keeps (0, 99999) when no distance is below the sentinel, and otherwise ends at the first candidate of least distance |
| Repair.Nearest | cloudrun/territorybalance/app/territory_balancing.py:84-101 | one search returns one of its candidates or the default node 0 |
| Repair.NearestIsNearest | cloudrun/territorybalance/app/territory_balancing.py:87-92 | when some candidate is within the sentinel, the search ends at a candidate and no candidate is nearer |
| Repair.NearestDefault | cloudrun/territorybalance/app/territory_balancing.py:84-85 | when no candidate is within the sentinel, the search returns the default node 0 |
| Repair.Outside | cloudrun/territorybalance/app/territory_balancing.py:87 | the list holds exactly the nodes outside the component |
| Repair.CentreOf | cloudrun/territorybalance/app/territory_balancing.py:83 | the chosen centre node lies in the component and has least eccentricity there |
| Repair.Bridge | cloudrun/territorybalance/app/territory_balancing.py:83-104 | the bridge joins two rows with the similarity weight; it starts outside the component or at node 0, and ends inside it or at node 0 |
| Repair.BridgeLeaves | cloudrun/territorybalance/app/territory_balancing.py:84-92 | when some node outside the component is within 99999 of the centre, the bridge starts outside the component, at a node nearest to the centre |
| Repair.BridgeReturns | cloudrun/territorybalance/app/territory_balancing.py:93-101 | when some node of the component is within 99999 of the bridge's start, the bridge ends inside the component, at a node nearest to that start |
| Repair.PassEdges | cloudrun/territorybalance/app/territory_balancing.py:78-104 | a pass over a non-empty graph lists exactly (#components − 1) new edges |
| Repair.Pass | cloudrun/territorybalance/app/territory_balancing.py:73-106 | a pass keeps node weights and every edge key, and adds no node but the default node 0 |
| Repair.PassEdgeBridges | cloudrun/territorybalance/app/territory_balancing.py:81-104 | under `Near`, the k-th new edge bridges the (k+1)-th component by size, which is no larger than the first, from outside it to inside it, with the similarity weight |
| Repair.BridgeCrosses | cloudrun/territorybalance/app/territory_balancing.py:81-104 | under `Near`, every bridge joins two nodes in different components that had no edge |
| Repair.PassEdgesCross | cloudrun/territorybalance/app/territory_balancing.py:104 | under `Near`, every edge a pass adds joins two components and carries the similarity weight |
| Repair.CrossingKeeps | cloudrun/territorybalance/app/territory_balancing.py:106 | adding the edges of a pass keeps every node, node weight and edge with its weight |
| Repair.CrossingMerges | cloudrun/territorybalance/app/territory_balancing.py:106 | adding at least one crossing edge lowers the component count |
| Repair.PassRepairs | cloudrun/territorybalance/app/territory_balancing.py:73-106 | under `Near`, a pass over a disconnected graph keeps all nodes and edges, adds only edges that cross components, and lowers the component count |
| Repair.RepairedTrans | cloudrun/territorybalance/app/territory_balancing.py:68-106 | two rounds of repair make one repair of the original graph |
| Repair.ConnectComponents | cloudrun/territorybalance/app/territory_balancing.py:67-108 | fails exactly on an empty graph; otherwise returns a connected graph that keeps every node, node weight and edge and adds only crossing edges, within fewer passes than the initial component count; a connected graph comes back unchanged |
| Assembly.Nodes | cloudrun/territorybalance/app/territory_balancing.py:149-152 | the nodes are 0 … n−1, node k weighs w[k], and there are no edges |
| Assembly.Assemble | cloudrun/territorybalance/app/territory_balancing.py:149-154 | node k weighs w[k], and the nodes are the rows plus the edges' endpoints |
| Assembly.AssembleNodes | cloudrun/territorybalance/app/territory_balancing.py:150-154 | when every edge joins two rows, the nodes are exactly the rows, in order |
| Assembly.AssembleKeys | cloudrun/territorybalance/app/territory_balancing.py:154 | the graph has an edge exactly where the list has one |
| Assembly.AssembleWeights | cloudrun/territorybalance/app/territory_balancing.py:154 | when no pair is listed twice, every listed edge keeps its weight |
| Request.Member | cloudrun/territorybalance/app/main.py:21-22 | indexing by a string succeeds exactly on an object holding the key; otherwise it raises a key error or a type error |
| Request.Item | cloudrun/territorybalance/app/main.py:22-30 | an int index reads a list item or a one-character string, and raises out of range, on objects, and on other values |
| Request.ParseRequestInput | cloudrun/territorybalance/app/main.py:19-33 | a non-object fails, a missing "calls" fails with KeyMissing, and an empty calls list fails at index 0 |
| Request.ParseListCall | cloudrun/territorybalance/app/main.py:22-31 | a list-shaped first call decodes exactly when it has six positions, to positions 0 … 5; a shorter one fails at its length |
| Request.ParseReadsFirstCallOnly | cloudrun/territorybalance/app/main.py:22 | two requests with the same first call decode alike |
| Request.ParseEncode | cloudrun/territorybalance/app/main.py:19-33 | decoding a request that holds an input at positions 0 … 5 of its first call gives that input back |
| Pipeline.RankedDistinct | cloudrun/territorybalance/app/main.py:44-45 | the ranked table repeats a geoid exactly when the rows do |
| Pipeline.RankedFromRows | cloudrun/territorybalance/app/main.py:44-45 | every cell of the ranked table carries some row's geoid, demand and score |
| Pipeline.BuiltEdgesInRange | cloudrun/territorybalance/app/territory_balancing.py:30-38 | on a table in node order, every built edge joins two positions, the lower first |
| Pipeline.AssembledSimilar | cloudrun/territorybalance/app/territory_balancing.py:149-154 | a graph assembled from such edges has nodes 0 … n−1, and its edges go between rows, lower first, with the similarity weight |
| Pipeline.RepairReady | cloudrun/territorybalance/app/territory_balancing.py:88 | every node of the assembled graph names a row of the frame, so each df.loc lookup succeeds, and every two of its rows are closer than the sentinel |
| Pipeline.NeighboursJoined | cloudrun/territorybalance/app/territory_balancing.py:52-56 | with mutual library rings, any two ring-adjacent cells of a constructed problem are distinct and joined by an edge, whichever geoid is larger |
| Pipeline.AssembleAndConnect | cloudrun/territorybalance/app/territory_balancing.py:148-163 | the assembled and repaired graph is connected, has nodes 0 … n−1 weighted by the truncated demands, keeps every ring pair, and has only similarity edges |
| Pipeline.BuildWith | cloudrun/territorybalance/app/main.py:44-59 | repeated geoids fail first, then a failed `int(nparts)`, then fewer than two rows; otherwise the construction succeeds with the promised problem |
| Pipeline.BuildProblem | cloudrun/territorybalance/app/main.py:44-59 | succeeds exactly for 'h3' or 'quadbin' with distinct geoids, an integer nparts and two rows or more; the errors come in the order grid type, repeated geoid, `int(nparts)`, undefined spread; on success the table is in node order, and the graph is connected and joins every ring pair |
| RepairStall.SelfLoopBridge | cloudrun/territorybalance/app/territory_balancing.py:84-101 | on two cells 100000 apart, every bridge is the self-loop (0, 0) |
| RepairStall.SelfLoopPass | cloudrun/territorybalance/app/territory_balancing.py:78-104 | on two cells 100000 apart, a pass lists exactly one edge, the self-loop (0, 0) |
| RepairStall.PassStalls | cloudrun/territorybalance/app/territory_balancing.py:68-106 | after such a pass the two cells are still apart, with the self-loop as the only edge |
| RepairStall.Passes | cloudrun/territorybalance/app/territory_balancing.py:68-106 | no number of passes connects the two cells, and every pass after the first gives the same graph |
| RepairStall.LoopNeverEnds | cloudrun/territorybalance/app/territory_balancing.py:68-106 | the loop never ends on two cells 100000 apart: the graph is never connected and the passes reach a fixed point |
| RepairStall.FirstCandidate | cloudrun/territorybalance/app/territory_balancing.py:84-101 | the intended search, started from the first candidate, ends at the first candidate of least distance |
| RepairStall.FirstCandidateAgrees | cloudrun/territorybalance/app/territory_balancing.py:84-101 | when some candidate is within 99999, the search as written and the intended search return the same node and distance |
| RepairStall.NearSearchesAgree | cloudrun/territorybalance/app/territory_balancing.py:84-101 | under `Near`, every search over graph nodes gives the same result as written and as intended |

## Findings

| source | as written | input that shows it | evidently intended | confidence | as-written member | corrected member |
|---|---|---|---|---|---|---|
| cloudrun/territorybalance/app/territory_balancing.py:84-101 | both nearest-node searches start from node 0 at distance 99999 and keep node 0 when no candidate is nearer | two cells, nodes 0 and 1, whose grid distance is 100000: every pass adds only the self-loop (0, 0), so `while not nx.is_connected(G)` never ends | each search ends at a candidate of least distance, so every bridge joins two components | not executed | RepairStall.LoopNeverEnds | RepairStall.FirstCandidate |

The as-written searches are `Repair.ClosestNode` and `Repair.Nearest`.
`RepairStall.SelfLoopBridge`, `RepairStall.SelfLoopPass` and
`RepairStall.PassStalls` take the counterexample step by step.
`RepairStall.FirstCandidate` starts from its first candidate, as a search
from an unbounded "shortest distance" would, and it always ends at a
first least candidate. `RepairStall.FirstCandidateAgrees` and
`RepairStall.NearSearchesAgree` show that the two searches agree
wherever some candidate is within 99999. `Near` guarantees this for every
search of the repair. So `Repair.ConnectComponents`, which the rest of
the model uses and which requires `Near`, proves the intended behaviour:
a connected graph within fewer passes than the initial component count.

## Left out

- `solve`, with its METIS and KaHIP branches, is not modelled. Both are
  foreign solvers, and KaHIP writes files and spawns processes.
- The Flask route, JSON output, the mapping of errors to HTTP 400,
  logging, timing and verbose printing are I/O and are not modelled.
- The DataFrame is built from the decoded input columns. The model
  starts from a sequence of rows instead, and the `Json` values of a
  decoded input are not turned into rows.
- `int(input['nparts'])` itself is not modelled: which JSON values Python
  converts, and how, is left out. Its outcome is the parameter `nparts`
  of `Pipeline.BuildProblem`, and a failure raises at the point where
  main.py:57 evaluates it. The value is read only by `solve`.
- Geoids are modelled as integers. Quadbin ids are integers. h3 ids are
  hexadecimal strings, and two of the same length in lower case compare
  as their integer values do. The case and the length of the strings are
  not modelled.
- `compute_weighted_edges_geom` and `points_distance` are not modelled.
  They sit on a geometry path that is commented out in `get_functions`.
- The h3 and quadbin library functions are parameters (`Libraries`).
  Ring symmetry is an assumption (`SymmetricRing`), and it is used only
  where a lemma says so.
- Float rounding is not modelled. Demands and scores are exact reals.
- `np.exp` is a parameter constrained by `ValidExp`.
- The square root inside `std` is not computed. The test
  `fexp(std) < 1` is stated as "sample variance < 100", and
  `Demand.AmplifyCondition` proves the two tests agree.
- Python set iteration order is modelled as ascending order. This
  affects the rings and the component node sets. It changes only which
  of two equally near nodes a search keeps.
- `sort_values` uses an unstable quicksort by default. The model sorts
  stably. Ties cannot occur among distinct geoids or distinct (i, j)
  keys, so the order of tied rows is left unmodelled.
- `random.seed(0)` and `random.choice` are not modelled as such. They
  become the parameter `choice`, which picks some member of a non-empty
  set (`Picks`).
- `print("Something has failed")` after the repair is not modelled.
  Under its requirement, `Repair.ConnectComponents` proves the graph is
  connected on return, so the message never prints.
- Repair.ConnectComponents: requires that every pair of table geoids is
  less than 99999 apart (`Near`). Without that, a search can fall back to
  the default node 0, and the loop may never stop. The module
  `RepairStall` shows this on two cells (see "Findings"). Without `Near`
  the model promises nothing about the repair.
- Pipeline.AssembleAndConnect: requires the same bound, as `WithinReach`
  on its rows, because it always runs the repair.
- Pipeline.BuildWith: requires `WithinReach` only when the rows reach the
  repair, that is, with distinct geoids, an integer `nparts` and two rows
  or more. Its errors are promised for all distances.
- Pipeline.BuildProblem: requires `WithinReach`, for the grid distance
  of a supported tag, under the same condition.
- Pipeline.BuildProblem: the tolerance and the grid index column are
  only stored by this part of the code, so they are not parameters.
- The graph-level attributes `node_weight_attr` and `edge_weight_attr`
  are constant labels and are not modelled.
