# A* router of the school-route map, in Dafny

This project models the routing core of the school-route map server, and two string helpers of its school seeding script.

The router is the class `AStarPathfinder`:
- **Loading.** It loads the road network once. It stores every node record under its id. For every directed edge record it appends a forward adjacency entry at the edge's source and a backward entry at its target. Both entries remember the edge's stored direction and geometry.
- **Snapping.** It snaps a query coordinate to the closest node that has adjacency entries.
- **Search.** It runs A* with an open list that is re-sorted before every pop, and with score maps `g`, `f` and `cameFrom`.
- **Reconstruction.** When the end node is popped, it walks the parent records back. Each edge's polyline is oriented in the direction of travel and its points are turned from `[lon, lat]` into `[lat, lon]`. The segments are concatenated from start to end, and distance and duration are derived. A hop travelled backwards over an edge without a polyline gets its two end positions in travel order; astar.js reverses them once too often there (see Findings), and the class builds the corrected segment.

The seeding helpers are two pure functions:
- the classification of a school by its name (SMK, SMA, MA or SWASTA);
- the rendering of a polygon ring as a WKT coordinate list with the axes swapped.

Layout:
- `graph.dfy`: nodes, edges, adjacency entries, loading as functions, and adjacency symmetry.
- `nearest.dfy`: the nearest-connected-node scan.
- `openset.dfy`: the open list, with its stable sort, the pop and the update-in-place.
- `walks.dfy`: walks through the adjacency lists.
- `sums.dfy`: the score sum used to bound the search.
- `search.dfy`: relaxation, parent chains, the search invariant and termination.
- `route.dfy`: segments and stitching.
- `astar.dfy`: the class and its methods.
- `schools.dfy`: the seeding helpers.

Modelling choices:
- **Distance.** The great-circle distance is a parameter of the router: a function from two coordinates to a non-negative integer number of metres. Edge weights are non-negative integers.
- **Failures.** Reading the coordinates of a node that is not loaded throws in the JavaScript router. The model reports this as the outcome `Failed`.
- **Node order.** `for...in` over the node table visits integer keys in ascending order. The class keeps that order in the field `order`.
- **Score sums.** Sums of scores over nodes are taken over `order`.

## Model

| member | source | states |
|---|---|---|
| AStar.AStarPathfinder.constructor | server/src/astar.js:7-12 | the router starts with no nodes, no adjacency lists and `isLoaded` false |
| AStar.AStarPathfinder.LoadGraph | server/src/astar.js:14-62 | once loaded, a second call changes nothing. Otherwise every node record is stored under its id, every edge's two entries are appended in order, the adjacency stays symmetric and oriented, and `isLoaded` becomes true |
| AStar.AStarPathfinder.StoreNodes | server/src/astar.js:21-28 | the node table becomes `PutNodes` of the records: each id holds its last record (`PutNodesLastWins`); the id order stays ascending and lists exactly the stored ids |
| AStar.AStarPathfinder.StoreEdges | server/src/astar.js:31-56 | the adjacency becomes the old one with every edge's entries appended in record order, and symmetry is kept |
| AStar.AStarPathfinder.StoreEdge | server/src/astar.js:32-55 | one edge appends its forward entry at the source and its backward entry at the target, creating a missing list empty first, and the adjacency stays symmetric and oriented |
| Graph.AddEdge | server/src/astar.js:32-55 | exactly two entries are added: the forward one at the source, aiming at the target, and the backward one at the target, aiming at the source. Both keep the edge's weight, geometry and stored direction, and every other list is unchanged |
| Graph.Forward | server/src/astar.js:37-43 | the forward entry `{target, weight, originalSource, originalTarget, geometry}`; `AddEdge` places it at the source and `TraversalDirection` states it is never a reverse traversal |
| Graph.Backward | server/src/astar.js:49-55 | the backward entry, aiming at the source with the stored direction kept; `AddEdge` places it at the target and `TraversalDirection` states when it is a reverse traversal |
| Graph.AddEdges | server/src/astar.js:32-56 | loading the edge records in order; the lists kept are the old ones plus one for every edge endpoint. Symmetry, prefixes and the entries of each edge are `AddEdgesSymmetric`, `AddEdgesKeepsEntries` and `LoadedEdgeEndpoints` |
| Graph.AddEdgeSymmetric | server/src/astar.js:33-55 | after one edge, every entry still has its mirror entry at the node it leads to, and runs along its stored edge |
| Graph.AddEdgesSymmetric | server/src/astar.js:32-56 | loading any sequence of edges keeps the adjacency symmetric and oriented |
| Graph.AddEdgesKeepsEntries | server/src/astar.js:37-49 | loading only appends: every earlier list is a prefix of the later one |
| Graph.LoadedEdgeEndpoints | server/src/astar.js:32-56 | after loading, each edge's forward entry is in its source's list and its backward entry is in its target's |
| Graph.PutNodes | server/src/astar.js:21-28 | the node table's keys are the old keys plus the ids of the records; `PutNodesLastWins` states what each key holds |
| Graph.PutNodesLastWins | server/src/astar.js:20-27 | every key holds the last record with that id, and a key no record has keeps its old entry; with the key set this fixes the whole table |
| Graph.PutNodesLast | server/src/astar.js:20-27 | a record that no later record shares its id with is the one stored under that id |
| Graph.PutNodesKeeps | server/src/astar.js:20-27 | an id that no record has keeps its old entry |
| Graph.PutNodeIndexed | server/src/astar.js:21-28 | storing one node record keeps every node under its own id and the id order ascending and complete |
| Graph.InsertSorted | server/src/astar.js:95 | adding an id keeps the enumeration order ascending, with exactly the old ids plus the new one |
| AStar.AStarPathfinder.FindNearestNode | server/src/astar.js:91-119 | the result is -1 exactly when no node has a non-empty list. Otherwise it is a node with a non-empty list, no farther than any other such node, and the smallest id among those at equal distance |
| AStar.AStarPathfinder.Summarise | server/src/astar.js:95-118 | the scan in ascending id order has the outright properties stated for `FindNearestNode` |
| Nearest.Scan | server/src/astar.js:95-109 | the scan returns -1 or a scanned node whose adjacency list is non-empty |
| Nearest.ScanNotFound | server/src/astar.js:98-118 | the scan returns -1 exactly when no scanned node is connected |
| Nearest.ScanClosest | server/src/astar.js:102-108 | the node kept is no farther than any connected scanned node, and on a tie it is the one scanned first, because the comparison is strict |
| Nearest.ScanTieSmallestId | server/src/astar.js:95-105 | with ids scanned in ascending order, a tie goes to the smallest id |
| AStar.AStarPathfinder.ResolveEndpoint | server/src/astar.js:124-132 | a truthy explicit id is used as given. Id 0 or no id, with both coordinates present, gives the snapped node, which is -1 exactly when no node is connected. Otherwise the explicit value passes through |
| AStar.AStarPathfinder.FindPath | server/src/astar.js:121-204 | no route if either endpoint resolves to -1; otherwise the outcome satisfies the search's guarantees for the resolved endpoints |
| AStar.AStarPathfinder.Search | server/src/astar.js:140-204 | a missing or unloaded endpoint fails. Start equal to end gives an empty path of length 0. A route is returned only for the end node, with a distance realised by a walk and a path stitched from a walk no heavier than that distance. An exhausted open list means no walk leads from start to end. A failure means a walk from the start reaches an unloaded node |
| AStar.AStarPathfinder.Iterate | server/src/astar.js:155-201 | one pop: either a final answer satisfying the search guarantees, or a state that keeps the loop invariant with a strictly smaller termination measure |
| AStar.AStarPathfinder.Expand | server/src/astar.js:164-201 | relaxing all entries of the popped node keeps the invariant, scores every neighbour and lowers the measure, or fails on an unloaded neighbour |
| AStar.AStarPathfinder.ExpandStep | server/src/astar.js:166-200 | one relaxation keeps the invariant, scores the neighbour and never unscores a node, or fails on an unloaded neighbour |
| AStar.AStarPathfinder.RelaxEntry | server/src/astar.js:167-199 | the imperative relaxation, with its push or in-place update of the open list, computes exactly `Relax` |
| AStar.AStarPathfinder.EscapeFails | server/src/astar.js:84-87 | a walk into an unloaded node justifies the thrown error |
| AStar.AStarPathfinder.Finish | server/src/astar.js:160-162 | popping the end node returns a route whose distance is the end's score and which meets the search guarantees |
| AStar.AStarPathfinder.ReconstructPath | server/src/astar.js:206-260 | the path is the parent chain's segments concatenated start to end. The distance is the given total, and the duration times 500 equals that total |
| AStar.AStarPathfinder.CollectSegments | server/src/astar.js:214-243 | walking the parent records back from the end yields exactly the chain's hops, each with its node records, and one segment per hop in travel order |
| AStar.AStarPathfinder.HopSegment | server/src/astar.js:218-239 | one hop's points are exactly the corrected segment: the polyline oriented in travel order, or the two end positions in travel order |
| Search.Relax | server/src/astar.js:170-199 | without improvement nothing changes. With improvement it fails exactly when the neighbour or the end is unloaded. Otherwise it sets `g` and `f` of the neighbour, leaving every other score, and the parent `{from: current, geometry, isReverse: current != originalSource}`, and puts the neighbour on the open list once: an existing entry is overwritten at its index, a new one is appended last, and every other position keeps its entry. Scores never rise and other parents stay |
| Search.Heuristic | server/src/astar.js:83-88 | the distance between two loaded nodes, `None` where the JavaScript router reads a missing node; `Relax` fails exactly on `None` and `EscapeFails` justifies that failure |
| Search.ParentOf | server/src/astar.js:183-189 | the parent record `{from, geometry, isReverse}`. `TraversalDirection` states when `isReverse` holds |
| Search.TraversalDirection | server/src/astar.js:183-189 | following an edge from its stored source is never a reverse traversal; following it from its target is one exactly when the edge is not a self-loop; both keep the edge's geometry |
| Search.Chain | server/src/astar.js:214-243 | the hops of the parent chain, start to end: empty exactly for a root, ending at the requested node, starting at a root, each hop a parent record and each hop leaving from where the previous one arrived |
| Search.RelaxNeverReparentsStart | server/src/astar.js:175-185 | with non-negative weights the start keeps score 0 and never gets a parent record |
| Search.ChainIsWalk | server/src/astar.js:183-191 | a parent chain is a walk from the start whose weight is at most the recorded score, and its hops are exactly the chain's |
| Search.ChainHasEnds | server/src/astar.js:220-225 | every hop of a chain has the node records its fallback segment reads |
| Search.ImproveKeepsWalked | server/src/astar.js:171-191 | every score stays the weight of a walk from the start |
| Search.ImproveKeepsRanked | server/src/astar.js:185-191 | along every parent record, the pair of score and time of last improvement strictly decreases, so reconstruction terminates |
| Search.ImproveKeepsLinked | server/src/astar.js:183-191 | every parent record comes from an adjacency entry of its `from` node, and the score covers the parent's score plus that entry's weight |
| Search.ImproveKeepsWitnessed | server/src/astar.js:185-191 | an improvement keeps all of the bookkeeping above |
| Search.RelaxKeepsInv | server/src/astar.js:170-199 | a relaxation keeps the search invariant |
| Search.RelaxKeepsFrontier | server/src/astar.js:175-199 | a relaxation keeps every expanded node's neighbours scored, scores the neighbour, and keeps the end node on the open list once scored |
| Search.RelaxPreserves | server/src/astar.js:166-200 | one relaxation keeps all of the inner loop's invariants and the termination bound |
| Search.PopKeepsInv | server/src/astar.js:156-158 | the pop keeps the invariant. Only the popped node is left unexpanded, the end node stays on the list unless popped, and the measure drops by one |
| Search.PopShrinks | server/src/astar.js:156-157 | popping removes exactly the head's id and keeps the rest distinct |
| Search.RelaxMeasure | server/src/astar.js:175-199 | a relaxation either scores a new node or does not raise the potential, so the loop terminates |
| Search.ImprovedMeasure | server/src/astar.js:175-199 | an improvement that re-scores a node lowers the score sum and adds at most one open entry; one that scores a node for the first time removes it from the nodes still to score |
| Search.ExhaustedMeansUnreachable | server/src/astar.js:155-203 | when the open list empties with the end unscored, no walk leads from start to end |
| Search.FoundWalks | server/src/astar.js:160-161 | a scored node has a walk from the start of exactly its score, and its parent chain is a walk no heavier |
| Search.TargetsStayScored | server/src/astar.js:166-191 | neighbours scored earlier in the loop stay scored |
| Search.FinishExpansion | server/src/astar.js:164-201 | once every entry of the popped node leads to a scored node, that node is fully expanded |
| Sums.ScoreSumLowered | server/src/astar.js:175-191 | lowering a score never raises the total, and lowers it when the node is listed |
| Walks.ExtendWalk | server/src/astar.js:171-191 | appending an adjacency entry extends a walk and adds the entry's weight |
| Walks.ClosedHoldsWalkEnds | server/src/astar.js:155-203 | no walk leaves a set of nodes closed under the adjacency |
| OpenSet.Insert | server/src/astar.js:156 | inserting one entry into the sorted list keeps its elements |
| OpenSet.InsertKeepsOrder | server/src/astar.js:156 | insertion keeps the list sorted by `f` |
| OpenSet.InsertKeepsRuns | server/src/astar.js:156 | for every key, the inserted entry goes ahead of the entries with its `f`, and those keep their relative order |
| OpenSet.SortByFStable | server/src/astar.js:156 | the sort is stable: for every key, the entries with that `f` come out in their order on the open list, so ties are popped in insertion order |
| OpenSet.InsertKeepsDistinct | server/src/astar.js:156 | insertion of a new id keeps the ids distinct |
| OpenSet.SortByF | server/src/astar.js:156 | sorting keeps exactly the same entries |
| OpenSet.SortByFSorted | server/src/astar.js:156 | the sorted list is ordered by `f` and keeps ids distinct |
| OpenSet.FindIndex | server/src/astar.js:194-198 | -1 exactly when no entry has the id; otherwise the first entry with it |
| OpenSet.Upsert | server/src/astar.js:194-199 | an existing entry for the id is overwritten at its own index, the first one holding the id, and a new one is appended last. Every other index keeps its entry, the ids become the old ids plus the neighbour, the ids stay distinct, and the length grows only for a new id |
| OpenSet.PopIsMinimal | server/src/astar.js:156-157 | the popped entry has the least `f` on the list, and the rest keeps every other entry |
| OpenSet.MultisetIds | server/src/astar.js:156 | lists with the same entries have the same ids |
| Route.SegmentOrientation | server/src/astar.js:231-239 | each point of a polyline segment is the swapped stored point, taken from the far end exactly when the edge was traversed backwards |
| Route.SegmentAsWritten | server/src/astar.js:218-239 | one hop's points as astar.js builds them, as many as the stored polyline has or two for the fallback. `AsWrittenAgreesOnPolylines` and `AsWrittenFallbackBackwards` state where it differs from `Segment` |
| Route.Segment | server/src/astar.js:218-239 | one hop's points in travel order, as many as the stored polyline has or two for the fallback. `SegmentOrientation`, `OppositeTraversalReverses` and `FallbackRunsForward` state its orientation |
| Route.OppositeTraversalReverses | server/src/astar.js:233-239 | travelling an edge the other way yields the same points in the opposite order |
| Route.SwapTwiceRestores | server/src/astar.js:239 | the axis swap is its own inverse |
| Route.SwapAll | server/src/astar.js:239 | `[lon, lat]` to `[lat, lon]` for every point; `SwapTwiceRestores` and `SegmentOrientation` state it |
| Route.Reverse | server/src/astar.js:234-236 | `points.reverse()`; `ReverseTwiceRestores` and `OppositeTraversalReverses` state it |
| Route.ReverseTwiceRestores | server/src/astar.js:234-236 | reversing a polyline twice restores it |
| Route.FallbackRunsForward | server/src/astar.js:220-225 | without a polyline, the segment runs from the node travelled from to the node travelled to |
| Route.AsWrittenAgreesOnPolylines | server/src/astar.js:218-239 | the code as written and the corrected segment agree except for a backward hop without polyline |
| Route.AsWrittenFallbackBackwards | server/src/astar.js:220-236 | as written, a backward hop without polyline starts at the node travelled to |
| Route.AsWrittenFallbackCounterexample | server/src/astar.js:220-236 | a concrete edge 1→2 without polyline, travelled from 2 to 1, where the two segments differ |
| Route.StitchAppend | server/src/astar.js:247-249 | stitching is concatenation, with no point dropped at the join |
| Route.Stitch | server/src/astar.js:245-249 | the segments of a chain concatenated from start to end. `StitchAppend` and `StitchLength` state that it is plain concatenation with no join point merged |
| Route.StitchLength | server/src/astar.js:245-249 | join points are not merged: the path has as many points as the hops' geometries together |
| Schools.GetSchoolType | server/prisma/seed_schools.js:7-14 | the type is one of exactly SMK, SMA, MA and SWASTA |
| Schools.SchoolTypeRules | server/prisma/seed_schools.js:8-13 | SMK exactly when the upper-cased name contains "SMK", even with "SMA". SMA when it contains "SMA" but not "SMK". MA when it contains "MA " or "MAN " and neither earlier code. SWASTA otherwise |
| Schools.SchoolTypeIgnoresCase | server/prisma/seed_schools.js:8 | a name and its upper-cased form get the same type |
| Schools.TrailingMaAddsNothing | server/prisma/seed_schools.js:11-12 | for every text, appending a bare "MA" adds no match for "MA " or for "MAN ": a match would have to start in that "MA", where the needle does not fit |
| Schools.TrailingMaNoMaCode | server/prisma/seed_schools.js:11-12 | a text with a bare "MA" at its end contains "MA " or "MAN " exactly when the text before it does |
| Schools.BareTrailingMa | server/prisma/seed_schools.js:11-13 | example: "Pondok MA" is SWASTA |
| Schools.SpacedMa | server/prisma/seed_schools.js:9-11 | example: "MA Bontang", which holds "MA " and neither "SMK" nor "SMA", is MA |
| Schools.LowerCaseSma | server/prisma/seed_schools.js:8-10 | example: the lower-case "sma negeri 1", which holds no "smk", is SMA |
| Schools.UpperIdempotent | server/prisma/seed_schools.js:8 | upper-casing twice equals upper-casing once |
| Schools.ToUpper | server/prisma/seed_schools.js:8 | `toUpperCase` on ASCII letters; `UpperIdempotent` and `SchoolTypeIgnoresCase` state it |
| Schools.ContainsAt | server/prisma/seed_schools.js:9-12 | `includes` holds exactly when the text occurs at some offset |
| Schools.Contains | server/prisma/seed_schools.js:9-12 | `includes`; `ContainsAt` states that it holds exactly when the needle occurs at some offset |
| Schools.SkipPrefix | server/prisma/seed_schools.js:9-12 | a prefix lacking the needle's first character cannot hold a match |
| Schools.TooShort | server/prisma/seed_schools.js:9-12 | a text shorter than the needle does not contain it |
| Schools.CoordinatesToWkt | server/prisma/seed_schools.js:18-20 | an empty ring gives the empty string |
| Schools.WktPoint | server/prisma/seed_schools.js:19 | one pair written second component first, separated by a space; `WktLayout` recovers both numbers from the text |
| Schools.WktLayout | server/prisma/seed_schools.js:18-20 | a ring of n ≥ 1 pairs gives exactly n−1 commas. Splitting at commas, then at the space, gives back every pair in ring order as second component then first |
| Schools.JoinSeparators | server/prisma/seed_schools.js:19 | joining n ≥ 1 separator-free parts puts exactly n−1 separators |
| Schools.Join | server/prisma/seed_schools.js:19 | `join`; `JoinSeparators` and `SplitJoin` state its separator count and that splitting undoes it |
| Schools.SplitJoin | server/prisma/seed_schools.js:19 | splitting undoes joining when no part holds the separator |
| Schools.SplitAfterPiece | server/prisma/seed_schools.js:19 | a separator-free piece followed by the separator splits off as the first piece |
| Schools.SplitPiece | server/prisma/seed_schools.js:19 | a separator-free text splits into itself |
| Schools.Split | server/prisma/seed_schools.js:19 | splitting always yields at least one piece |
| Schools.CountAppend | server/prisma/seed_schools.js:19 | counting is additive over concatenation |
| Schools.CountAbsent | server/prisma/seed_schools.js:19 | a text without the character counts zero of it |

## Left out

- The database reads in `loadGraph` (server/src/astar.js:20, 31): node and edge records are parameters. `disconnect` and all console logging are left out as well.
- `calculateHaversine` (server/src/astar.js:65-81) is floating-point trigonometry. Distance is an abstract function returning non-negative whole metres, and edge weights are non-negative integers.
- AStar.AStarPathfinder.ReconstructPath: `Math.round` of the total is the identity on the integer weights modelled here, so fractional totals are not modelled.
- AStar.AStarPathfinder.ReconstructPath: a hop travelled against an edge whose geometry is not an array gets the corrected segment (`Route.Segment`, from the node travelled from to the node travelled to), not the one astar.js:234-236 builds by reversing the fallback again; the as-written segment is `Route.SegmentAsWritten` (see Findings). The path contracts of `HopSegment`, `ReconstructPath`, `Finish`, `Search` and `FindPath` are therefore about the corrected path; on every other hop the two agree (`Route.AsWrittenAgreesOnPolylines`).
- NaN or infinite coordinates and weights are not modelled. Neither are string node ids, which a request could pass as explicit ids.
- Schools.GetSchoolType: upper-casing covers the ASCII letters only. Full Unicode case mapping is not modelled.
- Schools.CoordinatesToWkt: JavaScript's number-to-string conversion is the parameter `show`. The layout lemma assumes it writes no comma and no space, which holds for JavaScript numbers.
- `main` of the seeding script (file reading, SQL inserts) is not part of this model.
- AStar.AStarPathfinder.Search: optimality of the returned route is not claimed. The heuristic is not tied to the weights, so astar.js makes no such promise. The returned distance is the weight of some walk, and the drawn path is a walk no heavier.
- The deep copy at server/src/astar.js:231 has no counterpart. Values are immutable in the model, so the stored geometry cannot be mutated by reconstruction.
- `Array.prototype.sort` is modelled as an insertion sort by `f`. It is proved stable (`OpenSet.SortByFStable`), as `Array.prototype.sort` is since ECMAScript 2019; the particular algorithm an engine uses is not modelled.

## Findings

| source | as written | input that shows it | evidently intended | confidence | as-written member | corrected member |
|---|---|---|---|---|---|---|
| server/src/astar.js:220-236 | for an edge without an array geometry, the fallback `[from, current]` is already in travel order, and is then reversed again when `isReverse` holds | an edge 1→2 without polyline, travelled from node 2 to node 1: the segment starts at node 1's position, the node travelled to (`Route.AsWrittenFallbackCounterexample`, and `Route.AsWrittenFallbackBackwards` for every such hop) | the fallback segment runs from the node travelled from to the node travelled to, whatever the edge's stored direction, which `Route.FallbackRunsForward` proves of the corrected segment | not executed | Route.SegmentAsWritten | Route.Segment |
