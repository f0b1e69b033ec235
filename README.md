# albion core, modelled in Dafny

albion is a QGIS plugin for building 3D geological models from drill holes.
Its core, modelled here:

- **Domain classifier (`cgal.cpp`, module `Cgal`).** The classifier marks
  the inside of a polygon in a constrained Delaunay triangulation.
  - Faces get nesting levels through breadth-first floods from the infinite
    face.
  - A flood never crosses a constrained edge. Such edges go to a border list.
  - Draining the border list starts a new flood one level deeper.
  - The faces with an odd level are inside.
  - The triangulation is an input: an arena of faces with neighbour indices
    and constrained flags. The levels are an `array<int>` written in place.
- **Path extraction and cell volumes (`old/graph.py`, module `PathGraph`).**
  - `_find_path` / `extract_paths` walk a generatrice graph between open
    starts, consuming adjacency entries as they go.
  - `find_4_cycles` finds 4-cycles.
  - `to_volume` numbers the triangles of each cell.
- **Mesh bookkeeping (`elementary_volume/__init__.py`, module
  `ElementaryVolume`):**
  - OBJ and legacy-VTK numbering of deduplicated coordinates;
  - segment membership and `linemerge`;
  - `offset_coords` and `pair_of_non_coplanar_neighbors`;
  - open-edge cancellation;
  - the split of a triangle set into connected components.
- **Connectivity lists (`graph_operations.py`, module `GraphOperations`).**
  The section graph's connectivity lists, polygon extremities, the left/right
  "pants" branches with their ratio and offset, and the existing-edge test.
  The QGIS layer queries become filters over a sequence of edges.
- **Enable/disable helper (`action_state_helper.py`, module `ActionState`).**
  The helper of the plugin's actions, with its class-level registry.
- **Polygon export button (`buttons/export_polygon_button.py`, module
  `ExportPolygon`).** Its precondition check, and the order in which it writes
  each polygon's vertices.
- **Layer helpers (`qgis_hal.py`, module `QgisHal`).** Field-name fixup and
  the building of filter expressions.
- **CSV loaders (`load.py`, module `Load`).** The dispatch on the file name,
  the splitting of rows, and the 1000-row chunks.
- **Table set-up (`project.py`, module `Project`).** The field lists
  `add_table` derives from `FIELDS_DEFINITION`, and `create`'s loop over
  `TABLES`.

`Sequences` and `Wrappers` hold shared helpers: Python list and string idioms,
and `Option`/`Result`.

Modelling choices:

- Python 2 dictionaries and sets iterate in hash order, which the source
  does not control. The model fixes one order: the order in which keys were
  first inserted, or, in `find_4_cycles`, an arbitrary choice at each step.
  Results that depend on that order are stated for every order where the
  order matters (see "Left out").
- `GraphConnection` has no `__eq__`, so `list.index` over lists of
  connections compares the objects by identity. Every connection object
  belongs to exactly one list, so the model tells two equal-looking
  non-empty lists apart by their position.
- Coordinates are opaque keys compared for equality.
- Floating-point quantities are exact reals, passed in as parameters.

## Model

| member | source | states |
|---|---|---|
| Cgal.InDomain | cgal.cpp:22-24 | A level is in the domain iff it is non-negative and odd. C++ `%` truncates, so the unclassified level -1 is never in the domain. |
| Cgal.CppRem | cgal.cpp:23 | C++ `%`: `a - b·q` with `q` the quotient truncated toward zero, so the remainder is below the divisor in magnitude and has the sign of the dividend. |
| Cgal.MarkDomainsFrom | cgal.cpp:36-62 | Starting from a classified face changes nothing and pushes no edge. Otherwise exactly the faces that `start` reaches without crossing a constrained edge go from unclassified to `index`, and no other face changes. Free edges join equal levels. The border list grows at its back by constrained edges of newly classified faces, among them every one that still leads to an unclassified face. |
| Cgal.VisitNeighbors | cgal.cpp:52-59 | For the face just classified: every new queue entry is an unclassified neighbour across one of its free edges, and every new border entry is one of its constrained edges to an unclassified face. Each free neighbour ends classified at `index` or queued, and each constrained one is classified or on the border. The queue and the border list only grow at their ends. |
| Cgal.FloodStep | cgal.cpp:47-60 | One turn of the flood keeps the flood invariant. Either the count of unclassified faces drops (a face was assigned), or the levels are unchanged and the queue is shorter. So the loop ends. |
| Cgal.CountUnclassifiedShrinks | cgal.cpp:50-51 | Faces only go from unclassified to classified, so the count never grows, and it drops when one changes: the loops' termination measure. |
| Cgal.MarkDomains | cgal.cpp:63-85 | The infinite face has level 0. Every face a walk from the infinite face reaches gets the fewest constrained edges such a walk crosses: the nesting level. Faces no walk reaches stay at -1. |
| Cgal.FloodComponent | cgal.cpp:45-61 | When the queue is empty, the faces the flood changed are exactly those `start` reaches across free edges. |
| Cgal.WalkCostBoundsLevel | cgal.cpp:77-84 | Once the border list is drained, a walk from a classified face stays on classified faces, and the level grows by at most the number of constrained edges crossed. |
| Cgal.LocalToCrossingDistance | cgal.cpp:77-84 | The facts the drain loop ends with (free edges join equal levels, a constrained edge raises the level by at most one, every face reached is classified) make every level the crossing distance from the infinite face. |
| Cgal.CrossingDistanceUnique | cgal.cpp:63-68 | Two classifications that both give crossing distances are equal, so the result of `mark_domains` is determined by the triangulation. |
| Cgal.FreeFromInfiniteIsOutside | cgal.cpp:72-76 | Faces the infinite face reaches without crossing a constraint have level 0 and are outside the domain. |
| Cgal.OneCrossingIsInside | cgal.cpp:22-24 | A face reached across exactly one constraint, and not without crossing one, has level 1 and is in the domain. |
| Cgal.ExtractInterior | cgal.cpp:104-115 | The filtering loop returns, in face order, the triangles of exactly the finite faces whose level is in the domain. |
| Cgal.InteriorTrianglesMembers | cgal.cpp:105-114 | A triangle is in the output iff it is the vertex(0), vertex(1), vertex(2) triangle of a finite in-domain face. |
| Cgal.InteriorTrianglesCount | cgal.cpp:105-114 | The output has one triangle per finite in-domain face. |
| Cgal.Delaunay | cgal.cpp:87-118 | The polygon goes to the kernel as one closed constraint. The result is the triangles, in face order, of the finite odd-level faces of the crossing-distance classification, which is unique. |
| Cgal.Union | cgal.cpp:151-158 | Fails with "union could not be computed" exactly when corefinement reports failure. Otherwise it returns the output mesh. |
| PathGraph.Forward | old/graph.py:92 | The filter keeps exactly the entries other than the previous vertex. |
| PathGraph.Next | old/graph.py:90-109 | One loop turn breaks iff no forward edge is left, or the vertex is an open start other than the start. Otherwise it moves to the last forward neighbour, and the current vertex's list becomes its forward entries without that last one. No other list changes, and the entry count drops. |
| PathGraph.Stopped | old/graph.py:99 | When the walk breaks, the current list keeps its forward edges only. |
| PathGraph.WalkStops | old/graph.py:101-103 | A walk passes through no open start other than the start (except at its end), and stops where the forward list is empty or at such an open start. |
| PathGraph.WalkSteps | old/graph.py:105-109 | Each step of a walk follows an adjacency entry and never goes straight back to the previous vertex. |
| PathGraph.WalkConsumes | old/graph.py:99-109 | A walk leaves well-formed lists that are a sub-graph of its input. Every step uses up one entry. |
| PathGraph.FindPathSpec | old/graph.py:83-112 | The result lists are a well-formed sub-graph of the input, and a non-empty path consumes at least one entry. |
| PathGraph.FindPathShape | old/graph.py:111-112 | A non-empty result starts at the start point, has more than one vertex, ends in an open start, avoids other open starts, and follows edges without turning back. |
| PathGraph.FindPath | old/graph.py:83-112 | The walking loop computes `FindPathSpec`. |
| PathGraph.DrainFrom | old/graph.py:123-130 | The inner `while True` of `extract_paths` computes `Drain`: calls from one start until `[]`. |
| PathGraph.ExtractPaths | old/graph.py:115-132 | `extract_paths` works on its own copy and computes `ExtractPathsSpec`: the caller's lists are values and do not change. |
| PathGraph.DrainPaths | old/graph.py:123-130 | Every path the inner loop collects is one `_find_path` can return from that start over the lists it was given. |
| PathGraph.ExtractPathsAreFound | old/graph.py:121-130 | Every path `extract_paths` returns is a found path from one of the open starts over the caller's graph. |
| PathGraph.ChainExtractPaths | tests/graph_test.py:69-77 | For every chain of at least two distinct vertices, with its two ends as the only open starts, `extract_paths` returns exactly one path: the whole chain, in order. |
| PathGraph.ChainFindPath | old/graph.py:83-112 | On a chain, `_find_path` from the first vertex walks the whole chain and leaves every list empty. |
| PathGraph.TwoChains | tests/graph_test.py:124-144 | On the two-chain example, `extract_paths` returns `[123,212,45]` then `[1,2,3]`. |
| PathGraph.FirstChainWalk | tests/graph_test.py:124-144 | On that example, the first `_find_path` call from 123 returns `[123,212,45]` and its leftover lists. |
| PathGraph.SecondChainWalk | tests/graph_test.py:124-144 | The call from 1 then returns `[1,2,3]` and its leftover lists. |
| PathGraph.DeadEnd | old/graph.py:101-103 | From a vertex whose list is empty, draining finds nothing and changes nothing. |
| PathGraph.ReachOfMeaning | old/graph.py:37-40 | `reachables[x]` holds y iff some edge joins x and y, in either direction. |
| PathGraph.EndpointsMeaning | old/graph.py:37-40 | The keys of `reachables` are exactly the endpoints of the edges. |
| PathGraph.AddEdge | old/graph.py:38-40 | One edge added in both directions keeps the map equal to the adjacency of the edges so far. |
| PathGraph.BuildReachables | old/graph.py:37-40 | The first loop builds exactly the adjacency of all the edges. |
| PathGraph.AddCyclesThrough | old/graph.py:45-46 | Every common neighbour d ≠ a of b and c records `[a,b,d,c]` under its vertex multiset. Only true 4-cycles are recorded, and no key is lost. |
| PathGraph.AddCyclesAt | old/graph.py:44-46 | For vertex a, every 4-cycle through a and any two of its neighbours gets a key, and the recorded values stay sound. |
| PathGraph.FindFourCycles | old/graph.py:33-48 | Every recorded value is a 4-cycle `[a,b,d,c]` (edges a–b, a–c, b–d, c–d, d ≠ a) stored under its vertex multiset, the model of the sorted tuple. Every 4-cycle of the graph has its vertex set among the keys, so one cycle is kept per vertex set. |
| PathGraph.Orient | old/graph.py:56-60 | With the geometric test abstracted, the ring comes back as it is or reversed, element by element. |
| PathGraph.OrientPermutes | old/graph.py:56-60 | Orienting only reorders the ring's nodes. |
| PathGraph.CellTrianglesCount | old/graph.py:71-77 | A cell has (4 if the ring has four nodes, else 2) fan triangles plus two side triangles per ring edge. |
| PathGraph.CellTrianglesBounded | old/graph.py:66-77 | With node n's top at 2n and bottom at 2n+1, every index is below 2·(number of nodes). |
| PathGraph.QuadCellShape | old/graph.py:71-77 | A 4-ring gives 12 triangles. The first two use top (even) vertices only, the next two bottom (odd) ones only. |
| PathGraph.ToVolume | old/graph.py:62-77 | One volume per ring, in order, each made from the oriented ring. |
| ElementaryVolume.DedupMeaning | elementary_volume/__init__.py:39-43 | The `node_map` keys hold each coordinate of the input exactly once and nothing else. |
| ElementaryVolume.DedupPrefix | elementary_volume/__init__.py:39-43 | First-seen order: the numbering of a prefix is never revised later. |
| ElementaryVolume.NumberKey | elementary_volume/__init__.py:38-45 | A new key is appended and gets the counter's value. A known key keeps its number, and the number written points back at the key. |
| ElementaryVolume.NumberGroup | elementary_volume/__init__.py:36-45 | The inner loop numbers one polyline's keys: the keys seen so far are the dedup of the input so far, and each element number names its key. |
| ElementaryVolume.NumberNodes | elementary_volume/__init__.py:31-45 | The numbering loop: the nodes are the input's distinct keys in first-seen order, numbered consecutively from `first`, and each group's list names its keys. |
| ElementaryVolume.ToObj | elementary_volume/__init__.py:58-79 | `None` gives nothing. Otherwise there is one `v` line per distinct coordinate, in first-seen order, then one `f` line per polygon whose 1-based indices name each coordinate but the closing one. |
| ElementaryVolume.OpenRings | elementary_volume/__init__.py:68 | Each ring loses its closing coordinate. |
| ElementaryVolume.AppendFacets | elementary_volume/__init__.py:77-78 | The `f` lines follow all the `v` lines, one per polygon. |
| ElementaryVolume.ToVtk | elementary_volume/__init__.py:26-55 | `None` gives nothing. Otherwise the points are the distinct coordinates numbered from 0, and `LINES` counts the lines and Σ(len+1). Each cell carries its length and the number of each coordinate. |
| ElementaryVolume.CellIntegersCount | elementary_volume/__init__.py:51 | Σ(len(e)+1) is the number of coordinates plus the number of lines. |
| ElementaryVolume.HasSegmentMeaning | elementary_volume/__init__.py:142-146 | `has_segment` holds iff the segment or its reverse is a consecutive pair of the points. |
| ElementaryVolume.HasSegmentSymmetric | elementary_volume/__init__.py:142-146 | `has_segment` does not depend on the segment's orientation. |
| ElementaryVolume.IsSegmentMeaning | elementary_volume/__init__.py:149-153 | `is_segment` holds iff some line has the segment. |
| ElementaryVolume.ExtendSegments | elementary_volume/__init__.py:162-167 | Extending a chain at its tail with b[1] (when b[0] is the tail) or at its head with b[0] (when b[1] is the head) adds exactly segment b to its segments. |
| ElementaryVolume.ExtendLast | elementary_volume/__init__.py:160-170 | One scan: either nothing continues the last chain (nothing changes), or the first continuing segment extends it and is deleted, keeping every segment accounted for. |
| ElementaryVolume.Linemerge | elementary_volume/__init__.py:156-173 | Empty input gives `[]`. The input list is emptied, every chain has at least two points, and the chains' consecutive pairs are exactly the input segments, as a multiset. |
| ElementaryVolume.OffsetCoords | elementary_volume/__init__.py:207-208 | Length and order are kept, and exactly the coordinates that are keys of `offsets` are replaced. |
| ElementaryVolume.OffsetCoordsReverse | elementary_volume/__init__.py:476-477 | Offsetting commutes with reversing a ring, and an offset map disjoint from the ring leaves it unchanged. |
| ElementaryVolume.FirstOtherHole | elementary_volume/__init__.py:197-199 | The first later neighbour on another hole, or `None` iff every later one shares the first's hole. |
| ElementaryVolume.PairOfNonCoplanarNeighbors | elementary_volume/__init__.py:194-200 | `None` iff there are fewer than two neighbours, or all share the first's hole. Otherwise the pair is the first neighbour and the first later one on a different hole. |
| ElementaryVolume.CancelledMeaning | elementary_volume/__init__.py:459-465 | When no directed edge repeats and none is a loop, the edges left are exactly those whose reverse never occurs. |
| ElementaryVolume.ClosedLeavesNothing | elementary_volume/__init__.py:648-655 | A closed surface leaves the edge set empty. |
| ElementaryVolume.OpenEdges | elementary_volume/__init__.py:503-509 | The cancellation loops compute the toggled set of all the rings' directed edges. |
| ElementaryVolume.ToggleRing | elementary_volume/__init__.py:505-509 | The inner loop toggles each directed edge of one ring, in order. |
| ElementaryVolume.TriangleGraph | elementary_volume/__init__.py:596-606 | The adjacency has one entry per triangle, is symmetric, and links only triangles with a directed edge and its reverse. When no directed edge repeats and none is a loop, every two triangles that hold an edge and its reverse are linked. |
| ElementaryVolume.LinkRing | elementary_volume/__init__.py:599-606 | One triangle's edges keep the adjacency linked and symmetric, and keep every recorded edge a pending edge of an earlier triangle. |
| ElementaryVolume.AddLink | elementary_volume/__init__.py:602-603 | `graph[o].add(ip)` then `graph[ip].add(o)`: the keys are unchanged, both links are present, and nothing else changes. |
| ElementaryVolume.LinkBoth | elementary_volume/__init__.py:600-604 | Linking two triangles that share an edge in opposite directions keeps the graph a linked graph. |
| ElementaryVolume.SharedEdgeLinks | elementary_volume/__init__.py:600-603 | Two triangles sharing an edge in opposite directions are linked both ways. |
| ElementaryVolume.PopConnected | elementary_volume/__init__.py:608-613 | The popped entries are removed and the rest is untouched. The result holds `n`, is disjoint from what is left, contains every neighbour of every popped node, and every member is reachable from `n`. |
| ElementaryVolume.Components | elementary_volume/__init__.py:615-618 | On a symmetric adjacency, the components partition all the triangle indices, none has a neighbour outside itself, and every two members of a component are joined by a walk. |
| GraphOperations.Others | graph_operations.py:70 | The `other` ends of the connections, in order. |
| GraphOperations.ConnectionListToList | graph_operations.py:64-72 | `None` (a failed assert) iff some connection does not start at the id that `connections.index` gives its list. That index compares by identity: a non-empty list is at its own position, an empty one at the first empty list. Otherwise there is one list per id, slot j holding the `other` of each connection starting at `ids[j]`, in order. |
| GraphOperations.EqualListsCompareByIdentity | graph_operations.py:67 | Two equal-looking lists of connections starting at node 0, under ids `[0, 1]`, fail the assert: the second is found at its own position, not at the first. |
| GraphOperations.AddConnections | graph_operations.py:68-70 | The inner loop succeeds iff every connection of the list starts at `ids[k]`, and appends each `other` to its slot. |
| GraphOperations.PerIdLists | graph_operations.py:64-72 | With distinct ids and per-id lists, the asserts pass and slot j is the others of `connections[j]`. |
| GraphOperations.SixNodeExample | tests/graph_operations_test.py:196-213 | On the six-node example, the slot lengths are 1, 3, 2, 1, 1, 0. |
| GraphOperations.LayerEdges | graph_operations.py:397-398 | The layer query keeps exactly the edges of that layer. |
| GraphOperations.Connectivity | graph_operations.py:395 | One list per feature id. |
| GraphOperations.ExtractConnectivity | graph_operations.py:392-416 | The loop computes `Connectivity` of the layer's edges. |
| GraphOperations.ConnectivitySkip | graph_operations.py:405-409 | An edge with an end outside the ids changes no list. |
| GraphOperations.ConnectivityAdd | graph_operations.py:411-414 | An accepted edge appends (start→end, link) to start's list, then (end→start, link) to end's list. |
| GraphOperations.IncidentEnds | graph_operations.py:411-414 | Every connection listed for an id starts there and leads to a listed feature. |
| GraphOperations.IncidentHasEdge | graph_operations.py:405-414 | An edge joining two listed features appears as a connection at both ends. |
| GraphOperations.ConnectivityStartsMatch | graph_operations.py:64-72 | The lists `_extract_connectivity_information` builds always pass the asserts of `graph_connection_list_to_list`. |
| GraphOperations.ChainConnectivity | tests/graph_operations_test.py:131-139 | On a simple chain, the end features have 1 connection and the interior ones have 2. |
| GraphOperations.SectionExtremities | graph_operations.py:474-496 | The extremity loop keeps the features that are extremities, in order. |
| GraphOperations.ExtremitiesMeaning | graph_operations.py:474-496 | A feature is in the extremity list iff it has more than 2 connections or is fake. |
| GraphOperations.IsFakeFeature | graph_operations.py:35-45 | True iff the layer has a `HoleId` field and the value is `Fake`. It fails (an unassigned variable) iff there is no `HoleId` field but a `mine` field. Otherwise it is false. |
| GraphOperations.IsPolygonExtremity | graph_operations.py:419-427 | True iff there are more than 2 connections or the feature is fake. It fails only when `is_fake_feature` is reached (at most 2 connections) and fails. |
| GraphOperations.ExtremityFlag | graph_operations.py:419-427 | Given the flag `is_fake_feature` returns, the extremity test is "more than 2 connections or that flag", as `Extremities` uses it. |
| GraphOperations.ChainExtremities | graph_operations.py:419-427 | A simple chain whose end features are fake has exactly those two as extremities. |
| GraphOperations.GeneratriceConnections | graph_operations.py:430-455 | `None` iff a connection's link names other than exactly one edge, or a side holds a neighbour twice. Otherwise the result is the sides: R when the feature's x is less than the edge centroid's x, else L. |
| GraphOperations.SidesPartition | graph_operations.py:445-448 | The two sides together are the connections' ends, counted with repetition. |
| GraphOperations.SidesRight | graph_operations.py:445-446 | A neighbour is on the right iff some connection to it has the feature left of the edge centroid. |
| GraphOperations.SelectPantsBranch | graph_operations.py:499-504 | The result is L if next is in L, else R if next is in R, else `None`. A chosen branch contains next. |
| GraphOperations.SumBranch | graph_operations.py:524-531 | The loop succeeds iff every branch feature has a length. It then returns the total length and the length of the features above `center_z`. |
| GraphOperations.RatioOffset | graph_operations.py:507-535 | (1, 0) when no branch is found or the branch has at most one member. Otherwise next's share of the branch length, and the share above next. A missing length or a zero total is an error. |
| GraphOperations.RatioOffsetBounds | graph_operations.py:533-535 | With positive lengths, ratio and offset lie in [0, 1], the ratio is positive, and their sum is at most 1. |
| GraphOperations.DoesEdgeAlreadyExist | graph_operations.py:577-585 | True iff some edge of the layer joins the two features, in either orientation. |
| GraphOperations.JoinsSymmetricAndListed | graph_operations.py:577-585 | The test ignores orientation, and an existing edge between listed features shows up in the connectivity lists. |
| ActionState.FirstFailing | action_state_helper.py:16-21 | The first failing test: every earlier one passes. `None` iff all pass. |
| ActionState.FirstFailingAppend | action_state_helper.py:11-21 | A test added last matters only when every earlier test passes. |
| ActionState.ActionStateHelper.constructor | action_state_helper.py:4-9 | Keeps the action and its original tooltip, starts with no test, and is appended to the registry. |
| ActionState.ActionStateHelper.AddIsEnabledTest | action_state_helper.py:11-13 | The test is appended last, and the helper itself is returned. |
| ActionState.ActionStateHelper.UpdateState | action_state_helper.py:15-24 | On the first failing test: its message becomes the tooltip and the action is disabled. If all pass: the original tooltip returns and the action is enabled. |
| ActionState.Registry.constructor | action_state_helper.py:2 | The registry starts empty. |
| ActionState.Registry.UpdateAll | action_state_helper.py:26-29 | The registry is unchanged. Each helper whose action no later helper shares ends with its own outcome, so the registration order decides shared actions. |
| ActionState.Registry.RemoveAll | action_state_helper.py:31-33 | The registry is empty. |
| ExportPolygon.PreconditionCheck | buttons/export_polygon_button.py:6-17 | Success iff all hold: the section layer exists, the graph layer exists, `session_id` is unset, the layer is spatial, and it has features. Success has the empty message, and a missing section layer gives "No active layer". |
| ExportPolygon.PreconditionDiagnosis | buttons/export_polygon_button.py:9-16 | Each message is returned iff every earlier check passes and its own check fails, so the first failing check gives its message. A failure always has a non-empty message. |
| ExportPolygon.RingOrder | buttons/export_polygon_button.py:29-39 | ⌈n/2⌉ + ⌊n/2⌋ + 1 positions, all valid vertex indices. |
| ExportPolygon.RingOrderEven | buttons/export_polygon_button.py:28-39 | For even n: n+1 rows that start and end at vertex 0 and visit every vertex exactly once before closing. |
| ExportPolygon.RingOrderOdd | buttons/export_polygon_button.py:29-35 | For odd n: the last vertex is written twice in a row. |
| ExportPolygon.PolygonRows | buttons/export_polygon_button.py:28-39 | Row k is the polygon's index with the vertex at the k-th ring position. |
| ExportPolygon.WritePolygon | buttons/export_polygon_button.py:29-39 | The two `range` loops and the closing row write `PolygonRows`. |
| ExportPolygon.FirstEmpty | buttons/export_polygon_button.py:26-38 | The first polygon without vertices, where `vertices[0]` fails. |
| ExportPolygon.Execute | buttons/export_polygon_button.py:20-44 | An empty file name writes nothing. Otherwise the file receives the rows of each polygon before the first empty one, which fails. |
| ExportPolygon.RowsCarryIndex | buttons/export_polygon_button.py:31-39 | Every row starts with the index of its polygon and holds one of that polygon's vertices. |
| QgisHal.FixupName | qgis_hal.py:189-198 | The name if it is a field, else `name:Integer64(10,0)` if that is one, else an error. |
| QgisHal.MergeKeys | qgis_hal.py:201-209 | The merged keys are exactly the successfully fixed names. |
| QgisHal.MergeFailure | qgis_hal.py:201-209 | The merge fails iff some name cannot be fixed. |
| QgisHal.MergeMeaning | qgis_hal.py:201-209 | Every fixed key maps to the value of the last entry fixing to it: a later dict overrides an earlier one. |
| QgisHal.FixupNames | qgis_hal.py:201-209 | The loops over the dicts compute the merge. |
| QgisHal.MergeDict | qgis_hal.py:205-207 | One dict's entries are merged in order. |
| QgisHal.Terms | qgis_hal.py:217-218 | One `"attr" = 'value'` term per fixed attribute, in order. |
| QgisHal.QueryByAttributes | qgis_hal.py:212-230 | No dict is an error, and a name that cannot be fixed fails. Otherwise the terms of the merged attributes are joined with AND (corrected; see Findings). |
| QgisHal.QueryByAttributesAsWritten | qgis_hal.py:212-230 | As written: with several dicts, the AND of the merged terms. With a single dict, its first term alone, or an `IndexError` when it is empty. No dict, or a name that cannot be fixed, fails. |
| QgisHal.InListIsJoin | qgis_hal.py:239-242 | Dropping the trailing comma leaves the quoted values joined by commas, so an empty list gives `IN ()`. |
| QgisHal.BuildInTerm | qgis_hal.py:239-242 | The inner loop builds `"attr" IN (…)` of the quoted values. |
| QgisHal.InTerms | qgis_hal.py:238-242 | One `IN` term per fixed attribute, in order. |
| QgisHal.QueryByAttributesIn | qgis_hal.py:233-250 | The same as `QueryByAttributes`, with `IN` terms. |
| QgisHal.QueryByAttributesInAsWritten | qgis_hal.py:233-250 | The same as `QueryByAttributesAsWritten`, with `IN` terms. |
| QgisHal.CombineHasEveryTerm | qgis_hal.py:222-225 | The corrected filter contains every term. |
| QgisHal.SingleDictDropsTerms | qgis_hal.py:222-223 | As written, one dict with several keys keeps only the first term, which is not the AND of them all. |
| QgisHal.CombineAsWritten | qgis_hal.py:222-225 | With other than one dict, the AND of all the terms. With one dict, the first term, failing iff there is none. |
| QgisHal.AsWrittenAgreement | qgis_hal.py:222-225 | The source's filter equals the AND of all the terms iff more than one dict is given or the single dict has exactly one attribute. |
| QgisHal.StartEndExample | graph_operations.py:368-372 | Whichever of `start` and `end` the merged dict yields first, the edge lookup filters on that key alone as written. |
| QgisHal.LayerMatchesAllProperties | qgis_hal.py:163-169 | True iff every key's custom property equals the given value. Empty properties give true. |
| QgisHal.Max | qgis_hal.py:266 | The maximum is one of the values and bounds them all. |
| QgisHal.MaxFeatureAttributeAsWritten | qgis_hal.py:264-266 | As written, every call fails, because one argument is missing. |
| QgisHal.AsWrittenAlwaysFails | qgis_hal.py:264-266 | Wherever the intended maximum exists, the source as written does not return it. |
| QgisHal.MaxFeatureAttribute | old/qgis_hal.py:306-308 | Corrected: it fails iff the field name cannot be fixed. Otherwise the maximum of the unique values, or 0 when there are none. |
| Load.Find | load.py:101-110 | `str.find`: -1 iff there is no occurrence, else the first occurrence. |
| Load.LoadFile | load.py:100-112 | The chosen loader's word occurs in the file name. Otherwise the error is the fixed text naming the five words, followed by the file name. |
| Load.LoadFileChoice | load.py:100-110 | Kind i is chosen iff the name contains its word and none of the earlier words (order collar, devia, formation, resi, avp). |
| Load.LoadFileChosen | load.py:100-110 | The kind chosen has its word in the name, and none of the words tried before it is there. |
| Load.LoadFilePicks | load.py:100-110 | The first kind whose word the name holds is the one chosen. |
| Load.LoadFileFails | load.py:111-112 | The `RuntimeError` is raised iff none of the five words occurs. |
| Load.CollarBeforeDevia | load.py:101-104 | A name with both `collar` and `devia` goes to the collar loader. |
| Load.RStrip | load.py:13 | The result is a prefix without trailing white space, and only white space was removed. |
| Load.ConvertLine | load.py:12-13 | Succeeds iff the stripped line splits on `;` into at least the kind's arity of fields, and keeps exactly those leading fields. |
| Load.Body | load.py:11-13 | The header line is skipped. |
| Load.Rows | load.py:13 | Succeeds iff every body line converts, giving one row per line, in order. |
| Load.RowsArity | load.py:12-13 | Every row has the kind's number of fields. |
| Load.HoleRows | load.py:18 | One `(id, id)` hole per collar, in the same order. |
| Load.HoleIds | load.py:18-23 | `(id, id)` is a hole row iff `id` is a collar's id. |
| Load.Chunk | load.py:35 | `data[i:min(i+1000, len)]` is non-empty and at most 1000 rows long. |
| Load.ChunkLoop | load.py:32-43 | The chunks are the slices at 0, 1000, 2000, …, and they concatenate to the data. The ratio after chunk k is k·1000/len, in [0, 1), and there are no ratios without a progress display. |
| Project.Table.constructor | project.py:64-85 | A `TABLES` entry holds its `NAME` and `FIELDS_DEFINITION`. |
| Project.FirstWord | project.py:233 | `split()[0]` is `None` (an IndexError) iff the piece is all white space. Otherwise it is the first maximal run of non-space characters. |
| Project.Words | project.py:233 | Succeeds iff every piece has a first word, giving one name per piece, in order. |
| Project.FieldNamesMeaning | project.py:233 | One name per comma-separated entry, each its first word, with no comma or white space in it. The definition fails iff an entry is blank. |
| Project.FormationFields | project.py:71-73 | `'code integer, comments varchar'` gives `code, comments`. |
| Project.FormationDefinition | project.py:71-73 | The formation definition is those two entries. |
| Project.RemoveSpaces | project.py:235 | `replace(' ', '')` leaves no space, and does nothing to a name without one. |
| Project.Qualified | project.py:235 | `t.` is prefixed to each space-free name. |
| Project.QualifiedNames | project.py:233-235 | The names have no spaces, so `T_FIELDS` is `t.f` for each name, in order. |
| Project.Placeholders | project.py:236 | One ` %s` per field. |
| Project.NewNames | project.py:237 | `new.f` per field, in order. |
| Project.Assignments | project.py:238 | `f=new.f` per field, in order. |
| Project.FragmentsPerField | project.py:236-238 | `FORMAT`, `NEW_FIELDS` and `SET_FIELDS` split back on `,` into exactly one entry per field, in the names' order. |
| Project.Extended | project.py:233-238 | Success iff the definition is present, is text and has no blank entry. All old keys are kept, and those other than the five derived ones are unchanged. |
| Project.AddTable | project.py:224-238 | The table dict is updated in place to `Extended`. On failure it is left as it was. |
| Project.CreatedKeepsSrid | project.py:217-219 | The derived entries never overwrite the SRID that `create` set. |
| Project.CreateOne | project.py:218-219 | SRID, then `add_table`. On failure the SRID alone has been set. |
| Project.CreateAt | project.py:217-219 | `CreateOne` on one table leaves the others as they were. |
| Project.Create | project.py:217-219 | Every table is created, or the loop stopped at a table whose definition fails: the earlier ones are created, that one has its SRID, and the later ones are untouched. |
| Sequences.SplitJoin | load.py:13 | Splitting loses nothing: joining the pieces with the separator gives the string back. |
| Sequences.JoinSplit | project.py:234-238 | Pieces without the separator come back from splitting their join. |
| Sequences.IndexOf | graph_operations.py:67 | `list.index`: the first position of the element. |

## Left out

- The geometry kernel: the constrained Delaunay construction, `Polygon_2`, the exact-predicates kernel, `Surface_mesh`, `create_mesh` and the corefinement. They are foreign library calls, so the triangulation and the corefinement are inputs (`Cgal.Delaunay`'s `kernel`, `Cgal.Union`'s `corefine`). The boost::python marshalling is not modelled.
- Cgal.MarkDomainsFrom: requires `index != -1`. With index -1 the C++ flood would never end, and no caller passes it.
- PathGraph.FindPath: `vertices.index` on an unknown vertex (a `ValueError`) is excluded by the well-formedness requirement. The callers build the lists from the same ids.
- PathGraph.FindFourCycles: which of several cycles on the same vertex set is kept depends on the unspecified dict and set order. The model states only that each kept value is such a cycle.
- PathGraph.ToVolume: the orientation test (`numpy.cross`/`dot`) is an input function, and `to_surface` (shapely) is not modelled.
- Floating point: coordinates, lengths and centroids are exact reals, or opaque keys compared for equality. `"%f %f %f"` formatting is taken as injective on the coordinates.
- The remaining geometry of `elementary_volumes` (interpolation, splits, tessellation, the volume check) and `triangulate.py` are not modelled.
- GraphOperations: the QGIS queries (`query_layer_features_by_attributes`, `get_feature_centroid`, `project_point`) are filters over an edge sequence or functions passed in.
- GraphOperations: a layer with fields is two inputs to `is_fake_feature`, its `HoleId` value if it has that field and whether it has a `mine` field; the feature attribute lookup itself is not modelled.
- GraphOperations.ConnectionListToList: the identity of connection objects is modelled by position. Two separate non-empty lists are never the same object, and an empty list is found at the first empty list, where `==` on lists finds it.
- ElementaryVolume.PopConnected: Python's recursion limit is not modelled. `pop_connected` calls itself once per node it pops, so a component of more than about 1000 triangles raises `RecursionError` in the source, while the model returns the component.
- Hash order: Python 2 iterates dicts and sets in hash order. The model fixes one order where the source iterates one: the neighbour set in `ElementaryVolume.PopConnected`, the key picked by `ElementaryVolume.Components` (so the order of the components), the merged dict of `QgisHal.Merge` (so the order of a filter's terms), and `PathGraph.FindFourCycles`. The contracts are stated so that they hold whatever the order: the components as sets, every term in the AND, every 4-cycle's vertex set. Two results do depend on it. The source's single-dict filter keeps whichever term comes first, and `QgisHal.StartEndExample` states it for both orders. When two names of one dict fix to the same field, the value kept is the one iterated last, which the model takes in the given order.
- QgisHal: the `QgsFeatureRequest`, `getFeatures` and the `logging.debug` call are left out. The model stops at the filter expression.
- QgisHal: `str(v)` in the `IN` builder is the identity on the text values of the model.
- Load: the database cursor, `mogrify`, the SQL text of each chunk, and the `float`/`int` conversions of the row fields are left out. A row is its fields as text.
- Load: the progress display is a boolean saying whether one was given.
- Sequences.IsSpace: the white space that `split()` and `rstrip()` remove is the ASCII set only.
- Project: the SQL statements `add_table` and `create` run, and everything else in project.py (database, DXF/OBJ export, BOX3D parsing), are I/O.
- ActionState: a test reads the action and the plugin's state. The model passes that state as a parameter `env`, and tests are pure functions of it.
- ExportPolygon.Execute: the file dialog, `QMessageBox` and the file itself are left out. The result is the rows written, and a vertex is opaque instead of its `x;y;z` text.
- Python 2 specifics (`filter` returning a list, `iteritems`) are taken at their Python 2 meaning.

## Findings

| source | as written | input that shows it | evidently intended | confidence | as-written member | corrected member |
|---|---|---|---|---|---|---|
| qgis_hal.py:264-266 | `get_layer_max_feature_attribute` calls `get_layer_unique_attribute(attr)` with one argument, and that function takes two | any call | the maximum of the layer's unique values, or 0, as in old/qgis_hal.py:306-308 | high (not executed) | QgisHal.MaxFeatureAttributeAsWritten | QgisHal.MaxFeatureAttribute |
| qgis_hal.py:222-223 | with exactly one dict, only `expr[0]` is used as the filter, so the other attributes of that dict are ignored, and an empty dict raises IndexError | `{'start': a, 'end': b}` from graph_operations.py:368-372 filters on one of its two keys alone | every attribute's term joined with AND | medium (not executed) | QgisHal.QueryByAttributesAsWritten | QgisHal.QueryByAttributes |
