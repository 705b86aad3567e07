# gographviz graph model in Dafny

This project models the in-memory graph of gographviz's `dot` package and the
passes that build and edit it. The modelled code is `nodes.go`, `graph.go` and
`analyse.go`.

- **Node registry** (`nodes.dfy`, module `Nodes`). Go's `*Node` pointers are
  handles into an arena. The `Registry` value holds the following, each keyed
  by handle where that applies:
  - `Lookup` and the ordered `Nodes` list;
  - each node's name, attributes and `Index`;
  - its `Preds` and `Succs` lists;
  - the next fresh handle.

  `Consistent` is the invariant the code relies on. It requires that:
  - names are unique;
  - `Index` is each node's position in `Nodes`;
  - every adjacency entry is a live node;
  - `Preds` and `Succs` mirror each other, counted with multiplicity.

  Class `Nodes.Nodes` holds the same fields and updates them in place: `Add`,
  `addEdge`, `del`, `HasPred`/`HasSucc`, `Sorted` and `DomSorted`. Each method
  is proved against a function on `Registry` (`Added`, `Linked`, `Deleted`).
- **Graph aggregate** (`graph.dfy`, module `Graph`). Class `Graph.Graph` holds
  the graph attributes, name, direction and strictness, the node registry,
  the edge registry, the subgraphs and the parent-to-children relations. It
  also has the degree and edge queries, the scope-resolved attribute writes
  and node and subgraph registration. Its `Merge` first runs three checks.
  It then creates the merged node and re-targets the edges into `entry` and
  out of `exit`, keeping their attributes. Finally it deletes the region
  between `entry` and `exit` (`removeUntil`, `delNode`).
- **Statement visitor** (`analyse.dfy`, module `Analyse`). The parsed graph is
  an `Ast` datatype. Class `StmtVisitor` keeps the three default-attribute
  accumulators of one scope and applies each statement to the `Graph`:
  - `nodeStmt`, `edgeStmt` with its left-to-right chain, `nodeAttrs`,
    `edgeAttrs`, `graphAttrs`, `attr`;
  - `subGraph`, which opens a fresh visitor with empty defaults.

  The functions `Applied` (one statement) and `AppliedAll` (a statement
  list) compute the graph state a walk reaches, as a `Built` value
  (registry, edge records, relations, graph and subgraph attributes).
  `Visit` and `Walk` are proved to reach exactly that state. The
  `...Registers` lemmas prove that a walk registers exactly the names, edge
  keys and subgraphs that its statements mention.

  `ammend` and `overwrite` are in `attrs.dfy` (module `Attrs`). Go's string
  ordering is in `strings.dfy` (module `Lex`).
- **Wiring** (`wiring.dfy`, module `Wiring`). This is the loop of
  `NewAnalysedGraph` that links node records along every stored edge.
  - An endpoint that names a subgraph stands for the names recorded directly
    under it (`addEdges`).
  - Adjacency growth is stated as multisets of links, because the loop runs in
    Go map order.
- **Top level** (`build.dfy`, module `Build`). This is the entry-node
  promotion swap and `NewAnalysedGraph` itself (`Analyse`, wiring and
  promotion).

## Model

| member | source | states |
|---|---|---|
| Attrs.Ammend | analyse.go:146-153 | every existing key keeps its value; exactly the keys of `add` missing from `attrs` are added, with `add`'s values |
| Attrs.AmmendInPlace | analyse.go:146-153 | the in-place loop over `add` ends with the map `Ammend` describes |
| Attrs.Overwrite | analyse.go:155-160 | every key of `o` maps to `o`'s value; every other key of `attrs` is unchanged; no other key appears |
| Attrs.OverwriteInPlace | analyse.go:155-160 | the in-place loop over `o` ends with the map `Overwrite` describes |
| Attrs.AmmendIdempotent | analyse.go:146-153 | ammending the same map twice equals ammending it once |
| Attrs.OverwriteIdempotent | analyse.go:155-160 | overwriting with the same map twice equals overwriting once |
| Attrs.AmmendIsOverwriteReversed | analyse.go:146-160 | "first definition wins" is "last definition wins" with the arguments swapped |
| Lex.LessIrreflexive | nodes.go:172 | Go's string `<` is irreflexive |
| Lex.LessAsymmetric | nodes.go:172 | Go's string `<` is asymmetric |
| Lex.LessTransitive | nodes.go:172 | Go's string `<` is transitive |
| Lex.LessTotal | nodes.go:172 | any two distinct strings are ordered one way or the other |
| Nodes.Empty | nodes.go:67-69 | the fresh registry is consistent, with an empty list and an empty `Lookup` |
| Nodes.Nodes.constructor | nodes.go:67-69 | a new `Nodes` object is valid and holds the empty registry |
| Nodes.AddedNew | nodes.go:78-80 | adding a fresh name keeps the registry consistent and appends a new handle at the end of `Nodes`, with `Index` equal to the old length, registered in `Lookup`, with the given attributes and no links; every existing node keeps all its fields |
| Nodes.AddedExisting | nodes.go:73-76 | adding an existing name leaves `Nodes`, `Lookup`, `Index` and all adjacency unchanged; the existing node keeps every attribute it had and gains only the attributes it lacked; other nodes are untouched |
| Nodes.Nodes.Add | nodes.go:72-81 | `Add` moves the state to `Added(old state, name, attrs)` and keeps the object valid |
| Nodes.LinkedIsSymmetric | nodes.go:55-58 | after `addEdge(from, to)`, `to` has `from` as a predecessor and `from` has `to` as a successor, each once more than before; the registry stays consistent (adjacency still symmetric); all other lists and fields are kept |
| Nodes.LinkedConsistent | nodes.go:55-58 | linking two live nodes preserves the registry invariant |
| Nodes.Nodes.AddEdge | nodes.go:55-58 | the method appends to `from`'s successors and `to`'s predecessors, reaching `Linked(old state, from, to)`, and stays valid |
| Nodes.Occurs | nodes.go:35-52 | the scan returns true exactly when the handle occurs in the list |
| Nodes.Nodes.HasPred | nodes.go:35-42 | true exactly when `m` is among `n`'s predecessors |
| Nodes.Nodes.HasSucc | nodes.go:45-52 | true exactly when `m` is among `n`'s successors |
| Nodes.Without | nodes.go:95-102 | the filtered list lacks `x`, keeps every other element with its multiplicity and is no longer than the original |
| Nodes.WithoutAbsent | nodes.go:95-102 | filtering out an absent handle changes nothing |
| Nodes.WithoutAt | nodes.go:118-126 | filtering out an element that occurs once removes exactly its position, keeping the rest in order |
| Nodes.Filter | nodes.go:95-102 | the rebuild loop computes `Without(s, x)` |
| Nodes.Unlink | nodes.go:94-115 | each neighbour loop replaces the list of every touched neighbour by the list with `x` filtered out and leaves all other lists alone |
| Nodes.DelSteps | nodes.go:94-115 | the two loops of `del`, run one after the other, strip `x` from every neighbour's opposite list even when `x` is its own neighbour |
| Nodes.Compact | nodes.go:118-126 | the list rebuild removes `x`'s position and renumbers every later node's `Index` down by one |
| Nodes.DeletedUnlinks | nodes.go:91-126 | after `del`, the name is gone from `Lookup`; `Nodes` is the old list with `x` filtered out; every survivor keeps its name and attributes; no survivor lists `x` as a predecessor or successor, and each survivor's lists are the old ones with `x` filtered out |
| Nodes.DeletedList | nodes.go:118-126 | removing `x`'s position from the list equals filtering `x` out, so the survivors keep their relative order |
| Nodes.DeletedPositioned | nodes.go:118-126 | after the rebuild every survivor's `Index` is its new position, so indices run contiguously from 0 |
| Nodes.DeletedSymmetric | nodes.go:94-115 | stripping `x` from both sides keeps predecessor and successor lists mirrored |
| Nodes.DeletedConsistent | nodes.go:89-130 | deleting a live node preserves the whole registry invariant |
| Nodes.Nodes.Cut | nodes.go:90-126 | the three loops of `del`, run on the current lists, compute exactly the registry `Deleted(state, x)`, without touching the registry |
| Nodes.Nodes.Del | nodes.go:89-130 | the method reaches `Deleted(old state, x)` and stays valid |
| Nodes.SortStrings | nodes.go:138 | the result is ascending and a permutation of the input |
| Nodes.Keys | nodes.go:134-137 | the key list holds each `Lookup` name exactly once |
| Nodes.StrictlyAscending | nodes.go:138 | an ascending list without duplicates is strictly ascending |
| Nodes.SortedKeys | nodes.go:134-138 | the sorted keys hold exactly the `Lookup` names, in strictly ascending order |
| Nodes.ByName | nodes.go:133-144 | one handle per `Lookup` entry, each the node of its name, in strictly ascending name order |
| Nodes.Nodes.Sorted | nodes.go:133-144 | `Sorted` returns exactly one live node per `Lookup` entry, in strictly ascending name order |
| Nodes.DomLessShape | nodes.go:158-173 | a node labelled "entry" ranks first (even against itself); a non-entry node never precedes an entry node; a strict dominator precedes the node it dominates; otherwise two distinct names are ordered one way exactly |
| Nodes.Swap | nodes.go:179-181 | the two array slots trade places and the contents are a permutation of the old contents |
| Nodes.DomSort | nodes.go:150 | sorting a copy by `Less` and `Swap` yields a permutation of the input |
| Nodes.Nodes.DomSorted | nodes.go:147-152 | the result is a permutation of `Nodes`, and `Nodes` itself is untouched (the method modifies nothing) |
| Graph.DstsOf | graph.go:51-53 | `SrcToDsts[src]` is exactly the destinations of stored edges leaving `src` |
| Graph.SrcsOf | graph.go:46-48 | `DstToSrcs[dst]` is exactly the sources of stored edges entering `dst` |
| Graph.PutKeyed | graph.go:164-166 | adding an edge stores it under its own endpoints and keeps every record under its own key |
| Graph.PutDegrees | graph.go:164-166 | adding an edge raises `Out(src)` and `In(dst)` by one when the pair is new and by zero when it replaces a record; every other node's degree is unchanged |
| Graph.Graph.constructor | graph.go:32-43 | a new graph is unnamed, undirected, not strict, with empty attributes, nodes, edges, subgraphs and relations |
| Graph.Graph.In | graph.go:46-48 | the in-degree is 0 exactly when no stored edge enters the name, so in particular for an unknown name |
| Graph.Graph.Out | graph.go:51-53 | the out-degree is 0 exactly when no stored edge leaves the name |
| Graph.Graph.HasEdge | graph.go:56-63 | true exactly when an edge `src -> dst` is stored, and then both degrees involved are positive |
| Graph.Graph.SetStrict | graph.go:147-149 | sets strictness and nothing else |
| Graph.Graph.SetDir | graph.go:152-154 | sets direction and nothing else |
| Graph.Graph.SetName | graph.go:157-159 | sets the name and nothing else |
| Graph.Graph.AddPortEdge | graph.go:164-166 | the edge record is stored (replacing one for the same pair); no node is created and nothing else changes |
| Graph.Graph.AddEdge | graph.go:170-172 | as `AddPortEdge` with empty ports |
| Graph.Related | graph.go:183 | the parent's child set gains the child; every other parent's set is kept |
| Graph.Graph.AddNode | graph.go:177-184 | the node is upserted as `Nodes.Add` describes and recorded as a child of `parentGraph`; edges and subgraphs are untouched |
| Graph.Graph.GetAttrs | graph.go:186-195 | the graph's own attributes when the scope is the graph's name, else the named subgraph's; none (the panic) when the scope is neither |
| Graph.Graph.AddAttr | graph.go:198-200 | fails, changing nothing, exactly when the scope is unknown; otherwise sets the one field in that scope's attributes only |
| Graph.Opened | graph.go:204 | registering a subgraph adds it with empty attributes if absent and keeps every existing subgraph |
| Graph.OverwriteStep | graph.go:205-207 | writing one more key of the supplied attributes extends the overwrite by that key |
| Graph.Graph.AddSubGraph | graph.go:203-208 | the subgraph exists afterwards and its attributes are overwritten with the supplied ones (the graph's own when the name is the graph's) |
| Graph.DetachedIsolates | graph.go:132-139 | after removing a node's edges it has in- and out-degree 0 and every edge not touching it keeps its record |
| Graph.Detach | graph.go:133-139 | the two edge-removal loops of `delNode` remove exactly the edges incident to the name |
| Graph.Graph.DelNode | graph.go:132-143 | every incident edge is removed, then the node is deleted from the registry; the graph stays valid |
| Graph.CollectRegion | graph.go:117-127 | the region holds `entry`, is closed under successors of every member but `exit`, and is the least such set |
| Graph.PrunedStep | graph.go:126 | deleting one more node from a registry pruned of a set yields the registry pruned of the set plus that node |
| Graph.PrunedNames | graph.go:126 | the names of the pruned nodes leave `Lookup` and every other name stays |
| Graph.DetachedMore | graph.go:134-139 | removing one more node's edges equals removing the edges of the enlarged set |
| Graph.Graph.RemoveUntil | graph.go:117-127 | deletes exactly the least region described above (entry, exit if reached, everything reachable from entry without passing exit), with all their edges; survivors' lists are filtered; the graph stays valid |
| Graph.Graph.LinkPred | graph.go:90-93 | the predecessor gains the new node as successor and vice versa; the edge `pred -> name` is stored directed with the attributes of `pred -> entry`, and the step reports whether that record existed |
| Graph.Graph.LinkPreds | graph.go:89-94 | the loop succeeds exactly when every `pred -> entry` record exists, and then reaches `LinkedPreds` (links and edges for every predecessor) |
| Graph.Graph.LinkSucc | graph.go:98-101 | the successor gains the new node as predecessor and vice versa; the edge `name -> succ` is stored directed with the attributes of `exit -> succ` |
| Graph.Graph.LinkSuccs | graph.go:97-102 | the loop succeeds exactly when every `exit -> succ` record exists, and then reaches `LinkedSuccs` |
| Graph.AddedAlone | graph.go:85-86 | the node `Merge` adds is fresh, named `name`, consistent and not yet anyone's neighbour |
| Graph.RetargetableIff | graph.go:92-93 | the re-targeting can read its edge records exactly when `pred -> entry` is stored for every predecessor of `entry` and `exit -> succ` for every successor of `exit` |
| Graph.RetargetedLoops | graph.go:85-102 | the two loops together reach `Retargeted`: the new node has `entry`'s predecessors and `exit`'s successors, each neighbour links back to it, and the new edges carry the replaced edges' attributes |
| Graph.Graph.Retarget | graph.go:85-102 | creates the node under the next handle, records it under the graph, and re-targets as `Retargeted` describes exactly when the edge records exist |
| Graph.Graph.Merge | graph.go:68-111 | refuses with `SameNode`, `NameTaken` or `NotIdom` exactly when the corresponding check fails, in that order, and then changes nothing; otherwise re-targets and then deletes the least region between `entry` and `exit`, keeping the graph valid |
| Graph.MergedLists | graph.go:85-105 | after the merge the new node is registered under `name`; its predecessors are `entry`'s former ones and its successors `exit`'s former ones, less the deleted region |
| Graph.MergedEdgesIn | graph.go:89-94 | for every surviving predecessor of `entry` a directed edge `pred -> name` with the attributes of `pred -> entry` survives the merge |
| Graph.MergedEdgesOut | graph.go:97-102 | for every surviving successor of `exit` a directed edge `name -> succ` with the attributes of `exit -> succ` survives the merge |
| Graph.Survives | graph.go:105 | a node outside the region keeps its name out of the deleted names |
| Analyse.ChainAt | analyse.go:169-191 | an edge statement with k steps yields exactly k edges; the i-th goes from endpoint i (with its port) to endpoint i+1 (with its port), takes that step's operator as direction and carries the statement's attributes |
| Analyse.ChainSnoc | analyse.go:178-190 | one more step appends one edge from the previous destination |
| Analyse.PutAllKeys | analyse.go:186 | after storing a sequence of edges the stored keys are exactly the old keys and each record's endpoints |
| Analyse.ChainRecorded | analyse.go:178-190 | after an edge statement the stored keys are exactly the old keys and one (source, destination) pair per step |
| Analyse.PutAllKeyed | analyse.go:186 | storing a sequence of edges stores each under its own endpoints and keeps the old keys |
| Analyse.AddedConsistent | analyse.go:175 | adding a node keeps the registry consistent |
| Analyse.AddedRegisters | analyse.go:175 | the names in `Lookup` afterwards are exactly the old names and the added one |
| Analyse.AddedAll | analyse.go:174-184 | adding the endpoint nodes keeps every name in `Lookup` with an attribute map, which `Add` relies on |
| Analyse.AddedAllConsistent | analyse.go:174-184 | adding the endpoint nodes keeps the registry consistent |
| Analyse.AddedAllRegisters | analyse.go:174-184 | the names in `Lookup` afterwards are exactly the old names and the endpoints that are nodes |
| Analyse.RelatedAllRecords | analyse.go:175 | every added endpoint is recorded as a child of the current scope; other scopes are untouched |
| Analyse.ScopedIgnores | analyse.go:194-211 | statements other than the three attribute blocks leave a scope's defaults unchanged |
| Analyse.ScopedTwice | analyse.go:194-211 | applying the same attribute block twice changes the defaults as once |
| Analyse.AddIfNode | analyse.go:174-176 | an endpoint is added with the current default node attributes exactly when it is a node (not a subgraph) |
| Analyse.RecordStep | analyse.go:179-189 | one step adds its destination if it is a node and stores the edge from the previous endpoint, so the loop state after `i` steps (chain stored, node endpoints added under the scope) becomes the state after `i + 1` |
| Analyse.RecordSteps | analyse.go:178-190 | the loop stores the whole chain and adds every node endpoint under the scope |
| Analyse.RecordChain | analyse.go:172-190 | the source and every destination that is a node are added with the default node attributes; the edges are stored exactly as `Chain` describes |
| Analyse.StmtVisitor.constructor | analyse.go:110-112 | a new visitor writes to the given scope and starts with empty node, edge and graph defaults |
| Analyse.StmtVisitor.VisitNode | analyse.go:162-167 | the node is upserted under the scope with its explicit attributes, ammended with the scope's default node attributes only for keys it lacks |
| Analyse.StmtVisitor.VisitEdge | analyse.go:169-192 | the chain's edges carry the statement's attributes ammended with the default edge attributes; the node endpoints are added with the default node attributes under the scope |
| Analyse.StmtVisitor.VisitNodeAttrs | analyse.go:194-197 | only this scope's default node attributes are overwritten |
| Analyse.StmtVisitor.VisitEdgeAttrs | analyse.go:199-202 | only this scope's default edge attributes are overwritten |
| Analyse.StmtVisitor.VisitGraphAttrs | analyse.go:204-211 | the scope's own attributes and its default graph attributes are both overwritten with the block; no other scope changes |
| Analyse.StmtVisitor.VisitAttr | analyse.go:219-222 | the one field is set in the scope's attributes; no subgraph is created, and no other scope's attributes change (the graph's own are untouched when the scope is a subgraph); the state becomes `SetAt` of the old one |
| Analyse.StmtVisitor.OpenSubGraph | analyse.go:213-217 | the subgraph exists afterwards with the parent's accumulated graph defaults written over its attributes, no other scope's attributes change, and the child visitor starts with empty defaults; the state becomes `Opening` of the old one |
| Analyse.StmtVisitor.VisitSub | analyse.go:213-217 | visiting a subgraph opens it with this scope's graph defaults and walks its statements in its own scope: the state becomes exactly `AppliedSub` of the old one |
| Analyse.StmtVisitor.VisitEdgeStmt | analyse.go:169-192 | the edge statement's chain and node endpoints, then its subgraph endpoints in order: the state becomes exactly `Applied` of the old one |
| Analyse.StmtVisitor.Visit | analyse.go:122-144 | each statement changes this scope's defaults only as its kind says, and changes the graph (registry with node order and attributes, edge records, relations, graph and subgraph attributes) exactly as `Applied` says |
| Analyse.StmtVisitor.Walk | analyse.go:122-144 | walking a statement list folds the defaults left to right, changes the graph exactly as `AppliedAll` says, and so registers the footprint of every statement and loses nothing |
| Analyse.Written | graph.go:198-208 | writing a block to a scope overwrites that scope's attributes only: the graph's own when the scope is the graph, else that subgraph's, with every other subgraph, the registry, the edges and the relations unchanged |
| Analyse.SetAt | graph.go:186-200 | setting one field changes that scope's attributes only, the graph's own first, else the subgraph's |
| Analyse.Opening | graph.go:203-208 | the subgraph exists afterwards, opened empty if absent, with the block written over its attributes; no other scope changes |
| Analyse.AppliedRegisters | analyse.go:122-222 | one statement registers exactly the nodes, edge keys and subgraphs it mentions at any depth (its footprint) on top of what was registered: nothing it does not mention is added and nothing is removed |
| Analyse.NodeStmtRegisters | analyse.go:162-167 | a node statement registers exactly its node |
| Analyse.EdgeStmtRegisters | analyse.go:169-192 | an edge statement registers exactly its node endpoints, its chain's pairs and the footprint of its subgraph endpoints |
| Analyse.AppliedAllRegisters | analyse.go:122-144 | a statement list registers exactly the union of its statements' footprints on top of what was registered |
| Analyse.AppliedSubRegisters | analyse.go:213-217 | a subgraph registers exactly itself and its statements' footprint |
| Wiring.Targets | analyse.go:67-78 | resolving a destination fails exactly when it is neither a node nor a subgraph; otherwise it yields that node, or the subgraph's direct children, each once |
| Wiring.LinkRow | analyse.go:68-76 | linking `from` to each target succeeds exactly when every target has a node, and then appends exactly those links |
| Wiring.RowGrown | analyse.go:68-76 | the appended links are one per target, counted as a multiset, and the registry stays consistent |
| Wiring.LinkAll | analyse.go:67-80 | linking succeeds exactly when there is nothing to link or `from` exists and every target has a node, and then grows adjacency by exactly those links |
| Wiring.AddEdges | analyse.go:67-80 | `addEdges` does not panic exactly when its destination resolves and every resulting link has both ends; it then adds exactly one link from `from` to each resolved node |
| Wiring.WirableNode | analyse.go:33-35 | a stored edge from a node is wirable exactly when `addEdges` from that node is, and fans out to the same links |
| Wiring.WirableSub | analyse.go:36-41 | a stored edge from a subgraph is wirable exactly when `addEdges` is for each direct child, and fans out to the union of their links |
| Wiring.FanOut | analyse.go:37-41 | the children loop succeeds exactly when every child can be wired, and then grows adjacency by the links of every child |
| Wiring.AddKey | analyse.go:33-45 | one stored edge is wired exactly when it is wirable, growing adjacency by exactly its fan-out |
| Wiring.AllWirableEach | analyse.go:31-47 | wiring a list of stored edges succeeds exactly when each of them is wirable |
| Wiring.WireAll | analyse.go:31-47 | the loop succeeds exactly when every listed edge is wirable and then grows adjacency by the union of their fan-outs, with multiplicity |
| Wiring.Listing | analyse.go:31 | the map's keys are listed each exactly once, in an unspecified order |
| Wiring.LinksOfCount | analyse.go:31-47 | the links added for a list of distinct edges count, for each pair, the stored edges whose fan-out contains it |
| Wiring.GrownWired | analyse.go:31-47 | growth by those links is the order-independent `Wired` relation |
| Wiring.Wire | analyse.go:31-47 | wiring panics exactly when some stored edge is not wirable; otherwise every list keeps its old links as a prefix and each pair of nodes gains one link per stored edge fanning out to it, on both sides |
| Wiring.FanNodes | analyse.go:33-35 | an edge between two nodes wires exactly one link, between those nodes |
| Wiring.FanToSubGraph | analyse.go:71-75 | an edge from a node into a subgraph wires one link to each direct child of that subgraph that is a node, one level only |
| Wiring.WiredLinks | analyse.go:31-47 | after wiring, every link a stored edge fans out to is present in both the successor and the predecessor list |
| Build.FirstEntry | analyse.go:51-52 | the position found is the first node labelled "entry" at or after the start, or the list length when there is none |
| Build.FindEntry | analyse.go:51-52 | the search loop finds the first node labelled "entry" |
| Build.PromotedEntryFirst | analyse.go:50-60 | when some node is labelled "entry", the first such node is at position 0 afterwards and the former first node sits at the entry node's old position |
| Build.PromotedNoEntry | analyse.go:50-60 | without an entry node the registry is unchanged |
| Build.SwapPermutes | analyse.go:55 | the swap permutes the list |
| Build.SwapPositioned | analyse.go:55-57 | after the swap both nodes' `Index` match their positions and every other node's still does |
| Build.PromotedPermutes | analyse.go:50-60 | the promotion only permutes `Nodes` (all other positions keep their node) and renumbers `Index`; the rest of the registry is unchanged |
| Build.PromotedConsistent | analyse.go:50-60 | the promotion keeps the registry consistent |
| Build.PromotedIdempotent | analyse.go:50-60 | promoting twice equals promoting once |
| Build.Swap | analyse.go:55-57 | the list entries at 0 and `i` trade places and take their positions as `Index` |
| Build.PromoteEntry | analyse.go:50-60 | the promotion loop reaches `Promoted(old state)` and keeps the registry valid |
| Build.AnalyseInto | analyse.go:83-108 | the graph takes the AST's strictness, direction and name, then changes exactly as `AppliedAll` says for the statements in the graph's own scope with no defaults; every node, edge and subgraph they mention is recorded |
| Build.AnalysisRegisters | analyse.go:24-26 | a graph analysed from an AST registers exactly the nodes, edges and subgraphs its statements mention, at any depth, and nothing else |
| Build.NewAnalysedGraph | analyse.go:24-65 | a new graph with the AST's header whose registry, edges, relations and attributes before wiring are exactly `Analysis(ast)`, so its names, edge keys and subgraphs are exactly the statements' footprint; wiring panics exactly when some stored edge is not wirable; otherwise adjacency is the order-independent `Wired` growth and the entry node has been promoted |

## Left out

- The dominator tree (`buildDomTree`, `Idom`, `Dominates`) is not part of this model. `Merge` takes the immediate dominator as a parameter `idom`, and `Less` takes `dominates`. The recalculation after `Merge` and at the end of `NewAnalysedGraph` is omitted.
- Nodes.Nodes.DomSorted: promises only a permutation of `Nodes`. `Less` is not a strict weak order, since it ranks an entry node before itself (`DomLessShape`). So the order `sort.Sort` produces is not specified. The model sorts with an insertion sort over the same `Less` and `Swap`.
- `sort.Strings` is modelled by its result only: `SortStrings` is an insertion sort that yields an ascending permutation.
- The `ast` package (the parser, `Walk`, `GetMap`, `String`, `IsNode`, `GetPort`) is not part of this model.
  - The AST is the `Ast` datatype, with attribute lists already as maps.
  - `IsNode()` is true for a `NodeId` endpoint.
  - `Walk`'s descent into edge-statement endpoints and subgraph bodies is the recursion of `StmtVisitor.Visit`. `AttrList` and unknown statements are not represented.
- `Edges`, `SubGraphs`, `Relations` and `Attrs.Ammend`/`Copy` are not part of this model.
  - The edge registry is one map keyed by (source, destination) name, and a later add replaces the record. `SrcToDsts` and `DstToSrcs` are the views `DstsOf` and `SrcsOf`.
  - `Attrs.Ammend` (used by `Nodes.Add`) is taken to have the semantics of `ammend`.
- In `edgeStmt`, every edge record of one chain shares one Go attribute map. The model gives each record its own copy, so a later in-place change to one record is not seen through the others.
- Go map iteration order is not modelled:
  - the order of the wiring loop, so the order in which links are appended is unspecified (`Listing`) and adjacency growth is stated as multisets;
  - the order in which `graphAttrs` and `AddSubGraph` write keys, which the model does as one overwrite.
- Wiring.Wire: on a panic (`ok` false) the state of the registry is unspecified. Go may already have appended some links, or appended a nil successor before the nil dereference.
- `removeUntil` is modelled as the least region it visits (with a visited set), deleted once each. The Go recursion does not terminate on a cycle that avoids `exit`, and it deletes a node reachable twice twice. These cases are not modelled.
- Graph.Graph.Merge: when a predecessor or successor has no edge record (possible after subgraph fan-out), Go dereferences a nil `*Edge`. The model returns `Fault` and leaves the state unspecified.
- Analyse.Written, Analyse.SetAt: a scope that is neither the graph nor a known subgraph, where Go panics, is left unchanged. The visitor's scope always exists (`StmtVisitor.Valid`), so the walk never meets that case; `Graph.Graph.AddAttr` models the panic itself.
- Error texts (`fmt.Errorf`) and panic messages are not modelled. The three `Merge` errors are `MergeError` variants, and `getAttrs`'s panic is a `None` result.
- The GC-clearing `*node = Node{}` in `del` is modelled as removing the handle from every map of the registry.
- `node.Attrs != nil` checks: every registered node has an attribute map, because a nil map from `Merge` is the empty map.
- `IsNode` and `IsSubGraph` are plain membership tests (`name in Lookup`, `name in SubGraphs`). They are used by `Targets` and `Resolve`.
- Graph.Graph.In, Graph.Graph.Out: the contracts state only when the count is 0. How an added edge changes the count is stated by `PutDegrees` over `SrcsOf`/`DstsOf`.
