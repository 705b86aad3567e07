/** The pass of analyse.go that turns a parsed DOT graph into a `Graph`: a
    visitor over the statements that keeps the default node, edge and graph
    attributes of its scope, then the wiring of the node links from the
    recorded edges and the promotion of the entry node. */
module Analyse {
  import opened Attrs
  import Nodes
  import Graph

  type Handle = Nodes.Handle

  // ---------------------------------------------------------------------
  // The syntax tree, with attribute lists already turned into maps
  // ---------------------------------------------------------------------

  /** An edge endpoint: a node with its port, or a subgraph. */
  datatype Location = NodeId(id: string, port: string) | SubGraphLoc(sub: SubGraph)

  /** One `-> dst` or `-- dst` step of an edge statement; `directed` is the
      edge operator. */
  datatype EdgeRHS = EdgeRHS(directed: bool, dst: Location)

  datatype SubGraph = SubGraph(id: string, stmts: seq<Stmt>)

  datatype Stmt =
    | NodeStmt(node: string, attrs: Attrs)
    | EdgeStmt(src: Location, rhs: seq<EdgeRHS>, attrs: Attrs)
    | NodeAttrs(attrs: Attrs)
    | EdgeAttrs(attrs: Attrs)
    | GraphAttrs(attrs: Attrs)
    | SubGraphStmt(sub: SubGraph)
    | Attr(field: string, value: string)

  datatype Ast = Ast(strict: bool, digraph: bool, id: string, stmts: seq<Stmt>)

  function IdOf(l: Location): string
  {
    match l
    case NodeId(id, _) => id
    case SubGraphLoc(sub) => sub.id
  }

  /** A subgraph endpoint has no port. */
  function PortOf(l: Location): string
  {
    match l
    case NodeId(_, port) => port
    case SubGraphLoc(_) => ""
  }

  // ---------------------------------------------------------------------
  // Edge statements
  // ---------------------------------------------------------------------

  /** The edge records of an edge statement, folded left to right as the
      source does: each step goes from the previous destination (first the
      source) to its own destination. */
  function Chain(from: Location, rhs: seq<EdgeRHS>, a: Attrs): seq<Graph.Edge>
    decreases |rhs|
  {
    if rhs == [] then []
    else
      var step := Graph.Edge(IdOf(from), PortOf(from), IdOf(rhs[0].dst), PortOf(rhs[0].dst), rhs[0].directed, a);
      [step] + Chain(rhs[0].dst, rhs[1..], a)
  }

  /** The endpoint an edge statement's `i`-th step starts from. */
  function StepSource(src: Location, rhs: seq<EdgeRHS>, i: nat): Location
    requires i <= |rhs|
  {
    if i == 0 then src else rhs[i - 1].dst
  }

  /** An edge statement with k steps records k edges; the i-th goes from
      endpoint i to endpoint i+1, with the previous destination's port as
      its source port, its own operator and the statement's attributes. */
  lemma {:induction false} ChainAt(src: Location, rhs: seq<EdgeRHS>, a: Attrs)
    ensures |Chain(src, rhs, a)| == |rhs|
    ensures forall i :: 0 <= i < |rhs| ==>
      var from := StepSource(src, rhs, i);
      Chain(src, rhs, a)[i] == Graph.Edge(IdOf(from), PortOf(from), IdOf(rhs[i].dst), PortOf(rhs[i].dst), rhs[i].directed, a)
    decreases |rhs|
  {
    if rhs != [] {
      ChainAt(rhs[0].dst, rhs[1..], a);
      forall i | 1 <= i < |rhs|
        ensures StepSource(rhs[0].dst, rhs[1..], i - 1) == StepSource(src, rhs, i)
      {
      }
    }
  }

  /** Extending an edge statement by one step adds one edge at the end. */
  lemma {:induction false} ChainSnoc(src: Location, rhs: seq<EdgeRHS>, step: EdgeRHS, a: Attrs)
    ensures var from := StepSource(src, rhs + [step], |rhs|);
      Chain(src, rhs + [step], a)
        == Chain(src, rhs, a) + [Graph.Edge(IdOf(from), PortOf(from), IdOf(step.dst), PortOf(step.dst), step.directed, a)]
    decreases |rhs|
  {
    if rhs != [] {
      assert (rhs + [step])[1..] == rhs[1..] + [step];
      ChainSnoc(rhs[0].dst, rhs[1..], step, a);
    }
  }

  /** The (source, destination) names of an edge statement's steps. */
  function ChainKeys(src: Location, rhs: seq<EdgeRHS>): set<(string, string)>
  {
    set i | 0 <= i < |rhs| :: (IdOf(StepSource(src, rhs, i)), IdOf(rhs[i].dst))
  }

  /** The edge map after recording `es` in order. */
  function PutAll(edges: Graph.EdgeMap, es: seq<Graph.Edge>): Graph.EdgeMap
  {
    if es == [] then edges else Graph.Put(PutAll(edges, es[..|es| - 1]), es[|es| - 1])
  }

  /** Recording keeps edge records under their own endpoints. */
  lemma {:induction false} PutAllKeyed(edges: Graph.EdgeMap, es: seq<Graph.Edge>)
    requires Graph.WellKeyed(edges)
    ensures Graph.WellKeyed(PutAll(edges, es))
    ensures forall e :: e in es ==> (e.src, e.dst) in PutAll(edges, es)
    ensures edges.Keys <= PutAll(edges, es).Keys
  {
    if es != [] {
      var init := es[..|es| - 1];
      PutAllKeyed(edges, init);
      Graph.PutKeyed(PutAll(edges, init), es[|es| - 1]);
      assert forall e :: e in es ==> e in init || e == es[|es| - 1];
    }
  }

  /** The name of an endpoint that is a node: only those are added. */
  function NodeIdOf(l: Location): seq<string>
  {
    if l.NodeId? then [l.id] else []
  }

  /** The names of the destinations that are nodes, in order. */
  function DstIds(rhs: seq<EdgeRHS>): seq<string>
  {
    if rhs == [] then [] else DstIds(rhs[..|rhs| - 1]) + NodeIdOf(rhs[|rhs| - 1].dst)
  }

  /** The nodes an edge statement adds, in the order it adds them. */
  function EdgeNodeIds(src: Location, rhs: seq<EdgeRHS>): seq<string>
  {
    NodeIdOf(src) + DstIds(rhs)
  }

  lemma AddedConsistent(r: Nodes.Registry, name: string, a: Attrs)
    requires Nodes.Consistent(r)
    ensures Nodes.Consistent(Nodes.Added(r, name, a))
  {
    if name in r.lookup {
      Nodes.AddedExisting(r, name, a);
    } else {
      Nodes.AddedNew(r, name, a);
    }
  }

  /** What `Added` relies on: every name in `Lookup` has attributes. A
      consistent registry has it, and adding a node keeps it. */
  ghost predicate Addable(r: Nodes.Registry)
  {
    forall name :: name in r.lookup ==> r.lookup[name] in r.attrs
  }

  /** The registry after `AddNode` of each name in order, all with `a`. */
  function AddedAll(r: Nodes.Registry, names: seq<string>, a: Attrs): (r': Nodes.Registry)
    requires Addable(r)
    ensures Addable(r')
  {
    if names == [] then r
    else Nodes.Added(AddedAll(r, names[..|names| - 1], a), names[|names| - 1], a)
  }

  /** Adding the names keeps the registry consistent. */
  lemma {:induction false} AddedAllConsistent(r: Nodes.Registry, names: seq<string>, a: Attrs)
    requires Nodes.Consistent(r)
    ensures Nodes.Consistent(AddedAll(r, names, a))
  {
    if names != [] {
      AddedAllConsistent(r, names[..|names| - 1], a);
      AddedConsistent(AddedAll(r, names[..|names| - 1], a), names[|names| - 1], a);
    }
  }

  /** The names registered afterwards are exactly those registered before
      and the added ones. */
  lemma {:induction false} AddedAllRegisters(r: Nodes.Registry, names: seq<string>, a: Attrs)
    requires Addable(r)
    ensures AddedAll(r, names, a).lookup.Keys == r.lookup.Keys + (set name | name in names)
  {
    if names != [] {
      var init, last := names[..|names| - 1], names[|names| - 1];
      assert names == init + [last];
      var prev := AddedAll(r, init, a);
      AddedAllRegisters(r, init, a);
      AddedRegisters(prev, last, a);
      KeysSnoc(r.lookup.Keys, prev.lookup.Keys, AddedAll(r, names, a).lookup.Keys, init, last);
    }
  }

  lemma KeysSnoc(k0: set<string>, k1: set<string>, k2: set<string>, names: seq<string>, last: string)
    requires k1 == k0 + (set name | name in names) && k2 == k1 + {last}
    ensures k2 == k0 + (set name | name in names + [last])
  {
    assert (set name | name in names + [last]) == (set name | name in names) + {last};
  }

  lemma AddedRegisters(r: Nodes.Registry, name: string, a: Attrs)
    requires Addable(r)
    ensures Nodes.Added(r, name, a).lookup.Keys == r.lookup.Keys + {name}
  {
  }

  /** The parent-to-children relation after `AddNode` of each name under
      `parent`. */
  function RelatedAll(relations: map<string, set<string>>, parent: string, names: seq<string>): map<string, set<string>>
  {
    if names == [] then relations
    else Graph.Related(RelatedAll(relations, parent, names[..|names| - 1]), parent, names[|names| - 1])
  }

  /** Every added name becomes a child of `parent`, and the children of
      every other parent are left alone. */
  lemma {:induction false} RelatedAllRecords(relations: map<string, set<string>>, parent: string, names: seq<string>)
    ensures var r := RelatedAll(relations, parent, names);
      && (names != [] ==> parent in r && forall name :: name in names ==> name in r[parent])
      && (forall p :: p in relations && p != parent ==> p in r && r[p] == relations[p])
  {
    if names != [] {
      var init := names[..|names| - 1];
      RelatedAllRecords(relations, parent, init);
      assert forall name :: name in names ==> name in init || name == names[|names| - 1];
    }
  }

  // ---------------------------------------------------------------------
  // Scope defaults
  // ---------------------------------------------------------------------

  /** The default node, edge and graph attributes of one scope. */
  datatype Defaults = Defaults(node: Attrs, edge: Attrs, graph: Attrs)

  /** How one statement changes its scope's defaults: only the three
      attribute blocks do, each by overwriting its own kind; a subgraph's
      statements change its own scope, never this one. */
  function Scoped(d: Defaults, s: Stmt): Defaults
  {
    match s
    case NodeAttrs(a) => d.(node := Overwrite(d.node, a))
    case EdgeAttrs(a) => d.(edge := Overwrite(d.edge, a))
    case GraphAttrs(a) => d.(graph := Overwrite(d.graph, a))
    case _ => d
  }

  function ScopedAll(d: Defaults, stmts: seq<Stmt>): Defaults
  {
    if stmts == [] then d else Scoped(ScopedAll(d, stmts[..|stmts| - 1]), stmts[|stmts| - 1])
  }

  /** Statements other than attribute blocks, such as a subgraph whatever
      it contains, leave the scope's defaults alone. */
  lemma {:induction false} ScopedIgnores(d: Defaults, stmts: seq<Stmt>)
    requires forall s :: s in stmts ==> !s.NodeAttrs? && !s.EdgeAttrs? && !s.GraphAttrs?
    ensures ScopedAll(d, stmts) == d
  {
    if stmts != [] {
      ScopedIgnores(d, stmts[..|stmts| - 1]);
    }
  }

  /** Repeating a block of defaults changes nothing more. */
  lemma ScopedTwice(d: Defaults, s: Stmt)
    ensures Scoped(Scoped(d, s), s) == Scoped(d, s)
  {
    match s
    case NodeAttrs(a) => OverwriteIdempotent(d.node, a);
    case EdgeAttrs(a) => OverwriteIdempotent(d.edge, a);
    case GraphAttrs(a) => OverwriteIdempotent(d.graph, a);
    case _ =>
  }

  // ---------------------------------------------------------------------
  // What a walk leaves registered
  // ---------------------------------------------------------------------

  /** The node names, edge keys and subgraph names that statements mention,
      at every depth. */
  datatype Footprint = Footprint(nodes: set<string>, edges: set<(string, string)>, subs: set<string>)

  function Join(a: Footprint, b: Footprint): Footprint
  {
    Footprint(a.nodes + b.nodes, a.edges + b.edges, a.subs + b.subs)
  }

  const NoFootprint := Footprint({}, {}, {})

  function StmtsFootprint(stmts: seq<Stmt>): Footprint
    decreases stmts
  {
    if stmts == [] then NoFootprint
    else Join(StmtsFootprint(stmts[..|stmts| - 1]), StmtFootprint(stmts[|stmts| - 1]))
  }

  function StmtFootprint(s: Stmt): Footprint
    decreases s
  {
    match s
    case NodeStmt(id, _) => Footprint({id}, {}, {})
    case EdgeStmt(src, rhs, a) =>
      var own := Footprint(
        (set id | id in EdgeNodeIds(src, rhs)),
        ChainKeys(src, rhs),
        {});
      Join(Join(own, LocFootprint(src)), RhsFootprint(rhs))
    case SubGraphStmt(sub) => SubFootprint(sub)
    case _ => NoFootprint
  }

  function SubFootprint(sub: SubGraph): Footprint
    decreases sub
  {
    Join(Footprint({}, {}, {sub.id}), StmtsFootprint(sub.stmts))
  }

  function LocFootprint(l: Location): Footprint
    decreases l
  {
    match l
    case NodeId(_, _) => NoFootprint
    case SubGraphLoc(sub) => SubFootprint(sub)
  }

  function RhsFootprint(rhs: seq<EdgeRHS>): Footprint
    decreases rhs
  {
    if rhs == [] then NoFootprint
    else Join(RhsFootprint(rhs[..|rhs| - 1]), StepFootprint(rhs[|rhs| - 1]))
  }

  function StepFootprint(step: EdgeRHS): Footprint
    decreases step
  {
    LocFootprint(step.dst)
  }

  // ---------------------------------------------------------------------
  // Step lemmas for the edge statement loop
  // ---------------------------------------------------------------------

  /** The keys stored after recording `es` are the old keys and the
      endpoints of each record. */
  lemma {:induction false} PutAllKeys(edges: Graph.EdgeMap, es: seq<Graph.Edge>)
    ensures PutAll(edges, es).Keys == edges.Keys + (set e | e in es :: (e.src, e.dst))
  {
    if es != [] {
      var init := es[..|es| - 1];
      PutAllKeys(edges, init);
      assert (set e | e in es :: (e.src, e.dst)) == (set e | e in init :: (e.src, e.dst)) + {(es[|es| - 1].src, es[|es| - 1].dst)};
    }
  }

  /** After an edge statement the stored keys are exactly the earlier ones
      and one per step of the chain. */
  lemma ChainRecorded(edges: Graph.EdgeMap, src: Location, rhs: seq<EdgeRHS>, a: Attrs)
    ensures PutAll(edges, Chain(src, rhs, a)).Keys == edges.Keys + ChainKeys(src, rhs)
  {
    var es := Chain(src, rhs, a);
    ChainAt(src, rhs, a);
    PutAllKeys(edges, es);
    forall k | k in ChainKeys(src, rhs)
      ensures k in (set e | e in es :: (e.src, e.dst))
    {
      var i :| 0 <= i < |rhs| && k == (IdOf(StepSource(src, rhs, i)), IdOf(rhs[i].dst));
      assert es[i] in es;
    }
    forall e | e in es
      ensures (e.src, e.dst) in ChainKeys(src, rhs)
    {
      var i :| 0 <= i < |es| && es[i] == e;
    }
  }

  lemma PutAllSnoc(edges: Graph.EdgeMap, es: seq<Graph.Edge>, e: Graph.Edge)
    ensures PutAll(edges, es + [e]) == Graph.Put(PutAll(edges, es), e)
  {
    assert (es + [e])[..|es|] == es;
  }

  lemma DstIdsStep(rhs: seq<EdgeRHS>, i: nat)
    requires i < |rhs|
    ensures DstIds(rhs[..i + 1]) == DstIds(rhs[..i]) + NodeIdOf(rhs[i].dst)
  {
    assert rhs[..i + 1][..i] == rhs[..i];
  }

  /** What one more step of the loop adds to the nodes and the edges. */
  lemma Advanced(src: Location, rhs: seq<EdgeRHS>, i: nat, a: Attrs, ids0: seq<string>)
    requires i < |rhs|
    ensures ids0 + DstIds(rhs[..i + 1]) == ids0 + DstIds(rhs[..i]) + NodeIdOf(rhs[i].dst)
    ensures var from := StepSource(src, rhs, i);
      Chain(src, rhs[..i + 1], a)
        == Chain(src, rhs[..i], a) + [Graph.Edge(IdOf(from), PortOf(from), IdOf(rhs[i].dst), PortOf(rhs[i].dst), rhs[i].directed, a)]
  {
    EdgeStep(src, rhs, i, a);
    DstIdsStep(rhs, i);
    assert ids0 + DstIds(rhs[..i]) + NodeIdOf(rhs[i].dst) == ids0 + (DstIds(rhs[..i]) + NodeIdOf(rhs[i].dst));
  }

  lemma AddedAllSnoc(r: Nodes.Registry, names: seq<string>, name: string, a: Attrs)
    requires Addable(r)
    ensures AddedAll(r, names + [name], a) == Nodes.Added(AddedAll(r, names, a), name, a)
  {
    assert (names + [name])[..|names|] == names;
  }

  lemma RelatedAllSnoc(relations: map<string, set<string>>, parent: string, names: seq<string>, name: string)
    ensures RelatedAll(relations, parent, names + [name]) == Graph.Related(RelatedAll(relations, parent, names), parent, name)
  {
    assert (names + [name])[..|names|] == names;
  }

  /** One more step of an edge statement: one more endpoint, and one more
      edge from the previous destination. */
  lemma EdgeStep(src: Location, rhs: seq<EdgeRHS>, i: nat, a: Attrs)
    requires i < |rhs|
    ensures var from := StepSource(src, rhs, i);
      Chain(src, rhs[..i + 1], a)
        == Chain(src, rhs[..i], a) + [Graph.Edge(IdOf(from), PortOf(from), IdOf(rhs[i].dst), PortOf(rhs[i].dst), rhs[i].directed, a)]
  {
    assert rhs[..i + 1] == rhs[..i] + [rhs[i]];
    ChainSnoc(src, rhs[..i], rhs[i], a);
  }

  // ---------------------------------------------------------------------
  // The loop of an edge statement
  // ---------------------------------------------------------------------

  /** The loop of `edgeStmt` in scope `scope` with default node attributes
      `na`: the source, then each destination, is added if it is a node,
      and each step records the edge from the previous endpoint. */
  method RecordChain(g: Graph.Graph, scope: string, na: Attrs, src: Location, rhs: seq<EdgeRHS>, attrs: Attrs)
    requires g.Valid()
    modifies g`edges, g`relations, g.nodes
    ensures g.Valid()
    ensures g.edges == PutAll(old(g.edges), Chain(src, rhs, attrs))
    ensures g.nodes.State() == AddedAll(old(g.nodes.State()), EdgeNodeIds(src, rhs), na)
    ensures g.relations == RelatedAll(old(g.relations), scope, EdgeNodeIds(src, rhs))
  {
    ghost var r0, rel0 := g.nodes.State(), g.relations;
    assert [] + NodeIdOf(src) == NodeIdOf(src);
    AddIfNode(g, scope, na, src, r0, rel0, []);
    RecordSteps(g, scope, na, src, rhs, attrs, r0, rel0, NodeIdOf(src));
  }

  /** The state of the loop of `edgeStmt` after its first `i` steps, from
      the registry `r0`, relations `rel0` and edges `e0` it started with
      and the names `ids0` it had added before the loop. */
  ghost predicate Reached(g: Graph.Graph, scope: string, na: Attrs, src: Location, rhs: seq<EdgeRHS>, attrs: Attrs,
                          r0: Nodes.Registry, rel0: map<string, set<string>>, e0: Graph.EdgeMap, ids0: seq<string>, i: nat)
    reads g, g.nodes
  {
    && i <= |rhs| && g.Valid() && Nodes.Consistent(r0)
    && g.edges == PutAll(e0, Chain(src, rhs[..i], attrs))
    && g.nodes.State() == AddedAll(r0, ids0 + DstIds(rhs[..i]), na)
    && g.relations == RelatedAll(rel0, scope, ids0 + DstIds(rhs[..i]))
  }

  /** The loop proper, after the source has been added. */
  method RecordSteps(g: Graph.Graph, scope: string, na: Attrs, src: Location, rhs: seq<EdgeRHS>, attrs: Attrs,
                     ghost r0: Nodes.Registry, ghost rel0: map<string, set<string>>, ghost ids0: seq<string>)
    requires g.Valid() && Nodes.Consistent(r0)
    requires g.nodes.State() == AddedAll(r0, ids0, na) && g.relations == RelatedAll(rel0, scope, ids0)
    modifies g`edges, g`relations, g.nodes
    ensures g.Valid()
    ensures g.edges == PutAll(old(g.edges), Chain(src, rhs, attrs))
    ensures g.nodes.State() == AddedAll(r0, ids0 + DstIds(rhs), na)
    ensures g.relations == RelatedAll(rel0, scope, ids0 + DstIds(rhs))
  {
    ghost var e0 := g.edges;
    assert rhs[..0] == [] && ids0 + [] == ids0;
    var from := src;
    var i := 0;
    while i < |rhs|
      invariant Reached(g, scope, na, src, rhs, attrs, r0, rel0, e0, ids0, i)
      invariant from == StepSource(src, rhs, i)
    {
      RecordStep(g, scope, na, src, rhs, attrs, from, i, r0, rel0, e0, ids0);
      from := rhs[i].dst;
      i := i + 1;
    }
    assert rhs[..|rhs|] == rhs;
  }

  /** One step: the destination is added if it is a node, then the edge
      from the previous endpoint is recorded. */
  method RecordStep(g: Graph.Graph, scope: string, na: Attrs, src: Location, rhs: seq<EdgeRHS>, attrs: Attrs,
                    from: Location, i: nat,
                    ghost r0: Nodes.Registry, ghost rel0: map<string, set<string>>, ghost e0: Graph.EdgeMap, ghost ids0: seq<string>)
    requires i < |rhs| && from == StepSource(src, rhs, i)
    requires Reached(g, scope, na, src, rhs, attrs, r0, rel0, e0, ids0, i)
    modifies g`edges, g`relations, g.nodes
    ensures Reached(g, scope, na, src, rhs, attrs, r0, rel0, e0, ids0, i + 1)
  {
    Advanced(src, rhs, i, attrs, ids0);
    var dst := rhs[i].dst;
    ghost var es := Chain(src, rhs[..i], attrs);
    AddIfNode(g, scope, na, dst, r0, rel0, ids0 + DstIds(rhs[..i]));
    PutAllSnoc(e0, es, Graph.Edge(IdOf(from), PortOf(from), IdOf(dst), PortOf(dst), rhs[i].directed, attrs));
    g.AddPortEdge(IdOf(from), PortOf(from), IdOf(dst), PortOf(dst), rhs[i].directed, attrs);
  }

  /** An endpoint is added under `scope` with the attributes `na` when it
      is a node, and not when it is a subgraph. */
  method AddIfNode(g: Graph.Graph, scope: string, na: Attrs, l: Location,
                   ghost r0: Nodes.Registry, ghost rel0: map<string, set<string>>, ghost ids: seq<string>)
    requires g.Valid() && Nodes.Consistent(r0)
    requires g.nodes.State() == AddedAll(r0, ids, na) && g.relations == RelatedAll(rel0, scope, ids)
    modifies g`relations, g.nodes
    ensures g.Valid()
    ensures g.nodes.State() == AddedAll(r0, ids + NodeIdOf(l), na)
    ensures g.relations == RelatedAll(rel0, scope, ids + NodeIdOf(l))
  {
    if l.NodeId? {
      AddedAllSnoc(r0, ids, l.id, na);
      RelatedAllSnoc(rel0, scope, ids, l.id);
      g.AddNode(scope, l.id, na);
    } else {
      assert ids + NodeIdOf(l) == ids;
    }
  }

  // ---------------------------------------------------------------------
  // What a walk builds
  // ---------------------------------------------------------------------

  /** The parts of a graph that statements change: the node registry, the
      edge records, the parent-to-children relation, and the attributes of
      the graph and of each subgraph. `name` is the graph's name, which
      decides whether a scope is the graph itself. */
  datatype Built = Built(reg: Nodes.Registry, edges: Graph.EdgeMap, relations: map<string, set<string>>,
                         name: string, attrs: Attrs, subs: map<string, Attrs>)

  function BuiltOf(g: Graph.Graph): Built
    reads g, g.nodes
  {
    Built(g.nodes.State(), g.edges, g.relations, g.name, g.attrs, g.subGraphs)
  }

  /** The names, edge keys and subgraph names registered in a state. */
  function Registered(b: Built): Footprint
  {
    Footprint(b.reg.lookup.Keys, b.edges.Keys, b.subs.Keys)
  }

  /** `WriteAll(scope, a)`: the scope's attributes overwritten by `a`; only
      attributes change. An unknown scope, where Go panics, is left as it
      is: the visitor only writes to its own scope, which exists. */
  function Written(b: Built, scope: string, a: Attrs): (r: Built)
    ensures r.(attrs := b.attrs, subs := b.subs) == b && r.subs.Keys == b.subs.Keys
    ensures scope == b.name ==> r.attrs == Overwrite(b.attrs, a) && r.subs == b.subs
    ensures scope != b.name && scope in b.subs ==> r.attrs == b.attrs && r.subs == b.subs[scope := Overwrite(b.subs[scope], a)]
    ensures scope != b.name && scope !in b.subs ==> r == b
  {
    if scope == b.name then b.(attrs := Overwrite(b.attrs, a))
    else if scope in b.subs then b.(subs := b.subs[scope := Overwrite(b.subs[scope], a)])
    else b
  }

  /** `AddAttr(scope, field, value)`: one field set in the scope's
      attributes; only attributes change, and an unknown scope is left as
      it is, as for `Written`. */
  function SetAt(b: Built, scope: string, field: string, value: string): (r: Built)
    ensures r.(attrs := b.attrs, subs := b.subs) == b && r.subs.Keys == b.subs.Keys
    ensures scope == b.name ==> r.attrs == b.attrs[field := value] && r.subs == b.subs
    ensures scope != b.name && scope in b.subs ==> r.attrs == b.attrs && r.subs == b.subs[scope := b.subs[scope][field := value]]
    ensures scope != b.name && scope !in b.subs ==> r == b
  {
    if scope == b.name then b.(attrs := b.attrs[field := value])
    else if scope in b.subs then b.(subs := b.subs[scope := b.subs[scope][field := value]])
    else b
  }

  /** `AddSubGraph(_, sg, a)`: the subgraph is opened if absent, then `a` is
      written over the scope named `sg`; no other scope changes. */
  function Opening(b: Built, sg: string, a: Attrs): (r: Built)
    ensures r.(attrs := b.attrs, subs := b.subs) == b
    ensures r.subs.Keys == b.subs.Keys + {sg}
    ensures forall s :: s in b.subs && s != sg ==> r.subs[s] == b.subs[s]
    ensures sg != b.name ==> r.attrs == b.attrs && r.subs[sg] == Overwrite(if sg in b.subs then b.subs[sg] else map[], a)
    ensures sg == b.name ==> r.attrs == Overwrite(b.attrs, a)
  {
    Written(b.(subs := Graph.Opened(b.subs, sg)), sg, a)
  }

  /** The state after the statement `s`, met in scope `scope` when the
      scope's defaults are `d`. A node statement adds its node with its own
      attributes ammended by the default node attributes; an edge
      statement stores its chain with its attributes ammended by the
      default edge attributes and adds its node endpoints with the default
      node attributes, then its subgraph endpoints are visited in order; an
      attribute block or a single attribute is written to the scope; a
      subgraph is opened and walked in its own scope. */
  function Applied(b: Built, scope: string, d: Defaults, s: Stmt): (r: Built)
    requires Addable(b.reg)
    ensures Addable(r.reg)
    decreases s
  {
    match s
    case NodeStmt(id, a) =>
      b.(reg := Nodes.Added(b.reg, id, Ammend(a, d.node)), relations := Graph.Related(b.relations, scope, id))
    case EdgeStmt(src, rhs, a) =>
      AppliedRhs(AppliedLoc(Chained(b, scope, d, src, rhs, a), d.graph, src), d.graph, rhs)
    case GraphAttrs(a) => Written(b, scope, a)
    case SubGraphStmt(sub) => AppliedSub(b, d.graph, sub)
    case Attr(field, value) => SetAt(b, scope, field, value)
    case NodeAttrs(_) => b
    case EdgeAttrs(_) => b
  }

  /** The edge statement proper, before its subgraph endpoints are visited. */
  function Chained(b: Built, scope: string, d: Defaults, src: Location, rhs: seq<EdgeRHS>, a: Attrs): (r: Built)
    requires Addable(b.reg)
    ensures Addable(r.reg)
  {
    var ids := EdgeNodeIds(src, rhs);
    b.(reg := AddedAll(b.reg, ids, d.node), edges := PutAll(b.edges, Chain(src, rhs, Ammend(a, d.edge))),
       relations := RelatedAll(b.relations, scope, ids))
  }

  /** The state after the statements `stmts` in order, in scope `scope`
      whose defaults start as `d` and follow the attribute blocks met. */
  function AppliedAll(b: Built, scope: string, d: Defaults, stmts: seq<Stmt>): (r: Built)
    requires Addable(b.reg)
    ensures Addable(r.reg)
    decreases stmts
  {
    if stmts == [] then b
    else
      var init := stmts[..|stmts| - 1];
      Applied(AppliedAll(b, scope, d, init), scope, ScopedAll(d, init), stmts[|stmts| - 1])
  }

  /** A subgraph met in a scope whose default graph attributes are `ga`:
      opened with `ga` written into it, then its statements walked in its
      own scope, starting with no defaults. */
  function AppliedSub(b: Built, ga: Attrs, sub: SubGraph): (r: Built)
    requires Addable(b.reg)
    ensures Addable(r.reg)
    decreases sub
  {
    AppliedAll(Opening(b, sub.id, ga), sub.id, Defaults(map[], map[], map[]), sub.stmts)
  }

  /** An edge endpoint: a subgraph is visited, a node is not. */
  function AppliedLoc(b: Built, ga: Attrs, l: Location): (r: Built)
    requires Addable(b.reg)
    ensures Addable(r.reg)
    decreases l
  {
    match l
    case NodeId(_, _) => b
    case SubGraphLoc(sub) => AppliedSub(b, ga, sub)
  }

  /** The destinations of an edge statement, in order. */
  function AppliedRhs(b: Built, ga: Attrs, rhs: seq<EdgeRHS>): (r: Built)
    requires Addable(b.reg)
    ensures Addable(r.reg)
    decreases rhs
  {
    if rhs == [] then b
    else AppliedStep(AppliedRhs(b, ga, rhs[..|rhs| - 1]), ga, rhs[|rhs| - 1])
  }

  function AppliedStep(b: Built, ga: Attrs, step: EdgeRHS): (r: Built)
    requires Addable(b.reg)
    ensures Addable(r.reg)
    decreases step
  {
    AppliedLoc(b, ga, step.dst)
  }

  lemma JoinAssoc(a: Footprint, b: Footprint, c: Footprint)
    ensures Join(Join(a, b), c) == Join(a, Join(b, c))
  {
  }

  lemma JoinNone(a: Footprint)
    ensures Join(a, NoFootprint) == a
  {
  }

  /** What a statement registers is exactly its footprint: every node, edge
      and subgraph it mentions, at any depth, and nothing else; nothing
      registered before is removed. */
  lemma {:induction false} AppliedRegisters(b: Built, scope: string, d: Defaults, s: Stmt)
    requires Addable(b.reg)
    ensures Registered(Applied(b, scope, d, s)) == Join(Registered(b), StmtFootprint(s))
    decreases s, 1
  {
    match s
    case NodeStmt(id, a) =>
      NodeStmtRegisters(b, scope, d, id, a);
    case EdgeStmt(src, rhs, a) =>
      EdgeStmtRegisters(b, scope, d, src, rhs, a);
    case SubGraphStmt(sub) =>
      AppliedSubRegisters(b, d.graph, sub);
    case GraphAttrs(_) =>
      JoinNone(Registered(b));
    case Attr(_, _) =>
      JoinNone(Registered(b));
    case NodeAttrs(_) =>
      JoinNone(Registered(b));
    case EdgeAttrs(_) =>
      JoinNone(Registered(b));
  }

  lemma NodeStmtRegisters(b: Built, scope: string, d: Defaults, id: string, a: Attrs)
    requires Addable(b.reg)
    ensures Registered(Applied(b, scope, d, NodeStmt(id, a))) == Join(Registered(b), StmtFootprint(NodeStmt(id, a)))
  {
    var b' := Applied(b, scope, d, NodeStmt(id, a));
    AddedRegisters(b.reg, id, Ammend(a, d.node));
    RegisteredJoin(b, b', Footprint({id}, {}, {}));
  }

  /** Registration grows by `fp` when each of its three parts does. */
  lemma RegisteredJoin(b: Built, b': Built, fp: Footprint)
    requires b'.reg.lookup.Keys == b.reg.lookup.Keys + fp.nodes
    requires b'.edges.Keys == b.edges.Keys + fp.edges && b'.subs.Keys == b.subs.Keys + fp.subs
    ensures Registered(b') == Join(Registered(b), fp)
  {
  }

  lemma {:induction false} EdgeStmtRegisters(b: Built, scope: string, d: Defaults, src: Location, rhs: seq<EdgeRHS>, a: Attrs)
    requires Addable(b.reg)
    ensures Registered(Applied(b, scope, d, EdgeStmt(src, rhs, a))) == Join(Registered(b), StmtFootprint(EdgeStmt(src, rhs, a)))
    decreases EdgeStmt(src, rhs, a), 0
  {
    var b1 := Chained(b, scope, d, src, rhs, a);
    var own := Footprint((set id | id in EdgeNodeIds(src, rhs)), ChainKeys(src, rhs), {});
    ChainedRegisters(b, scope, d, src, rhs, a);
    AppliedLocRegisters(b1, d.graph, src);
    AppliedRhsRegisters(AppliedLoc(b1, d.graph, src), d.graph, rhs);
    JoinAssoc(Registered(b), own, LocFootprint(src));
    JoinAssoc(Registered(b), Join(own, LocFootprint(src)), RhsFootprint(rhs));
  }

  lemma ChainedRegisters(b: Built, scope: string, d: Defaults, src: Location, rhs: seq<EdgeRHS>, a: Attrs)
    requires Addable(b.reg)
    ensures Registered(Chained(b, scope, d, src, rhs, a))
      == Join(Registered(b), Footprint((set id | id in EdgeNodeIds(src, rhs)), ChainKeys(src, rhs), {}))
  {
    AddedAllRegisters(b.reg, EdgeNodeIds(src, rhs), d.node);
    ChainRecorded(b.edges, src, rhs, Ammend(a, d.edge));
  }

  /** The same for a statement list: the union of the statements' footprints. */
  lemma {:induction false} AppliedAllRegisters(b: Built, scope: string, d: Defaults, stmts: seq<Stmt>)
    requires Addable(b.reg)
    ensures Registered(AppliedAll(b, scope, d, stmts)) == Join(Registered(b), StmtsFootprint(stmts))
    decreases stmts
  {
    if stmts == [] {
      JoinNone(Registered(b));
    } else {
      var init := stmts[..|stmts| - 1];
      AppliedAllRegisters(b, scope, d, init);
      AppliedRegisters(AppliedAll(b, scope, d, init), scope, ScopedAll(d, init), stmts[|stmts| - 1]);
      JoinAssoc(Registered(b), StmtsFootprint(init), StmtFootprint(stmts[|stmts| - 1]));
    }
  }

  lemma {:induction false} AppliedSubRegisters(b: Built, ga: Attrs, sub: SubGraph)
    requires Addable(b.reg)
    ensures Registered(AppliedSub(b, ga, sub)) == Join(Registered(b), SubFootprint(sub))
    decreases sub
  {
    var b1 := Opening(b, sub.id, ga);
    assert Registered(b1) == Join(Registered(b), Footprint({}, {}, {sub.id}));
    AppliedAllRegisters(b1, sub.id, Defaults(map[], map[], map[]), sub.stmts);
    JoinAssoc(Registered(b), Footprint({}, {}, {sub.id}), StmtsFootprint(sub.stmts));
  }

  lemma {:induction false} AppliedLocRegisters(b: Built, ga: Attrs, l: Location)
    requires Addable(b.reg)
    ensures Registered(AppliedLoc(b, ga, l)) == Join(Registered(b), LocFootprint(l))
    decreases l
  {
    match l
    case NodeId(_, _) => JoinNone(Registered(b));
    case SubGraphLoc(sub) => AppliedSubRegisters(b, ga, sub);
  }

  lemma {:induction false} AppliedRhsRegisters(b: Built, ga: Attrs, rhs: seq<EdgeRHS>)
    requires Addable(b.reg)
    ensures Registered(AppliedRhs(b, ga, rhs)) == Join(Registered(b), RhsFootprint(rhs))
    decreases rhs
  {
    if rhs == [] {
      JoinNone(Registered(b));
    } else {
      var init := rhs[..|rhs| - 1];
      AppliedRhsRegisters(b, ga, init);
      AppliedStepRegisters(AppliedRhs(b, ga, init), ga, rhs[|rhs| - 1]);
      JoinAssoc(Registered(b), RhsFootprint(init), StepFootprint(rhs[|rhs| - 1]));
    }
  }

  lemma {:induction false} AppliedStepRegisters(b: Built, ga: Attrs, step: EdgeRHS)
    requires Addable(b.reg)
    ensures Registered(AppliedStep(b, ga, step)) == Join(Registered(b), StepFootprint(step))
    decreases step
  {
    AppliedLocRegisters(b, ga, step.dst);
  }

  // ---------------------------------------------------------------------
  // The statement visitor
  // ---------------------------------------------------------------------

  /** `stmtVisitor`: the graph being built, the name of the scope the
      statements belong to, and that scope's default attributes. */
  class StmtVisitor {
    const g: Graph.Graph
    const graphName: string
    var nodeAttrs: Attrs
    var edgeAttrs: Attrs
    var graphAttrs: Attrs

    /** The scope is the graph itself or one of its subgraphs, so writing
        an attribute to it cannot fail. */
    ghost predicate Valid()
      reads this, g, g.nodes
    {
      g.Valid() && g.GetAttrs(graphName).Some?
    }

    function Current(): Defaults
      reads this
    {
      Defaults(nodeAttrs, edgeAttrs, graphAttrs)
    }

    /** Everything in `fp` is registered in the graph. */
    ghost predicate Covers(fp: Footprint)
      reads g, g.nodes
    {
      fp.nodes <= g.nodes.lookup.Keys && fp.edges <= g.edges.Keys && fp.subs <= g.subGraphs.Keys
    }

    /** Nothing registered before has gone. */
    ghost predicate Kept(names: set<string>, edges: set<(string, string)>, subs: set<string>)
      reads g, g.nodes
    {
      names <= g.nodes.lookup.Keys && edges <= g.edges.Keys && subs <= g.subGraphs.Keys
    }

    /** `newStmtVisitor`: a scope starts with no defaults of its own. */
    constructor (g: Graph.Graph, graphName: string)
      requires g.Valid() && g.GetAttrs(graphName).Some?
      ensures Valid() && this.g == g && this.graphName == graphName
      ensures Current() == Defaults(map[], map[], map[])
    {
      this.g, this.graphName := g, graphName;
      nodeAttrs, edgeAttrs, graphAttrs := map[], map[], map[];
    }

    /** `nodeStmt`: the node is added under this scope with its own
        attributes, completed by the default node attributes. */
    method VisitNode(id: string, a: Attrs)
      requires Valid()
      modifies g`relations, g.nodes
      ensures Valid()
      ensures g.nodes.State() == Nodes.Added(old(g.nodes.State()), id, Ammend(a, nodeAttrs))
      ensures g.relations == Graph.Related(old(g.relations), graphName, id)
      ensures id in g.nodes.lookup && old(g.nodes.lookup.Keys) <= g.nodes.lookup.Keys
    {
      var attrs := AmmendInPlace(a, nodeAttrs);
      AddedRegisters(g.nodes.State(), id, attrs);
      g.AddNode(graphName, id, attrs);
    }

    /** `edgeStmt`: one `AddPortEdge` per step, from the previous endpoint
        to the next, with the statement's attributes completed by the
        default edge attributes; every node endpoint is added first with
        the default node attributes. */
    method VisitEdge(src: Location, rhs: seq<EdgeRHS>, a: Attrs)
      requires Valid()
      modifies g`edges, g`relations, g.nodes
      ensures Valid()
      ensures g.edges == PutAll(old(g.edges), Chain(src, rhs, Ammend(a, edgeAttrs)))
      ensures g.nodes.State() == AddedAll(old(g.nodes.State()), EdgeNodeIds(src, rhs), nodeAttrs)
      ensures g.relations == RelatedAll(old(g.relations), graphName, EdgeNodeIds(src, rhs))
    {
      var attrs := AmmendInPlace(a, edgeAttrs);
      RecordChain(g, graphName, nodeAttrs, src, rhs, attrs);
    }

    /** `nodeAttrs`: overwrites this scope's default node attributes only. */
    method VisitNodeAttrs(a: Attrs)
      modifies this`nodeAttrs
      ensures Current() == Scoped(old(Current()), NodeAttrs(a))
    {
      nodeAttrs := OverwriteInPlace(nodeAttrs, a);
    }

    /** `edgeAttrs`: overwrites this scope's default edge attributes only. */
    method VisitEdgeAttrs(a: Attrs)
      modifies this`edgeAttrs
      ensures Current() == Scoped(old(Current()), EdgeAttrs(a))
    {
      edgeAttrs := OverwriteInPlace(edgeAttrs, a);
    }

    /** `graphAttrs`: every attribute is written to this scope of the graph,
        and this scope's default graph attributes are overwritten. */
    method VisitGraphAttrs(a: Attrs)
      requires Valid()
      modifies this`graphAttrs, g`attrs, g`subGraphs
      ensures Valid()
      ensures Current() == Scoped(old(Current()), GraphAttrs(a))
      ensures g.GetAttrs(graphName) == Graph.Some(Overwrite(old(g.GetAttrs(graphName)).value, a))
      ensures graphName == g.name ==> unchanged(g`subGraphs)
      ensures graphName != g.name ==> unchanged(g`attrs) && g.subGraphs == old(g.subGraphs)[graphName := g.subGraphs[graphName]]
      ensures BuiltOf(g) == Written(old(BuiltOf(g)), graphName, a)
    {
      g.WriteAll(graphName, a);
      graphAttrs := OverwriteInPlace(graphAttrs, a);
    }

    /** `attr`: a single attribute written to this scope, which always
        exists, so the write succeeds; no other scope changes. */
    method VisitAttr(field: string, value: string)
      requires Valid()
      modifies g`attrs, g`subGraphs
      ensures Valid()
      ensures g.GetAttrs(graphName) == Graph.Some(old(g.GetAttrs(graphName)).value[field := value])
      ensures graphName == g.name ==> unchanged(g`subGraphs)
      ensures graphName != g.name ==> unchanged(g`attrs) && g.subGraphs == old(g.subGraphs)[graphName := g.subGraphs[graphName]]
      ensures BuiltOf(g) == SetAt(old(BuiltOf(g)), graphName, field, value)
    {
      var ok := g.AddAttr(graphName, field, value);
      assert ok;
    }

    /** `subGraph`: the subgraph is registered with this scope's default
        graph attributes written into it, and its statements are handed to
        a new visitor whose defaults start empty: nothing is inherited. No
        other scope's attributes change. */
    method OpenSubGraph(sub: SubGraph) returns (child: StmtVisitor)
      requires Valid()
      modifies g`attrs, g`subGraphs
      ensures Valid() && fresh(child) && child.Valid()
      ensures child.g == g && child.graphName == sub.id
      ensures child.Current() == Defaults(map[], map[], map[])
      ensures g.subGraphs.Keys == old(g.subGraphs.Keys) + {sub.id}
      ensures g.GetAttrs(sub.id) == Graph.Some(Overwrite(old(if g.GetAttrs(sub.id).Some? then g.GetAttrs(sub.id).value else map[]), graphAttrs))
      ensures sub.id == g.name ==> g.subGraphs == Graph.Opened(old(g.subGraphs), sub.id)
      ensures sub.id != g.name ==> unchanged(g`attrs) && g.subGraphs == old(g.subGraphs)[sub.id := g.subGraphs[sub.id]]
      ensures BuiltOf(g) == Opening(old(BuiltOf(g)), sub.id, graphAttrs)
    {
      g.AddSubGraph(graphName, sub.id, graphAttrs);
      child := new StmtVisitor(g, sub.id);
    }

    /** A subgraph, met as a statement or as an edge endpoint: opened, then
        walked in its own scope; this scope's defaults are untouched. */
    method VisitSub(sub: SubGraph)
      requires Valid()
      modifies g`edges, g`relations, g`attrs, g`subGraphs, g.nodes
      decreases sub
      ensures Valid()
      ensures BuiltOf(g) == AppliedSub(old(BuiltOf(g)), graphAttrs, sub)
    {
      var child := OpenSubGraph(sub);
      child.Walk(sub.stmts);
    }

    method VisitLoc(l: Location)
      requires Valid()
      modifies g`edges, g`relations, g`attrs, g`subGraphs, g.nodes
      decreases l
      ensures Valid()
      ensures BuiltOf(g) == AppliedLoc(old(BuiltOf(g)), graphAttrs, l)
    {
      if l.SubGraphLoc? {
        VisitSub(l.sub);
      }
    }

    method VisitStep(step: EdgeRHS)
      requires Valid()
      modifies g`edges, g`relations, g`attrs, g`subGraphs, g.nodes
      decreases step
      ensures Valid()
      ensures BuiltOf(g) == AppliedStep(old(BuiltOf(g)), graphAttrs, step)
    {
      VisitLoc(step.dst);
    }

    /** The children of an edge statement are walked after it: its
        subgraph endpoints, in order. */
    method VisitRhs(rhs: seq<EdgeRHS>)
      requires Valid()
      modifies g`edges, g`relations, g`attrs, g`subGraphs, g.nodes
      decreases rhs
      ensures Valid()
      ensures BuiltOf(g) == AppliedRhs(old(BuiltOf(g)), graphAttrs, rhs)
    {
      ghost var b0 := BuiltOf(g);
      var i := 0;
      while i < |rhs|
        invariant 0 <= i <= |rhs| && Valid()
        invariant BuiltOf(g) == AppliedRhs(b0, graphAttrs, rhs[..i])
      {
        assert rhs[..i + 1][..i] == rhs[..i];
        VisitStep(rhs[i]);
        i := i + 1;
      }
      assert rhs[..|rhs|] == rhs;
    }

    /** An edge statement, then its children: the subgraph endpoints. */
    method VisitEdgeStmt(s: Stmt)
      requires Valid() && s.EdgeStmt?
      modifies g`edges, g`relations, g`attrs, g`subGraphs, g.nodes
      decreases s, 0
      ensures Valid()
      ensures BuiltOf(g) == Applied(old(BuiltOf(g)), graphName, Current(), s)
    {
      ghost var b0 := BuiltOf(g);
      VisitEdge(s.src, s.rhs, s.attrs);
      assert BuiltOf(g) == Chained(b0, graphName, Current(), s.src, s.rhs, s.attrs);
      VisitLoc(s.src);
      VisitRhs(s.rhs);
    }

    /** `Visit`: one statement, dispatched on its kind. */
    method Visit(s: Stmt)
      requires Valid()
      modifies this, g`edges, g`relations, g`attrs, g`subGraphs, g.nodes
      decreases s, 1
      ensures Valid()
      ensures Current() == Scoped(old(Current()), s)
      ensures BuiltOf(g) == Applied(old(BuiltOf(g)), graphName, old(Current()), s)
    {
      match s
      case NodeStmt(id, a) =>
        VisitNode(id, a);
      case EdgeStmt(_, _, _) =>
        VisitEdgeStmt(s);
      case NodeAttrs(a) =>
        VisitNodeAttrs(a);
      case EdgeAttrs(a) =>
        VisitEdgeAttrs(a);
      case GraphAttrs(a) =>
        VisitGraphAttrs(a);
      case SubGraphStmt(sub) =>
        VisitSub(sub);
      case Attr(field, value) =>
        VisitAttr(field, value);
    }

    /** The statements of this scope in order. Afterwards the scope's
        defaults are those its own attribute blocks set, the graph is
        exactly as `AppliedAll` describes, and so every node, edge and
        subgraph the statements mention, at any depth, is registered. */
    method Walk(stmts: seq<Stmt>)
      requires Valid()
      modifies this, g`edges, g`relations, g`attrs, g`subGraphs, g.nodes
      decreases stmts, 1
      ensures Valid()
      ensures Current() == ScopedAll(old(Current()), stmts)
      ensures BuiltOf(g) == AppliedAll(old(BuiltOf(g)), graphName, old(Current()), stmts)
      ensures Kept(old(g.nodes.lookup.Keys), old(g.edges.Keys), old(g.subGraphs.Keys))
      ensures Covers(StmtsFootprint(stmts))
    {
      ghost var b0, d0 := BuiltOf(g), Current();
      var i := 0;
      while i < |stmts|
        invariant Walked(b0, d0, stmts, i)
      {
        WalkStep(stmts, i, b0, d0);
        i := i + 1;
      }
      assert stmts[..|stmts|] == stmts;
      AppliedAllRegisters(b0, graphName, d0, stmts);
    }

    /** The state of the loop of `Walk` after its first `i` statements, from
        the state `b0` and defaults `d0` it started with. */
    ghost predicate Walked(b0: Built, d0: Defaults, stmts: seq<Stmt>, i: nat)
      reads this, g, g.nodes
    {
      && i <= |stmts| && Valid() && Addable(b0.reg)
      && Current() == ScopedAll(d0, stmts[..i])
      && BuiltOf(g) == AppliedAll(b0, graphName, d0, stmts[..i])
    }

    method WalkStep(stmts: seq<Stmt>, i: nat, ghost b0: Built, ghost d0: Defaults)
      requires i < |stmts| && Walked(b0, d0, stmts, i)
      modifies this, g`edges, g`relations, g`attrs, g`subGraphs, g.nodes
      decreases stmts, 0
      ensures Walked(b0, d0, stmts, i + 1)
    {
      assert stmts[..i + 1][..i] == stmts[..i];
      Visit(stmts[i]);
    }
  }
}
