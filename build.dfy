/** The top level of analyse.go: a graph built from a parsed AST, its stored
    edges wired into node adjacency, and the node labelled "entry" moved to
    the front of the node list. */
module Build {
  import opened Attrs
  import Nodes
  import Graph
  import Analyse
  import Wiring

  // ---------------------------------------------------------------------
  // Entry promotion
  // ---------------------------------------------------------------------

  /** Every listed node has attributes. */
  ghost predicate Labelled(r: Nodes.Registry)
  {
    forall j :: 0 <= j < |r.nodes| ==> r.nodes[j] in r.attrs
  }

  lemma ConsistentLabelled(r: Nodes.Registry)
    requires Nodes.Consistent(r)
    ensures Labelled(r)
  {
    forall j | 0 <= j < |r.nodes| ensures r.nodes[j] in r.attrs {
      assert r.nodes[j] in r.index;
    }
  }

  /** The position of the first node labelled "entry" at or after `from`;
      the length of the list when there is none. */
  function FirstEntry(r: Nodes.Registry, from: nat): (i: nat)
    requires Labelled(r) && from <= |r.nodes|
    ensures from <= i <= |r.nodes|
    ensures i < |r.nodes| ==> IsEntry(r.attrs[r.nodes[i]])
    ensures forall j :: from <= j < i ==> !IsEntry(r.attrs[r.nodes[j]])
    decreases |r.nodes| - from
  {
    if from == |r.nodes| || IsEntry(r.attrs[r.nodes[from]]) then from
    else FirstEntry(r, from + 1)
  }

  /** The registry after the promotion swap: the first node labelled "entry"
      and the first node trade places in `Nodes`, and each takes its new
      position as `Index`. Nothing changes when there is no entry node or it
      is first already. */
  function Promoted(r: Nodes.Registry): Nodes.Registry
    requires Labelled(r)
  {
    var i := FirstEntry(r, 0);
    if i == |r.nodes| || i == 0 then r
    else
      var e, f := r.nodes[i], r.nodes[0];
      r.(nodes := r.nodes[0 := e][i := f], index := r.index[e := 0][f := i])
  }

  /** Some listed node is labelled "entry". */
  ghost predicate HasEntry(r: Nodes.Registry)
    requires Labelled(r)
  {
    exists j :: 0 <= j < |r.nodes| && IsEntry(r.attrs[r.nodes[j]])
  }

  /** With an entry node, the first one is at position 0 afterwards and the
      former first node sits where it was. */
  lemma PromotedEntryFirst(r: Nodes.Registry)
    requires Labelled(r) && HasEntry(r)
    ensures var r', i := Promoted(r), FirstEntry(r, 0);
      i < |r.nodes| && |r'.nodes| == |r.nodes|
      && r'.nodes[0] == r.nodes[i] && IsEntry(r'.attrs[r'.nodes[0]])
      && r'.nodes[i] == r.nodes[0]
  {
    var j :| 0 <= j < |r.nodes| && IsEntry(r.attrs[r.nodes[j]]);
    assert FirstEntry(r, 0) <= j;
  }

  /** Without an entry node nothing changes. */
  lemma PromotedNoEntry(r: Nodes.Registry)
    requires Labelled(r) && !HasEntry(r)
    ensures Promoted(r) == r
  {
  }

  /** Swapping the first and the `i`-th element permutes a sequence. */
  lemma SwapPermutes(s: seq<Nodes.Handle>, i: nat)
    requires 0 < i < |s|
    ensures multiset(s[0 := s[i]][i := s[0]]) == multiset(s)
  {
    var t := s[0 := s[i]][i := s[0]];
    assert s == [s[0]] + s[1..i] + [s[i]] + s[i + 1..];
    assert t == [s[i]] + s[1..i] + [s[0]] + s[i + 1..];
  }

  /** Swapping two list entries and their `Index` values keeps positions
      and `Index` in agreement. */
  lemma SwapPositioned(nodes: seq<Nodes.Handle>, index: map<Nodes.Handle, nat>, i: nat)
    requires Nodes.PositionedIn(nodes, index) && 0 < i < |nodes|
    ensures var e, f := nodes[i], nodes[0];
      Nodes.PositionedIn(nodes[0 := e][i := f], index[e := 0][f := i])
  {
    var e, f := nodes[i], nodes[0];
    var nodes', index' := nodes[0 := e][i := f], index[e := 0][f := i];
    assert index[e] == i && index[f] == 0;
    forall j | 0 <= j < |nodes'| ensures nodes'[j] in index' && index'[nodes'[j]] == j {
      if j != 0 && j != i {
        assert index[nodes[j]] == j;
      }
    }
    forall h | h in index' ensures index'[h] < |nodes'| && nodes'[index'[h]] == h {
      if h != e && h != f {
        assert index'[h] == index[h];
      }
    }
  }

  /** The promotion only permutes `Nodes` (every other position keeps its
      node) and renumbers `Index`; every other part of the registry is kept. */
  lemma PromotedPermutes(r: Nodes.Registry)
    requires Labelled(r)
    ensures var r', i := Promoted(r), FirstEntry(r, 0);
      && r' == r.(nodes := r'.nodes, index := r'.index)
      && |r'.nodes| == |r.nodes| && multiset(r'.nodes) == multiset(r.nodes)
      && (forall j :: 0 < j < |r.nodes| && j != i ==> r'.nodes[j] == r.nodes[j])
  {
    var i := FirstEntry(r, 0);
    if i < |r.nodes| && i != 0 {
      SwapPermutes(r.nodes, i);
    }
  }

  /** The promotion keeps the registry consistent: positions and `Index`
      still agree for both swapped nodes. */
  lemma PromotedConsistent(r: Nodes.Registry)
    requires Nodes.Consistent(r)
    ensures Labelled(r) && Nodes.Consistent(Promoted(r))
  {
    ConsistentLabelled(r);
    var i := FirstEntry(r, 0);
    if i < |r.nodes| && i != 0 {
      SwapPositioned(r.nodes, r.index, i);
      assert r.index.Keys == Promoted(r).index.Keys;
    }
  }

  /** Promoting twice promotes once: afterwards the first entry node is first. */
  lemma PromotedIdempotent(r: Nodes.Registry)
    requires Labelled(r)
    ensures Labelled(Promoted(r)) && Promoted(Promoted(r)) == Promoted(r)
  {
    var r', i := Promoted(r), FirstEntry(r, 0);
    if i < |r.nodes| && i != 0 {
      PromotedPermutes(r);
      assert r'.nodes[0] == r.nodes[i];
      assert Labelled(r') by {
        forall j | 0 <= j < |r'.nodes| ensures r'.nodes[j] in r'.attrs {
          if j != 0 && j != i {
            assert r'.nodes[j] == r.nodes[j];
          }
        }
      }
      assert FirstEntry(r', 0) == 0;
    }
  }

  /** The search of the promotion loop. */
  method FindEntry(ns: Nodes.Nodes) returns (i: nat)
    requires Labelled(ns.State())
    ensures i == FirstEntry(ns.State(), 0)
  {
    i := 0;
    while i < |ns.nodes| && !IsEntry(ns.attrs[ns.nodes[i]])
      invariant i <= |ns.nodes|
      invariant FirstEntry(ns.State(), i) == FirstEntry(ns.State(), 0)
    {
      i := i + 1;
    }
  }

  /** The promotion loop of `NewAnalysedGraph`: the first node labelled
      "entry" swaps places with the first node, and both take their new
      positions as `Index`. */
  method PromoteEntry(ns: Nodes.Nodes)
    requires ns.Valid()
    modifies ns`nodes, ns`index
    ensures ns.Valid()
    ensures ns.State() == Promoted(old(ns.State()))
  {
    PromotedConsistent(ns.State());
    var i := FindEntry(ns);
    if i < |ns.nodes| && i != 0 {
      Swap(ns, i);
    }
  }

  /** The swap itself: `Nodes[0], Nodes[i] = Nodes[i], Nodes[0]`, then both
      nodes take their positions as `Index`. */
  method Swap(ns: Nodes.Nodes, i: nat)
    requires 0 < i < |ns.nodes|
    modifies ns`nodes, ns`index
    ensures var r, e, f := old(ns.State()), old(ns.nodes[i]), old(ns.nodes[0]);
      ns.State() == r.(nodes := r.nodes[0 := e][i := f], index := r.index[e := 0][f := i])
  {
    var e, f := ns.nodes[i], ns.nodes[0];
    ns.nodes, ns.index := ns.nodes[0 := e][i := f], ns.index[e := 0][f := i];
  }

  // ---------------------------------------------------------------------
  // Building the graph
  // ---------------------------------------------------------------------

  /** What `Analyse` builds in a new graph from the AST: the graph is named
      after the AST, and the statements are walked in the graph's own scope
      with no defaults. */
  function Analysis(ast: Analyse.Ast): Analyse.Built
  {
    var start := Analyse.Built(Nodes.Empty(), map[], map[], ast.id, map[], map[]);
    Analyse.AppliedAll(start, ast.id, Analyse.Defaults(map[], map[], map[]), ast.stmts)
  }

  /** A new graph analysed from an AST registers exactly the nodes, edges
      and subgraphs the statements mention, at any depth. */
  lemma AnalysisRegisters(ast: Analyse.Ast)
    ensures Analyse.Registered(Analysis(ast)) == Analyse.StmtsFootprint(ast.stmts)
  {
    var start := Analyse.Built(Nodes.Empty(), map[], map[], ast.id, map[], map[]);
    Analyse.AppliedAllRegisters(start, ast.id, Analyse.Defaults(map[], map[], map[]), ast.stmts);
    assert Analyse.Registered(start) == Analyse.NoFootprint;
  }

  /** `Analyse` with `graphVisitor`: the graph takes the header of the AST
      (strictness, direction, name), then the statements are visited in the
      scope of the graph itself with no defaults. */
  method AnalyseInto(ast: Analyse.Ast, g: Graph.Graph)
    requires g.Valid()
    modifies g, g.nodes
    ensures g.Valid()
    ensures g.strict == ast.strict && g.directed == ast.digraph && g.name == ast.id
    ensures Analyse.BuiltOf(g)
      == Analyse.AppliedAll(old(Analyse.BuiltOf(g)).(name := ast.id), ast.id, Analyse.Defaults(map[], map[], map[]), ast.stmts)
    ensures var fp := Analyse.StmtsFootprint(ast.stmts);
      fp.nodes <= g.nodes.lookup.Keys && fp.edges <= g.edges.Keys && fp.subs <= g.subGraphs.Keys
  {
    g.SetStrict(ast.strict);
    g.SetDir(ast.digraph);
    g.SetName(ast.id);
    var v := new Analyse.StmtVisitor(g, ast.id);
    v.Walk(ast.stmts);
  }

  /** `NewAnalysedGraph`: a new graph, analysed from the AST, with its stored
      edges wired and the entry node promoted. The ghost results name the
      registry before wiring (`analysed`), the names that wiring resolves
      against (`layout`) and the registry after wiring (`wired`). The
      analysed graph is exactly `Analysis(ast)`, so it registers exactly
      the statements' footprint. Wiring panics (`ok` false) exactly when
      some stored edge cannot be wired; the graph is then left as it
      stands. */
  method NewAnalysedGraph(ast: Analyse.Ast)
      returns (g: Graph.Graph, ok: bool, ghost analysed: Nodes.Registry, ghost layout: Wiring.Layout, ghost wired: Nodes.Registry)
    ensures fresh(g) && fresh(g.nodes)
    ensures g.strict == ast.strict && g.directed == ast.digraph && g.name == ast.id
    ensures Nodes.Consistent(analysed)
    ensures Analyse.Built(analysed, g.edges, g.relations, g.name, g.attrs, g.subGraphs) == Analysis(ast)
    ensures layout == Wiring.Layout(analysed.lookup, g.subGraphs, g.relations)
    ensures var fp := Analyse.StmtsFootprint(ast.stmts);
      fp.nodes == analysed.lookup.Keys && fp.edges == g.edges.Keys && fp.subs == g.subGraphs.Keys
    ensures ok <==> forall k :: k in g.edges ==> Wiring.Wirable(layout, k)
    ensures ok ==> g.Valid() && Wiring.Wired(analysed, wired, layout, g.edges.Keys)
    ensures ok ==> Labelled(wired) && g.nodes.State() == Promoted(wired)
  {
    g := new Graph.Graph();
    AnalyseInto(ast, g);
    analysed, layout := g.nodes.State(), Wiring.LayoutOf(g);
    AnalysisRegisters(ast);
    ok := Wiring.Wire(g);
    wired := g.nodes.State();
    if ok {
      PromoteEntry(g.nodes);
    }
  }
}
