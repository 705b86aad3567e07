/** The second half of analyse.go: after the statement visitor has filled the
    graph, `NewAnalysedGraph` links the node records along every stored edge
    (`addEdges`; an endpoint naming a subgraph stands for the nodes recorded
    directly under it) and moves the first node labelled "entry" to the front
    of the ordered node list. */
module Wiring {
  import opened Attrs
  import Nodes
  import Graph
  import Analyse

  type Handle = Nodes.Handle

  // ---------------------------------------------------------------------
  // Resolving edge endpoints
  // ---------------------------------------------------------------------

  /** The parts of the graph that resolving an endpoint reads. */
  datatype Layout = Layout(lookup: map<string, Handle>, subGraphs: map<string, Attrs>, relations: map<string, set<string>>)

  function LayoutOf(g: Graph.Graph): Layout
    reads g, g.nodes
  {
    Layout(g.nodes.lookup, g.subGraphs, g.relations)
  }

  /** `Relations.ParentToChildren[name]`; a missing entry reads as the empty set. */
  function Children(relations: map<string, set<string>>, name: string): set<string>
  {
    if name in relations then relations[name] else {}
  }

  /** The names an endpoint stands for: the node of that name; else the names
      recorded under the subgraph of that name; `None` when it is neither. */
  function Resolve(l: Layout, name: string): Graph.Option<set<string>>
  {
    if name in l.lookup then Graph.Some({name})
    else if name in l.subGraphs then Graph.Some(Children(l.relations, name))
    else Graph.None
  }

  /** `Lookup[x]`, with `None` where Go reads a nil `*Node`. */
  function Find(l: Layout, x: string): Graph.Option<Handle>
  {
    if x in l.lookup then Graph.Some(l.lookup[x]) else Graph.None
  }

  /** Wiring the stored edge `k` does not panic: its source resolves and, when
      the source stands for at least one name, so does its target, and when
      both sides are non-empty every name on them has a node. */
  predicate Wirable(l: Layout, k: (string, string))
  {
    var s := Resolve(l, k.0);
    var d := Resolve(l, k.1);
    s.Some? && (s.value == {} || (d.Some? && (d.value == {} || s.value + d.value <= l.lookup.Keys)))
  }

  /** The links `addEdges(from, dst)` appends: one from `from` to each node
      that `dst` stands for. */
  function Row(l: Layout, from: Graph.Option<Handle>, dsts: set<string>): set<(Handle, Handle)>
  {
    if from.None? then {} else set y | y in dsts && y in l.lookup :: (from.value, l.lookup[y])
  }

  /** The links made for the source names `srcs` and the target `dst`. */
  function Block(l: Layout, srcs: set<string>, dst: string): set<(Handle, Handle)>
  {
    var d := Resolve(l, dst);
    if d.None? then {}
    else set x, y | x in srcs && x in l.lookup && y in d.value && y in l.lookup :: (l.lookup[x], l.lookup[y])
  }

  /** The links made for the stored edge `k`. */
  function Fan(l: Layout, k: (string, string)): set<(Handle, Handle)>
  {
    var s := Resolve(l, k.0);
    if s.None? then {} else Block(l, s.value, k.1)
  }

  /** How many of the stored edges `keys` link `p.0` to `p.1`. */
  function LinkCount(l: Layout, keys: set<(string, string)>, p: (Handle, Handle)): nat
  {
    |set k | k in keys && p in Fan(l, k)|
  }

  ghost predicate Injective(lookup: map<string, Handle>)
  {
    forall x, y :: x in lookup && y in lookup && lookup[x] == lookup[y] ==> x == y
  }

  lemma NamedInjective(r: Nodes.Registry)
    requires Nodes.Consistent(r)
    ensures Injective(r.lookup)
  {
  }

  // ---------------------------------------------------------------------
  // Links appended to a registry
  // ---------------------------------------------------------------------

  /** `succs` is `succs0` with the links of `m` appended: every list keeps its
      links in order and gains those of `m` leaving its node, counted with
      multiplicity. */
  ghost predicate OutGrown(succs0: map<Handle, seq<Handle>>, succs: map<Handle, seq<Handle>>, m: multiset<(Handle, Handle)>)
  {
    && succs.Keys == succs0.Keys
    && (forall a :: a in succs0 ==> succs0[a] <= succs[a])
    && (forall a, b {:trigger multiset(succs[a])[b]} :: a in succs0 ==> multiset(succs[a])[b] == multiset(succs0[a])[b] + m[(a, b)])
  }

  /** The same on the `Preds` side: each list gains the links of `m` entering its node. */
  ghost predicate InGrown(preds0: map<Handle, seq<Handle>>, preds: map<Handle, seq<Handle>>, m: multiset<(Handle, Handle)>)
  {
    && preds.Keys == preds0.Keys
    && (forall b :: b in preds0 ==> preds0[b] <= preds[b])
    && (forall a, b {:trigger multiset(preds[b])[a]} :: b in preds0 ==> multiset(preds[b])[a] == multiset(preds0[b])[a] + m[(a, b)])
  }

  /** `r` is `r0` with the links of `m` appended on both sides; nothing else changes. */
  ghost predicate Grown(r0: Nodes.Registry, r: Nodes.Registry, m: multiset<(Handle, Handle)>)
  {
    && r == r0.(preds := r.preds, succs := r.succs)
    && OutGrown(r0.succs, r.succs, m) && InGrown(r0.preds, r.preds, m)
  }

  /** The registry after wiring `keys`: each pair of nodes gains one link per
      stored edge whose fan-out contains it. */
  ghost predicate Wired(r0: Nodes.Registry, r: Nodes.Registry, l: Layout, keys: set<(string, string)>)
  {
    && r == r0.(preds := r.preds, succs := r.succs)
    && r.succs.Keys == r0.succs.Keys && r.preds.Keys == r0.preds.Keys
    && (forall a :: a in r0.succs ==> r0.succs[a] <= r.succs[a])
    && (forall b :: b in r0.preds ==> r0.preds[b] <= r.preds[b])
    && (forall a, b {:trigger multiset(r.succs[a])[b]} :: a in r0.succs ==> multiset(r.succs[a])[b] == multiset(r0.succs[a])[b] + LinkCount(l, keys, (a, b)))
    && (forall a, b {:trigger multiset(r.preds[b])[a]} :: b in r0.preds ==> multiset(r.preds[b])[a] == multiset(r0.preds[b])[a] + LinkCount(l, keys, (a, b)))
  }

  lemma GrownNone(r: Nodes.Registry)
    ensures Grown(r, r, multiset{})
  {
  }

  lemma Prefix(s: seq<Handle>, t: seq<Handle>, u: seq<Handle>)
    requires s <= t
    ensures s <= t + u
  {
    assert (t + u)[..|s|] == t[..|s|];
  }

  lemma OutLink(succs0: map<Handle, seq<Handle>>, succs: map<Handle, seq<Handle>>, m: multiset<(Handle, Handle)>, a: Handle, b: Handle)
    requires OutGrown(succs0, succs, m) && a in succs
    ensures OutGrown(succs0, succs[a := succs[a] + [b]], m + multiset{(a, b)})
  {
    LinkKeepsPrefixes(succs0, succs, a, b);
    LinkCounts(succs0, succs, m, a, b);
  }

  /** Appending to one list keeps every list's old links as a prefix. */
  lemma LinkKeepsPrefixes(adj0: map<Handle, seq<Handle>>, adj: map<Handle, seq<Handle>>, a: Handle, b: Handle)
    requires adj.Keys == adj0.Keys && a in adj
    requires forall x :: x in adj0 ==> adj0[x] <= adj[x]
    ensures forall x :: x in adj0 ==> adj0[x] <= adj[a := adj[a] + [b]][x]
  {
    var s := adj[a := adj[a] + [b]];
    forall x | x in adj0 ensures adj0[x] <= s[x] {
      if x == a {
        Prefix(adj0[x], adj[x], [b]);
      }
    }
  }

  /** Appending `b` to the list of `a` counts the link `(a, b)` once more. */
  lemma LinkCounts(succs0: map<Handle, seq<Handle>>, succs: map<Handle, seq<Handle>>, m: multiset<(Handle, Handle)>, a: Handle, b: Handle)
    requires succs.Keys == succs0.Keys && a in succs
    requires forall x, y {:trigger multiset(succs[x])[y]} :: x in succs0 ==> multiset(succs[x])[y] == multiset(succs0[x])[y] + m[(x, y)]
    ensures var s, m' := succs[a := succs[a] + [b]], m + multiset{(a, b)};
      forall x, y {:trigger multiset(s[x])[y]} :: x in succs0 ==> multiset(s[x])[y] == multiset(succs0[x])[y] + m'[(x, y)]
  {
    var s, m' := succs[a := succs[a] + [b]], m + multiset{(a, b)};
    forall x, y | x in succs0 ensures multiset(s[x])[y] == multiset(succs0[x])[y] + m'[(x, y)] {
      assert m'[(x, y)] == m[(x, y)] + (if (x, y) == (a, b) then 1 else 0);
      if x == a {
        assert multiset(s[x]) == multiset(succs[x]) + multiset{b};
      } else {
        assert s[x] == succs[x];
      }
    }
  }

  lemma InLink(preds0: map<Handle, seq<Handle>>, preds: map<Handle, seq<Handle>>, m: multiset<(Handle, Handle)>, a: Handle, b: Handle)
    requires InGrown(preds0, preds, m) && b in preds
    ensures InGrown(preds0, preds[b := preds[b] + [a]], m + multiset{(a, b)})
  {
    LinkKeepsPrefixes(preds0, preds, b, a);
    LinkCountsIn(preds0, preds, m, a, b);
  }

  /** Appending `a` to the list of `b` counts the link `(a, b)` once more. */
  lemma LinkCountsIn(preds0: map<Handle, seq<Handle>>, preds: map<Handle, seq<Handle>>, m: multiset<(Handle, Handle)>, a: Handle, b: Handle)
    requires preds.Keys == preds0.Keys && b in preds
    requires forall x, y {:trigger multiset(preds[y])[x]} :: y in preds0 ==> multiset(preds[y])[x] == multiset(preds0[y])[x] + m[(x, y)]
    ensures var p, m' := preds[b := preds[b] + [a]], m + multiset{(a, b)};
      forall x, y {:trigger multiset(p[y])[x]} :: y in preds0 ==> multiset(p[y])[x] == multiset(preds0[y])[x] + m'[(x, y)]
  {
    var p, m' := preds[b := preds[b] + [a]], m + multiset{(a, b)};
    forall x, y | y in preds0 ensures multiset(p[y])[x] == multiset(preds0[y])[x] + m'[(x, y)] {
      assert m'[(x, y)] == m[(x, y)] + (if (x, y) == (a, b) then 1 else 0);
      if y == b {
        assert multiset(p[y]) == multiset(preds[y]) + multiset{a};
      } else {
        assert p[y] == preds[y];
      }
    }
  }

  lemma GrownLink(r0: Nodes.Registry, r: Nodes.Registry, m: multiset<(Handle, Handle)>, a: Handle, b: Handle)
    requires Grown(r0, r, m) && a in r0.succs && b in r0.preds
    ensures a in r.succs && b in r.preds
    ensures Grown(r0, Nodes.Linked(r, a, b), m + multiset{(a, b)})
  {
    OutLink(r0.succs, r.succs, m, a, b);
    InLink(r0.preds, r.preds, m, a, b);
  }

  lemma PrefixMore(s: seq<Handle>, t: seq<Handle>, u: seq<Handle>)
    requires s <= t && t <= u
    ensures s <= u
  {
  }

  lemma GrownMore(r0: Nodes.Registry, r1: Nodes.Registry, r2: Nodes.Registry, m1: multiset<(Handle, Handle)>, m2: multiset<(Handle, Handle)>)
    requires Grown(r0, r1, m1) && Grown(r1, r2, m2)
    ensures Grown(r0, r2, m1 + m2)
  {
    forall a | a in r0.succs ensures r0.succs[a] <= r2.succs[a] {
      PrefixMore(r0.succs[a], r1.succs[a], r2.succs[a]);
    }
    forall b | b in r0.preds ensures r0.preds[b] <= r2.preds[b] {
      PrefixMore(r0.preds[b], r1.preds[b], r2.preds[b]);
    }
  }

  /** A set of disjoint parts counts each element once. */
  lemma MultisetSplit<T>(a: set<T>, b: set<T>)
    requires a !! b
    ensures multiset(a + b) == multiset(a) + multiset(b)
  {
    forall x ensures multiset(a + b)[x] == (multiset(a) + multiset(b))[x] {
    }
  }

  /** One more target name adds at most one new link to a row. */
  lemma RowStep(l: Layout, from: Handle, done: set<string>, y: string)
    requires Injective(l.lookup) && y !in done && y in l.lookup
    ensures Row(l, Graph.Some(from), done + {y}) == Row(l, Graph.Some(from), done) + {(from, l.lookup[y])}
    ensures (from, l.lookup[y]) !in Row(l, Graph.Some(from), done)
  {
  }

  /** One more source name adds its row, which the earlier rows do not share. */
  lemma BlockStep(l: Layout, srcs: set<string>, dst: string, x: string)
    requires Injective(l.lookup) && x !in srcs && Resolve(l, dst).Some?
    ensures Block(l, srcs + {x}, dst) == Block(l, srcs, dst) + Row(l, Find(l, x), Resolve(l, dst).value)
    ensures Block(l, srcs, dst) !! Row(l, Find(l, x), Resolve(l, dst).value)
  {
    var ds := Resolve(l, dst).value;
    forall p | p in Block(l, srcs + {x}, dst) ensures p in Block(l, srcs, dst) + Row(l, Find(l, x), ds) {
      var x', y' :| x' in srcs + {x} && x' in l.lookup && y' in ds && y' in l.lookup && p == (l.lookup[x'], l.lookup[y']);
      if x' != x {
        assert p in Block(l, srcs, dst);
      }
    }
  }

  /** Adding one stored edge to `keys` adds one to the count of every link it fans out to. */
  lemma {:induction false} LinkCountStep(l: Layout, keys: set<(string, string)>, k: (string, string), p: (Handle, Handle))
    requires k !in keys
    ensures LinkCount(l, keys + {k}, p) == LinkCount(l, keys, p) + (if p in Fan(l, k) then 1 else 0)
  {
    var before := set k' | k' in keys && p in Fan(l, k');
    var after := set k' | k' in keys + {k} && p in Fan(l, k');
    if p in Fan(l, k) {
      assert after == before + {k};
    } else {
      assert after == before;
    }
  }

  // ---------------------------------------------------------------------
  // The links of a sequence of names, in the order the loops visit them
  // ---------------------------------------------------------------------

  function Elems<T>(xs: seq<T>): set<T>
  {
    set x | x in xs
  }

  ghost predicate Distinct<T>(xs: seq<T>)
  {
    forall i, j :: 0 <= i < j < |xs| ==> xs[i] != xs[j]
  }

  /** The links `addEdge` appends for the target names `ys`, in order. */
  function RowOf(l: Layout, f: Handle, ys: seq<string>): multiset<(Handle, Handle)>
    requires forall j :: 0 <= j < |ys| ==> ys[j] in l.lookup
  {
    if ys == [] then multiset{}
    else RowOf(l, f, ys[..|ys| - 1]) + multiset{(f, l.lookup[ys[|ys| - 1]])}
  }

  /** The links made for the source names `xs`, in order, towards `dst`. */
  function BlockOf(l: Layout, xs: seq<string>, dst: string): multiset<(Handle, Handle)>
  {
    if xs == [] || Resolve(l, dst).None? then multiset{}
    else BlockOf(l, xs[..|xs| - 1], dst) + multiset(Row(l, Find(l, xs[|xs| - 1]), Resolve(l, dst).value))
  }

  /** The links made for the stored edges `ks`, in order. */
  function LinksOf(l: Layout, ks: seq<(string, string)>): multiset<(Handle, Handle)>
  {
    if ks == [] then multiset{} else LinksOf(l, ks[..|ks| - 1]) + multiset(Fan(l, ks[|ks| - 1]))
  }

  /** Visiting distinct target names one by one makes the links of `Row`. */
  lemma {:induction false} RowOfIsRow(l: Layout, f: Handle, ys: seq<string>)
    requires Injective(l.lookup) && Distinct(ys) && forall j :: 0 <= j < |ys| ==> ys[j] in l.lookup
    ensures RowOf(l, f, ys) == multiset(Row(l, Graph.Some(f), Elems(ys)))
  {
    if ys != [] {
      var init, y := ys[..|ys| - 1], ys[|ys| - 1];
      RowOfIsRow(l, f, init);
      assert Elems(ys) == Elems(init) + {y};
      RowStep(l, f, Elems(init), y);
      MultisetSplit(Row(l, Graph.Some(f), Elems(init)), {(f, l.lookup[y])});
      assert multiset({(f, l.lookup[y])}) == multiset{(f, l.lookup[y])};
    }
  }

  /** Visiting distinct source names one by one makes the links of `Block`. */
  lemma {:induction false} BlockOfIsBlock(l: Layout, xs: seq<string>, dst: string)
    requires Injective(l.lookup) && Distinct(xs) && Resolve(l, dst).Some?
    ensures BlockOf(l, xs, dst) == multiset(Block(l, Elems(xs), dst))
  {
    if xs == [] {
      assert Block(l, Elems(xs), dst) == {};
    } else {
      var init, x := xs[..|xs| - 1], xs[|xs| - 1];
      BlockOfIsBlock(l, init, dst);
      assert Elems(xs) == Elems(init) + {x};
      BlockStep(l, Elems(init), dst, x);
      MultisetSplit(Block(l, Elems(init), dst), Row(l, Find(l, x), Resolve(l, dst).value));
    }
  }

  /** Visiting distinct stored edges one by one makes `LinkCount` links per pair. */
  lemma {:induction false} LinksOfCount(l: Layout, ks: seq<(string, string)>, p: (Handle, Handle))
    requires Distinct(ks)
    ensures LinksOf(l, ks)[p] == LinkCount(l, Elems(ks), p)
  {
    if ks == [] {
      assert (set k | k in ks && p in Fan(l, k)) == {};
    } else {
      var init, k := ks[..|ks| - 1], ks[|ks| - 1];
      LinksOfCount(l, init, p);
      assert Elems(ks) == Elems(init) + {k};
      LinkCountStep(l, Elems(init), k, p);
    }
  }

  lemma GrownWired(r0: Nodes.Registry, r: Nodes.Registry, l: Layout, ks: seq<(string, string)>)
    requires Distinct(ks) && Grown(r0, r, LinksOf(l, ks))
    ensures Wired(r0, r, l, Elems(ks))
  {
    forall p ensures LinksOf(l, ks)[p] == LinkCount(l, Elems(ks), p) {
      LinksOfCount(l, ks, p);
    }
  }

  /** The elements of `s` in some order, as Go's `range` over a map visits them. */
  method Listing<T>(s: set<T>) returns (xs: seq<T>)
    ensures Elems(xs) == s && Distinct(xs)
  {
    xs := [];
    var rest := s;
    while rest != {}
      invariant rest <= s && Elems(xs) == s - rest && Distinct(xs)
      decreases |rest|
    {
      var x :| x in rest;
      assert Elems(xs + [x]) == Elems(xs) + {x};
      xs, rest := xs + [x], rest - {x};
    }
  }

  // ---------------------------------------------------------------------
  // Linking one source to its targets, step by step
  // ---------------------------------------------------------------------

  /** The registry after `addEdge(f, lookup[y])` for each `y` of `ys` in turn.
      A name without a live node would make Go panic; the callers stop before
      one, so here it simply links nothing. */
  ghost function Appended(r: Nodes.Registry, f: Handle, ys: seq<string>): (r': Nodes.Registry)
    ensures r' == r.(preds := r'.preds, succs := r'.succs)
    ensures r'.preds.Keys == r.preds.Keys && r'.succs.Keys == r.succs.Keys
  {
    if ys == [] then r
    else
      var r', y := Appended(r, f, ys[..|ys| - 1]), ys[|ys| - 1];
      if f in r'.succs && y in r'.lookup && r'.lookup[y] in r'.preds then Nodes.Linked(r', f, r'.lookup[y]) else r'
  }

  /** Every name in `Lookup` leads to a live node with adjacency lists. */
  lemma LiveNames(r: Nodes.Registry)
    requires Nodes.Consistent(r)
    ensures forall name :: name in r.lookup ==> r.lookup[name] in r.names && r.lookup[name] in r.preds && r.lookup[name] in r.succs
  {
  }

  /** One name of `Lookup` leads to a live node. */
  lemma LiveName(r: Nodes.Registry, name: string)
    requires Nodes.Consistent(r) && name in r.lookup
    ensures r.lookup[name] in r.names && r.lookup[name] in r.preds && r.lookup[name] in r.succs
  {
  }

  /** A live node has adjacency lists. */
  lemma LiveNode(r: Nodes.Registry, h: Handle)
    requires Nodes.Consistent(r) && h in r.names
    ensures h in r.preds && h in r.succs
  {
  }

  /** `Appended` appends the links of `RowOf`. */
  lemma {:induction false} AppendedGrown(r: Nodes.Registry, l: Layout, f: Handle, ys: seq<string>)
    requires f in r.succs && l.lookup == r.lookup
    requires forall j :: 0 <= j < |ys| ==> ys[j] in r.lookup && r.lookup[ys[j]] in r.preds
    ensures Grown(r, Appended(r, f, ys), RowOf(l, f, ys))
  {
    if ys == [] {
      GrownNone(r);
    } else {
      var init := ys[..|ys| - 1];
      AppendedGrown(r, l, f, init);
      GrownLink(r, Appended(r, f, init), RowOf(l, f, init), f, r.lookup[ys[|ys| - 1]]);
    }
  }

  lemma AppendedStep(r: Nodes.Registry, f: Handle, ys: seq<string>, i: nat)
    requires f in r.succs && i < |ys| && ys[i] in r.lookup && r.lookup[ys[i]] in r.preds
    ensures Appended(r, f, ys[..i + 1]) == Nodes.Linked(Appended(r, f, ys[..i]), f, r.lookup[ys[i]])
  {
    var s := ys[..i + 1];
    assert s != [] && s[..|s| - 1] == ys[..i] && s[|s| - 1] == ys[i];
  }

  lemma {:induction false} AppendedConsistent(r: Nodes.Registry, f: Handle, ys: seq<string>)
    requires Nodes.Consistent(r) && f in r.names
    requires forall j :: 0 <= j < |ys| ==> ys[j] in r.lookup && r.lookup[ys[j]] in r.preds
    ensures Nodes.Consistent(Appended(r, f, ys))
  {
    if ys != [] {
      var init := ys[..|ys| - 1];
      AppendedConsistent(r, f, init);
      Nodes.LinkedConsistent(Appended(r, f, init), f, r.lookup[ys[|ys| - 1]]);
    }
  }

  /** The links from `f` to the names `ys`; `false` at the first name with no
      node (Go dereferences a nil `*Node` there). */
  method LinkRow(ns: Nodes.Nodes, f: Handle, ys: seq<string>, ghost r0: Nodes.Registry) returns (ok: bool)
    requires ns.State() == r0 && f in r0.succs
    requires forall y :: y in r0.lookup ==> r0.lookup[y] in r0.preds
    modifies ns
    ensures ok <==> forall j :: 0 <= j < |ys| ==> ys[j] in r0.lookup
    ensures ok ==> ns.State() == Appended(r0, f, ys)
  {
    var i := 0;
    while i < |ys|
      invariant i <= |ys|
      invariant forall j :: 0 <= j < i ==> ys[j] in r0.lookup && r0.lookup[ys[j]] in r0.preds
      invariant ns.State() == Appended(r0, f, ys[..i])
    {
      if ys[i] !in ns.lookup {
        return false;
      }
      LinkStep(ns, f, ys, i, r0);
      i := i + 1;
    }
    assert ys[..i] == ys;
    ok := true;
  }

  /** The body of `addEdges`' loop: `addEdge(f, Lookup[ys[i]])`. */
  method LinkStep(ns: Nodes.Nodes, f: Handle, ys: seq<string>, i: nat, ghost r0: Nodes.Registry)
    requires f in r0.succs && i < |ys|
    requires forall j :: 0 <= j <= i ==> ys[j] in r0.lookup && r0.lookup[ys[j]] in r0.preds
    requires ns.State() == Appended(r0, f, ys[..i])
    modifies ns
    ensures ns.State() == Appended(r0, f, ys[..i + 1])
  {
    AppendedStep(r0, f, ys, i);
    ns.Append(f, ns.lookup[ys[i]]);
  }

  /** `addEdges(from, dst)` does not panic: `dst` resolves, and when it stands
      for at least one name, `from` is a node and so is every such name. */
  predicate Linkable(l: Layout, from: Graph.Option<Handle>, dst: string)
  {
    var d := Resolve(l, dst);
    d.Some? && (d.value == {} || (from.Some? && d.value <= l.lookup.Keys))
  }

  /** The names `dst` stands for, in the order Go's `range` visits them;
      `None` when it is neither a node nor a subgraph. */
  method Targets(g: Graph.Graph, dst: string) returns (ys: Graph.Option<seq<string>>)
    ensures var d := Resolve(LayoutOf(g), dst);
      ys.Some? <==> d.Some?
    ensures ys.Some? ==> Elems(ys.value) == Resolve(LayoutOf(g), dst).value && Distinct(ys.value)
  {
    if dst in g.nodes.lookup {
      ys := Graph.Some([dst]);
      assert Elems([dst]) == {dst};
    } else if g.IsSubGraph(dst) {
      var xs := Listing(Children(g.relations, dst));
      ys := Graph.Some(xs);
    } else {
      ys := Graph.None;
    }
  }

  /** A sequence lies inside `keys` exactly when its elements do, and is empty
      exactly when it has no elements. */
  lemma ElemsWithin<T>(ys: seq<T>, keys: set<T>)
    ensures (forall j :: 0 <= j < |ys| ==> ys[j] in keys) <==> Elems(ys) <= keys
    ensures ys == [] <==> Elems(ys) == {}
  {
    if ys != [] {
      assert ys[0] in Elems(ys);
    }
  }

  /** Linking `f` to the distinct node names `ys` keeps the registry consistent
      and appends the links of `Row`. */
  lemma RowGrown(r: Nodes.Registry, l: Layout, f: Handle, ys: seq<string>)
    requires Nodes.Consistent(r) && l.lookup == r.lookup && f in r.names && Distinct(ys)
    requires forall j :: 0 <= j < |ys| ==> ys[j] in r.lookup
    ensures forall j :: 0 <= j < |ys| ==> ys[j] in r.lookup && r.lookup[ys[j]] in r.preds
    ensures Nodes.Consistent(Appended(r, f, ys))
    ensures Grown(r, Appended(r, f, ys), multiset(Row(l, Graph.Some(f), Elems(ys))))
  {
    NamedInjective(r);
    LiveNames(r);
    LiveNode(r, f);
    AppendedConsistent(r, f, ys);
    AppendedGrown(r, l, f, ys);
    RowOfIsRow(l, f, ys);
  }

  /** `addEdges(from, dst)`: `addEdge(from, to)` for each node `dst` stands
      for, with `from` `None` where Go passes a nil node. It panics (`ok`
      false) when `dst` names neither a node nor a subgraph, or when a link
      would touch a nil node; after a panic the state is unspecified. */
  method AddEdges(g: Graph.Graph, from: Graph.Option<Handle>, dst: string, ghost l: Layout, ghost r0: Nodes.Registry) returns (ok: bool)
    requires g.Valid() && g.nodes.State() == r0 && l == LayoutOf(g)
    requires from.Some? ==> from.value in r0.names
    modifies g.nodes
    ensures ok <==> Linkable(l, from, dst)
    ensures ok ==> g.Valid() && Grown(r0, g.nodes.State(), multiset(Row(l, from, Resolve(l, dst).value)))
  {
    var ys := Targets(g, dst);
    if ys.None? {
      return false;
    }
    ElemsWithin(ys.value, l.lookup.Keys);
    ok := LinkAll(g.nodes, from, ys.value, l, r0);
  }

  /** The links from `from` to the distinct names `ys`; `false` when one of
      them would touch a nil node. */
  method LinkAll(ns: Nodes.Nodes, from: Graph.Option<Handle>, ys: seq<string>, ghost l: Layout, ghost r0: Nodes.Registry) returns (ok: bool)
    requires ns.Valid() && ns.State() == r0 && l.lookup == r0.lookup && Distinct(ys)
    requires from.Some? ==> from.value in r0.names
    modifies ns
    ensures ok <==> ys == [] || (from.Some? && forall j :: 0 <= j < |ys| ==> ys[j] in r0.lookup)
    ensures ok ==> ns.Valid() && Grown(r0, ns.State(), multiset(Row(l, from, Elems(ys))))
  {
    if from.None? {
      // the first link dereferences the nil node
      GrownNone(r0);
      return ys == [];
    }
    LiveNames(r0);
    ok := LinkRow(ns, from.value, ys, r0);
    if ok {
      RowGrown(r0, l, from.value, ys);
    }
  }

  /** With a node as source, a stored edge wires like `addEdges` from that node. */
  lemma WirableNode(l: Layout, k: (string, string))
    requires k.0 in l.lookup
    ensures Wirable(l, k) <==> Linkable(l, Graph.Some(l.lookup[k.0]), k.1)
    ensures Linkable(l, Graph.Some(l.lookup[k.0]), k.1) ==> Fan(l, k) == Row(l, Graph.Some(l.lookup[k.0]), Resolve(l, k.1).value)
  {
    assert Resolve(l, k.0) == Graph.Some({k.0});
  }

  /** With a subgraph as source, a stored edge wires like `addEdges` from each
      child in turn. */
  lemma WirableSub(l: Layout, k: (string, string), xs: seq<string>)
    requires k.0 !in l.lookup && k.0 in l.subGraphs && Injective(l.lookup)
    requires Elems(xs) == Children(l.relations, k.0) && Distinct(xs)
    ensures Wirable(l, k) <==> AllLinkable(l, xs, k.1)
    ensures Wirable(l, k) ==> BlockOf(l, xs, k.1) == multiset(Fan(l, k))
  {
    assert Resolve(l, k.0) == Graph.Some(Elems(xs));
    AllLinkableEach(l, xs, k.1);
    ElemsWithin(xs, l.lookup.Keys);
    if xs != [] {
      assert xs[0] in Elems(xs);
    }
    if Resolve(l, k.1).Some? {
      BlockOfIsBlock(l, xs, k.1);
    }
  }

  /** `addEdges` from each of `xs` in turn does not panic. */
  predicate AllLinkable(l: Layout, xs: seq<string>, dst: string)
  {
    xs == [] || (AllLinkable(l, xs[..|xs| - 1], dst) && Linkable(l, Find(l, xs[|xs| - 1]), dst))
  }

  lemma {:induction false} AllLinkableEach(l: Layout, xs: seq<string>, dst: string)
    ensures AllLinkable(l, xs, dst) <==> forall j :: 0 <= j < |xs| ==> Linkable(l, Find(l, xs[j]), dst)
  {
    if xs != [] {
      var init := xs[..|xs| - 1];
      AllLinkableEach(l, init, dst);
      assert forall j :: 0 <= j < |init| ==> init[j] == xs[j];
    }
  }

  lemma AllLinkablePrefix(l: Layout, xs: seq<string>, n: nat, dst: string)
    requires n <= |xs|
    ensures AllLinkable(l, xs, dst) ==> AllLinkable(l, xs[..n], dst)
  {
    AllLinkableEach(l, xs, dst);
    AllLinkableEach(l, xs[..n], dst);
  }

  lemma AllLinkableStep(l: Layout, xs: seq<string>, i: nat, dst: string)
    requires i < |xs|
    ensures AllLinkable(l, xs[..i + 1], dst) <==> AllLinkable(l, xs[..i], dst) && Linkable(l, Find(l, xs[i]), dst)
  {
    assert xs[..i + 1][..i] == xs[..i];
  }

  /** One more source name keeps the links made so far and appends its row. */
  lemma BlockGrown(r0: Nodes.Registry, r: Nodes.Registry, r': Nodes.Registry, l: Layout, xs: seq<string>, i: nat, dst: string)
    requires i < |xs| && Resolve(l, dst).Some?
    requires Grown(r0, r, BlockOf(l, xs[..i], dst))
    requires Grown(r, r', multiset(Row(l, Find(l, xs[i]), Resolve(l, dst).value)))
    ensures Grown(r0, r', BlockOf(l, xs[..i + 1], dst))
  {
    assert xs[..i + 1][..i] == xs[..i];
    GrownMore(r0, r, r', BlockOf(l, xs[..i], dst), multiset(Row(l, Find(l, xs[i]), Resolve(l, dst).value)));
  }

  /** One more stored edge keeps the links made so far and appends its fan-out. */
  lemma LinksGrown(r0: Nodes.Registry, r: Nodes.Registry, r': Nodes.Registry, l: Layout, ks: seq<(string, string)>, i: nat)
    requires i < |ks|
    requires Grown(r0, r, LinksOf(l, ks[..i]))
    requires Grown(r, r', multiset(Fan(l, ks[i])))
    ensures Grown(r0, r', LinksOf(l, ks[..i + 1]))
  {
    assert ks[..i + 1][..i] == ks[..i];
    GrownMore(r0, r, r', LinksOf(l, ks[..i]), multiset(Fan(l, ks[i])));
  }

  /** Wiring each of the stored edges `ks` in turn does not panic. */
  predicate AllWirable(l: Layout, ks: seq<(string, string)>)
  {
    ks == [] || (AllWirable(l, ks[..|ks| - 1]) && Wirable(l, ks[|ks| - 1]))
  }

  /** A listing of the stored edges is wirable exactly when every stored edge is. */
  lemma {:induction false} AllWirableEach(l: Layout, ks: seq<(string, string)>, keys: set<(string, string)>)
    requires Elems(ks) == keys
    ensures AllWirable(l, ks) <==> forall k :: k in keys ==> Wirable(l, k)
  {
    if ks != [] {
      var init, k := ks[..|ks| - 1], ks[|ks| - 1];
      assert Elems(ks) == Elems(init) + {k};
      AllWirableEach(l, init, Elems(init));
    }
  }

  lemma AllWirablePrefix(l: Layout, ks: seq<(string, string)>, n: nat)
    requires n <= |ks|
    ensures AllWirable(l, ks) ==> AllWirable(l, ks[..n])
  {
    AllWirableEach(l, ks, Elems(ks));
    AllWirableEach(l, ks[..n], Elems(ks[..n]));
    assert Elems(ks[..n]) <= Elems(ks) by {
      forall k | k in Elems(ks[..n]) ensures k in Elems(ks) {
        var j :| 0 <= j < n && ks[..n][j] == k;
        assert ks[j] == k;
      }
    }
  }

  lemma AllWirableStep(l: Layout, ks: seq<(string, string)>, i: nat)
    requires i < |ks|
    ensures AllWirable(l, ks[..i + 1]) <==> AllWirable(l, ks[..i]) && Wirable(l, ks[i])
  {
    assert ks[..i + 1][..i] == ks[..i];
  }

  /** The loop over the children of a source subgraph: `addEdges(from, dst)`
      for each child `xs[i]`, with `from` nil when the child has no node. */
  method FanOut(g: Graph.Graph, xs: seq<string>, dst: string, ghost l: Layout, ghost r0: Nodes.Registry) returns (ok: bool)
    requires g.Valid() && g.nodes.State() == r0 && l == LayoutOf(g)
    modifies g.nodes
    ensures ok <==> AllLinkable(l, xs, dst)
    ensures ok ==> g.Valid() && Grown(r0, g.nodes.State(), BlockOf(l, xs, dst))
  {
    GrownNone(r0);
    var i := 0;
    while i < |xs|
      invariant FannedOut(g, xs, dst, l, r0, i)
    {
      var linked := FanStep(g, xs, dst, l, r0, i);
      if !linked {
        return false;
      }
      i := i + 1;
    }
    FannedAll(g, xs, dst, l, r0);
    ok := true;
  }

  /** The children loop, run to the end, has linked every child. */
  lemma FannedAll(g: Graph.Graph, xs: seq<string>, dst: string, l: Layout, r0: Nodes.Registry)
    requires FannedOut(g, xs, dst, l, r0, |xs|)
    ensures AllLinkable(l, xs, dst) && g.Valid() && Grown(r0, g.nodes.State(), BlockOf(l, xs, dst))
  {
    assert xs[..|xs|] == xs;
  }

  /** The state of the children loop after its first `i` children. */
  ghost predicate FannedOut(g: Graph.Graph, xs: seq<string>, dst: string, l: Layout, r0: Nodes.Registry, i: nat)
    reads g, g.nodes
  {
    i <= |xs| && g.Valid() && l == LayoutOf(g) && Fanned(r0, g.nodes.State(), l, xs, dst, i)
  }

  /** The first `i` children link, and their rows are appended to `r0`. */
  ghost predicate Fanned(r0: Nodes.Registry, r: Nodes.Registry, l: Layout, xs: seq<string>, dst: string, i: nat)
    requires i <= |xs|
  {
    AllLinkable(l, xs[..i], dst) && Grown(r0, r, BlockOf(l, xs[..i], dst))
  }

  /** One child of the source subgraph: `addEdges` from its node. A failure
      means the whole loop cannot succeed. */
  method FanStep(g: Graph.Graph, xs: seq<string>, dst: string, ghost l: Layout, ghost r0: Nodes.Registry, i: nat) returns (linked: bool)
    requires i < |xs| && FannedOut(g, xs, dst, l, r0, i)
    modifies g.nodes
    ensures linked ==> FannedOut(g, xs, dst, l, r0, i + 1)
    ensures !linked ==> !AllLinkable(l, xs, dst)
  {
    ghost var r := g.nodes.State();
    linked := FanChild(g, xs[i], dst, l, r);
    if linked {
      FanGrown(r0, r, g.nodes.State(), l, xs, i, dst);
    } else {
      FanStuck(l, xs, i, dst);
    }
  }

  /** `addEdges(g.nodes.Lookup[x], dst)` for one child `x`. */
  method FanChild(g: Graph.Graph, x: string, dst: string, ghost l: Layout, ghost r: Nodes.Registry) returns (linked: bool)
    requires g.Valid() && g.nodes.State() == r && l == LayoutOf(g)
    modifies g.nodes
    ensures linked <==> Linkable(l, Find(l, x), dst)
    ensures linked ==> g.Valid() && Grown(r, g.nodes.State(), multiset(Row(l, Find(l, x), Resolve(l, dst).value)))
  {
    var from := NodeOf(g, x);
    linked := AddEdges(g, from, dst, l, r);
  }

  /** `g.nodes.Lookup[x]`: the node named x, or Go's nil `*Node`. */
  method NodeOf(g: Graph.Graph, x: string) returns (from: Graph.Option<Handle>)
    requires g.Valid()
    ensures from == Find(LayoutOf(g), x)
    ensures from.Some? ==> from.value in g.nodes.names
  {
    from := Graph.None;
    if x in g.nodes.lookup {
      LiveName(g.nodes.State(), x);
      from := Graph.Some(g.nodes.lookup[x]);
    }
  }

  /** A child that links extends the links made so far by its row. */
  lemma FanGrown(r0: Nodes.Registry, r: Nodes.Registry, r': Nodes.Registry, l: Layout, xs: seq<string>, i: nat, dst: string)
    requires i < |xs| && Fanned(r0, r, l, xs, dst, i) && Linkable(l, Find(l, xs[i]), dst)
    requires Grown(r, r', multiset(Row(l, Find(l, xs[i]), Resolve(l, dst).value)))
    ensures Fanned(r0, r', l, xs, dst, i + 1)
  {
    AllLinkableStep(l, xs, i, dst);
    BlockGrown(r0, r, r', l, xs, i, dst);
  }

  /** A child that does not link makes the whole children loop panic. */
  lemma FanStuck(l: Layout, xs: seq<string>, i: nat, dst: string)
    requires i < |xs| && !Linkable(l, Find(l, xs[i]), dst)
    ensures !AllLinkable(l, xs, dst)
  {
    AllLinkableStep(l, xs, i, dst);
    AllLinkablePrefix(l, xs, i + 1, dst);
  }

  /** The body of the wiring loop for the stored edge `k`: `addEdges` from
      the source node, or from each child of the source subgraph; a source
      that is neither panics. */
  method AddKey(g: Graph.Graph, k: (string, string), ghost l: Layout, ghost r0: Nodes.Registry) returns (ok: bool)
    requires g.Valid() && g.nodes.State() == r0 && l == LayoutOf(g)
    modifies g.nodes
    ensures ok <==> Wirable(l, k)
    ensures ok ==> g.Valid() && Grown(r0, g.nodes.State(), multiset(Fan(l, k)))
  {
    if k.0 in g.nodes.lookup {
      LiveName(r0, k.0);
      WirableNode(l, k);
      ok := AddEdges(g, Graph.Some(g.nodes.lookup[k.0]), k.1, l, r0);
    } else if g.IsSubGraph(k.0) {
      var xs := Listing(Children(g.relations, k.0));
      NamedInjective(r0);
      WirableSub(l, k, xs);
      ok := FanOut(g, xs, k.1, l, r0);
    } else {
      ok := false;
    }
  }

  /** The wiring loop over the listing `ks` of the stored edges. */
  method WireAll(g: Graph.Graph, ks: seq<(string, string)>, ghost l: Layout, ghost r0: Nodes.Registry) returns (ok: bool)
    requires g.Valid() && g.nodes.State() == r0 && l == LayoutOf(g)
    modifies g.nodes
    ensures ok <==> AllWirable(l, ks)
    ensures ok ==> g.Valid() && Grown(r0, g.nodes.State(), LinksOf(l, ks))
  {
    GrownNone(r0);
    var i := 0;
    while i < |ks|
      invariant WiredSoFar(g, ks, l, r0, i)
    {
      var wired := WireStep(g, ks, l, r0, i);
      if !wired {
        return false;
      }
      i := i + 1;
    }
    assert ks[..i] == ks;
    ok := true;
  }

  /** The state of the wiring loop after its first `i` stored edges. */
  ghost predicate WiredSoFar(g: Graph.Graph, ks: seq<(string, string)>, l: Layout, r0: Nodes.Registry, i: nat)
    reads g, g.nodes
  {
    && i <= |ks| && g.Valid() && l == LayoutOf(g)
    && AllWirable(l, ks[..i])
    && Grown(r0, g.nodes.State(), LinksOf(l, ks[..i]))
  }

  /** One stored edge of the wiring loop. A failure means the whole loop
      cannot succeed. */
  method WireStep(g: Graph.Graph, ks: seq<(string, string)>, ghost l: Layout, ghost r0: Nodes.Registry, i: nat) returns (wired: bool)
    requires i < |ks| && WiredSoFar(g, ks, l, r0, i)
    modifies g.nodes
    ensures wired ==> WiredSoFar(g, ks, l, r0, i + 1)
    ensures !wired ==> !AllWirable(l, ks)
  {
    ghost var r := g.nodes.State();
    wired := AddKey(g, ks[i], l, r);
    AllWirableStep(l, ks, i);
    if wired {
      LinksGrown(r0, r, g.nodes.State(), l, ks, i);
    } else {
      AllWirablePrefix(l, ks, i + 1);
    }
  }

  /** The wiring loop of `NewAnalysedGraph`: every stored edge, in the
      arbitrary order of Go's map iteration. It succeeds exactly when every
      stored edge is wirable, and then every pair of nodes has gained one
      link per stored edge that fans out to it. */
  method Wire(g: Graph.Graph) returns (ok: bool)
    requires g.Valid()
    modifies g.nodes
    ensures ok <==> forall k :: k in g.edges ==> Wirable(old(LayoutOf(g)), k)
    ensures ok ==> g.Valid() && Wired(old(g.nodes.State()), g.nodes.State(), old(LayoutOf(g)), g.edges.Keys)
  {
    ghost var l := LayoutOf(g);
    ghost var r0 := g.nodes.State();
    var ks := Listing(g.edges.Keys);
    AllWirableEach(l, ks, g.edges.Keys);
    ok := WireAll(g, ks, l, r0);
    if ok {
      GrownWired(r0, g.nodes.State(), l, ks);
    }
  }

  // ---------------------------------------------------------------------
  // What wiring promises for one stored edge
  // ---------------------------------------------------------------------

  /** A stored edge between two nodes fans out to exactly the link between them. */
  lemma FanNodes(l: Layout, k: (string, string))
    requires k.0 in l.lookup && k.1 in l.lookup
    ensures Fan(l, k) == {(l.lookup[k.0], l.lookup[k.1])}
  {
    assert Resolve(l, k.0) == Graph.Some({k.0}) && Resolve(l, k.1) == Graph.Some({k.1});
  }

  /** A subgraph target stands for its direct children that are nodes, one
      level deep: a stored edge from a node to it fans out to one link per child. */
  lemma FanToSubGraph(l: Layout, k: (string, string))
    requires k.0 in l.lookup && k.1 !in l.lookup && k.1 in l.subGraphs
    ensures Fan(l, k) == set c | c in Children(l.relations, k.1) && c in l.lookup :: (l.lookup[k.0], l.lookup[c])
  {
    assert Resolve(l, k.0) == Graph.Some({k.0});
  }

  /** After wiring, every stored edge gives each link it fans out to at
      least once: `from.HasSucc(to)` and `to.HasPred(from)` hold. */
  lemma WiredLinks(r0: Nodes.Registry, r: Nodes.Registry, l: Layout, keys: set<(string, string)>, k: (string, string), p: (Handle, Handle))
    requires Wired(r0, r, l, keys) && k in keys && p in Fan(l, k)
    requires p.0 in r0.succs && p.1 in r0.preds
    ensures p.1 in r.succs[p.0] && p.0 in r.preds[p.1]
  {
    var linking := set k' | k' in keys && p in Fan(l, k');
    assert k in linking;
    assert LinkCount(l, keys, p) >= 1;
    assert multiset(r.succs[p.0])[p.1] >= 1;
    assert multiset(r.preds[p.1])[p.0] >= 1;
  }
}
