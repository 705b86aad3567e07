/** The analysed graph of graph.go: graph attributes, the node registry, the
    edge registry, the subgraphs and the parent-to-children relation, with
    the queries and edits on them, including the `Merge` region collapse. */
module Graph {
  import opened Attrs
  import Nodes

  type Handle = Nodes.Handle

  datatype Option<T> = None | Some(value: T)

  /** An edge record: `Edge{Src, SrcPort, Dst, DstPort, Dir, Attrs}`. */
  datatype Edge = Edge(src: string, srcPort: string, dst: string, dstPort: string, dir: bool, attrs: Attrs)

  /** The edge registry: one record per ordered (source name, destination
      name) pair; adding an edge for a pair that already has one replaces it.
      `SrcToDsts` and `DstToSrcs` are the two views `DstsOf` and `SrcsOf`. */
  type EdgeMap = map<(string, string), Edge>

  /** Each record is stored under its own endpoints. */
  ghost predicate WellKeyed(edges: EdgeMap)
  {
    forall k :: k in edges ==> edges[k].src == k.0 && edges[k].dst == k.1
  }

  /** `SrcToDsts[src]`: the destinations of the edges leaving `src`. */
  function DstsOf(edges: EdgeMap, src: string): (ds: set<string>)
    ensures forall d :: d in ds <==> (src, d) in edges
  {
    set k | k in edges && k.0 == src :: k.1
  }

  /** `DstToSrcs[dst]`: the sources of the edges entering `dst`. */
  function SrcsOf(edges: EdgeMap, dst: string): (ss: set<string>)
    ensures forall s :: s in ss <==> (s, dst) in edges
  {
    set k | k in edges && k.1 == dst :: k.0
  }

  /** `Edges.Add(e)`: the record for e's pair becomes e. */
  function Put(edges: EdgeMap, e: Edge): EdgeMap
  {
    edges[(e.src, e.dst) := e]
  }

  /** Adding an edge keeps every record under its own endpoints and makes
      the edge present with the given record. */
  lemma PutKeyed(edges: EdgeMap, e: Edge)
    requires WellKeyed(edges)
    ensures WellKeyed(Put(edges, e))
    ensures (e.src, e.dst) in Put(edges, e) && Put(edges, e)[(e.src, e.dst)] == e
  {
  }

  /** Adding an edge raises the out-degree of its source and the in-degree of
      its destination by one exactly when the pair had no record before;
      every other degree is unchanged. */
  lemma PutDegrees(edges: EdgeMap, e: Edge)
    ensures |DstsOf(Put(edges, e), e.src)| == |DstsOf(edges, e.src)| + (if (e.src, e.dst) in edges then 0 else 1)
    ensures |SrcsOf(Put(edges, e), e.dst)| == |SrcsOf(edges, e.dst)| + (if (e.src, e.dst) in edges then 0 else 1)
    ensures forall n :: n != e.src ==> DstsOf(Put(edges, e), n) == DstsOf(edges, n)
    ensures forall n :: n != e.dst ==> SrcsOf(Put(edges, e), n) == SrcsOf(edges, n)
  {
    PutOut(edges, e);
    PutIn(edges, e);
    if (e.src, e.dst) in edges {
      assert e.dst in DstsOf(edges, e.src) && e.src in SrcsOf(edges, e.dst);
    } else {
      assert e.dst !in DstsOf(edges, e.src) && e.src !in SrcsOf(edges, e.dst);
    }
  }

  lemma PutOut(edges: EdgeMap, e: Edge)
    ensures DstsOf(Put(edges, e), e.src) == DstsOf(edges, e.src) + {e.dst}
    ensures forall n :: n != e.src ==> DstsOf(Put(edges, e), n) == DstsOf(edges, n)
  {
  }

  lemma PutIn(edges: EdgeMap, e: Edge)
    ensures SrcsOf(Put(edges, e), e.dst) == SrcsOf(edges, e.dst) + {e.src}
    ensures forall n :: n != e.dst ==> SrcsOf(Put(edges, e), n) == SrcsOf(edges, n)
  {
  }

  /** `delNode`'s edge removal: every record with `n` at either end is gone. */
  function Detached(edges: EdgeMap, n: string): EdgeMap
  {
    map k | k in edges && k.0 != n && k.1 != n :: edges[k]
  }

  /** After the removal `n` has no incident edge (both degrees are 0), and
      every edge not touching `n` is kept with its record. */
  lemma DetachedIsolates(edges: EdgeMap, n: string)
    requires WellKeyed(edges)
    ensures var r := Detached(edges, n);
      && WellKeyed(r)
      && DstsOf(r, n) == {} && SrcsOf(r, n) == {}
      && (forall k :: k in edges && k.0 != n && k.1 != n ==> k in r && r[k] == edges[k])
      && r.Keys <= edges.Keys
  {
  }

  /** The two loops of `delNode`: each edge leaving `n` is removed, then
      each edge entering it. */
  method Detach(edges: EdgeMap, n: string) returns (r: EdgeMap)
    ensures r == Detached(edges, n)
  {
    r := edges;
    var outs := DstsOf(r, n);
    while outs != {}
      invariant outs <= DstsOf(edges, n)
      invariant forall k :: k in r <==> k in edges && (k.0 != n || k.1 in outs)
      invariant forall k :: k in r ==> r[k] == edges[k]
      decreases outs
    {
      var d :| d in outs;
      r := r - {(n, d)};
      outs := outs - {d};
    }
    ghost var mid := r;
    var ins := SrcsOf(r, n);
    while ins != {}
      invariant ins <= SrcsOf(mid, n)
      invariant forall k :: k in r <==> k in mid && (k.1 != n || k.0 in ins)
      invariant forall k :: k in r ==> r[k] == mid[k]
      decreases ins
    {
      var s :| s in ins;
      r := r - {(s, n)};
      ins := ins - {s};
    }
    assert r == Detached(edges, n);
  }

  /** `Relations.Add(parent, child)`: `child` joins `ParentToChildren[parent]`. */
  function Related(relations: map<string, set<string>>, parent: string, child: string): (r: map<string, set<string>>)
    ensures r.Keys == relations.Keys + {parent}
    ensures r[parent] == (if parent in relations then relations[parent] else {}) + {child}
    ensures forall p :: p in relations && p != parent ==> r[p] == relations[p]
  {
    relations[parent := (if parent in relations then relations[parent] else {}) + {child}]
  }

  /** `SubGraphs.Add(name)`: a subgraph with no attributes unless one of that
      name exists already. */
  function Opened(subGraphs: map<string, Attrs>, name: string): (r: map<string, Attrs>)
    ensures r.Keys == subGraphs.Keys + {name}
    ensures forall s :: s in subGraphs ==> r[s] == subGraphs[s]
    ensures name !in subGraphs ==> r[name] == map[]
  {
    if name in subGraphs then subGraphs else subGraphs[name := map[]]
  }

  /** The entries of `a` whose keys are in `keys`. */
  function Part(a: Attrs, keys: set<string>): Attrs
  {
    map k | k in a && k in keys :: a[k]
  }

  /** Writing one more key of `a` extends the overwrite by that key. */
  lemma OverwriteStep(base: Attrs, a: Attrs, done: set<string>, key: string)
    requires key in a
    ensures Overwrite(base, Part(a, done))[key := a[key]] == Overwrite(base, Part(a, done + {key}))
  {
  }

  // ---------------------------------------------------------------------
  // removeUntil: the region between entry and exit, and its deletion
  // ---------------------------------------------------------------------

  /** `s` holds the successors of each of its nodes except `exit`: the
      recursion of `removeUntil` stops at `exit` and nowhere else. */
  ghost predicate ClosedBelow(succs: map<Handle, seq<Handle>>, s: set<Handle>, exit: Handle)
  {
    forall n, k {:trigger k in succs[n]} :: n in s && n != exit && n in succs && k in succs[n] ==> k in s
  }

  /** The nodes `removeUntil(entry, exit)` visits: the least set that holds
      `entry` and is closed under successors below `exit`, that is, `entry`
      and every node reachable from it along successors without passing
      through `exit` (and `exit` itself when it is reached). Each node is
      visited once. */
  method CollectRegion(succs: map<Handle, seq<Handle>>, entry: Handle, exit: Handle) returns (region: set<Handle>)
    requires entry in succs && Nodes.ClosedIn(succs)
    ensures entry in region && region <= succs.Keys
    ensures ClosedBelow(succs, region, exit)
    ensures forall s :: entry in s && ClosedBelow(succs, s, exit) ==> region <= s
  {
    region := {entry};
    var todo := {entry};
    while todo != {}
      invariant todo <= region <= succs.Keys
      invariant entry in region
      invariant forall n, k {:trigger k in succs[n]} :: n in region && n !in todo && n != exit && n in succs && k in succs[n] ==> k in region
      invariant forall s :: entry in s && ClosedBelow(succs, s, exit) ==> region <= s
      decreases succs.Keys - region, todo
    {
      var n :| n in todo;
      var found := if n == exit then {} else (set k | k in succs[n]) - region;
      forall s | entry in s && ClosedBelow(succs, s, exit) ensures found <= s {
        forall k | k in found ensures k in s {
          assert k in succs[n];
        }
      }
      region := region + found;
      todo := todo - {n} + found;
    }
  }

  /** `s` with every handle in `gone` dropped, the rest in their order. */
  function WithoutAll(s: seq<Handle>, gone: set<Handle>): (r: seq<Handle>)
    ensures forall y :: y in r <==> y in s && y !in gone
  {
    if s == [] then []
    else
      assert s == [s[0]] + s[1..];
      (if s[0] in gone then [] else [s[0]]) + WithoutAll(s[1..], gone)
  }

  lemma {:induction false} WithoutNone(s: seq<Handle>)
    ensures WithoutAll(s, {}) == s
  {
    if s != [] {
      WithoutNone(s[1..]);
      assert s == [s[0]] + s[1..];
    }
  }

  /** Dropping one more handle from a filtered slice filters by the larger set. */
  lemma {:induction false} WithoutMore(s: seq<Handle>, gone: set<Handle>, x: Handle)
    ensures Nodes.Without(WithoutAll(s, gone), x) == WithoutAll(s, gone + {x})
  {
    if s != [] {
      WithoutMore(s[1..], gone, x);
      var rest := WithoutAll(s[1..], gone);
      if s[0] in gone {
        assert WithoutAll(s, gone) == rest;
      } else {
        assert WithoutAll(s, gone) == [s[0]] + rest;
        assert ([s[0]] + rest)[1..] == rest;
        assert Nodes.Without([s[0]] + rest, x) == (if s[0] == x then [] else [s[0]]) + Nodes.Without(rest, x);
      }
    }
  }

  /** The names of a set of live nodes. */
  function NamesOf(names: map<Handle, string>, hs: set<Handle>): set<string>
    requires hs <= names.Keys
  {
    set h | h in hs :: names[h]
  }

  lemma NamesOfMore(names: map<Handle, string>, hs: set<Handle>, x: Handle)
    requires hs + {x} <= names.Keys
    ensures NamesOf(names, hs + {x}) == NamesOf(names, hs) + {names[x]}
  {
  }

  lemma OneMore(region: set<Handle>, todo: set<Handle>, x: Handle)
    requires x in todo && todo <= region
    ensures (region - todo) + {x} == region - (todo - {x})
  {
  }

  /** The registry `r` is `r0` with the nodes in `gone` deleted one by one:
      they are gone from the maps and from `Lookup`, the ordered list and
      every survivor's lists are filtered, and everything else is kept. */
  ghost predicate Pruned(r0: Nodes.Registry, r: Nodes.Registry, gone: set<Handle>)
  {
    && gone <= r0.names.Keys
    && r.names == r0.names - gone
    && r.attrs == r0.attrs - gone
    && r.lookup == r0.lookup - NamesOf(r0.names, gone)
    && r.nodes == WithoutAll(r0.nodes, gone)
    && (forall h :: h in r.succs ==> h in r0.succs && r.succs[h] == WithoutAll(r0.succs[h], gone))
    && (forall h :: h in r.preds ==> h in r0.preds && r.preds[h] == WithoutAll(r0.preds[h], gone))
    && r.next == r0.next
  }

  lemma PrunedNone(r0: Nodes.Registry)
    ensures Pruned(r0, r0, {})
  {
    WithoutNone(r0.nodes);
    forall h | h in r0.succs ensures r0.succs[h] == WithoutAll(r0.succs[h], {}) {
      WithoutNone(r0.succs[h]);
    }
    forall h | h in r0.preds ensures r0.preds[h] == WithoutAll(r0.preds[h], {}) {
      WithoutNone(r0.preds[h]);
    }
    assert NamesOf(r0.names, {}) == {};
    assert r0.lookup - {} == r0.lookup;
    assert r0.names - {} == r0.names && r0.attrs - {} == r0.attrs;
  }

  /** Deleting one more live node with `Nodes.del` extends the pruning. */
  lemma PrunedStep(r0: Nodes.Registry, r: Nodes.Registry, gone: set<Handle>, x: Handle)
    requires Pruned(r0, r, gone) && Nodes.Consistent(r) && x in r.names
    ensures Pruned(r0, Nodes.Deleted(r, x), gone + {x})
  {
    Nodes.DeletedUnlinks(r, x);
    var r' := Nodes.Deleted(r, x);
    WithoutMore(r0.nodes, gone, x);
    PrunedAdjacency(r0.succs, r.succs, r'.succs, gone, x);
    PrunedAdjacency(r0.preds, r.preds, r'.preds, gone, x);
    PrunedNames(r0, r, gone, x);
  }

  lemma PrunedAdjacency(adj0: map<Handle, seq<Handle>>, adj: map<Handle, seq<Handle>>, adj': map<Handle, seq<Handle>>, gone: set<Handle>, x: Handle)
    requires forall h :: h in adj ==> h in adj0 && adj[h] == WithoutAll(adj0[h], gone)
    requires adj'.Keys <= adj.Keys
    requires forall h :: h in adj' ==> adj'[h] == Nodes.Without(adj[h], x)
    ensures forall h :: h in adj' ==> h in adj0 && adj'[h] == WithoutAll(adj0[h], gone + {x})
  {
    forall h | h in adj' ensures h in adj0 && adj'[h] == WithoutAll(adj0[h], gone + {x}) {
      WithoutMore(adj0[h], gone, x);
    }
  }

  lemma PrunedNames(r0: Nodes.Registry, r: Nodes.Registry, gone: set<Handle>, x: Handle)
    requires Pruned(r0, r, gone) && x in r.names
    ensures gone + {x} <= r0.names.Keys
    ensures r.lookup - {r.names[x]} == r0.lookup - NamesOf(r0.names, gone + {x})
    ensures r.names - {x} == r0.names - (gone + {x})
    ensures r.attrs - {x} == r0.attrs - (gone + {x})
  {
    NamesOfMore(r0.names, gone, x);
  }

  /** `delNode`'s edge removal for a set of names. */
  function DetachedAll(edges: EdgeMap, gone: set<string>): EdgeMap
  {
    map k | k in edges && k.0 !in gone && k.1 !in gone :: edges[k]
  }

  lemma DetachedMore(edges: EdgeMap, gone: set<string>, n: string)
    ensures Detached(DetachedAll(edges, gone), n) == DetachedAll(edges, gone + {n})
  {
  }

  lemma DetachedNone(edges: EdgeMap)
    ensures DetachedAll(edges, {}) == edges
  {
  }

  // ---------------------------------------------------------------------
  // Merge: re-targeting the edges of entry and exit to the new node
  // ---------------------------------------------------------------------

  datatype MergeError = SameNode | NameTaken | NotIdom

  /** `Merged`: the new node and the region that was deleted; `Refused`: one
      of the three checks failed before anything changed; `Fault`: a replaced
      edge has no record, where the source dereferences a nil edge. */
  datatype MergeOutcome = Merged(node: Handle, region: set<Handle>) | Refused(err: MergeError) | Fault

  /** `n` copies of `h`. */
  function Copies(h: Handle, n: nat): (r: seq<Handle>)
    ensures |r| == n
    ensures forall i :: 0 <= i < n ==> r[i] == h
  {
    if n == 0 then [] else Copies(h, n - 1) + [h]
  }

  /** Each node of `ps` is live and has an edge record into `to`. */
  ghost predicate RecordedInto(edges: EdgeMap, names: map<Handle, string>, ps: seq<Handle>, to: string)
  {
    forall p :: p in ps ==> p in names && (names[p], to) in edges
  }

  /** Each node of `ss` is live and has an edge record from `from`. */
  ghost predicate RecordedFrom(edges: EdgeMap, names: map<Handle, string>, ss: seq<Handle>, from: string)
  {
    forall s :: s in ss ==> s in names && (from, names[s]) in edges
  }

  /** The edges `pred -> name` that Merge adds for the predecessors `ps` of
      the node named `to`: directed, without ports, with the attributes of
      the edge `pred -> to` they replace. */
  function Into(edges: EdgeMap, names: map<Handle, string>, ps: seq<Handle>, to: string, name: string): EdgeMap
    requires RecordedInto(edges, names, ps, to)
  {
    map k | k in (set p | p in ps :: (names[p], name)) :: Edge(k.0, "", name, "", true, edges[(k.0, to)].attrs)
  }

  /** The edges `name -> succ` that Merge adds for the successors `ss` of
      the node named `from`, with the attributes of `from -> succ`. */
  function OutOf(edges: EdgeMap, names: map<Handle, string>, ss: seq<Handle>, from: string, name: string): EdgeMap
    requires RecordedFrom(edges, names, ss, from)
  {
    map k | k in (set s | s in ss :: (name, names[s])) :: Edge(name, "", k.1, "", true, edges[(from, k.1)].attrs)
  }

  lemma IntoNone(edges: EdgeMap, names: map<Handle, string>, to: string, name: string)
    ensures Into(edges, names, [], to, name) == map[]
  {
  }

  lemma OutOfNone(edges: EdgeMap, names: map<Handle, string>, from: string, name: string)
    ensures OutOf(edges, names, [], from, name) == map[]
  {
  }

  /** Adding the replacement of one more predecessor's edge. */
  lemma IntoStep(edges: EdgeMap, names: map<Handle, string>, ps: seq<Handle>, p: Handle, to: string, name: string)
    requires RecordedInto(edges, names, ps + [p], to)
    ensures RecordedInto(edges, names, ps, to)
    ensures Put(edges + Into(edges, names, ps, to, name), Edge(names[p], "", name, "", true, edges[(names[p], to)].attrs))
      == edges + Into(edges, names, ps + [p], to, name)
  {
    assert forall q :: q in ps ==> q in ps + [p];
    assert (set q | q in ps + [p] :: (names[q], name)) == (set q | q in ps :: (names[q], name)) + {(names[p], name)};
  }

  /** Adding the replacement of one more successor's edge. */
  lemma OutOfStep(edges: EdgeMap, names: map<Handle, string>, ss: seq<Handle>, x: Handle, from: string, name: string)
    requires RecordedFrom(edges, names, ss + [x], from)
    ensures RecordedFrom(edges, names, ss, from)
    ensures Put(edges + OutOf(edges, names, ss, from, name), Edge(name, "", names[x], "", true, edges[(from, names[x])].attrs))
      == edges + OutOf(edges, names, ss + [x], from, name)
  {
    assert forall q :: q in ss ==> q in ss + [x];
    assert (set q | q in ss + [x] :: (name, names[q])) == (set q | q in ss :: (name, names[q])) + {(name, names[x])};
  }

  /** A key whose destination is not the new name is untouched by `Into`. */
  lemma IntoAvoids(edges: EdgeMap, names: map<Handle, string>, ps: seq<Handle>, to: string, name: string, k: (string, string))
    requires RecordedInto(edges, names, ps, to) && k.1 != name
    ensures k in edges + Into(edges, names, ps, to, name) <==> k in edges
    ensures k in edges ==> (edges + Into(edges, names, ps, to, name))[k] == edges[k]
  {
  }

  /** A key whose source is not the new name is untouched by `OutOf`. */
  lemma OutOfAvoids(edges: EdgeMap, names: map<Handle, string>, ss: seq<Handle>, from: string, name: string, k: (string, string))
    requires RecordedFrom(edges, names, ss, from) && k.0 != name
    ensures k in edges + OutOf(edges, names, ss, from, name) <==> k in edges
    ensures k in edges ==> (edges + OutOf(edges, names, ss, from, name))[k] == edges[k]
  {
  }

  /** Appending `h` to the list of `p` adds one copy of `h` per occurrence
      of `p` among the linked nodes. */
  lemma CopiesStep(adj0: map<Handle, seq<Handle>>, adj: map<Handle, seq<Handle>>, adj': map<Handle, seq<Handle>>, h: Handle, ps: seq<Handle>, p: Handle)
    requires forall q :: q in adj0 ==> q in adj && adj[q] == adj0[q] + Copies(h, multiset(ps)[q])
    requires p in adj && adj' == adj[p := adj[p] + [h]]
    ensures forall q :: q in adj0 ==> adj'[q] == adj0[q] + Copies(h, multiset(ps + [p])[q])
  {
    forall q | q in adj0 ensures adj'[q] == adj0[q] + Copies(h, multiset(ps + [p])[q]) {
      if q == p {
        assert multiset(ps + [p])[q] == multiset(ps)[q] + 1;
        assert Copies(h, multiset(ps)[q] + 1) == Copies(h, multiset(ps)[q]) + [h];
      } else {
        assert multiset(ps + [p])[q] == multiset(ps)[q];
      }
    }
  }

  lemma SliceStep(s: seq<Handle>, i: nat)
    requires i < |s|
    ensures s[..i + 1] == s[..i] + [s[i]]
  {
  }

  lemma SliceAll(s: seq<Handle>)
    ensures s[..|s|] == s
  {
  }

  /** The first loop of `Merge` has linked the predecessors `ps` of the node
      named `to` to the new node `h`: `h` has them as predecessors, each of
      them has `h` once more per occurrence as a successor, and the edges
      `pred -> name` are recorded; nothing else has changed since `r0`, `e0`. */
  ghost predicate LinkedPreds(r0: Nodes.Registry, r: Nodes.Registry, e0: EdgeMap, e: EdgeMap, ps: seq<Handle>, to: string, h: Handle)
  {
    && h in r0.names && h in r0.preds && h in r0.succs && h !in ps && to != r0.names[h]
    && RecordedInto(e0, r0.names, ps, to)
    && r == r0.(preds := r.preds, succs := r.succs)
    && PredsLinked(r0.preds, r0.succs, r.preds, r.succs, ps, h)
    && e == e0 + Into(e0, r0.names, ps, to, r0.names[h])
  }

  /** The adjacency part of `LinkedPreds`: `h` has gained the predecessors
      `ps`, and each of them `h` as a successor once per occurrence. */
  ghost predicate PredsLinked(preds0: map<Handle, seq<Handle>>, succs0: map<Handle, seq<Handle>>,
                              preds: map<Handle, seq<Handle>>, succs: map<Handle, seq<Handle>>, ps: seq<Handle>, h: Handle)
  {
    && h in preds0
    && preds.Keys == preds0.Keys && succs.Keys == succs0.Keys
    && preds[h] == preds0[h] + ps
    && (forall q :: q in preds0 && q != h ==> preds[q] == preds0[q])
    && (forall q :: q in succs0 ==> succs[q] == succs0[q] + Copies(h, multiset(ps)[q]))
  }

  /** Linking one more predecessor `p` to `h` extends `PredsLinked`. */
  lemma PredsLinkedStep(preds0: map<Handle, seq<Handle>>, succs0: map<Handle, seq<Handle>>,
                        preds: map<Handle, seq<Handle>>, succs: map<Handle, seq<Handle>>, ps: seq<Handle>, h: Handle, p: Handle)
    requires PredsLinked(preds0, succs0, preds, succs, ps, h) && p in succs0
    ensures PredsLinked(preds0, succs0, preds[h := preds[h] + [p]], succs[p := succs[p] + [h]], ps + [p], h)
  {
    assert preds[h] + [p] == preds0[h] + (ps + [p]);
    CopiesStep(succs0, succs, succs[p := succs[p] + [h]], h, ps, p);
  }

  lemma LinkedPredsNone(r0: Nodes.Registry, e0: EdgeMap, to: string, h: Handle)
    requires h in r0.names && h in r0.preds && h in r0.succs && to != r0.names[h]
    ensures LinkedPreds(r0, r0, e0, e0, [], to, h)
  {
    IntoNone(e0, r0.names, to, r0.names[h]);
    assert r0.preds[h] + [] == r0.preds[h];
    forall q | q in r0.succs ensures r0.succs[q] == r0.succs[q] + Copies(h, multiset([])[q]) {
      assert r0.succs[q] + [] == r0.succs[q];
    }
  }

  /** Linking one more predecessor `p` extends the first loop of `Merge`. */
  lemma LinkedPredsStep(r0: Nodes.Registry, r: Nodes.Registry, e0: EdgeMap, e: EdgeMap, ps: seq<Handle>, to: string, h: Handle, p: Handle)
    requires LinkedPreds(r0, r, e0, e, ps, to, h)
    requires p in r0.names && p in r0.succs && p != h && (r0.names[p], to) in e0
    ensures p in r.succs && h in r.preds
    ensures LinkedPreds(r0, Nodes.Linked(r, p, h), e0,
      Put(e, Edge(r0.names[p], "", r0.names[h], "", true, e0[(r0.names[p], to)].attrs)), ps + [p], to, h)
  {
    assert RecordedInto(e0, r0.names, ps + [p], to);
    IntoStep(e0, r0.names, ps, p, to, r0.names[h]);
    PredsLinkedStep(r0.preds, r0.succs, r.preds, r.succs, ps, h, p);
  }

  /** The second loop of `Merge` has linked the new node `h` to the
      successors `ss` of the node named `from`, symmetrically. */
  ghost predicate LinkedSuccs(r1: Nodes.Registry, r: Nodes.Registry, e1: EdgeMap, e: EdgeMap, ss: seq<Handle>, from: string, h: Handle)
  {
    && h in r1.names && h in r1.preds && h in r1.succs && from != r1.names[h]
    && RecordedFrom(e1, r1.names, ss, from)
    && r == r1.(preds := r.preds, succs := r.succs)
    && SuccsLinked(r1.preds, r1.succs, r.preds, r.succs, ss, h)
    && e == e1 + OutOf(e1, r1.names, ss, from, r1.names[h])
  }

  /** The adjacency part of `LinkedSuccs`: `h` has gained the successors
      `ss`, and each of them `h` as a predecessor once per occurrence. */
  ghost predicate SuccsLinked(preds0: map<Handle, seq<Handle>>, succs0: map<Handle, seq<Handle>>,
                              preds: map<Handle, seq<Handle>>, succs: map<Handle, seq<Handle>>, ss: seq<Handle>, h: Handle)
  {
    && h in succs0
    && preds.Keys == preds0.Keys && succs.Keys == succs0.Keys
    && succs[h] == succs0[h] + ss
    && (forall q :: q in succs0 && q != h ==> succs[q] == succs0[q])
    && (forall q :: q in preds0 ==> preds[q] == preds0[q] + Copies(h, multiset(ss)[q]))
  }

  /** Linking `h` to one more successor `x` extends `SuccsLinked`. */
  lemma SuccsLinkedStep(preds0: map<Handle, seq<Handle>>, succs0: map<Handle, seq<Handle>>,
                        preds: map<Handle, seq<Handle>>, succs: map<Handle, seq<Handle>>, ss: seq<Handle>, h: Handle, x: Handle)
    requires SuccsLinked(preds0, succs0, preds, succs, ss, h) && x in preds0
    ensures SuccsLinked(preds0, succs0, preds[x := preds[x] + [h]], succs[h := succs[h] + [x]], ss + [x], h)
  {
    assert succs[h] + [x] == succs0[h] + (ss + [x]);
    CopiesStep(preds0, preds, preds[x := preds[x] + [h]], h, ss, x);
  }

  lemma LinkedSuccsNone(r1: Nodes.Registry, e1: EdgeMap, from: string, h: Handle)
    requires h in r1.names && h in r1.preds && h in r1.succs && from != r1.names[h]
    ensures LinkedSuccs(r1, r1, e1, e1, [], from, h)
  {
    OutOfNone(e1, r1.names, from, r1.names[h]);
    assert r1.succs[h] + [] == r1.succs[h];
    forall q | q in r1.preds ensures r1.preds[q] == r1.preds[q] + Copies(h, multiset([])[q]) {
      assert r1.preds[q] + [] == r1.preds[q];
    }
  }

  /** Linking one more successor `x` extends the second loop of `Merge`. */
  lemma LinkedSuccsStep(r1: Nodes.Registry, r: Nodes.Registry, e1: EdgeMap, e: EdgeMap, ss: seq<Handle>, from: string, h: Handle, x: Handle)
    requires LinkedSuccs(r1, r, e1, e, ss, from, h)
    requires x in r1.names && x in r1.preds && (from, r1.names[x]) in e1
    ensures h in r.succs && x in r.preds
    ensures LinkedSuccs(r1, Nodes.Linked(r, h, x), e1,
      Put(e, Edge(r1.names[h], "", r1.names[x], "", true, e1[(from, r1.names[x])].attrs)), ss + [x], from, h)
  {
    assert RecordedFrom(e1, r1.names, ss + [x], from);
    OutOfStep(e1, r1.names, ss, x, from, r1.names[h]);
    SuccsLinkedStep(r1.preds, r1.succs, r.preds, r.succs, ss, h, x);
  }

  /** The edge records `Merge` reads exist: `pred -> entry` for every
      predecessor of `entry`, and, once those are copied, `exit -> succ` for
      every successor of `exit` (which has gained the new node if `exit`
      is a predecessor of `entry`). */
  ghost predicate Retargetable(r0: Nodes.Registry, e0: EdgeMap, entry: Handle, exit: Handle, name: string)
  {
    && entry in r0.names && entry in r0.preds && exit in r0.names && exit in r0.succs
    && var h := r0.next;
       var names := r0.names[h := name];
       var ps := r0.preds[entry];
       var ss := r0.succs[exit] + Copies(h, multiset(ps)[exit]);
       && RecordedInto(e0, names, ps, r0.names[entry])
       && RecordedFrom(e0 + Into(e0, names, ps, r0.names[entry], name), names, ss, r0.names[exit])
  }

  /** The state `Merge` reaches before `removeUntil`: the new node `h` (the
      next handle) is named `name`, has the predecessors of `entry` and the
      successors of `exit` (each with one more copy of `h` per occurrence of
      `exit` among the predecessors of `entry`), every predecessor of
      `entry` has `h` as a successor and every successor of `exit` has `h` as
      a predecessor; the edges `pred -> name` and `name -> succ` are
      directed, have no ports and carry the attributes of the edges
      `pred -> entry` and `exit -> succ`. */
  ghost predicate Retargeted(r0: Nodes.Registry, e0: EdgeMap, entry: Handle, exit: Handle, name: string, r: Nodes.Registry, e: EdgeMap)
  {
    RetargetedEdges(r0, e0, entry, exit, name, e) && RetargetedNodes(r0, entry, exit, name, r)
  }

  /** The edge part of `Retargeted`. */
  ghost predicate RetargetedEdges(r0: Nodes.Registry, e0: EdgeMap, entry: Handle, exit: Handle, name: string, e: EdgeMap)
  {
    && Retargetable(r0, e0, entry, exit, name)
    && var h := r0.next;
       var names := r0.names[h := name];
       var ps := r0.preds[entry];
       var ss := r0.succs[exit] + Copies(h, multiset(ps)[exit]);
       var e1 := e0 + Into(e0, names, ps, r0.names[entry], name);
       e == e1 + OutOf(e1, names, ss, r0.names[exit], name)
  }

  /** The registry part of `Retargeted`. */
  ghost predicate RetargetedNodes(r0: Nodes.Registry, entry: Handle, exit: Handle, name: string, r: Nodes.Registry)
  {
    && entry in r0.preds && exit in r0.succs && name !in r0.lookup
    && var h := r0.next;
       var ps := r0.preds[entry];
       var ss := r0.succs[exit] + Copies(h, multiset(ps)[exit]);
       && r == Nodes.Added(r0, name, map[]).(preds := r.preds, succs := r.succs)
       && r.preds.Keys == r0.preds.Keys + {h} && r.succs.Keys == r0.succs.Keys + {h}
       && r.preds[h] == ps + Copies(h, multiset(ss)[h])
       && r.succs[h] == ss
       && (forall q :: q in r0.preds ==> r.preds[q] == r0.preds[q] + Copies(h, multiset(ss)[q]))
       && (forall q :: q in r0.succs ==> r.succs[q] == r0.succs[q] + Copies(h, multiset(ps)[q]))
  }

  /** The node `Merge` adds has no links yet, so it is none of the
      predecessors of `entry`, which are all live. */
  lemma AddedAlone(r0: Nodes.Registry, name: string, entry: Handle, exit: Handle)
    requires Nodes.Consistent(r0) && name !in r0.lookup && entry in r0.names && exit in r0.names
    ensures r0.next !in r0.names && r0.next !in r0.preds && r0.next !in r0.succs
    ensures entry in r0.preds && exit in r0.succs && r0.names[entry] != name && r0.names[exit] != name
    ensures var ra := Nodes.Added(r0, name, map[]); var h := r0.next;
      && Nodes.Consistent(ra) && h in ra.names && h in ra.preds && h in ra.succs && entry in ra.preds
      && ra.names[h] == name && ra.preds[entry] == r0.preds[entry] && ra.names[entry] == r0.names[entry]
      && h !in ra.preds[entry] && (forall p :: p in ra.preds[entry] ==> p in ra.names)
  {
    Nodes.AddedNew(r0, name, map[]);
    var ra := Nodes.Added(r0, name, map[]);
    assert multiset(ra.succs[r0.next])[entry] == multiset(ra.preds[entry])[r0.next];
  }

  /** Every successor of a live node is live. */
  lemma Listed(r: Nodes.Registry, n: Handle)
    requires Nodes.Consistent(r) && n in r.names
    ensures n in r.succs && forall x :: x in r.succs[n] ==> x in r.names
  {
  }

  /** The first loop of `Merge` succeeds exactly where `Retargetable`'s
      first half holds. */
  lemma RetargetableFirst(r0: Nodes.Registry, e0: EdgeMap, entry: Handle, exit: Handle, name: string,
                          ra: Nodes.Registry, ps: seq<Handle>, to: string)
    requires name !in r0.lookup && ra == Nodes.Added(r0, name, map[])
    requires entry in r0.preds && ps == r0.preds[entry] && entry in r0.names && to == r0.names[entry]
    ensures Retargetable(r0, e0, entry, exit, name) ==> RecordedInto(e0, ra.names, ps, to)
  {
  }

  /** Once the first loop has run, the second succeeds exactly where
      `Retargetable` holds. */
  lemma RetargetableSecond(r0: Nodes.Registry, e0: EdgeMap, entry: Handle, exit: Handle, name: string,
                           ra: Nodes.Registry, r1: Nodes.Registry, e1: EdgeMap, ps: seq<Handle>, to: string, h: Handle)
    requires name !in r0.lookup && entry in r0.names && exit in r0.names && entry in r0.preds && exit in r0.succs
    requires r0.next !in r0.names
    requires ra == Nodes.Added(r0, name, map[]) && h == r0.next
    requires ps == r0.preds[entry] && to == r0.names[entry]
    requires LinkedPreds(ra, r1, e0, e1, ps, to, h)
    ensures exit in r1.names && exit in r1.succs && exit != h
    ensures Retargetable(r0, e0, entry, exit, name) <==> RecordedFrom(e1, r1.names, r1.succs[exit], r0.names[exit])
  {
    assert ra.names == r0.names[h := name] && ra.succs == r0.succs[h := []];
    assert r1.succs[exit] == r0.succs[exit] + Copies(h, multiset(ps)[exit]);
  }

  /** The two loops of `Merge`, run from the state right after the new node
      was added, reach `Retargeted`. */
  lemma RetargetedLoops(r0: Nodes.Registry, e0: EdgeMap, entry: Handle, exit: Handle, name: string,
                        ra: Nodes.Registry, r1: Nodes.Registry, e1: EdgeMap, r: Nodes.Registry, e: EdgeMap,
                        ps: seq<Handle>, ss: seq<Handle>, to: string, from: string, h: Handle)
    requires name !in r0.lookup && entry in r0.names && exit in r0.names && entry in r0.preds && exit in r0.succs
    requires r0.next !in r0.preds && r0.next !in r0.succs
    requires ra == Nodes.Added(r0, name, map[]) && h == r0.next
    requires ps == r0.preds[entry] && to == r0.names[entry] && from == r0.names[exit]
    requires LinkedPreds(ra, r1, e0, e1, ps, to, h)
    requires exit in r1.succs && ss == r1.succs[exit] && LinkedSuccs(r1, r, e1, e, ss, from, h)
    ensures Retargeted(r0, e0, entry, exit, name, r, e)
  {
    assert ra.preds == r0.preds[h := []] && ra.succs == r0.succs[h := []] && ra.names == r0.names[h := name];
    RetargetedPreds(r0.preds, ra.preds, r1.preds, r.preds, h, r0.preds[entry], r1.succs[exit]);
    RetargetedSuccs(r0.succs, ra.succs, r1.succs, r.succs, h, r0.preds[entry], r1.succs[exit]);
  }

  /** The predecessor lists after both loops of `Merge`. */
  lemma RetargetedPreds(p0: map<Handle, seq<Handle>>, pa: map<Handle, seq<Handle>>, p1: map<Handle, seq<Handle>>,
                        p: map<Handle, seq<Handle>>, h: Handle, ps: seq<Handle>, ss: seq<Handle>)
    requires h !in p0 && pa == p0[h := []]
    requires p1.Keys == pa.Keys && p1[h] == pa[h] + ps
    requires forall q :: q in pa && q != h ==> p1[q] == pa[q]
    requires p.Keys == p1.Keys
    requires forall q :: q in p1 ==> p[q] == p1[q] + Copies(h, multiset(ss)[q])
    ensures p.Keys == p0.Keys + {h}
    ensures p[h] == ps + Copies(h, multiset(ss)[h])
    ensures forall q :: q in p0 ==> p[q] == p0[q] + Copies(h, multiset(ss)[q])
  {
    assert [] + ps == ps;
  }

  /** The successor lists after both loops of `Merge`. */
  lemma RetargetedSuccs(s0: map<Handle, seq<Handle>>, sa: map<Handle, seq<Handle>>, s1: map<Handle, seq<Handle>>,
                        s: map<Handle, seq<Handle>>, h: Handle, ps: seq<Handle>, ss: seq<Handle>)
    requires h !in s0 && sa == s0[h := []] && h !in ps
    requires s1.Keys == sa.Keys
    requires forall q :: q in sa ==> s1[q] == sa[q] + Copies(h, multiset(ps)[q])
    requires s.Keys == s1.Keys && s[h] == s1[h] + ss
    requires forall q :: q in s1 && q != h ==> s[q] == s1[q]
    ensures s.Keys == s0.Keys + {h}
    ensures s[h] == ss
    ensures forall q :: q in s0 ==> s[q] == s0[q] + Copies(h, multiset(ps)[q])
  {
    assert multiset(ps)[h] == 0;
    assert s1[h] == [];
    assert [] + ss == ss;
  }

  /** `Merge` faults exactly when some predecessor of `entry` has no edge
      record into `entry`, or some successor of `exit` none from `exit`. */
  lemma RetargetableIff(r0: Nodes.Registry, e0: EdgeMap, entry: Handle, exit: Handle, name: string)
    requires Nodes.Consistent(r0) && name !in r0.lookup && entry in r0.names && exit in r0.names
    ensures entry in r0.preds && exit in r0.succs
    ensures forall p :: p in r0.preds[entry] ==> p in r0.names
    ensures forall x :: x in r0.succs[exit] ==> x in r0.names
    ensures Retargetable(r0, e0, entry, exit, name) <==>
      && (forall p :: p in r0.preds[entry] ==> (r0.names[p], r0.names[entry]) in e0)
      && (forall x :: x in r0.succs[exit] ==> (r0.names[exit], r0.names[x]) in e0)
  {
    AddedAlone(r0, name, entry, exit);
    Listed(r0, exit);
    assert forall x :: x in r0.names ==> r0.names[x] != name by {
      forall x | x in r0.names ensures r0.names[x] != name {
        assert r0.names[x] in r0.lookup;
      }
    }
    RetargetableLive(r0, e0, entry, exit, name);
  }

  lemma RetargetableLive(r0: Nodes.Registry, e0: EdgeMap, entry: Handle, exit: Handle, name: string)
    requires entry in r0.names && exit in r0.names && entry in r0.preds && exit in r0.succs
    requires r0.next !in r0.names
    requires forall p :: p in r0.preds[entry] ==> p in r0.names
    requires forall x :: x in r0.succs[exit] ==> x in r0.names
    requires forall x :: x in r0.names ==> r0.names[x] != name
    ensures Retargetable(r0, e0, entry, exit, name) <==>
      && (forall p :: p in r0.preds[entry] ==> (r0.names[p], r0.names[entry]) in e0)
      && (forall x :: x in r0.succs[exit] ==> (r0.names[exit], r0.names[x]) in e0)
  {
    var h := r0.next;
    var names := r0.names[h := name];
    var ps := r0.preds[entry];
    var to, from := r0.names[entry], r0.names[exit];
    var ss := r0.succs[exit] + Copies(h, multiset(ps)[exit]);
    if RecordedInto(e0, names, ps, to) {
      var e1 := e0 + Into(e0, names, ps, to, name);
      forall x | x in r0.succs[exit]
        ensures (from, names[x]) in e1 <==> (from, r0.names[x]) in e0
      {
        IntoAvoids(e0, names, ps, to, name, (from, names[x]));
      }
      if multiset(ps)[exit] > 0 {
        assert exit in ps;
        assert (from, name) in (set q | q in ps :: (names[q], name));
      }
      assert forall x :: x in ss ==> x in r0.succs[exit] || x == h;
    }
  }

  /** After `Merge`, when the new node `h` survives `removeUntil`, it is the
      node named `name`, its predecessors are those of `entry` and its
      successors those of `exit` that survive, with `h` itself once per
      occurrence of `exit` among the predecessors of `entry`. */
  lemma MergedLists(r0: Nodes.Registry, entry: Handle, exit: Handle, name: string,
                    mid: Nodes.Registry, region: set<Handle>, r: Nodes.Registry)
    requires Nodes.Consistent(r0) && Nodes.Consistent(r)
    requires RetargetedNodes(r0, entry, exit, name, mid) && Pruned(mid, r, region)
    requires r0.next !in region
    ensures var h := r0.next; var c := multiset(r0.preds[entry])[exit];
      && h in r.names && r.names[h] == name && name in r.lookup && r.lookup[name] == h
      && r.preds[h] == WithoutAll(r0.preds[entry] + Copies(h, c), region)
      && r.succs[h] == WithoutAll(r0.succs[exit] + Copies(h, c), region)
  {
    var h := r0.next;
    FreshUnlisted(r0, exit);
    CopiesAfter(r0.succs[exit], h, multiset(r0.preds[entry])[exit]);
    assert h in mid.names && mid.names[h] == name;
  }

  /** Appending `n` copies of a handle absent from `s` leaves it there `n` times. */
  lemma CopiesAfter(s: seq<Handle>, h: Handle, n: nat)
    requires h !in s
    ensures multiset(s + Copies(h, n))[h] == n
  {
    assert multiset(s + Copies(h, n)) == multiset(s) + multiset(Copies(h, n));
    CopiesCount(h, n);
  }

  /** The fresh handle is in no list of a consistent registry. */
  lemma FreshUnlisted(r: Nodes.Registry, n: Handle)
    requires Nodes.Consistent(r) && n in r.names
    ensures n in r.succs && r.next !in r.succs[n]
  {
  }

  lemma {:induction false} CopiesCount(h: Handle, n: nat)
    ensures multiset(Copies(h, n))[h] == n
  {
    if n > 0 {
      CopiesCount(h, n - 1);
      assert Copies(h, n) == Copies(h, n - 1) + [h];
    }
  }

  /** After `Merge`, every surviving predecessor of `entry` has a directed
      edge to `name` without ports that carries the attributes its edge to
      `entry` had. */
  lemma MergedEdgesIn(r0: Nodes.Registry, e0: EdgeMap, entry: Handle, exit: Handle, name: string,
                      mid: Nodes.Registry, me: EdgeMap, region: set<Handle>, e: EdgeMap, p: Handle)
    requires Nodes.NamedIn(mid.lookup, mid.names) && mid.names == r0.names[r0.next := name]
    requires RetargetedEdges(r0, e0, entry, exit, name, me)
    requires region <= mid.names.Keys && e == DetachedAll(me, NamesOf(mid.names, region))
    requires Nodes.FreshIn(r0.names, r0.next) && r0.next !in region
    requires p in r0.names && p in r0.preds[entry] && p !in region
    ensures (r0.names[p], r0.names[entry]) in e0
    ensures var k := (r0.names[p], name);
      k in e && e[k] == Edge(r0.names[p], "", name, "", true, e0[(r0.names[p], r0.names[entry])].attrs)
  {
    var h := r0.next;
    var names := r0.names[h := name];
    var ps := r0.preds[entry];
    assert p in names && names[p] == r0.names[p] && p != h;
    var k := (names[p], name);
    var e1 := e0 + Into(e0, names, ps, r0.names[entry], name);
    assert k in (set q | q in ps :: (names[q], name));
    assert e1[k] == Edge(names[p], "", name, "", true, e0[(names[p], r0.names[entry])].attrs);
    var ss := r0.succs[exit] + Copies(h, multiset(ps)[exit]);
    assert mid.lookup[mid.names[p]] == p && mid.lookup[mid.names[h]] == h;
    OutOfAvoids(e1, names, ss, r0.names[exit], name, k);
    Survives(mid, region, p);
    Survives(mid, region, h);
  }

  /** After `Merge`, every surviving successor of `exit` has a directed edge
      from `name` without ports that carries the attributes its edge from
      `exit` had. */
  lemma MergedEdgesOut(r0: Nodes.Registry, e0: EdgeMap, entry: Handle, exit: Handle, name: string,
                      mid: Nodes.Registry, me: EdgeMap, region: set<Handle>, e: EdgeMap, x: Handle)
    requires Nodes.NamedIn(mid.lookup, mid.names) && mid.names == r0.names[r0.next := name]
    requires RetargetedEdges(r0, e0, entry, exit, name, me)
    requires region <= mid.names.Keys && e == DetachedAll(me, NamesOf(mid.names, region))
    requires Nodes.FreshIn(r0.names, r0.next) && r0.next !in region
    requires x in r0.names && x in r0.succs[exit] && x !in region
    ensures (r0.names[exit], r0.names[x]) in e0
    ensures var k := (name, r0.names[x]);
      k in e && e[k] == Edge(name, "", r0.names[x], "", true, e0[(r0.names[exit], r0.names[x])].attrs)
  {
    var h := r0.next;
    var names := r0.names[h := name];
    var ps := r0.preds[entry];
    var ss := r0.succs[exit] + Copies(h, multiset(ps)[exit]);
    assert x in ss;
    assert x in names && names[x] == r0.names[x] && x != h;
    var e1 := e0 + Into(e0, names, ps, r0.names[entry], name);
    var from := r0.names[exit];
    assert mid.lookup[mid.names[x]] == x && mid.lookup[mid.names[h]] == h;
    IntoAvoids(e0, names, ps, r0.names[entry], name, (from, names[x]));
    OutOfHas(e1, names, ss, from, name, x);
    var k := (name, names[x]);
    assert k in me && me[k] == Edge(name, "", names[x], "", true, e0[(from, names[x])].attrs);
    Survives(mid, region, x);
    Survives(mid, region, h);
    DetachedKeeps(me, NamesOf(mid.names, region), k);
  }

  /** The edge `OutOf` adds for one successor. */
  lemma OutOfHas(edges: EdgeMap, names: map<Handle, string>, ss: seq<Handle>, from: string, name: string, x: Handle)
    requires RecordedFrom(edges, names, ss, from) && x in ss
    ensures var k := (name, names[x]);
      k in edges + OutOf(edges, names, ss, from, name)
      && (edges + OutOf(edges, names, ss, from, name))[k] == Edge(name, "", names[x], "", true, edges[(from, names[x])].attrs)
  {
    assert (name, names[x]) in (set s | s in ss :: (name, names[s]));
  }

  /** An edge between two surviving names survives the removal with its record. */
  lemma DetachedKeeps(edges: EdgeMap, gone: set<string>, k: (string, string))
    requires k in edges && k.0 !in gone && k.1 !in gone
    ensures k in DetachedAll(edges, gone) && DetachedAll(edges, gone)[k] == edges[k]
  {
  }

  /** A live node outside the deleted region keeps its name. */
  lemma Survives(mid: Nodes.Registry, region: set<Handle>, x: Handle)
    requires Nodes.NamedIn(mid.lookup, mid.names) && region <= mid.names.Keys && x in mid.names && x !in region
    ensures mid.names[x] !in NamesOf(mid.names, region)
  {
  }

  /** The analysed graph. The node registry is a separate object that the
      graph owns; it is never replaced. */
  class Graph {
    var attrs: Attrs
    var name: string
    var directed: bool
    var strict: bool
    const nodes: Nodes.Nodes
    var edges: EdgeMap
    var subGraphs: map<string, Attrs>
    var relations: map<string, set<string>>

    ghost predicate Valid()
      reads this, nodes
    {
      nodes.Valid() && WellKeyed(edges)
    }

    /** `NewGraph`. */
    constructor ()
      ensures Valid() && fresh(nodes)
      ensures attrs == map[] && name == "" && !directed && !strict
      ensures nodes.State() == Nodes.Empty()
      ensures edges == map[] && subGraphs == map[] && relations == map[]
    {
      attrs, name, directed, strict := map[], "", false, false;
      nodes := new Nodes.Nodes();
      edges, subGraphs, relations := map[], map[], map[];
    }

    /** `In`: the number of sources with an edge into `name`; 0 exactly when
        no edge enters `name`, so in particular for an unknown name. */
    function In(name: string): (n: nat)
      reads this
      ensures n == 0 <==> forall s :: (s, name) !in edges
    {
      var srcs := SrcsOf(edges, name);
      assert srcs != {} ==> exists s :: (s, name) in edges by {
        if srcs != {} { var s :| s in srcs; }
      }
      |srcs|
    }

    /** `Out`: the number of destinations with an edge from `name`; 0 exactly
        when no edge leaves `name`. */
    function Out(name: string): (n: nat)
      reads this
      ensures n == 0 <==> forall d :: (name, d) !in edges
    {
      var dsts := DstsOf(edges, name);
      assert dsts != {} ==> exists d :: (name, d) in edges by {
        if dsts != {} { var d :| d in dsts; }
      }
      |dsts|
    }

    /** `HasEdge`: whether `dst` is among the destinations of `src`. */
    function HasEdge(src: string, dst: string): (b: bool)
      reads this
      ensures b <==> (src, dst) in edges
      ensures b ==> Out(src) > 0 && In(dst) > 0
    {
      dst in DstsOf(edges, src)
    }

    function IsNode(name: string): (b: bool)
      reads this, nodes
    {
      name in nodes.lookup
    }

    function IsSubGraph(name: string): (b: bool)
      reads this
    {
      name in subGraphs
    }

    method SetStrict(strict: bool)
      modifies this`strict
      ensures this.strict == strict
      ensures unchanged(this`attrs, this`name, this`directed, this`edges, this`subGraphs, this`relations)
    {
      this.strict := strict;
    }

    method SetDir(dir: bool)
      modifies this`directed
      ensures directed == dir
      ensures unchanged(this`attrs, this`name, this`strict, this`edges, this`subGraphs, this`relations)
    {
      directed := dir;
    }

    method SetName(name: string)
      modifies this`name
      ensures this.name == name
      ensures unchanged(this`attrs, this`directed, this`strict, this`edges, this`subGraphs, this`relations)
    {
      this.name := name;
    }

    /** `AddPortEdge`: records the edge; no node is created. */
    method AddPortEdge(src: string, srcPort: string, dst: string, dstPort: string, directed: bool, a: Attrs)
      requires Valid()
      modifies this`edges
      ensures Valid()
      ensures edges == Put(old(edges), Edge(src, srcPort, dst, dstPort, directed, a))
      ensures unchanged(this`attrs, this`name, this`directed, this`strict, this`subGraphs, this`relations)
    {
      PutKeyed(edges, Edge(src, srcPort, dst, dstPort, directed, a));
      edges := Put(edges, Edge(src, srcPort, dst, dstPort, directed, a));
    }

    /** `AddEdge`: an edge without ports. */
    method AddEdge(src: string, dst: string, directed: bool, a: Attrs)
      requires Valid()
      modifies this`edges
      ensures Valid()
      ensures edges == Put(old(edges), Edge(src, "", dst, "", directed, a))
      ensures unchanged(this`attrs, this`name, this`directed, this`strict, this`subGraphs, this`relations)
    {
      AddPortEdge(src, "", dst, "", directed, a);
    }

    /** `AddNode`: upsert the node by name and record it as a child of
        `parent`; edges and subgraphs are untouched. */
    method AddNode(parent: string, name: string, a: Attrs)
      requires Valid()
      modifies this`relations, nodes
      ensures Valid()
      ensures nodes.State() == Nodes.Added(old(nodes.State()), name, a)
      ensures relations == Related(old(relations), parent, name)
      ensures unchanged(this`attrs, this`name, this`directed, this`strict, this`edges, this`subGraphs)
    {
      nodes.Add(name, a);
      relations := Related(relations, parent, name);
    }

    /** `getAttrs`: the graph's own attributes when the scope is the graph's
        name, else the named subgraph's; `None` where the source panics. */
    function GetAttrs(scope: string): (r: Option<Attrs>)
      reads this
      ensures r.Some? <==> scope == name || scope in subGraphs
      ensures scope == name ==> r == Some(attrs)
      ensures scope != name && scope in subGraphs ==> r == Some(subGraphs[scope])
    {
      if scope == name then Some(attrs)
      else if scope in subGraphs then Some(subGraphs[scope])
      else None
    }

    /** `AddAttr`: sets `field` to `value` in the scope's attributes. It
        reports `false`, and changes nothing, where the source panics because
        the scope is neither the graph nor a known subgraph. */
    method AddAttr(scope: string, field: string, value: string) returns (ok: bool)
      modifies this`attrs, this`subGraphs
      ensures ok <==> old(GetAttrs(scope)).Some?
      ensures ok ==> GetAttrs(scope) == Some(old(GetAttrs(scope)).value[field := value])
      ensures ok && scope == name ==> unchanged(this`subGraphs)
      ensures ok && scope != name ==> scope in old(subGraphs) && unchanged(this`attrs)
      ensures ok && scope != name ==> subGraphs == old(subGraphs)[scope := old(subGraphs)[scope][field := value]]
      ensures !ok ==> unchanged(this)
      ensures unchanged(this`name, this`directed, this`strict, this`edges, this`relations)
    {
      if scope == name {
        attrs := attrs[field := value];
        return true;
      }
      if scope !in subGraphs {
        return false;
      }
      subGraphs := subGraphs[scope := subGraphs[scope][field := value]];
      return true;
    }

    /** `AddSubGraph`: opens the subgraph if absent, then writes every given
        attribute into the scope of that name, so the result is the scope's
        attributes overwritten by `a`. The parent is not recorded. */
    method AddSubGraph(parent: string, sg: string, a: Attrs)
      requires Valid()
      modifies this`attrs, this`subGraphs
      ensures Valid()
      ensures subGraphs.Keys == old(subGraphs.Keys) + {sg}
      ensures sg == name ==> attrs == Overwrite(old(attrs), a) && subGraphs == Opened(old(subGraphs), sg)
      ensures sg != name ==> unchanged(this`attrs)
      ensures sg != name ==> subGraphs == Opened(old(subGraphs), sg)[sg := Overwrite(Opened(old(subGraphs), sg)[sg], a)]
      ensures unchanged(this`name, this`directed, this`strict, this`edges, this`relations)
    {
      subGraphs := Opened(subGraphs, sg);
      WriteAll(sg, a);
    }

    /** The loop of `AddSubGraph`: `AddAttr(sg, key, value)` for every entry
        of `a`, in an unspecified order. */
    method WriteAll(sg: string, a: Attrs)
      requires GetAttrs(sg).Some?
      modifies this`attrs, this`subGraphs
      ensures GetAttrs(sg) == Some(Overwrite(old(GetAttrs(sg)).value, a))
      ensures sg == name ==> unchanged(this`subGraphs)
      ensures sg != name ==> unchanged(this`attrs) && subGraphs == old(subGraphs)[sg := subGraphs[sg]]
      ensures unchanged(this`name, this`directed, this`strict, this`edges, this`relations)
    {
      ghost var base := GetAttrs(sg).value;
      var todo := a.Keys;
      ghost var done: set<string> := {};
      assert Overwrite(base, Part(a, done)) == base;
      while todo != {}
        invariant todo == a.Keys - done
        invariant GetAttrs(sg) == Some(Overwrite(base, Part(a, done)))
        invariant sg == name ==> unchanged(this`subGraphs)
        invariant sg != name ==> unchanged(this`attrs) && subGraphs == old(subGraphs)[sg := subGraphs[sg]]
        invariant unchanged(this`name, this`directed, this`strict, this`edges, this`relations)
        decreases todo
      {
        var key :| key in todo;
        OverwriteStep(base, a, done, key);
        var ok := AddAttr(sg, key, a[key]);
        todo, done := todo - {key}, done + {key};
      }
      assert Part(a, done) == a;
    }

    /** `delNode`: removes every edge leaving the node, then every edge
        entering it, then the node itself. */
    method DelNode(x: Handle)
      requires Valid() && x in nodes.names
      modifies this`edges, nodes
      ensures Valid()
      ensures edges == Detached(old(edges), old(nodes.names[x]))
      ensures nodes.State() == Nodes.Deleted(old(nodes.State()), x)
      ensures unchanged(this`attrs, this`name, this`directed, this`strict, this`subGraphs, this`relations)
    {
      var n := nodes.names[x];
      DetachedIsolates(edges, n);
      edges := Detach(edges, n);
      nodes.Del(x);
    }

    /** `removeUntil(entry, exit)`: deletes, with `delNode`, every node of the
        region between `entry` and `exit` (see `CollectRegion`), and reports
        the region. */
    method RemoveUntil(entry: Handle, exit: Handle) returns (region: set<Handle>)
      requires Valid() && entry in nodes.names
      modifies this`edges, nodes
      ensures Valid()
      ensures entry in region && region <= old(nodes.names.Keys)
      ensures ClosedBelow(old(nodes.succs), region, exit)
      ensures forall s :: entry in s && ClosedBelow(old(nodes.succs), s, exit) ==> region <= s
      ensures Pruned(old(nodes.State()), nodes.State(), region)
      ensures edges == DetachedAll(old(edges), NamesOf(old(nodes.names), region))
      ensures unchanged(this`attrs, this`name, this`directed, this`strict, this`subGraphs, this`relations)
    {
      region := CollectRegion(nodes.succs, entry, exit);
      DeleteAll(region);
    }

    /** The deletions of `removeUntil`: `delNode` on each node of the region. */
    method DeleteAll(region: set<Handle>)
      requires Valid() && region <= nodes.names.Keys
      modifies this`edges, nodes
      ensures DeletedSoFar(old(nodes.State()), old(edges), region)
      ensures unchanged(this`attrs, this`name, this`directed, this`strict, this`subGraphs, this`relations)
    {
      ghost var r0, e0 := nodes.State(), edges;
      PrunedNone(r0);
      DetachedNone(e0);
      var todo := region;
      assert region - todo == {};
      while todo != {}
        invariant Clearing(r0, e0, region, todo)
        decreases todo
      {
        var x :| x in todo;
        DelNext(x, r0, e0, region, todo);
        todo := todo - {x};
      }
      assert region - todo == region;
    }

    /** The state of the deletion loop with `todo` still to delete. */
    ghost predicate Clearing(r0: Nodes.Registry, e0: EdgeMap, region: set<Handle>, todo: set<Handle>)
      reads this, nodes
    {
      todo <= region <= r0.names.Keys && DeletedSoFar(r0, e0, region - todo)
    }

    /** The nodes in `gone` have been deleted from `r0` (with edges `e0`). */
    ghost predicate DeletedSoFar(r0: Nodes.Registry, e0: EdgeMap, gone: set<Handle>)
      reads this, nodes
    {
      Valid() && Pruned(r0, nodes.State(), gone) && edges == DetachedAll(e0, NamesOf(r0.names, gone))
    }

    /** One `delNode` of `removeUntil`, extending the deletions made so far. */
    method DelNext(x: Handle, ghost r0: Nodes.Registry, ghost e0: EdgeMap, ghost region: set<Handle>, ghost todo: set<Handle>)
      requires x in todo && Clearing(r0, e0, region, todo)
      modifies this`edges, nodes
      ensures Clearing(r0, e0, region, todo - {x})
    {
      ghost var r, gone := nodes.State(), region - todo;
      assert x in nodes.names;
      DelNode(x);
      PrunedStep(r0, r, gone, x);
      DetachedMore(e0, NamesOf(r0.names, gone), r0.names[x]);
      NamesOfMore(r0.names, gone, x);
      OneMore(region, todo, x);
    }

    /** One iteration of `Merge`'s first loop: the predecessor `p` gains the
        new node `h` as a successor, then the edge `p -> to` is read and
        copied to `p -> name`, directed; `false` where that record is
        missing. */
    method LinkPred(p: Handle, to: string, h: Handle) returns (ok: bool)
      requires Valid() && p in nodes.names && h in nodes.names
      modifies this`edges, nodes
      ensures Valid()
      ensures nodes.State() == Nodes.Linked(old(nodes.State()), p, h)
      ensures ok <==> (old(nodes.names[p]), to) in old(edges)
      ensures ok ==> edges == Put(old(edges), Edge(old(nodes.names[p]), "", old(nodes.names[h]), "", true, old(edges[(nodes.names[p], to)]).attrs))
      ensures unchanged(this`attrs, this`name, this`directed, this`strict, this`subGraphs, this`relations)
    {
      var pn, name := nodes.names[p], nodes.names[h];
      nodes.AddEdge(p, h);
      if (pn, to) !in edges {
        return false;
      }
      AddEdge(pn, name, true, edges[(pn, to)].attrs);
      return true;
    }

    /** One iteration of `Merge`'s second loop: the successor `x` gains the
        new node `h` as a predecessor, then the edge `from -> x` is read and
        copied to `name -> x`, directed; `false` where that record is
        missing. */
    method LinkSucc(x: Handle, from: string, h: Handle) returns (ok: bool)
      requires Valid() && x in nodes.names && h in nodes.names
      modifies this`edges, nodes
      ensures Valid()
      ensures nodes.State() == Nodes.Linked(old(nodes.State()), h, x)
      ensures ok <==> (from, old(nodes.names[x])) in old(edges)
      ensures ok ==> edges == Put(old(edges), Edge(old(nodes.names[h]), "", old(nodes.names[x]), "", true, old(edges[(from, nodes.names[x])]).attrs))
      ensures unchanged(this`attrs, this`name, this`directed, this`strict, this`subGraphs, this`relations)
    {
      var xn, name := nodes.names[x], nodes.names[h];
      nodes.AddEdge(h, x);
      if (from, xn) !in edges {
        return false;
      }
      AddEdge(name, xn, true, edges[(from, xn)].attrs);
      return true;
    }

    /** `Merge`'s first loop, over the predecessors `ps` of the node named
        `to`; `false` as soon as a record `pred -> to` is missing. */
    method LinkPreds(ps: seq<Handle>, to: string, h: Handle, ghost r0: Nodes.Registry, ghost e0: EdgeMap) returns (ok: bool)
      requires Valid() && nodes.State() == r0 && edges == e0
      requires h in r0.names && h in r0.preds && h in r0.succs && h !in ps && to != r0.names[h]
      requires forall p :: p in ps ==> p in r0.names
      modifies this`edges, nodes
      ensures Valid()
      ensures ok <==> RecordedInto(e0, r0.names, ps, to)
      ensures ok ==> LinkedPreds(r0, nodes.State(), e0, edges, ps, to, h)
      ensures unchanged(this`attrs, this`name, this`directed, this`strict, this`subGraphs, this`relations)
    {
      LinkedPredsNone(r0, e0, to, h);
      var i := 0;
      while i < |ps|
        invariant 0 <= i <= |ps|
        invariant Valid() && LinkedPreds(r0, nodes.State(), e0, edges, ps[..i], to, h)
        invariant unchanged(this`attrs, this`name, this`directed, this`strict, this`subGraphs, this`relations)
      {
        ghost var r, e := nodes.State(), edges;
        assert ps[i] in ps;
        IntoAvoids(e0, r0.names, ps[..i], to, r0.names[h], (r0.names[ps[i]], to));
        ok := LinkPred(ps[i], to, h);
        if !ok {
          return;
        }
        LinkedPredsStep(r0, r, e0, e, ps[..i], to, h, ps[i]);
        SliceStep(ps, i);
        i := i + 1;
      }
      SliceAll(ps);
      ok := true;
    }

    /** `Merge`'s second loop, over the successors `ss` of the node named
        `from`; `false` as soon as a record `from -> succ` is missing. */
    method LinkSuccs(ss: seq<Handle>, from: string, h: Handle, ghost r1: Nodes.Registry, ghost e1: EdgeMap) returns (ok: bool)
      requires Valid() && nodes.State() == r1 && edges == e1
      requires h in r1.names && h in r1.preds && h in r1.succs && from != r1.names[h]
      requires forall x :: x in ss ==> x in r1.names
      modifies this`edges, nodes
      ensures Valid()
      ensures ok <==> RecordedFrom(e1, r1.names, ss, from)
      ensures ok ==> LinkedSuccs(r1, nodes.State(), e1, edges, ss, from, h)
      ensures unchanged(this`attrs, this`name, this`directed, this`strict, this`subGraphs, this`relations)
    {
      LinkedSuccsNone(r1, e1, from, h);
      var j := 0;
      while j < |ss|
        invariant 0 <= j <= |ss|
        invariant Valid() && LinkedSuccs(r1, nodes.State(), e1, edges, ss[..j], from, h)
        invariant unchanged(this`attrs, this`name, this`directed, this`strict, this`subGraphs, this`relations)
      {
        ghost var r, e := nodes.State(), edges;
        assert ss[j] in ss;
        OutOfAvoids(e1, r1.names, ss[..j], from, r1.names[h], (from, r1.names[ss[j]]));
        ok := LinkSucc(ss[j], from, h);
        if !ok {
          return;
        }
        LinkedSuccsStep(r1, r, e1, e, ss[..j], from, h, ss[j]);
        SliceStep(ss, j);
        j := j + 1;
      }
      SliceAll(ss);
      ok := true;
    }

    /** The part of `Merge` between its checks and `removeUntil`: adds the
        node `name` to the graph and links it to the predecessors of `entry`
        and the successors of `exit`. It reports `false` where the source
        dereferences a missing edge record. */
    method Retarget(entry: Handle, exit: Handle, name: string) returns (ok: bool, h: Handle)
      requires Valid() && entry in nodes.names && exit in nodes.names && name !in nodes.lookup
      modifies this`edges, this`relations, nodes
      ensures Valid()
      ensures h == old(nodes.next)
      ensures ok <==> Retargetable(old(nodes.State()), old(edges), entry, exit, name)
      ensures ok ==> Retargeted(old(nodes.State()), old(edges), entry, exit, name, nodes.State(), edges)
      ensures relations == Related(old(relations), old(this.name), name)
      ensures unchanged(this`attrs, this`name, this`directed, this`strict, this`subGraphs)
    {
      ghost var r0, e0 := nodes.State(), edges;
      AddedAlone(r0, name, entry, exit);
      var to, from := nodes.names[entry], nodes.names[exit];
      AddNode(this.name, name, map[]);
      h := nodes.lookup[name];
      ghost var ra := nodes.State();
      var ps := nodes.preds[entry];
      ok := LinkPreds(ps, to, h, ra, e0);
      RetargetableFirst(r0, e0, entry, exit, name, ra, ps, to);
      if !ok {
        return;
      }
      ghost var r1, e1 := nodes.State(), edges;
      RetargetableSecond(r0, e0, entry, exit, name, ra, r1, e1, ps, to, h);
      Listed(r1, exit);
      var ss := nodes.succs[exit];
      ok := LinkSuccs(ss, from, h, r1, e1);
      if ok {
        RetargetedLoops(r0, e0, entry, exit, name, ra, r1, e1, nodes.State(), edges, ps, ss, to, from, h);
      }
    }

    /** `Merge`: replaces the region from `entry` to `exit` by one new node
        named `name` that takes over the incoming edges of `entry` and the
        outgoing edges of `exit`. `idom` stands for the dominator tree the
        source consults (`Idom`). The state reached before the deletions is
        returned as `mid`, `midEdges`. */
    method Merge(entry: Handle, exit: Handle, name: string, idom: Handle -> Option<Handle>)
      returns (o: MergeOutcome, ghost mid: Nodes.Registry, ghost midEdges: EdgeMap)
      requires Valid() && entry in nodes.names && exit in nodes.names
      modifies this`edges, this`relations, nodes
      ensures Valid()
      ensures o == Refused(SameNode) <==> entry == exit
      ensures o == Refused(NameTaken) <==> entry != exit && name in old(nodes.lookup)
      ensures o == Refused(NotIdom) <==> entry != exit && name !in old(nodes.lookup) && idom(exit) != Some(entry)
      ensures o.Refused? ==> unchanged(this) && unchanged(nodes)
      ensures o.Fault? <==> !o.Refused? && !Retargetable(old(nodes.State()), old(edges), entry, exit, name)
      ensures !o.Refused? ==> relations == Related(old(relations), old(this.name), name)
      ensures o.Merged? ==> o.node == old(nodes.next) && Nodes.Consistent(mid)
      ensures o.Merged? ==> Retargeted(old(nodes.State()), old(edges), entry, exit, name, mid, midEdges)
      ensures o.Merged? ==> entry in o.region && o.region <= mid.names.Keys
      ensures o.Merged? ==> ClosedBelow(mid.succs, o.region, exit)
      ensures o.Merged? ==> forall s :: entry in s && ClosedBelow(mid.succs, s, exit) ==> o.region <= s
      ensures o.Merged? ==> Pruned(mid, nodes.State(), o.region)
      ensures o.Merged? ==> edges == DetachedAll(midEdges, NamesOf(mid.names, o.region))
      ensures unchanged(this`attrs, this`name, this`directed, this`strict, this`subGraphs)
    {
      mid, midEdges := nodes.State(), edges;
      if entry == exit {
        return Refused(SameNode), mid, midEdges;
      }
      if name in nodes.lookup {
        return Refused(NameTaken), mid, midEdges;
      }
      if idom(exit) != Some(entry) {
        return Refused(NotIdom), mid, midEdges;
      }
      var ok, h := Retarget(entry, exit, name);
      if !ok {
        return Fault, mid, midEdges;
      }
      mid, midEdges := nodes.State(), edges;
      var region := RemoveUntil(entry, exit);
      o := Merged(h, region);
    }
  }
}
