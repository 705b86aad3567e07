/** The node registry of nodes.go. A Go `*Node` becomes a `Handle` into an
    arena; the fields of the node records live in one map per field, keyed by
    handle (`names`, `attrs`, `index`, `preds`, `succs`), so an operation that
    writes one field leaves the other maps untouched. The cyclic
    predecessor/successor pointers become sequences of handles, and deleting
    a node removes its handle from every map and from `Lookup`, so no other
    node is left holding it. */
module Nodes {
  import opened Attrs
  import Lex

  type Handle = nat

  /** The registry as a value: `Lookup`, the ordered `Nodes` slice, the node
      records split by field, and the next unused handle. */
  datatype Registry = Registry(
    lookup: map<string, Handle>,
    nodes: seq<Handle>,
    names: map<Handle, string>,
    attrs: map<Handle, Attrs>,
    index: map<Handle, nat>,
    preds: map<Handle, seq<Handle>>,
    succs: map<Handle, seq<Handle>>,
    next: Handle)

  // ---------------------------------------------------------------------
  // Invariants
  // ---------------------------------------------------------------------

  /** Every live handle (a key of `names`) has every field. */
  ghost predicate Keyed(r: Registry)
  {
    r.attrs.Keys == r.names.Keys && r.index.Keys == r.names.Keys
    && r.preds.Keys == r.names.Keys && r.succs.Keys == r.names.Keys
  }

  ghost predicate FreshIn(names: map<Handle, string>, next: Handle)
  {
    forall h :: h in names ==> h < next
  }

  /** `Index` equals the node's position in the ordered list, and the list holds
      every live node exactly once. */
  ghost predicate PositionedIn(nodes: seq<Handle>, index: map<Handle, nat>)
  {
    && (forall i :: 0 <= i < |nodes| ==> nodes[i] in index && index[nodes[i]] == i)
    && (forall h :: h in index ==> index[h] < |nodes| && nodes[index[h]] == h)
  }

  /** `Lookup` maps each name to the one live node carrying it: names are unique. */
  ghost predicate NamedIn(lookup: map<string, Handle>, names: map<Handle, string>)
  {
    && (forall name :: name in lookup ==> lookup[name] in names && names[lookup[name]] == name)
    && (forall h :: h in names ==> names[h] in lookup && lookup[names[h]] == h)
  }

  /** An adjacency map only mentions live nodes. */
  ghost predicate ClosedIn(adj: map<Handle, seq<Handle>>)
  {
    forall h, k {:trigger k in adj[h]} :: h in adj && k in adj[h] ==> k in adj
  }

  /** Every successor link has a matching predecessor link, counted with
      multiplicity: b occurs in a's `Succs` as often as a occurs in b's `Preds`. */
  ghost predicate SymmetricIn(preds: map<Handle, seq<Handle>>, succs: map<Handle, seq<Handle>>)
  {
    forall a, b {:trigger multiset(succs[a])[b]} {:trigger multiset(preds[b])[a]} ::
      a in succs && b in preds ==> multiset(succs[a])[b] == multiset(preds[b])[a]
  }

  ghost predicate Consistent(r: Registry)
  {
    && Keyed(r)
    && FreshIn(r.names, r.next)
    && PositionedIn(r.nodes, r.index)
    && NamedIn(r.lookup, r.names)
    && ClosedIn(r.preds) && ClosedIn(r.succs)
    && SymmetricIn(r.preds, r.succs)
  }

  function Empty(): (r: Registry)
    ensures Consistent(r) && r.nodes == [] && r.lookup == map[]
  {
    Registry(map[], [], map[], map[], map[], map[], map[], 0)
  }

  // ---------------------------------------------------------------------
  // Filtering a slice of handles (the rebuild loops of `del`)
  // ---------------------------------------------------------------------

  /** `s` with every occurrence of `x` dropped, the rest in their original order. */
  function Without(s: seq<Handle>, x: Handle): (r: seq<Handle>)
    ensures x !in r
    ensures forall y :: y != x ==> multiset(r)[y] == multiset(s)[y]
    ensures forall y :: y in r <==> y in s && y != x
    ensures |r| <= |s|
  {
    if s == [] then []
    else
      assert s == [s[0]] + s[1..];
      if s[0] == x then Without(s[1..], x) else [s[0]] + Without(s[1..], x)
  }

  lemma {:induction false} WithoutAbsent(s: seq<Handle>, x: Handle)
    requires x !in s
    ensures Without(s, x) == s
  {
    if s != [] { WithoutAbsent(s[1..], x); }
  }

  lemma {:induction false} WithoutAppend(s: seq<Handle>, y: Handle, x: Handle)
    ensures Without(s + [y], x) == Without(s, x) + (if y == x then [] else [y])
  {
    if s == [] {
      assert [] + [y] == [y];
    } else {
      assert (s + [y])[1..] == s[1..] + [y];
      WithoutAppend(s[1..], y, x);
    }
  }

  /** Dropping the single occurrence of `x` at position `i` splices the slice. */
  lemma {:induction false} WithoutAt(s: seq<Handle>, i: nat, x: Handle)
    requires i < |s| && s[i] == x
    requires forall j :: 0 <= j < |s| && j != i ==> s[j] != x
    ensures Without(s, x) == s[..i] + s[i+1..]
  {
    if i == 0 {
      WithoutAbsent(s[1..], x);
    } else {
      WithoutAt(s[1..], i - 1, x);
      assert s[1..][..i-1] == s[1..i];
      assert s[1..][i..] == s[i+1..];
      assert s[..i] == [s[0]] + s[1..i];
    }
  }

  /** The inner loop of `del`: rebuild a slice without `x`. */
  method Filter(s: seq<Handle>, x: Handle) returns (r: seq<Handle>)
    ensures r == Without(s, x)
  {
    r := [];
    var i := 0;
    while i < |s|
      invariant 0 <= i <= |s|
      invariant r == Without(s[..i], x)
    {
      assert s[..i+1] == s[..i] + [s[i]];
      WithoutAppend(s[..i], s[i], x);
      if s[i] != x {
        r := r + [s[i]];
      }
      i := i + 1;
    }
    assert s[..i] == s;
  }

  /** The range loops of `HasPred` and `HasSucc`. */
  method Occurs(s: seq<Handle>, m: Handle) returns (b: bool)
    ensures b <==> m in s
  {
    var i := 0;
    while i < |s|
      invariant 0 <= i <= |s|
      invariant m !in s[..i]
    {
      if s[i] == m {
        return true;
      }
      assert s[..i+1] == s[..i] + [s[i]];
      i := i + 1;
    }
    assert s[..i] == s;
    return false;
  }

  // ---------------------------------------------------------------------
  // Nodes.Add
  // ---------------------------------------------------------------------

  /** `Nodes.Add`: upsert by name. A known name only gains the attributes it
      lacked; a new name is appended with `Index` = the old list length. */
  function Added(r: Registry, name: string, attrs: Attrs): Registry
    requires name in r.lookup ==> r.lookup[name] in r.attrs
  {
    if name in r.lookup then
      var h := r.lookup[name];
      r.(attrs := r.attrs[h := Ammend(r.attrs[h], attrs)])
    else
      r.(lookup := r.lookup[name := r.next], nodes := r.nodes + [r.next],
         names := r.names[r.next := name], attrs := r.attrs[r.next := attrs],
         index := r.index[r.next := |r.nodes|],
         preds := r.preds[r.next := []], succs := r.succs[r.next := []],
         next := r.next + 1)
  }

  /** A fresh name is appended at the end with `Index` = the old list length
      and registered in `Lookup`; every other node is left as it was. */
  lemma AddedNew(r: Registry, name: string, attrs: Attrs)
    requires Consistent(r) && name !in r.lookup
    ensures var r' := Added(r, name, attrs);
      && Consistent(r')
      && r.next !in r.names
      && r'.nodes == r.nodes + [r.next]
      && r'.lookup[name] == r.next
      && r'.index[r.next] == |r.nodes|
      && r'.attrs[r.next] == attrs
      && r'.preds[r.next] == [] && r'.succs[r.next] == []
      && r'.names.Keys == r.names.Keys + {r.next}
      && (forall h :: h in r.names ==>
            r'.names[h] == r.names[h] && r'.attrs[h] == r.attrs[h] && r'.index[h] == r.index[h]
            && r'.preds[h] == r.preds[h] && r'.succs[h] == r.succs[h])
  {
    AddedNewKeyed(r, name, attrs);
    AddedNewShape(r, name, attrs);
    AddedNewPositioned(r.nodes, r.index, r.next);
    AddedNewNamed(r.lookup, r.names, r.next, name);
    AddedNewClosed(r.preds, r.next);
    AddedNewClosed(r.succs, r.next);
    AddedNewSymmetric(r.preds, r.succs, r.next);
  }

  lemma AddedNewKeyed(r: Registry, name: string, attrs: Attrs)
    requires Keyed(r) && FreshIn(r.names, r.next) && name !in r.lookup
    ensures var r' := Added(r, name, attrs); Keyed(r') && FreshIn(r'.names, r'.next)
  {
  }

  lemma AddedNewShape(r: Registry, name: string, attrs: Attrs)
    requires Keyed(r) && FreshIn(r.names, r.next) && name !in r.lookup
    ensures var r' := Added(r, name, attrs);
      && r.next !in r.names && r.next !in r.index && r.next !in r.preds && r.next !in r.succs
      && r'.nodes == r.nodes + [r.next]
      && r'.lookup[name] == r.next
      && r'.index[r.next] == |r.nodes|
      && r'.attrs[r.next] == attrs
      && r'.preds[r.next] == [] && r'.succs[r.next] == []
      && r'.names.Keys == r.names.Keys + {r.next}
      && (forall h :: h in r.names ==>
            r'.names[h] == r.names[h] && r'.attrs[h] == r.attrs[h] && r'.index[h] == r.index[h]
            && r'.preds[h] == r.preds[h] && r'.succs[h] == r.succs[h])
  {
  }

  lemma AddedNewPositioned(nodes: seq<Handle>, index: map<Handle, nat>, h: Handle)
    requires PositionedIn(nodes, index) && h !in index
    ensures PositionedIn(nodes + [h], index[h := |nodes|])
  {
  }

  lemma AddedNewNamed(lookup: map<string, Handle>, names: map<Handle, string>, h: Handle, name: string)
    requires NamedIn(lookup, names) && h !in names && name !in lookup
    ensures NamedIn(lookup[name := h], names[h := name])
  {
    var names', lookup' := names[h := name], lookup[name := h];
    forall k | k in names' ensures names'[k] in lookup' && lookup'[names'[k]] == k {
      if k != h {
        assert names[k] != name;
      }
    }
  }

  lemma AddedNewClosed(adj: map<Handle, seq<Handle>>, h: Handle)
    requires ClosedIn(adj)
    ensures ClosedIn(adj[h := []])
  {
  }

  lemma AddedNewSymmetric(preds: map<Handle, seq<Handle>>, succs: map<Handle, seq<Handle>>, h: Handle)
    requires SymmetricIn(preds, succs) && ClosedIn(preds) && ClosedIn(succs)
    requires h !in preds && h !in succs
    ensures SymmetricIn(preds[h := []], succs[h := []])
  {
    var p, s := preds[h := []], succs[h := []];
    forall a, b | a in s && b in p ensures multiset(s[a])[b] == multiset(p[b])[a] {
      if a != h && b != h {
        assert multiset(succs[a])[b] == multiset(preds[b])[a];
      } else if a == h && b != h {
        assert h !in preds[b];
      } else if b == h && a != h {
        assert h !in succs[a];
      }
    }
  }

  /** A known name keeps its place, its handle, its links and every attribute
      it had; it only gains the keys it lacked, with the new values. */
  lemma AddedExisting(r: Registry, name: string, attrs: Attrs)
    requires Consistent(r) && name in r.lookup
    ensures var r' := Added(r, name, attrs); var h := r.lookup[name];
      && Consistent(r')
      && r'.nodes == r.nodes && r'.lookup == r.lookup && r'.names == r.names
      && r'.index == r.index && r'.preds == r.preds && r'.succs == r.succs
      && (forall k :: k in r.attrs[h] ==> r'.attrs[h][k] == r.attrs[h][k])
      && (forall k :: k in attrs && k !in r.attrs[h] ==> r'.attrs[h][k] == attrs[k])
      && r'.attrs[h].Keys == r.attrs[h].Keys + attrs.Keys
      && (forall k :: k in r.attrs && k != h ==> r'.attrs[k] == r.attrs[k])
  {
    var h := r.lookup[name];
    AddedExistingShape(r, name, attrs);
    AttrsFrame(r, r.attrs[h := Ammend(r.attrs[h], attrs)]);
  }

  lemma AddedExistingShape(r: Registry, name: string, attrs: Attrs)
    requires name in r.lookup && r.lookup[name] in r.attrs
    ensures var r' := Added(r, name, attrs); var h := r.lookup[name];
      && r' == r.(attrs := r.attrs[h := Ammend(r.attrs[h], attrs)])
      && (forall k :: k in r.attrs[h] ==> r'.attrs[h][k] == r.attrs[h][k])
      && (forall k :: k in attrs && k !in r.attrs[h] ==> r'.attrs[h][k] == attrs[k])
      && r'.attrs[h].Keys == r.attrs[h].Keys + attrs.Keys
      && (forall k :: k in r.attrs && k != h ==> r'.attrs[k] == r.attrs[k])
  {
  }

  /** Rewriting the attributes of live nodes keeps the registry consistent. */
  lemma AttrsFrame(r: Registry, attrs': map<Handle, Attrs>)
    requires Consistent(r) && attrs'.Keys == r.attrs.Keys
    ensures Consistent(r.(attrs := attrs'))
  {
  }

  // ---------------------------------------------------------------------
  // addEdge, HasPred, HasSucc
  // ---------------------------------------------------------------------

  /** `addEdge(from, to)`: append `to` to `from.Succs` and `from` to `to.Preds`. */
  function Linked(r: Registry, from: Handle, to: Handle): Registry
    requires from in r.succs && to in r.preds
  {
    r.(succs := r.succs[from := r.succs[from] + [to]],
       preds := r.preds[to := r.preds[to] + [from]])
  }

  ghost predicate HasPredIn(r: Registry, n: Handle, m: Handle)
    requires n in r.preds
  {
    m in r.preds[n]
  }

  ghost predicate HasSuccIn(r: Registry, n: Handle, m: Handle)
    requires n in r.succs
  {
    m in r.succs[n]
  }

  /** After `addEdge(from, to)`, `to.HasPred(from)` and `from.HasSucc(to)`
      both hold, one more link is counted on each side, every other list is
      unchanged, and the registry stays consistent. */
  lemma LinkedIsSymmetric(r: Registry, from: Handle, to: Handle)
    requires Consistent(r) && from in r.names && to in r.names
    ensures var r' := Linked(r, from, to);
      && Consistent(r')
      && HasPredIn(r', to, from) && HasSuccIn(r', from, to)
      && multiset(r'.succs[from])[to] == multiset(r.succs[from])[to] + 1
      && multiset(r'.preds[to])[from] == multiset(r.preds[to])[from] + 1
      && (forall h :: h in r.succs && h != from ==> r'.succs[h] == r.succs[h])
      && (forall h :: h in r.preds && h != to ==> r'.preds[h] == r.preds[h])
      && r'.nodes == r.nodes && r'.lookup == r.lookup && r'.names == r.names
      && r'.attrs == r.attrs && r'.index == r.index
  {
    LinkedShape(r, from, to);
    LinkedConsistent(r, from, to);
  }

  lemma LinkedConsistent(r: Registry, from: Handle, to: Handle)
    requires Consistent(r) && from in r.names && to in r.names
    ensures from in r.succs && to in r.preds
    ensures Consistent(Linked(r, from, to))
  {
    var r' := Linked(r, from, to);
    assert r' == r.(succs := r'.succs, preds := r'.preds);
    assert r'.succs.Keys == r.succs.Keys && r'.preds.Keys == r.preds.Keys;
    LinkedClosed(r.succs, from, to, r.preds);
    LinkedClosed(r.preds, to, from, r.succs);
    LinkedSymmetric(r.preds, r.succs, from, to);
  }

  lemma LinkedShape(r: Registry, from: Handle, to: Handle)
    requires Keyed(r) && from in r.names && to in r.names
    ensures var r' := Linked(r, from, to);
      && HasPredIn(r', to, from) && HasSuccIn(r', from, to)
      && multiset(r'.succs[from])[to] == multiset(r.succs[from])[to] + 1
      && multiset(r'.preds[to])[from] == multiset(r.preds[to])[from] + 1
      && (forall h :: h in r.succs && h != from ==> r'.succs[h] == r.succs[h])
      && (forall h :: h in r.preds && h != to ==> r'.preds[h] == r.preds[h])
      && r'.nodes == r.nodes && r'.lookup == r.lookup && r'.names == r.names
      && r'.attrs == r.attrs && r'.index == r.index
  {
  }

  /** Appending a live handle to one live node's list keeps the map closed. */
  lemma LinkedClosed(adj: map<Handle, seq<Handle>>, h: Handle, k: Handle, other: map<Handle, seq<Handle>>)
    requires ClosedIn(adj) && h in adj && k in other && other.Keys == adj.Keys
    ensures ClosedIn(adj[h := adj[h] + [k]])
  {
  }

  lemma LinkedSymmetric(preds: map<Handle, seq<Handle>>, succs: map<Handle, seq<Handle>>, from: Handle, to: Handle)
    requires SymmetricIn(preds, succs) && from in succs && to in preds
    ensures SymmetricIn(preds[to := preds[to] + [from]], succs[from := succs[from] + [to]])
  {
    var p, s := preds[to := preds[to] + [from]], succs[from := succs[from] + [to]];
    forall a, b | a in s && b in p ensures multiset(s[a])[b] == multiset(p[b])[a] {
      assert multiset(succs[a])[b] == multiset(preds[b])[a];
    }
  }

  // ---------------------------------------------------------------------
  // Nodes.del
  // ---------------------------------------------------------------------

  /** The ordered list with position `i` cut out. */
  function Spliced(nodes: seq<Handle>, i: nat): seq<Handle>
  {
    if i < |nodes| then nodes[..i] + nodes[i+1..] else nodes
  }

  /** The survivors' `Index` values after the node at `index[x]` is cut out:
      every later node moves down by one. */
  function Renumbered(index: map<Handle, nat>, x: Handle): map<Handle, nat>
    requires x in index
  {
    map h | h in index && h != x :: if index[h] <= index[x] then index[h] else index[h] - 1
  }

  /** The survivors' lists after `del(x)`: the lists of the neighbours named in
      `touched` are rebuilt without x. */
  function Stripped(adj: map<Handle, seq<Handle>>, touched: seq<Handle>, x: Handle): map<Handle, seq<Handle>>
  {
    map h | h in adj && h != x :: if h in touched then Without(adj[h], x) else adj[h]
  }

  /** `Nodes.del(x)`: drop x from `Lookup`; drop x from the `Succs` of each of
      its predecessors and from the `Preds` of each of its successors; drop x
      from the ordered list, moving every later node's `Index` down by one. */
  function Deleted(r: Registry, x: Handle): Registry
    requires x in r.names && x in r.index && x in r.preds && x in r.succs
  {
    Registry(
      r.lookup - {r.names[x]},
      Spliced(r.nodes, r.index[x]),
      r.names - {x},
      r.attrs - {x},
      Renumbered(r.index, x),
      Stripped(r.preds, r.succs[x], x),
      Stripped(r.succs, r.preds[x], x),
      r.next)
  }

  lemma DeletedConsistent(r: Registry, x: Handle)
    requires Consistent(r) && x in r.names
    ensures Consistent(Deleted(r, x))
  {
    DeletedShape(r, x);
    DeletedPositioned(r.nodes, r.index, x);
    DeletedNamed(r.lookup, r.names, x);
    DeletedClosed(r.preds, r.succs, x);
    DeletedSymmetric(r.preds, r.succs, x);
  }

  /** What the loops of `del` need from a consistent registry. */
  lemma DelShape(r: Registry, x: Handle)
    requires Consistent(r) && x in r.names
    ensures x in r.index && x in r.preds && x in r.succs
    ensures forall h :: h in r.preds[x] ==> h in r.succs
    ensures forall h :: h in r.succs[x] ==> h in r.preds
  {
  }

  lemma DeletedShape(r: Registry, x: Handle)
    requires Keyed(r) && FreshIn(r.names, r.next) && x in r.names
    ensures x in r.index && x in r.preds && x in r.succs && r.preds.Keys == r.succs.Keys
    ensures Keyed(Deleted(r, x)) && FreshIn(Deleted(r, x).names, r.next)
  {
  }

  lemma DeletedPositioned(nodes: seq<Handle>, index: map<Handle, nat>, x: Handle)
    requires PositionedIn(nodes, index) && x in index
    ensures index[x] < |nodes|
    ensures PositionedIn(Spliced(nodes, index[x]), Renumbered(index, x))
  {
    var ix := index[x];
    var ns := Spliced(nodes, ix);
    var idx := Renumbered(index, x);
    forall i | 0 <= i < |ns| ensures ns[i] in idx && idx[ns[i]] == i {
      if i < ix {
        assert ns[i] == nodes[i];
      } else {
        assert ns[i] == nodes[i + 1];
      }
    }
    forall h | h in idx ensures idx[h] < |ns| && ns[idx[h]] == h {
      assert index[h] != ix;
    }
  }

  lemma DeletedNamed(lookup: map<string, Handle>, names: map<Handle, string>, x: Handle)
    requires NamedIn(lookup, names) && x in names
    ensures NamedIn(lookup - {names[x]}, names - {x})
  {
  }

  lemma DeletedClosed(preds: map<Handle, seq<Handle>>, succs: map<Handle, seq<Handle>>, x: Handle)
    requires ClosedIn(preds) && ClosedIn(succs) && SymmetricIn(preds, succs)
    requires x in preds && x in succs && preds.Keys == succs.Keys
    ensures ClosedIn(Stripped(preds, succs[x], x)) && ClosedIn(Stripped(succs, preds[x], x))
  {
    var p, s := Stripped(preds, succs[x], x), Stripped(succs, preds[x], x);
    forall h, k | h in p && k in p[h] ensures k in p {
      assert multiset(succs[x])[h] == multiset(preds[h])[x];
    }
    forall h, k | h in s && k in s[h] ensures k in s {
      assert multiset(succs[h])[x] == multiset(preds[x])[h];
    }
  }

  lemma DeletedSymmetric(preds: map<Handle, seq<Handle>>, succs: map<Handle, seq<Handle>>, x: Handle)
    requires SymmetricIn(preds, succs) && x in preds && x in succs
    ensures SymmetricIn(Stripped(preds, succs[x], x), Stripped(succs, preds[x], x))
  {
    var p, s := Stripped(preds, succs[x], x), Stripped(succs, preds[x], x);
    forall a, b | a in s && b in p ensures multiset(s[a])[b] == multiset(p[b])[a] {
      assert multiset(succs[a])[b] == multiset(preds[b])[a];
    }
  }

  /** After `del(x)` the name is gone; the ordered list is the old one with x
      filtered out; every survivor keeps its name and attributes, and its lists
      are its old lists with x filtered out (order kept), so x is in none. */
  lemma DeletedUnlinks(r: Registry, x: Handle)
    requires Keyed(r) && PositionedIn(r.nodes, r.index) && SymmetricIn(r.preds, r.succs) && x in r.names
    ensures var r' := Deleted(r, x);
      && r.names[x] !in r'.lookup
      && r'.names.Keys == r.names.Keys - {x}
      && r'.nodes == Without(r.nodes, x)
      && (forall h :: h in r'.names ==> r'.names[h] == r.names[h] && r'.attrs[h] == r.attrs[h])
      && (forall h :: h in r'.succs ==> r'.succs[h] == Without(r.succs[h], x) && x !in r'.succs[h])
      && (forall h :: h in r'.preds ==> r'.preds[h] == Without(r.preds[h], x) && x !in r'.preds[h])
  {
    DeletedList(r.nodes, r.index, x);
    StrippedAll(r.succs, r.preds, x);
    SymmetricFlip(r.preds, r.succs);
    StrippedAll(r.preds, r.succs, x);
  }

  lemma DeletedList(nodes: seq<Handle>, index: map<Handle, nat>, x: Handle)
    requires PositionedIn(nodes, index) && x in index
    ensures Spliced(nodes, index[x]) == Without(nodes, x)
  {
    forall j | 0 <= j < |nodes| && j != index[x] ensures nodes[j] != x {
      assert index[nodes[j]] == j;
    }
    WithoutAt(nodes, index[x], x);
  }

  /** Symmetry read from the other side. */
  lemma SymmetricFlip(preds: map<Handle, seq<Handle>>, succs: map<Handle, seq<Handle>>)
    requires SymmetricIn(preds, succs)
    ensures SymmetricIn(succs, preds)
  {
  }

  /** Only the neighbours listed in x's own opposite list hold x, so stripping
      those lists is stripping all of them. */
  lemma StrippedAll(adj: map<Handle, seq<Handle>>, opp: map<Handle, seq<Handle>>, x: Handle)
    requires x in opp && SymmetricIn(opp, adj)
    ensures forall h :: h in Stripped(adj, opp[x], x) ==> Stripped(adj, opp[x], x)[h] == Without(adj[h], x)
  {
    forall h | h in adj && h != x && h !in opp[x] ensures adj[h] == Without(adj[h], x) {
      assert multiset(adj[h])[x] == multiset(opp[x])[h];
      WithoutAbsent(adj[h], x);
    }
  }

  // ---------------------------------------------------------------------
  // The three loops of `del`, on values
  // ---------------------------------------------------------------------

  /** The first two loops of `del`: each listed neighbour's list rebuilt
      without x (a neighbour listed twice is rebuilt twice, to the same list). */
  method Unlink(adj: map<Handle, seq<Handle>>, touched: seq<Handle>, x: Handle) returns (a: map<Handle, seq<Handle>>)
    requires forall h :: h in touched ==> h in adj
    ensures a.Keys == adj.Keys
    ensures forall h :: h in a ==> a[h] == (if h in touched then Without(adj[h], x) else adj[h])
  {
    a := adj;
    var i := 0;
    while i < |touched|
      invariant 0 <= i <= |touched|
      invariant a.Keys == adj.Keys
      invariant forall h :: h in a ==> a[h] == (if h in touched[..i] then Without(adj[h], x) else adj[h])
    {
      var n := touched[i];
      assert touched[..i+1] == touched[..i] + [n];
      if n in touched[..i] {
        WithoutAbsent(Without(adj[n], x), x);
      }
      var rebuilt := Filter(a[n], x);
      ghost var before := a;
      a := a[n := rebuilt];
      forall h | h in a ensures a[h] == (if h in touched[..i+1] then Without(adj[h], x) else adj[h]) {
        if h != n {
          assert a[h] == before[h];
          assert h in touched[..i+1] <==> h in touched[..i];
        }
      }
      i := i + 1;
    }
    assert touched[..i] == touched;
  }

  /** What the rebuild loops leave, once x's own record is dropped. */
  lemma UnlinkStrips(adj: map<Handle, seq<Handle>>, touched: seq<Handle>, touched': seq<Handle>, x: Handle, a: map<Handle, seq<Handle>>)
    requires a.Keys == adj.Keys
    requires forall h :: h in a ==> a[h] == (if h in touched' then Without(adj[h], x) else adj[h])
    requires forall h :: h != x ==> (h in touched <==> h in touched')
    ensures a - {x} == Stripped(adj, touched, x)
  {
    var s := Stripped(adj, touched, x);
    assert (a - {x}).Keys == s.Keys;
    forall h | h in s ensures (a - {x})[h] == s[h] {
      assert h in touched <==> h in touched';
    }
  }

  /** The two rebuild loops, run in order on the source's lists, leave the
      survivors' lists of `Deleted`: the second loop reads x's `Succs` after
      the first has rebuilt it, which differs from x's original list only by x
      itself. */
  lemma DelSteps(r: Registry, x: Handle, s1: map<Handle, seq<Handle>>, p2: map<Handle, seq<Handle>>)
    requires x in r.preds && x in r.succs
    requires s1.Keys == r.succs.Keys
    requires forall h :: h in s1 ==> s1[h] == (if h in r.preds[x] then Without(r.succs[h], x) else r.succs[h])
    requires p2.Keys == r.preds.Keys
    requires forall h :: h in p2 ==> p2[h] == (if h in s1[x] then Without(r.preds[h], x) else r.preds[h])
    ensures s1 - {x} == Stripped(r.succs, r.preds[x], x)
    ensures p2 - {x} == Stripped(r.preds, r.succs[x], x)
  {
    UnlinkStrips(r.succs, r.preds[x], r.preds[x], x, s1);
    UnlinkStrips(r.preds, r.succs[x], s1[x], x, p2);
  }

  /** Third loop of `del`: the list without x, each survivor's `Index` set to
      its new position. */
  method Compact(nodes: seq<Handle>, index: map<Handle, nat>, x: Handle) returns (ns: seq<Handle>, idx: map<Handle, nat>)
    requires x in index && PositionedIn(nodes, index)
    ensures ns == Spliced(nodes, index[x])
    ensures idx - {x} == Renumbered(index, x)
  {
    ghost var ix := index[x];
    ns := [];
    idx := index;
    var k := 0;
    while k < |nodes|
      invariant 0 <= k <= |nodes|
      invariant idx.Keys == index.Keys
      invariant ns == if k <= ix then nodes[..k] else nodes[..ix] + nodes[ix+1..k]
      invariant forall h :: h in idx ==> idx[h] == (if h != x && ix < index[h] < k then index[h] - 1 else index[h])
    {
      var n := nodes[k];
      if n != x {
        assert index[n] == k && k != ix;
        assert |ns| == if k < ix then k else k - 1;
        idx := idx[n := |ns|];
        ns := ns + [n];
      }
      k := k + 1;
    }
    assert nodes[ix+1..k] == nodes[ix+1..];
    RenumberedIs(index, x, idx);
  }

  lemma RenumberedIs(index: map<Handle, nat>, x: Handle, idx: map<Handle, nat>)
    requires x in index && idx.Keys == index.Keys
    requires forall h :: h in idx ==> idx[h] == (if h != x && index[x] < index[h] then index[h] - 1 else index[h])
    ensures idx - {x} == Renumbered(index, x)
  {
    var d := Renumbered(index, x);
    assert (idx - {x}).Keys == d.Keys;
    forall h | h in d ensures (idx - {x})[h] == d[h] { }
  }

  // ---------------------------------------------------------------------
  // Dominance order (domOrder.Less); dominance itself is an input
  // ---------------------------------------------------------------------

  /** `domOrder.Less`: an "entry"-labelled node first, then a dominator before
      the node it dominates, then by name. `dominates` is the dominator tree's
      answer, which this model takes as given. */
  function DomLess(r: Registry, dominates: (Handle, Handle) -> bool, m: Handle, n: Handle): bool
    requires m in r.attrs && n in r.attrs && m in r.names && n in r.names
  {
    if IsEntry(r.attrs[m]) then true
    else if IsEntry(r.attrs[n]) then false
    else if dominates(m, n) then true
    else if dominates(n, m) then false
    else Lex.Less(r.names[m], r.names[n])
  }

  /** An entry-labelled node precedes every other node; off the entry node, a
      node that strictly dominates another precedes it, and between nodes
      unrelated by dominance `Less` is the strict name order: irreflexive,
      asymmetric, and total on distinct names. */
  lemma DomLessShape(r: Registry, dominates: (Handle, Handle) -> bool, m: Handle, n: Handle)
    requires m in r.attrs && n in r.attrs && m in r.names && n in r.names
    ensures IsEntry(r.attrs[m]) ==> DomLess(r, dominates, m, n)
    ensures !IsEntry(r.attrs[m]) && IsEntry(r.attrs[n]) ==> !DomLess(r, dominates, m, n)
    ensures !IsEntry(r.attrs[m]) && !IsEntry(r.attrs[n]) && dominates(m, n) && !dominates(n, m)
            ==> DomLess(r, dominates, m, n) && !DomLess(r, dominates, n, m)
    ensures !IsEntry(r.attrs[m]) && !dominates(m, m) ==> !DomLess(r, dominates, m, m)
    ensures !IsEntry(r.attrs[m]) && !IsEntry(r.attrs[n]) && !dominates(m, n) && !dominates(n, m)
            && r.names[m] != r.names[n]
            ==> (DomLess(r, dominates, m, n) <==> !DomLess(r, dominates, n, m))
  {
    Lex.LessIrreflexive(r.names[m]);
    if r.names[m] != r.names[n] {
      Lex.LessTotal(r.names[m], r.names[n]);
      if Lex.Less(r.names[m], r.names[n]) {
        Lex.LessAsymmetric(r.names[m], r.names[n]);
      }
    }
  }

  /** `domOrder.Swap`. */
  method Swap(a: array<Handle>, i: nat, j: nat)
    requires i < a.Length && j < a.Length
    modifies a
    ensures a[..] == old(a[..])[i := old(a[j])][j := old(a[i])]
    ensures multiset(a[..]) == multiset(old(a[..]))
  {
    a[i], a[j] := a[j], a[i];
  }

  /** `sort.Sort(domOrder(ns))` on a copy of the list, as an insertion sort
      driven by `Less` and `Swap`. */
  method DomSort(r: Registry, dominates: (Handle, Handle) -> bool, nodes: seq<Handle>) returns (ns: seq<Handle>)
    requires forall h :: h in nodes ==> h in r.attrs && h in r.names
    ensures multiset(ns) == multiset(nodes)
  {
    var a := new Handle[|nodes|];
    var c := 0;
    while c < a.Length
      invariant 0 <= c <= a.Length
      invariant a[..c] == nodes[..c]
    {
      a[c] := nodes[c];
      c := c + 1;
    }
    assert a[..] == nodes;
    var i := 1;
    while i < a.Length
      invariant multiset(a[..]) == multiset(nodes)
      invariant forall m :: 0 <= m < a.Length ==> a[m] in r.attrs && a[m] in r.names
    {
      var j := i;
      while j > 0 && DomLess(r, dominates, a[j], a[j - 1])
        invariant 0 <= j <= i < a.Length
        invariant multiset(a[..]) == multiset(nodes)
        invariant forall m :: 0 <= m < a.Length ==> a[m] in r.attrs && a[m] in r.names
      {
        Swap(a, j, j - 1);
        j := j - 1;
      }
      i := i + 1;
    }
    ns := a[..];
  }

  // ---------------------------------------------------------------------
  // Sorting names (sort.Strings) and Nodes.Sorted
  // ---------------------------------------------------------------------

  ghost predicate Ascending(s: seq<string>)
  {
    forall i, j :: 0 <= i < j < |s| ==> !Lex.Less(s[j], s[i])
  }

  function Insert(s: seq<string>, k: string): (r: seq<string>)
    requires Ascending(s)
    ensures Ascending(r) && multiset(r) == multiset(s) + multiset{k}
  {
    if s == [] then [k]
    else if Lex.Less(s[0], k) then
      var t := Insert(s[1..], k);
      InsertBehind(s, k, t);
      [s[0]] + t
    else
      InsertFront(s, k);
      [k] + s
  }

  lemma InsertBehind(s: seq<string>, k: string, t: seq<string>)
    requires Ascending(s) && s != [] && Lex.Less(s[0], k)
    requires Ascending(t) && multiset(t) == multiset(s[1..]) + multiset{k}
    ensures Ascending([s[0]] + t) && multiset([s[0]] + t) == multiset(s) + multiset{k}
  {
    assert s == [s[0]] + s[1..];
    Lex.LessAsymmetric(s[0], k);
    forall j | 0 <= j < |t| ensures !Lex.Less(t[j], s[0]) {
      assert t[j] in multiset(t);
      if t[j] != k {
        assert t[j] in s[1..];
      }
    }
  }

  lemma InsertFront(s: seq<string>, k: string)
    requires Ascending(s) && s != [] && !Lex.Less(s[0], k)
    ensures Ascending([k] + s)
  {
    forall j | 0 < j < |s| ensures !Lex.Less(s[j], k) {
      if Lex.Less(s[j], k) {
        Lex.LessTotal(s[0], k);
        if s[0] != k { Lex.LessTransitive(s[j], k, s[0]); }
      }
    }
  }

  /** `sort.Strings`: an ascending permutation of its input. */
  method SortStrings(keys: seq<string>) returns (r: seq<string>)
    ensures multiset(r) == multiset(keys)
    ensures Ascending(r)
  {
    r := [];
    var i := 0;
    while i < |keys|
      invariant 0 <= i <= |keys|
      invariant Ascending(r) && multiset(r) == multiset(keys[..i])
    {
      assert keys[..i+1] == keys[..i] + [keys[i]];
      r := Insert(r, keys[i]);
      i := i + 1;
    }
    assert keys[..i] == keys;
  }

  /** In a sequence without repetitions, different positions hold different values. */
  lemma DistinctAt<T>(s: seq<T>, i: nat, j: nat)
    requires forall x :: multiset(s)[x] <= 1
    requires i < j < |s|
    ensures s[i] != s[j]
  {
    assert s == s[..j] + s[j..];
    assert s[..j][i] == s[i];
    assert s[j..][0] == s[j];
    assert multiset(s)[s[j]] == multiset(s[..j])[s[j]] + multiset(s[j..])[s[j]];
  }

  /** The key-collecting loop of `Sorted`: every key once, in map order. */
  method Keys(lookup: map<string, Handle>) returns (keys: seq<string>)
    ensures |keys| == |lookup|
    ensures forall k :: k in keys <==> k in lookup
    ensures forall k :: multiset(keys)[k] <= 1
  {
    keys := [];
    var rest := lookup.Keys;
    while rest != {}
      invariant rest <= lookup.Keys
      invariant forall k :: k in lookup ==> (k in keys <==> k !in rest)
      invariant forall k :: k in keys ==> k in lookup
      invariant |keys| + |rest| == |lookup.Keys|
      invariant forall k :: multiset(keys)[k] <= 1
      decreases rest
    {
      var key :| key in rest;
      keys := keys + [key];
      rest := rest - {key};
    }
  }

  /** An ascending sequence without repetitions is strictly ascending. */
  lemma StrictlyAscending(s: seq<string>)
    requires Ascending(s)
    requires forall x :: multiset(s)[x] <= 1
    ensures forall i, j :: 0 <= i < j < |s| ==> Lex.Less(s[i], s[j])
  {
    forall i, j | 0 <= i < j < |s| ensures Lex.Less(s[i], s[j]) {
      DistinctAt(s, i, j);
      Lex.LessTotal(s[i], s[j]);
    }
  }

  /** The first two steps of `Sorted`: the keys of `Lookup`, each once, in
      strictly ascending order. */
  method SortedKeys(lookup: map<string, Handle>) returns (sorted: seq<string>)
    ensures |sorted| == |lookup|
    ensures forall k :: k in sorted <==> k in lookup
    ensures forall i, j :: 0 <= i < j < |sorted| ==> Lex.Less(sorted[i], sorted[j])
  {
    var keys := Keys(lookup);
    sorted := SortStrings(keys);
    assert |sorted| == |keys| by {
      assert |multiset(sorted)| == |multiset(keys)|;
    }
    forall k ensures k in sorted <==> k in keys {
      assert k in multiset(sorted) <==> k in multiset(keys);
    }
    StrictlyAscending(sorted);
  }

  /** `Nodes.Sorted`: one node per `Lookup` entry, in strictly ascending
      name order. */
  method ByName(lookup: map<string, Handle>, names: map<Handle, string>) returns (ns: seq<Handle>)
    requires NamedIn(lookup, names)
    ensures |ns| == |lookup|
    ensures forall i :: 0 <= i < |ns| ==> ns[i] in names && names[ns[i]] in lookup
    ensures forall name :: name in lookup ==> lookup[name] in ns
    ensures forall i, j :: 0 <= i < j < |ns| ==> Lex.Less(names[ns[i]], names[ns[j]])
  {
    var sorted := SortedKeys(lookup);
    ns := [];
    var i := 0;
    while i < |sorted|
      invariant 0 <= i <= |sorted|
      invariant |ns| == i
      invariant forall m :: 0 <= m < i ==> ns[m] == lookup[sorted[m]] && names[ns[m]] == sorted[m]
    {
      ns := ns + [lookup[sorted[i]]];
      i := i + 1;
    }
    forall name | name in lookup ensures lookup[name] in ns {
      var m :| 0 <= m < |sorted| && sorted[m] == name;
      assert ns[m] == lookup[name];
    }
  }

  // ---------------------------------------------------------------------
  // The registry object
  // ---------------------------------------------------------------------

  /** `Nodes`: `Lookup` and the ordered slice `Nodes`, plus the node records
      that the handles point into. */
  class Nodes {
    var lookup: map<string, Handle>
    var nodes: seq<Handle>
    var names: map<Handle, string>
    var attrs: map<Handle, Attrs>
    var index: map<Handle, nat>
    var preds: map<Handle, seq<Handle>>
    var succs: map<Handle, seq<Handle>>
    var next: Handle

    function State(): Registry
      reads this
    {
      Registry(lookup, nodes, names, attrs, index, preds, succs, next)
    }

    ghost predicate Valid()
      reads this
    {
      Consistent(State())
    }

    /** `NewNodes`. */
    constructor ()
      ensures Valid() && State() == Empty()
    {
      lookup, nodes, names, attrs, index, preds, succs, next := map[], [], map[], map[], map[], map[], map[], 0;
    }

    /** `Nodes.Add`. */
    method Add(name: string, a: Attrs)
      requires Valid()
      modifies this
      ensures State() == Added(old(State()), name, a)
      ensures Valid()
    {
      if name in lookup {
        AddedExisting(State(), name, a);
      } else {
        AddedNew(State(), name, a);
      }
      Upsert(name, a);
    }

    /** The body of `Nodes.Add`. */
    method Upsert(name: string, a: Attrs)
      requires name in lookup ==> lookup[name] in attrs
      modifies this
      ensures State() == Added(old(State()), name, a)
    {
      if name in lookup {
        var h := lookup[name];
        var merged := AmmendInPlace(attrs[h], a);
        attrs := attrs[h := merged];
        return;
      }
      var h := next;
      lookup := lookup[name := h];
      names := names[h := name];
      attrs := attrs[h := a];
      index := index[h := |nodes|];
      preds := preds[h := []];
      succs := succs[h := []];
      nodes := nodes + [h];
      next := next + 1;
    }

    /** `addEdge(from, to)`. */
    method AddEdge(from: Handle, to: Handle)
      requires Valid() && from in names && to in names
      modifies this
      ensures State() == Linked(old(State()), from, to)
      ensures Valid()
    {
      LinkedIsSymmetric(State(), from, to);
      Append(from, to);
    }

    /** The body of `addEdge`. */
    method Append(from: Handle, to: Handle)
      requires from in succs && to in preds
      modifies this
      ensures State() == Linked(old(State()), from, to)
    {
      succs := succs[from := succs[from] + [to]];
      preds := preds[to := preds[to] + [from]];
    }

    /** `Node.HasPred`: whether m occurs among n's predecessors. */
    method HasPred(n: Handle, m: Handle) returns (b: bool)
      requires n in preds
      ensures b <==> m in preds[n]
    {
      b := Occurs(preds[n], m);
    }

    /** `Node.HasSucc`: whether m occurs among n's successors. */
    method HasSucc(n: Handle, m: Handle) returns (b: bool)
      requires n in succs
      ensures b <==> m in succs[n]
    {
      b := Occurs(succs[n], m);
    }

    /** `Nodes.del(x)`. */
    method Del(x: Handle)
      requires Valid() && x in names
      modifies this
      ensures State() == Deleted(old(State()), x)
      ensures Valid()
    {
      DeletedConsistent(State(), x);
      DelShape(State(), x);
      Remove(x);
    }

    /** The body of `Nodes.del`: the three loops of the source, in order, then
      the record is cleared. */
    method Remove(x: Handle)
      requires x in names && x in index && x in preds && x in succs
      requires forall h :: h in preds[x] ==> h in succs
      requires forall h :: h in succs[x] ==> h in preds
      requires PositionedIn(nodes, index)
      modifies this
      ensures State() == Deleted(old(State()), x)
    {
      var r := Cut(x);
      // Clear the deleted node's record.
      lookup, nodes, names, attrs, index, preds, succs := r.lookup, r.nodes, r.names, r.attrs, r.index, r.preds, r.succs;
    }

    /** The three loops of `Nodes.del`, computed on copies of the lists: the
      registry they leave once x's own record is dropped. */
    method Cut(x: Handle) returns (r: Registry)
      requires x in names && x in index && x in preds && x in succs
      requires forall h :: h in preds[x] ==> h in succs
      requires forall h :: h in succs[x] ==> h in preds
      requires PositionedIn(nodes, index)
      ensures r == Deleted(State(), x)
    {
      // Remove node from lookup.
      var lk := lookup - {names[x]};
      // Remove node from the successor list of each predecessor node.
      var s1 := Unlink(succs, preds[x], x);
      // Remove node from the predecessor list of each successor node.
      var p2 := Unlink(preds, s1[x], x);
      // Remove node from nodes list.
      var ns, idx := Compact(nodes, index, x);
      DelSteps(State(), x, s1, p2);
      r := Registry(lk, ns, names - {x}, attrs - {x}, idx - {x}, p2 - {x}, s1 - {x}, next);
    }

    /** `Nodes.Sorted`. */
    method Sorted() returns (ns: seq<Handle>)
      requires Valid()
      ensures |ns| == |lookup|
      ensures forall i :: 0 <= i < |ns| ==> ns[i] in names
      ensures forall name :: name in lookup ==> lookup[name] in ns
      ensures forall i, j :: 0 <= i < j < |ns| ==> Lex.Less(names[ns[i]], names[ns[j]])
    {
      ns := ByName(lookup, names);
    }

    /** `Nodes.DomSorted`: a rearranged copy of the ordered list; the registry
      itself is not touched (no modifies clause). */
    method DomSorted(dominates: (Handle, Handle) -> bool) returns (ns: seq<Handle>)
      requires Valid()
      ensures multiset(ns) == multiset(nodes)
    {
      ns := DomSort(State(), dominates, nodes);
    }
  }
}
