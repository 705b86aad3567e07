/** Attribute maps and the two merge policies of the analyser (analyse.go):
    `ammend` (first definition wins) and `overwrite` (last definition wins). */
module Attrs {

  /** An attribute map: unique string keys to string values. */
  type Attrs = map<string, string>

  /** `ammend(attrs, add)`: keys already in `attrs` keep their value; keys of
      `add` missing from `attrs` are added with `add`'s value. */
  function Ammend(attrs: Attrs, add: Attrs): (r: Attrs)
    ensures r.Keys == attrs.Keys + add.Keys
    ensures forall k :: k in attrs ==> r[k] == attrs[k]
    ensures forall k :: k in add && k !in attrs ==> r[k] == add[k]
  {
    attrs + (add - attrs.Keys)
  }

  /** `overwrite(attrs, o)`: every key of `o` takes `o`'s value; the other
      keys of `attrs` are left as they were. */
  function Overwrite(attrs: Attrs, o: Attrs): (r: Attrs)
    ensures r.Keys == attrs.Keys + o.Keys
    ensures forall k :: k in o ==> r[k] == o[k]
    ensures forall k :: k in attrs && k !in o ==> r[k] == attrs[k]
  {
    attrs + o
  }

  /** The loop of `ammend`: walks the keys of `add` in an unspecified order
      and inserts each one that `attrs` lacks. */
  method AmmendInPlace(attrs: Attrs, add: Attrs) returns (r: Attrs)
    ensures r == Ammend(attrs, add)
  {
    r := attrs;
    var todo := add.Keys;
    while todo != {}
      invariant todo <= add.Keys
      invariant r.Keys == attrs.Keys + (add.Keys - todo)
      invariant forall k :: k in attrs ==> r[k] == attrs[k]
      invariant forall k :: k in add && k !in todo && k !in attrs ==> r[k] == add[k]
      decreases todo
    {
      var key :| key in todo;
      if key !in r {
        r := r[key := add[key]];
      }
      todo := todo - {key};
    }
  }

  /** The loop of `overwrite`: writes every key of `o` in an unspecified order. */
  method OverwriteInPlace(attrs: Attrs, o: Attrs) returns (r: Attrs)
    ensures r == Overwrite(attrs, o)
  {
    r := attrs;
    var todo := o.Keys;
    while todo != {}
      invariant todo <= o.Keys
      invariant r.Keys == attrs.Keys + (o.Keys - todo)
      invariant forall k :: k in o && k !in todo ==> r[k] == o[k]
      invariant forall k :: k in attrs && (k !in o || k in todo) ==> r[k] == attrs[k]
      decreases todo
    {
      var key :| key in todo;
      r := r[key := o[key]];
      todo := todo - {key};
    }
  }

  /** Merging the same second map twice is the same as merging it once. */
  lemma AmmendIdempotent(attrs: Attrs, add: Attrs)
    ensures Ammend(Ammend(attrs, add), add) == Ammend(attrs, add)
  {
    var once := Ammend(attrs, add);
    var twice := Ammend(once, add);
    assert twice.Keys == once.Keys;
    forall k | k in once ensures twice[k] == once[k] { }
  }

  lemma OverwriteIdempotent(attrs: Attrs, o: Attrs)
    ensures Overwrite(Overwrite(attrs, o), o) == Overwrite(attrs, o)
  {
    var once := Overwrite(attrs, o);
    var twice := Overwrite(once, o);
    assert twice.Keys == once.Keys;
    forall k | k in once ensures twice[k] == once[k] { }
  }

  /** First-definition-wins is last-definition-wins with the arguments swapped. */
  lemma AmmendIsOverwriteReversed(attrs: Attrs, add: Attrs)
    ensures Ammend(attrs, add) == Overwrite(add, attrs)
  {
    var a := Ammend(attrs, add);
    var o := Overwrite(add, attrs);
    assert a.Keys == o.Keys;
    forall k | k in a ensures a[k] == o[k] { }
  }

  /** A node is the "entry" node when its attributes carry `label` = "entry";
      a missing key reads as the empty string, as a Go map lookup does. */
  predicate IsEntry(attrs: Attrs)
  {
    "label" in attrs && attrs["label"] == "entry"
  }
}
