/**
 * A location inside a document: the position of the node that Rust's
 * `current_node: &mut Value` points at while `from_path` and `insert` walk
 * down. `At` reads the node there and `Plug` replaces it, which is what an
 * assignment `*current_node = …` does to the whole document.
 */
module Cursor {
  import opened JsonValue

  /** One step down: into an array element or into an object member, by position. */
  datatype Slot = Elem(i: nat) | Field(j: nat)

  predicate HasChild(v: Value, s: Slot)
  {
    match s
    case Elem(i) => v.Array? && i < |v.elems|
    case Field(j) => v.Object? && j < |v.members|
  }

  function Child(v: Value, s: Slot): Value
    requires HasChild(v, s)
  {
    match s
    case Elem(i) => v.elems[i]
    case Field(j) => v.members[j].value
  }

  /** `v` with the child at `s` replaced by `c`; keys and siblings unchanged. */
  function SetChild(v: Value, s: Slot, c: Value): (r: Value)
    requires HasChild(v, s)
    ensures HasChild(r, s) && Child(r, s) == c
  {
    match s
    case Elem(i) => Array(v.elems[i := c])
    case Field(j) => Object(v.members[j := Member(v.members[j].key, c)])
  }

  predicate ValidLoc(v: Value, loc: seq<Slot>)
    decreases |loc|
  {
    loc == [] || (HasChild(v, loc[0]) && ValidLoc(Child(v, loc[0]), loc[1..]))
  }

  /** The node at `loc`. */
  function At(v: Value, loc: seq<Slot>): Value
    requires ValidLoc(v, loc)
    decreases |loc|
  {
    if loc == [] then v else At(Child(v, loc[0]), loc[1..])
  }

  /** The document with the node at `loc` replaced by `n`. */
  function Plug(v: Value, loc: seq<Slot>, n: Value): (r: Value)
    requires ValidLoc(v, loc)
    ensures ValidLoc(r, loc) && At(r, loc) == n
    decreases |loc|
  {
    if loc == [] then n else SetChild(v, loc[0], Plug(Child(v, loc[0]), loc[1..], n))
  }

  /** Stepping one slot further down from a valid location. */
  lemma {:induction false} AtSnoc(v: Value, loc: seq<Slot>, s: Slot)
    requires ValidLoc(v, loc)
    ensures ValidLoc(v, loc + [s]) <==> HasChild(At(v, loc), s)
    ensures ValidLoc(v, loc + [s]) ==> At(v, loc + [s]) == Child(At(v, loc), s)
    decreases |loc|
  {
    if loc != [] {
      assert (loc + [s])[0] == loc[0] && (loc + [s])[1..] == loc[1..] + [s];
      AtSnoc(Child(v, loc[0]), loc[1..], s);
    } else {
      assert loc + [s] == [s] && [s][1..] == [];
    }
  }

  /** Plugging back what is already there changes nothing. */
  lemma {:induction false} PlugSame(v: Value, loc: seq<Slot>)
    requires ValidLoc(v, loc)
    ensures Plug(v, loc, At(v, loc)) == v
    decreases |loc|
  {
    if loc != [] {
      PlugSame(Child(v, loc[0]), loc[1..]);
      match loc[0]
      case Elem(i) => assert v.elems[i := v.elems[i]] == v.elems;
      case Field(j) => assert v.members[j := Member(v.members[j].key, v.members[j].value)] == v.members;
    }
  }

  /** A second plug at the same location overrides the first. */
  lemma {:induction false} PlugPlug(v: Value, loc: seq<Slot>, n: Value, m: Value)
    requires ValidLoc(v, loc)
    ensures Plug(Plug(v, loc, n), loc, m) == Plug(v, loc, m)
    decreases |loc|
  {
    if loc != [] {
      PlugPlug(Child(v, loc[0]), loc[1..], n, m);
      match loc[0]
      case Elem(i) =>
      case Field(j) =>
    }
  }

  /**
   * Plugging `n` and then plugging `m` one slot below is plugging `n` with
   * its child replaced by `m`: moving the cursor down into a fresh node.
   */
  lemma {:induction false} PlugThenDescend(v: Value, loc: seq<Slot>, n: Value, s: Slot, m: Value)
    requires ValidLoc(v, loc) && HasChild(n, s)
    ensures ValidLoc(Plug(v, loc, n), loc + [s])
      && Plug(Plug(v, loc, n), loc + [s], m) == Plug(v, loc, SetChild(n, s, m))
    decreases |loc|
  {
    AtSnoc(Plug(v, loc, n), loc, s);
    if loc == [] {
      assert [s][1..] == [];
    } else {
      assert (loc + [s])[0] == loc[0] && (loc + [s])[1..] == loc[1..] + [s];
      PlugThenDescend(Child(v, loc[0]), loc[1..], n, s, m);
      match loc[0]
      case Elem(i) =>
      case Field(j) =>
    }
  }
}
