/**
 * `Value::insert`: writes `value` at `path` inside a document, creating
 * containers where the document holds `null`. Unlike the traversal, a
 * `Flatten` step does not fan out: it only makes sure the node is an array
 * (turning `null` into `[]`) and the next step applies to that array itself.
 * A key missing from an existing object is not created: the source's
 * `expect` panics there.
 */
module Insertion {
  import opened Wrappers
  import opened JsonValue
  import opened JsonPath
  import opened Cursor
  import opened Traversal
  import opened Sparse

  const EXPECTED_ARRAY := "expected an array"
  const EXPECTED_OBJECT := "expected an object"
  const MISSING_KEY := "the value at that key was just inserted"

  /** `Ok(())`, `Err(FetchError::ExecutionPathNotFound { reason })`, or the `expect` panic. */
  datatype InsertOutcome =
    | Inserted
    | ExecutionPathNotFound(reason: string)
    | Panicked(message: string)

  /** `a` grown with `null`s to at least `n` elements. */
  function Padded(a: seq<Value>, n: nat): (r: seq<Value>)
    ensures |r| == if |a| < n then n else |a|
    ensures r[..|a|] == a && forall j :: |a| <= j < |r| ==> r[j] == Null
  {
    if |a| < n then a + Nulls(n - |a|) else a
  }

  /**
   * The node `insert` leaves behind and its outcome, by recursion on the
   * path. On an error the changes already made on the way down stay.
   */
  function InsertAt(node: Value, path: Path, value: Value): (Value, InsertOutcome)
    decreases |path|
  {
    if path == [] then (value, Inserted)
    else match path[0]
      case Flatten =>
        if node.Null? then InsertAt(Array([]), path[1..], value)
        else if node.Array? then InsertAt(node, path[1..], value)
        else (node, ExecutionPathNotFound(EXPECTED_ARRAY))
      case Index(i) =>
        if node.Array? || node.Null? then
          var padded := if node.Null? then Nulls(i + 1) else Padded(node.elems, i + 1);
          var (c, o) := InsertAt(padded[i], path[1..], value);
          (Array(padded[i := c]), o)
        else (node, ExecutionPathNotFound(EXPECTED_ARRAY))
      case Key(k) =>
        match node
        case Object(ms) =>
          (match IndexOfKey(ms, k)
           case Some(j) =>
             var (c, o) := InsertAt(ms[j].value, path[1..], value);
             (Object(ms[j := Member(ms[j].key, c)]), o)
           case None => (node, Panicked(MISSING_KEY)))
        case Null =>
          var (c, o) := InsertAt(Null, path[1..], value);
          (Object([Member(k, c)]), o)
        case _ => (node, ExecutionPathNotFound(EXPECTED_OBJECT))
  }

  /** Finishing the insertion from the cursor: plug the cursor's result back into the document. */
  function Finish(doc: Value, loc: seq<Slot>, r: (Value, InsertOutcome)): (Value, InsertOutcome)
    requires ValidLoc(doc, loc)
  {
    (Plug(doc, loc, r.0), r.1)
  }

  /** `for _ in a.len()..n { a.push(Value::default()) }`. */
  method PadWithNulls(a: seq<Value>, n: nat) returns (r: seq<Value>)
    ensures r == Padded(a, n)
  {
    r := a;
    var k := |a|;
    while k < n
      invariant |a| <= k == |r| && r == a + Nulls(k - |a|)
      invariant k == |a| || k <= n
    {
      r := r + [Null];
      k := k + 1;
    }
  }

  /**
   * `insert`: the cursor `loc` plays `current_node`. Each step either
   * rewrites the node under the cursor, moves the cursor one slot down, or
   * returns an error with the document as it stands.
   */
  method Insert(root: Value, path: Path, value: Value) returns (doc: Value, outcome: InsertOutcome)
    ensures (doc, outcome) == InsertAt(root, path, value)
  {
    doc := root;
    var loc: seq<Slot> := [];
    var j := 0;
    while j < |path|
      invariant 0 <= j <= |path|
      invariant ValidLoc(doc, loc)
      invariant Finish(doc, loc, InsertAt(At(doc, loc), path[j..], value)) == InsertAt(root, path, value)
    {
      var failed;
      doc, loc, failed := Descend(doc, loc, path, j, value);
      if failed.Some? {
        outcome := failed.value;
        return;
      }
      j := j + 1;
    }
    assert path[|path|..] == [];
    doc := Plug(doc, loc, value);
    outcome := Inserted;
  }

  /**
   * One iteration of `insert`'s loop, for the path element `path[j]`: either
   * the node under the cursor is rewritten and the cursor moves down, with
   * the pending work unchanged, or the step fails with the document as it
   * stands.
   */
  method Descend(doc: Value, loc: seq<Slot>, path: Path, j: nat, value: Value)
    returns (doc': Value, loc': seq<Slot>, failed: Option<InsertOutcome>)
    requires j < |path| && ValidLoc(doc, loc)
    ensures failed.None? ==> ValidLoc(doc', loc')
    ensures failed.None? ==>
      Finish(doc', loc', InsertAt(At(doc', loc'), path[j + 1..], value)) == Finish(doc, loc, InsertAt(At(doc, loc), path[j..], value))
    ensures failed.Some? ==> doc' == doc && (doc, failed.value) == Finish(doc, loc, InsertAt(At(doc, loc), path[j..], value))
  {
    doc', loc', failed := doc, loc, None;
    var node := At(doc, loc);
    match path[j] {
    case Flatten =>
      if node.Null? {
        StepFlattenNull(doc, loc, path, j, value);
        doc' := Plug(doc, loc, Array([]));
      } else if node.Array? {
        StepFlattenArray(doc, loc, path, j, value);
      } else {
        failed := Some(ExecutionPathNotFound(EXPECTED_ARRAY));
        StepFails(doc, loc, path, j, value, failed.value);
      }
    case Index(index) =>
      if node.Array? || node.Null? {
        var a: seq<Value>;
        if node.Array? {
          // add more elements if the index is after the end
          a := PadWithNulls(node.elems, index + 1);
        } else {
          a := PadWithNulls([], index + 1);
        }
        StepIndex(doc, loc, path, j, index, a, value);
        doc' := Plug(doc, loc, Array(a));
        loc' := loc + [Elem(index)];
      } else {
        failed := Some(ExecutionPathNotFound(EXPECTED_ARRAY));
        StepFails(doc, loc, path, j, value, failed.value);
      }
    case Key(k) =>
      match node {
      case Object(ms) =>
        var found := IndexOfKey(ms, k);
        if found.None? {
          failed := Some(Panicked(MISSING_KEY));
          StepFails(doc, loc, path, j, value, failed.value);
        } else {
          StepKeyObject(doc, loc, path, j, k, found.value, value);
          loc' := loc + [Field(found.value)];
        }
      case Null =>
        StepKeyNull(doc, loc, path, j, k, value);
        doc' := Plug(doc, loc, Object([Member(k, Null)]));
        loc' := loc + [Field(0)];
      case _ =>
        failed := Some(ExecutionPathNotFound(EXPECTED_OBJECT));
        StepFails(doc, loc, path, j, value, failed.value);
      }
    }
  }

  // One lemma per step of the loop: the cursor's pending work is unchanged by the step.

  /** A step that fails leaves the document as it is and reports `outcome`. */
  lemma StepFails(doc: Value, loc: seq<Slot>, path: Path, j: nat, value: Value, outcome: InsertOutcome)
    requires j < |path| && ValidLoc(doc, loc)
    requires var node := At(doc, loc);
      || (outcome == ExecutionPathNotFound(EXPECTED_ARRAY) && !path[j].Key? && !node.Null? && !node.Array?)
      || (outcome == ExecutionPathNotFound(EXPECTED_OBJECT) && path[j].Key? && !node.Null? && !node.Object?)
      || (outcome == Panicked(MISSING_KEY) && path[j].Key? && node.Object? && IndexOfKey(node.members, path[j].key).None?)
    ensures Finish(doc, loc, InsertAt(At(doc, loc), path[j..], value)) == (doc, outcome)
  {
    SliceCons(path, j);
    PlugSame(doc, loc);
  }

  lemma SliceCons(path: Path, j: nat)
    requires j < |path|
    ensures path[j..] == [path[j]] + path[j + 1..]
    ensures path[j..][0] == path[j] && path[j..][1..] == path[j + 1..]
  {
  }

  lemma StepFlattenArray(doc: Value, loc: seq<Slot>, path: Path, j: nat, value: Value)
    requires j < |path| && path[j] == Flatten
    requires ValidLoc(doc, loc) && At(doc, loc).Array?
    ensures Finish(doc, loc, InsertAt(At(doc, loc), path[j + 1..], value))
         == Finish(doc, loc, InsertAt(At(doc, loc), path[j..], value))
  {
    SliceCons(path, j);
  }

  lemma StepFlattenNull(doc: Value, loc: seq<Slot>, path: Path, j: nat, value: Value)
    requires j < |path| && path[j] == Flatten
    requires ValidLoc(doc, loc) && At(doc, loc) == Null
    ensures ValidLoc(Plug(doc, loc, Array([])), loc)
    ensures Finish(Plug(doc, loc, Array([])), loc, InsertAt(At(Plug(doc, loc, Array([])), loc), path[j + 1..], value))
         == Finish(doc, loc, InsertAt(At(doc, loc), path[j..], value))
  {
    SliceCons(path, j);
    PlugPlug(doc, loc, Array([]), InsertAt(Array([]), path[j + 1..], value).0);
  }

  lemma StepIndex(doc: Value, loc: seq<Slot>, path: Path, j: nat, index: Usize, a: seq<Value>, value: Value)
    requires j < |path| && path[j] == Index(index)
    requires ValidLoc(doc, loc) && (At(doc, loc).Array? || At(doc, loc).Null?)
    requires a == if At(doc, loc).Null? then Padded([], index + 1) else Padded(At(doc, loc).elems, index + 1)
    ensures ValidLoc(Plug(doc, loc, Array(a)), loc + [Elem(index)])
    ensures Finish(Plug(doc, loc, Array(a)), loc + [Elem(index)], InsertAt(At(Plug(doc, loc, Array(a)), loc + [Elem(index)]), path[j + 1..], value))
         == Finish(doc, loc, InsertAt(At(doc, loc), path[j..], value))
  {
    IndexUnfold(At(doc, loc), path, j, index, a, value);
    Descended(doc, loc, Array(a), Elem(index), path[j..], path[j + 1..], value);
  }

  /** One `Index` step of `insert_at`, on the padded array `a`. */
  lemma IndexUnfold(node: Value, path: Path, j: nat, index: Usize, a: seq<Value>, value: Value)
    requires j < |path| && path[j] == Index(index) && (node.Array? || node.Null?)
    requires a == if node.Null? then Padded([], index + 1) else Padded(node.elems, index + 1)
    ensures index < |a|
    ensures var r := InsertAt(a[index], path[j + 1..], value);
      InsertAt(node, path[j..], value) == (Array(a[index := r.0]), r.1)
  {
    SliceCons(path, j);
    assert node.Null? ==> a == Nulls(index + 1);
  }

  /**
   * Moving the cursor down: when the node at `loc` becomes `n` with its child
   * at `s` replaced by the result for `rest`, plugging `n` and stepping into
   * `s` leaves the pending work unchanged.
   */
  lemma Descended(doc: Value, loc: seq<Slot>, n: Value, s: Slot, whole: Path, rest: Path, value: Value)
    requires ValidLoc(doc, loc) && HasChild(n, s)
    requires var r := InsertAt(Child(n, s), rest, value);
      InsertAt(At(doc, loc), whole, value) == (SetChild(n, s, r.0), r.1)
    ensures ValidLoc(Plug(doc, loc, n), loc + [s])
    ensures Finish(Plug(doc, loc, n), loc + [s], InsertAt(At(Plug(doc, loc, n), loc + [s]), rest, value))
         == Finish(doc, loc, InsertAt(At(doc, loc), whole, value))
  {
    var r := InsertAt(Child(n, s), rest, value);
    PlugThenDescend(doc, loc, n, s, r.0);
    AtSnoc(Plug(doc, loc, n), loc, s);
  }

  lemma StepKeyObject(doc: Value, loc: seq<Slot>, path: Path, j: nat, k: string, found: nat, value: Value)
    requires j < |path| && path[j] == Key(k)
    requires ValidLoc(doc, loc) && At(doc, loc).Object? && IndexOfKey(At(doc, loc).members, k) == Some(found)
    ensures ValidLoc(doc, loc + [Field(found)])
    ensures Finish(doc, loc + [Field(found)], InsertAt(At(doc, loc + [Field(found)]), path[j + 1..], value))
         == Finish(doc, loc, InsertAt(At(doc, loc), path[j..], value))
  {
    var node := At(doc, loc);
    SliceCons(path, j);
    var r := InsertAt(node.members[found].value, path[j + 1..], value);
    assert InsertAt(node, path[j..], value) == (SetChild(node, Field(found), r.0), r.1);
    PlugSame(doc, loc);
    Descended(doc, loc, node, Field(found), path[j..], path[j + 1..], value);
  }

  lemma StepKeyNull(doc: Value, loc: seq<Slot>, path: Path, j: nat, k: string, value: Value)
    requires j < |path| && path[j] == Key(k)
    requires ValidLoc(doc, loc) && At(doc, loc) == Null
    ensures ValidLoc(Plug(doc, loc, Object([Member(k, Null)])), loc + [Field(0)])
    ensures Finish(Plug(doc, loc, Object([Member(k, Null)])), loc + [Field(0)],
                   InsertAt(At(Plug(doc, loc, Object([Member(k, Null)])), loc + [Field(0)]), path[j + 1..], value))
         == Finish(doc, loc, InsertAt(At(doc, loc), path[j..], value))
  {
    var placeholder := Object([Member(k, Null)]);
    SliceCons(path, j);
    var r := InsertAt(Null, path[j + 1..], value);
    assert [Member(k, Null)][0 := Member(k, r.0)] == [Member(k, r.0)];
    assert InsertAt(Null, path[j..], value) == (SetChild(placeholder, Field(0), r.0), r.1);
    Descended(doc, loc, placeholder, Field(0), path[j..], path[j + 1..], value);
  }

  // ------------------------------------------------------------ properties

  /** Following a path the way `insert` walks it: a `Flatten` step stays on the same node. */
  function FollowWrite(v: Value, p: Path): Option<Value>
    decreases |p|
  {
    if p == [] then Some(v)
    else match p[0]
      case Flatten => FollowWrite(v, p[1..])
      case Index(i) => if v.Array? && i < |v.elems| then FollowWrite(v.elems[i], p[1..]) else None
      case Key(k) =>
        if v.Object? then
          match Get(v.members, k)
          case Some(c) => FollowWrite(c, p[1..])
          case None => None
        else None
  }

  /** On success, following the path in the new document (Flatten staying put) reaches `value`. */
  lemma {:induction false} InsertedValueIsThere(node: Value, path: Path, value: Value)
    requires InsertAt(node, path, value).1 == Inserted
    ensures FollowWrite(InsertAt(node, path, value).0, path) == Some(value)
    decreases |path|
  {
    if path != [] {
      var rest := path[1..];
      match path[0]
      case Flatten =>
        if node.Null? {
          InsertedValueIsThere(Array([]), rest, value);
        } else {
          InsertedValueIsThere(node, rest, value);
        }
      case Index(i) =>
        var padded := if node.Null? then Nulls(i + 1) else Padded(node.elems, i + 1);
        InsertedValueIsThere(padded[i], rest, value);
      case Key(k) =>
        if node.Object? {
          var ms := node.members;
          var j := IndexOfKey(ms, k).value;
          var c := InsertAt(ms[j].value, rest, value).0;
          InsertedValueIsThere(ms[j].value, rest, value);
          IndexAfterUpdate(ms, j, c, k);
        } else {
          InsertedValueIsThere(Null, rest, value);
        }
    }
  }

  /**
   * For a path without `Flatten`, inserting into `null` builds exactly what
   * `from_path` builds, and succeeds.
   */
  lemma {:induction false} InsertIntoNullIsFromPath(path: Path, value: Value)
    requires FlattenFree(path)
    ensures InsertAt(Null, path, value) == (Build(path, value), Inserted)
    decreases |path|
  {
    if path != [] {
      assert FlattenFree(path[1..]) by {
        forall i | 0 <= i < |path[1..]| ensures path[1..][i] == path[i + 1] {}
      }
      InsertIntoNullIsFromPath(path[1..], value);
      match path[0]
      case Index(i) =>
        assert Nulls(i + 1)[i := Build(path[1..], value)] == Nulls(i) + [Build(path[1..], value)];
      case Key(k) =>
      case Flatten =>
    }
  }

  /**
   * One level of `insert` touches only the slot on the path: the other
   * members of an object keep their keys, values and order; an array keeps
   * its other elements and is padded with `null` to hold the index. This
   * holds whatever the outcome further down.
   */
  lemma InsertKeepsSiblings(node: Value, path: Path, value: Value)
    requires path != []
    ensures var r := InsertAt(node, path, value).0;
      path[0].Key? && node.Object? && IndexOfKey(node.members, path[0].key).Some? ==>
        var j := IndexOfKey(node.members, path[0].key).value;
        && r.Object? && Keys(r.members) == Keys(node.members)
        && forall m :: 0 <= m < |node.members| && m != j ==> r.members[m] == node.members[m]
    ensures var r := InsertAt(node, path, value).0;
      path[0].Index? && (node.Array? || node.Null?) ==>
        var old_elems := if node.Null? then [] else node.elems;
        var i := path[0].index;
        && r.Array? && |r.elems| == (if i < |old_elems| then |old_elems| else i + 1)
        && forall m :: 0 <= m < |r.elems| && m != i ==> r.elems[m] == (if m < |old_elems| then old_elems[m] else Null)
  {
    var r := InsertAt(node, path, value).0;
    if path[0].Key? && node.Object? && IndexOfKey(node.members, path[0].key).Some? {
      assert Keys(r.members) == Keys(node.members);
    }
    if path[0].Index? && node.Array? {
      var i: nat := path[0].index;
      var padded := Padded(node.elems, i + 1);
      assert forall m :: 0 <= m < |node.elems| ==> padded[m] == padded[..|node.elems|][m];
    }
  }

  /**
   * A `null` node is rewritten before the rest of the path is tried, and
   * the rewrite stays whatever the outcome: an index makes it an array of
   * `index + 1` slots whose earlier slots are `null`, a key makes it an
   * object with that one key.
   */
  lemma NullCursorRewritten(path: Path, value: Value)
    requires path != [] && !path[0].Flatten?
    ensures var r := InsertAt(Null, path, value).0;
      path[0].Index? ==>
        && r.Array? && |r.elems| == path[0].index + 1
        && forall m :: 0 <= m < path[0].index ==> r.elems[m] == Null
    ensures var r := InsertAt(Null, path, value).0;
      path[0].Key? ==> r.Object? && Keys(r.members) == [path[0].key]
  {
  }

  /**
   * The errors: an index or `Flatten` on a node that is neither `null` nor an
   * array, a key on a node that is neither `null` nor an object, and a key
   * missing from an existing object (the panic). The node is left as it was.
   */
  lemma InsertErrors(node: Value, path: Path, value: Value)
    requires path != []
    ensures (path[0].Index? || path[0] == Flatten) && !node.Null? && !node.Array? ==>
      InsertAt(node, path, value) == (node, ExecutionPathNotFound("expected an array"))
    ensures path[0].Key? && !node.Null? && !node.Object? ==>
      InsertAt(node, path, value) == (node, ExecutionPathNotFound("expected an object"))
    ensures path[0].Key? && node.Object? && IndexOfKey(node.members, path[0].key).None? ==>
      InsertAt(node, path, value) == (node, Panicked("the value at that key was just inserted"))
  {
  }

  /**
   * A `Flatten` leaves the cursor on an array, so a key right after it always
   * fails; a `null` node has by then already become `[]`, and stays so.
   */
  lemma KeyAfterFlattenFails(node: Value, k: string, rest: Path, value: Value)
    ensures InsertAt(node, [Flatten, Key(k)] + rest, value).1 ==
      ExecutionPathNotFound(if node.Null? || node.Array? then "expected an object" else "expected an array")
    ensures node.Null? ==> InsertAt(node, [Flatten, Key(k)] + rest, value).0 == Array([])
    ensures node.Array? ==> InsertAt(node, [Flatten, Key(k)] + rest, value).0 == node
  {
    var path := [Flatten, Key(k)] + rest;
    assert path[0] == Flatten && path[1..][0] == Key(k);
  }

  /**
   * `insert` keeps a document well-formed: new objects have one key, and an
   * existing object keeps its keys.
   */
  lemma {:induction false} InsertWellFormed(node: Value, path: Path, value: Value)
    requires WellFormed(node) && WellFormed(value)
    ensures WellFormed(InsertAt(node, path, value).0)
    decreases |path|
  {
    if path != [] {
      var rest := path[1..];
      match path[0]
      case Flatten =>
        if node.Null? {
          InsertWellFormed(Array([]), rest, value);
        } else if node.Array? {
          InsertWellFormed(node, rest, value);
        }
      case Index(i) =>
        if node.Array? || node.Null? {
          var padded := if node.Null? then Nulls(i + 1) else Padded(node.elems, i + 1);
          PaddedWellFormed(node, i + 1, padded);
          InsertWellFormed(padded[i], rest, value);
          ElemUpdateWellFormed(padded, i, InsertAt(padded[i], rest, value).0);
        }
      case Key(k) =>
        if node.Object? {
          var ms := node.members;
          if IndexOfKey(ms, k).Some? {
            var j := IndexOfKey(ms, k).value;
            InsertWellFormed(ms[j].value, rest, value);
            MemberUpdateWellFormed(ms, j, InsertAt(ms[j].value, rest, value).0);
          }
        } else if node.Null? {
          InsertWellFormed(Null, rest, value);
        }
    }
  }

  lemma PaddedWellFormed(node: Value, n: nat, padded: seq<Value>)
    requires WellFormed(node) && (node.Null? || node.Array?)
    requires padded == if node.Null? then Nulls(n) else Padded(node.elems, n)
    ensures forall m :: 0 <= m < |padded| ==> WellFormed(padded[m])
  {
    if node.Array? {
      forall m | 0 <= m < |padded| ensures WellFormed(padded[m]) {
        if m < |node.elems| { assert padded[m] == padded[..|node.elems|][m]; }
      }
    }
  }

  lemma ElemUpdateWellFormed(es: seq<Value>, i: nat, c: Value)
    requires i < |es| && WellFormed(c) && forall m :: 0 <= m < |es| ==> WellFormed(es[m])
    ensures WellFormed(Array(es[i := c]))
  {
  }

  lemma MemberUpdateWellFormed(ms: seq<Member>, j: nat, c: Value)
    requires j < |ms| && WellFormed(Object(ms)) && WellFormed(c)
    ensures WellFormed(Object(ms[j := Member(ms[j].key, c)]))
  {
    var ns := ms[j := Member(ms[j].key, c)];
    assert forall t :: 0 <= t < |ns| ==> ns[t].key == ms[t].key;
  }


  /** The write path as `insert` descends it: a `Flatten` step stays on the same node, so it is dropped. */
  function Strip(p: Path): (r: Path)
    ensures |r| <= |p|
    decreases |p|
  {
    if p == [] then []
    else if p[0] == Flatten then Strip(p[1..])
    else [p[0]] + Strip(p[1..])
  }

  /** On a path without `Flatten` nothing is dropped. */
  lemma {:induction false} StripFlattenFree(p: Path)
    requires FlattenFree(p)
    ensures Strip(p) == p
    decreases |p|
  {
    if p != [] {
      assert FlattenFree(p[1..]) by {
        forall i | 0 <= i < |p[1..]| ensures p[1..][i] == p[i + 1] {}
      }
      StripFlattenFree(p[1..]);
    }
  }

  /**
   * A write never disturbs a location off its path: following any path that
   * leaves the write path (its `Flatten` steps dropped) at some step gives,
   * afterwards, what it gave before.
   */
  lemma {:induction false} InsertLeavesOtherPathsAlone(node: Value, path: Path, value: Value, q: Path, d: nat)
    requires d < |q| && d < |Strip(path)| && q[..d] == Strip(path)[..d] && q[d] != Strip(path)[d]
    requires Follow(node, q).Some?
    ensures Follow(InsertAt(node, path, value).0, q) == Follow(node, q)
    decreases |path|, 1
  {
    var rest := path[1..];
    StripCons(path);
    if path[0] == Flatten {
      FlattenStaysPut(node, path, value, q);
      if node.Array? {
        InsertLeavesOtherPathsAlone(node, rest, value, q, d);
      }
    } else if d == 0 {
      DivergeAtFirst(node, path, value, q);
    } else {
      BelowFirstStep(node, path, value, q, d);
    }
  }

  /** The paths share a first step that is not `Flatten`: the write goes on inside the child both reach. */
  lemma {:induction false} BelowFirstStep(node: Value, path: Path, value: Value, q: Path, d: nat)
    requires path != [] && path[0] != Flatten && 0 < d
    requires d < |q| && d < |Strip(path)| && q[..d] == Strip(path)[..d] && q[d] != Strip(path)[d]
    requires Follow(node, q).Some?
    ensures Follow(InsertAt(node, path, value).0, q) == Follow(node, q)
    decreases |path|, 0
  {
    var rest := path[1..];
    CommonFirstStep(path, q, d);
    match path[0]
    case Index(i) =>
      IndexInside(node, path, value);
      InsertLeavesOtherPathsAlone(node.elems[i], rest, value, q[1..], d - 1);
    case Key(k) =>
      var j := KeyInside(node, path, value);
      InsertLeavesOtherPathsAlone(node.members[j].value, rest, value, q[1..], d - 1);
  }

  /** Paths that agree on a first step they share both continue from the same child. */
  lemma CommonFirstStep(path: Path, q: Path, d: nat)
    requires path != [] && path[0] != Flatten
    requires 0 < d < |q| && d < |Strip(path)| && q[..d] == Strip(path)[..d] && q[d] != Strip(path)[d]
    ensures q[0] == path[0]
    ensures d - 1 < |Strip(path[1..])| && q[1..][..d - 1] == Strip(path[1..])[..d - 1]
    ensures q[1..][d - 1] != Strip(path[1..])[d - 1]
  {
    StripCons(path);
    ConsPrefix(path[0], Strip(path[1..]), q, d);
  }

  /**
   * A `Flatten` write step leaves an array as it is and fails on anything
   * but `null`; a `null` node resolves no non-empty path.
   */
  lemma FlattenStaysPut(node: Value, path: Path, value: Value, q: Path)
    requires path != [] && path[0] == Flatten && q != []
    ensures node.Array? ==> InsertAt(node, path, value) == InsertAt(node, path[1..], value)
    ensures !node.Array? && !node.Null? ==> InsertAt(node, path, value).0 == node
    ensures node.Null? ==> Follow(node, q) == None
  {
  }

  lemma StripCons(path: Path)
    requires path != []
    ensures Strip(path) == if path[0] == Flatten then Strip(path[1..]) else [path[0]] + Strip(path[1..])
  {
  }

  /** A sequence that agrees with `[x] + s` before `d` and differs at `d` starts with `x`, and its tail does the same against `s`. */
  lemma ConsPrefix<T>(x: T, s: seq<T>, q: seq<T>, d: nat)
    requires 0 < d < |q| && d < 1 + |s| && q[..d] == ([x] + s)[..d] && q[d] != ([x] + s)[d]
    ensures q[0] == x && q[1..][..d - 1] == s[..d - 1] && q[1..][d - 1] != s[d - 1]
  {
    assert q[..d][0] == q[0];
    assert q[1..][..d - 1] == q[..d][1..];
    assert ([x] + s)[..d][1..] == s[..d - 1];
  }

  /** Writing through an index inside an array rewrites that element only. */
  lemma IndexInside(node: Value, path: Path, value: Value)
    requires path != [] && path[0].Index? && node.Array? && path[0].index < |node.elems|
    ensures var i := path[0].index;
      InsertAt(node, path, value).0 == Array(node.elems[i := InsertAt(node.elems[i], path[1..], value).0])
  {
    assert Padded(node.elems, path[0].index + 1) == node.elems;
  }

  /** Writing through a key the object has rewrites that member only, and the key still leads to it. */
  lemma KeyInside(node: Value, path: Path, value: Value) returns (j: nat)
    requires path != [] && path[0].Key? && node.Object? && IndexOfKey(node.members, path[0].key).Some?
    ensures j == IndexOfKey(node.members, path[0].key).value
    ensures var ms := node.members;
      var r := InsertAt(node, path, value).0;
      && r == Object(ms[j := Member(ms[j].key, InsertAt(ms[j].value, path[1..], value).0)])
      && IndexOfKey(r.members, path[0].key) == Some(j)
  {
    var ms := node.members;
    j := IndexOfKey(ms, path[0].key).value;
    var c := InsertAt(ms[j].value, path[1..], value).0;
    assert InsertAt(node, path, value).0 == Object(ms[j := Member(ms[j].key, c)]);
    IndexAfterUpdate(ms, j, c, path[0].key);
  }

  /** A path that leaves the write path at its first step still resolves to what it did. */
  lemma DivergeAtFirst(node: Value, path: Path, value: Value, q: Path)
    requires |q| > 0 && |path| > 0 && path[0] != Flatten && q[0] != path[0]
    requires Follow(node, q).Some?
    ensures Follow(InsertAt(node, path, value).0, q) == Follow(node, q)
  {
    var rest := path[1..];
    match path[0]
    case Index(i) =>
      if node.Array? {
        var padded := Padded(node.elems, i + 1);
        assert padded[..|node.elems|] == node.elems;
        match q[0]
        case Index(x) =>
          assert padded[x] == padded[..|node.elems|][x];
        case Key(_) =>
        case Flatten =>
      }
    case Key(k) =>
      if node.Object? && IndexOfKey(node.members, k).Some? {
        var ms := node.members;
        var j := IndexOfKey(ms, k).value;
        var ms' := ms[j := Member(ms[j].key, InsertAt(ms[j].value, rest, value).0)];
        match q[0]
        case Key(k') =>
          IndexAfterUpdate(ms, j, InsertAt(ms[j].value, rest, value).0, k');
        case Index(_) =>
        case Flatten =>
      }
  }

  /**
   * After a successful write along a plain, Flatten-free path, the traversal
   * of that path yields exactly the written value.
   */
  lemma SelectAfterInsert(node: Value, path: Path, value: Value)
    requires FlattenFree(path) && PlainPath(path)
    requires InsertAt(node, path, value).1 == Inserted
    ensures SelectValuesAndPaths(InsertAt(node, path, value).0, path) == [(path, value)]
  {
    InsertedValueIsThere(node, path, value);
    FollowWriteIsFollow(InsertAt(node, path, value).0, path);
    SelectWithoutFlatten(InsertAt(node, path, value).0, path);
  }

  lemma {:induction false} FollowWriteIsFollow(v: Value, path: Path)
    requires FlattenFree(path)
    ensures FollowWrite(v, path) == Follow(v, path)
    decreases |path|
  {
    if path != [] {
      assert FlattenFree(path[1..]) by {
        forall i | 0 <= i < |path[1..]| ensures path[1..][i] == path[i + 1] {}
      }
      match path[0]
      case Index(i) =>
        if v.Array? && i < |v.elems| { FollowWriteIsFollow(v.elems[i], path[1..]); }
      case Key(k) =>
        if v.Object? && Get(v.members, k).Some? { FollowWriteIsFollow(Get(v.members, k).value, path[1..]); }
      case Flatten =>
    }
  }

  /**
   * `Flatten` reads and writes differently: reading `[Flatten]` from an
   * array yields one pair per element, writing at `[Flatten]` replaces the
   * whole array; `from_path` drops the leaf at a `Flatten`, `insert` into
   * `null` places it.
   */
  lemma FlattenReadWriteAsymmetry(elems: seq<Value>, value: Value)
    ensures |SelectValuesAndPaths(Array(elems), [Flatten])| == |elems|
    ensures InsertAt(Array(elems), [Flatten], value) == (value, Inserted)
    ensures Build([Flatten], value) == Null
    ensures InsertAt(Null, [Flatten], value) == (value, Inserted)
  {
    var path: Path := [Flatten];
    assert path[1..] == [];
    FanOutLength([], elems, 0);
  }

  lemma {:induction false} FanOutLength(parent: Path, elems: seq<Value>, i: nat)
    requires i <= |elems|
    ensures |FanOut(parent, [], elems, i)| == |elems| - i
    decreases |elems| - i
  {
    if i < |elems| { FanOutLength(parent, elems, i + 1); }
  }

  /**
   * Writing `7` at `a/2`: into `null` it builds `{"a":[null,null,7]}`; into
   * the empty object it panics, because the key `a` is missing.
   */
  lemma InsertExamples()
    ensures InsertAt(Null, [Key("a"), Index(2)], Number(7))
         == (Object([Member("a", Array([Null, Null, Number(7)]))]), Inserted)
    ensures InsertAt(Object([]), [Key("a"), Index(2)], Number(7))
         == (Object([]), Panicked("the value at that key was just inserted"))
  {
    var path: Path := [Key("a"), Index(2)];
    assert path[1..] == [Index(2)] && path[1..][1..] == [];
    assert Nulls(3)[2 := Number(7)] == [Null, Null, Number(7)];
  }
}
