/**
 * `Value::from_path`: the smallest document holding `value` at `path`, built
 * to be deep-merged into a larger one. A `Flatten` cannot be synthesised, so
 * construction stops at the first one, leaving `null` there and dropping the
 * leaf and the rest of the path.
 */
module Sparse {
  import opened Wrappers
  import opened JsonValue
  import opened JsonPath
  import opened Cursor
  import opened Traversal

  /** The document `from_path(path, value)` returns. */
  function Build(path: Path, value: Value): Value
    decreases |path|
  {
    if path == [] then value
    else match path[0]
      case Flatten => Null
      case Index(i) => Array(Nulls(i) + [Build(path[1..], value)])
      case Key(k) => Object([Member(k, Build(path[1..], value))])
  }

  /**
   * `from_path`: a cursor (`loc`) starts on a placeholder `null` root and moves
   * down, replacing the `null` it stands on by a container whose slot for
   * the next step is again `null`. The `Array` branch and the `unreachable!`
   * branch of the source are dead: the cursor always stands on that placeholder
   * `null`, as the second invariant says.
   */
  method FromPath(path: Path, value: Value) returns (res: Value)
    ensures res == Build(path, value)
  {
    res := Null;
    var loc: seq<Slot> := [];
    var j := 0;
    while j < |path|
      invariant 0 <= j <= |path|
      invariant ValidLoc(res, loc) && At(res, loc) == Null
      invariant Plug(res, loc, Build(path[j..], value)) == Build(path, value)
    {
      match path[j] {
      case Flatten =>
        assert path[j..][0] == path[j];
        PlugSame(res, loc);
        return;
      case Index(index) =>
        match At(res, loc) {
        case Array(_) =>
          assert false;
        case Null =>
          var a := NullArray(index);
          BuildIndexStep(path, j, index, a, value);
          Descend(res, loc, Array(a), Elem(index), path, j, value);
          res := Plug(res, loc, Array(a));
          loc := loc + [Elem(index)];
        case _ =>
          assert false;
        }
      case Key(k) =>
        var placeholder := Object([Member(k, Null)]);
        BuildKeyStep(path, j, k, value);
        Descend(res, loc, placeholder, Field(0), path, j, value);
        res := Plug(res, loc, placeholder);
        loc := loc + [Field(0)];
      }
      j := j + 1;
    }
    assert path[|path|..] == [];
    res := Plug(res, loc, value);
  }

  /** `for _ in 0..index { a.push(Value::default()) } a.push(Value::default())` on a new vector. */
  method NullArray(index: nat) returns (a: seq<Value>)
    ensures a == Nulls(index) + [Null]
    ensures |a| == index + 1 && forall k :: 0 <= k < |a| ==> a[k] == Null
  {
    a := [];
    var n := 0;
    while n < index
      invariant 0 <= n <= index && a == Nulls(n)
    {
      a := a + [Null];
      n := n + 1;
    }
    a := a + [Null];
  }

  /** One `Index` step of `from_path`: the array of `null`s with the rest built at `index`. */
  lemma BuildIndexStep(path: Path, j: nat, index: Usize, a: seq<Value>, value: Value)
    requires j < |path| && path[j] == Index(index) && a == Nulls(index) + [Null]
    ensures HasChild(Array(a), Elem(index)) && Child(Array(a), Elem(index)) == Null
    ensures SetChild(Array(a), Elem(index), Build(path[j + 1..], value)) == Build(path[j..], value)
  {
    assert path[j..][0] == path[j] && path[j..][1..] == path[j + 1..];
    assert a[index := Build(path[j + 1..], value)] == Nulls(index) + [Build(path[j + 1..], value)];
  }

  /** One `Key` step of `from_path`: a one-member object with the rest built under `k`. */
  lemma BuildKeyStep(path: Path, j: nat, k: string, value: Value)
    requires j < |path| && path[j] == Key(k)
    ensures SetChild(Object([Member(k, Null)]), Field(0), Build(path[j + 1..], value)) == Build(path[j..], value)
  {
    assert path[j..][0] == path[j] && path[j..][1..] == path[j + 1..];
  }

  /**
   * Moving the cursor down into the placeholder `null` at slot `s` of the new
   * node `n` keeps the loop's invariants.
   */
  lemma Descend(res: Value, loc: seq<Slot>, n: Value, s: Slot, path: Path, j: nat, value: Value)
    requires ValidLoc(res, loc) && HasChild(n, s) && Child(n, s) == Null && j < |path|
    requires SetChild(n, s, Build(path[j + 1..], value)) == Build(path[j..], value)
    ensures ValidLoc(Plug(res, loc, n), loc + [s]) && At(Plug(res, loc, n), loc + [s]) == Null
    ensures Plug(Plug(res, loc, n), loc + [s], Build(path[j + 1..], value)) == Plug(res, loc, Build(path[j..], value))
  {
    PlugThenDescend(res, loc, n, s, Build(path[j + 1..], value));
    AtSnoc(Plug(res, loc, n), loc, s);
  }

  /** Without `Flatten`, following the path through the built document reaches the leaf. */
  lemma {:induction false} BuildReachesLeaf(path: Path, value: Value)
    requires FlattenFree(path)
    ensures Follow(Build(path, value), path) == Some(value)
    decreases |path|
  {
    if path != [] {
      assert FlattenFree(path[1..]) by {
        forall i | 0 <= i < |path[1..]| ensures path[1..][i] == path[i + 1] {}
      }
      BuildReachesLeaf(path[1..], value);
      match path[0]
      case Index(i) =>
      case Key(k) =>
      case Flatten =>
    }
  }

  /**
   * The first `Flatten` truncates: the result is what the prefix before it
   * builds around a `null`, whatever the leaf and whatever follows.
   */
  lemma {:induction false} BuildStopsAtFlatten(pre: Path, post: Path, value: Value)
    requires FlattenFree(pre)
    ensures Build(pre + [Flatten] + post, value) == Build(pre, Null)
    decreases |pre|
  {
    var path := pre + [Flatten] + post;
    if pre == [] {
      assert path[0] == Flatten;
    } else {
      assert path[0] == pre[0] && path[1..] == pre[1..] + [Flatten] + post;
      assert FlattenFree(pre[1..]) by {
        forall i | 0 <= i < |pre[1..]| ensures pre[1..][i] == pre[i + 1] {}
      }
      BuildStopsAtFlatten(pre[1..], post, value);
    }
  }

  /** The built document is a well-formed JSON value when the leaf is. */
  lemma {:induction false} BuildWellFormed(path: Path, value: Value)
    requires WellFormed(value)
    ensures WellFormed(Build(path, value))
    decreases |path|
  {
    if path != [] {
      BuildWellFormed(path[1..], value);
      match path[0]
      case Index(i) =>
        var es := Nulls(i) + [Build(path[1..], value)];
        assert forall j :: 0 <= j < |es| ==> WellFormed(es[j]);
      case Key(k) =>
      case Flatten =>
    }
  }

  /**
   * Sparse construction and traversal agree: walking a plain, Flatten-free
   * path through what `from_path` built yields exactly the leaf, at that path.
   */
  lemma SelectWhatWasBuilt(path: Path, value: Value)
    requires FlattenFree(path) && PlainPath(path)
    ensures SelectValuesAndPaths(Build(path, value), path) == [(path, value)]
  {
    BuildReachesLeaf(path, value);
    SelectWithoutFlatten(Build(path, value), path);
  }

  /** `from_path("obj/arr/1", {"prop1":1})` is `{"obj":{"arr":[null,{"prop1":1}]}}`. */
  lemma FromPathIndexExample()
    ensures Build([Key("obj"), Key("arr"), Index(1)], Object([Member("prop1", Number(1))]))
         == Object([Member("obj", Object([Member("arr", Array([Null, Object([Member("prop1", Number(1))])]))]))])
  {
    var leaf := Object([Member("prop1", Number(1))]);
    var path: Path := [Key("obj"), Key("arr"), Index(1)];
    assert path[1..] == [Key("arr"), Index(1)] && path[1..][1..] == [Index(1)] && path[1..][1..][1..] == [];
    assert Build([Index(1)], leaf) == Array(Nulls(1) + [leaf]);
    assert Nulls(1) + [leaf] == [Null, leaf];
  }

  /** `from_path("obj/arr/@/obj2", {"prop1":1})` is `{"obj":{"arr":null}}`. */
  lemma FromPathFlattenExample()
    ensures Build([Key("obj"), Key("arr"), Flatten, Key("obj2")], Object([Member("prop1", Number(1))]))
         == Object([Member("obj", Object([Member("arr", Null)]))])
  {
  }
}
