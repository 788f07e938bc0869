/**
 * `select_values_and_paths` / `iterate_path`: a read-only walk that yields
 * every (resolved path, value) pair a path reaches. `Flatten` fans out over
 * the elements of an array; a step that does not fit the document ends its
 * branch silently. The callback is modelled as the sequence of the pairs it
 * would receive, in the order it would receive them.
 */
module Traversal {
  import opened Wrappers
  import opened Text
  import opened JsonValue
  import opened JsonPath

  /** Following a resolved path (indices and keys) from `v`; `Flatten` leads nowhere. */
  function Follow(v: Value, p: Path): Option<Value>
    decreases |p|
  {
    if p == [] then Some(v)
    else match p[0]
      case Index(i) => if v.Array? && i < |v.elems| then Follow(v.elems[i], p[1..]) else None
      case Key(k) =>
        if v.Object? then
          match Get(v.members, k)
          case Some(c) => Follow(c, p[1..])
          case None => None
        else None
      case Flatten => None
  }

  /**
   * `iterate_path`: `parent` is the resolved path so far. Every step is
   * recorded by re-reading its text with `Path::from`, as the source does.
   */
  function IteratePath(parent: Path, path: Path, data: Value): (r: seq<(Path, Value)>)
    ensures AllExtend(r, parent, |path|)
    decreases |path|, 0
  {
    if path == [] then [(parent, data)]
    else match path[0]
      case Flatten =>
        if data.Array? then FanOut(parent, path[1..], data.elems, 0) else []
      case Index(i) =>
        if data.Array? && i < |data.elems| then
          var step := FromText(NatToDecimal(i));
          var r := IteratePath(Join(parent, step), path[1..], data.elems[i]);
          ExtendThrough(r, parent, step, |path| - 1);
          r
        else []
      case Key(k) =>
        if data.Object? then
          match Get(data.members, k)
          case Some(c) =>
            var step := FromText(k);
            var r := IteratePath(Join(parent, step), path[1..], c);
            ExtendThrough(r, parent, step, |path| - 1);
            r
          case None => []
        else []
  }

  /** The `for (i, value) in array.iter().enumerate()` loop of the `Flatten` case, from element `i` on. */
  function FanOut(parent: Path, rest: Path, elems: seq<Value>, i: nat): (r: seq<(Path, Value)>)
    requires i <= |elems|
    ensures AllExtend(r, parent, |rest| + 1)
    decreases |rest|, 1, |elems| - i
  {
    if i == |elems| then []
    else
      var step := FromText(NatToDecimal(i));
      var here := IteratePath(Join(parent, step), rest, elems[i]);
      ExtendThrough(here, parent, step, |rest|);
      here + FanOut(parent, rest, elems, i + 1)
  }

  /**
   * Every recorded path starts with `parent` and then records at least one
   * element for each of the `n` steps still to take (more when a key's text
   * holds a `/`).
   */
  ghost predicate AllExtend(pairs: seq<(Path, Value)>, parent: Path, n: nat)
  {
    forall k :: 0 <= k < |pairs| ==> |pairs[k].0| >= |parent| + n && pairs[k].0[..|parent|] == parent
  }

  /** Pairs recorded below `parent` joined with a non-empty step are recorded below `parent`, one step further up. */
  lemma ExtendThrough(pairs: seq<(Path, Value)>, parent: Path, step: Path, n: nat)
    requires |step| >= 1 && AllExtend(pairs, Join(parent, step), n)
    ensures AllExtend(pairs, parent, n + 1)
  {
    forall k | 0 <= k < |pairs| ensures pairs[k].0[..|parent|] == parent {
      assert pairs[k].0[..|parent|] == pairs[k].0[..|parent| + |step|][..|parent|];
    }
  }

  /** `value.select_values_and_paths(path, f)`: the pairs `f` is called with. */
  function SelectValuesAndPaths(root: Value, path: Path): (r: seq<(Path, Value)>)
    ensures forall k :: 0 <= k < |r| ==> |r[k].0| >= |path|
  {
    IteratePath([], path, root)
  }

  /** Every array fits in memory indexed by `usize`, as a Rust `Vec` does. */
  predicate Addressable(v: Value)
  {
    match v
    case Array(es) => |es| <= USIZE_LIMIT && forall i :: 0 <= i < |es| ==> Addressable(es[i])
    case Object(ms) => forall i :: 0 <= i < |ms| ==> Addressable(ms[i].value)
    case _ => true
  }

  predicate FlattenFree(p: Path)
  {
    forall i :: 0 <= i < |p| ==> p[i] != Flatten
  }

  /** `q` is a resolution of `path`: each `Flatten` replaced by some index, the rest kept. */
  predicate Conforms(q: Path, path: Path)
  {
    && |q| == |path|
    && forall i :: 0 <= i < |q| ==>
         (if path[i] == Flatten then q[i].Index? else q[i] == path[i])
  }

  /** `pair` extends `parent` by a resolution of `path` that leads, in `data`, to the pair's value. */
  ghost predicate Resolves(parent: Path, path: Path, data: Value, pair: (Path, Value))
  {
    && |pair.0| == |parent| + |path|
    && pair.0[..|parent|] == parent
    && Conforms(pair.0[|parent|..], path)
    && Follow(data, pair.0[|parent|..]) == Some(pair.1)
  }

  /** `p` comes before `q` in document order: they first differ at two indices, the smaller in `p`. */
  ghost predicate IndexBefore(p: Path, q: Path)
  {
    exists k :: 0 <= k < |p| && k < |q| && p[..k] == q[..k] && p[k].Index? && q[k].Index? && p[k].index < q[k].index
  }

  ghost predicate InDocumentOrder(out: seq<(Path, Value)>)
  {
    forall a, b :: 0 <= a < b < |out| ==> IndexBefore(out[a].0, out[b].0)
  }

  // ------------------------------------------------------------ re-reading

  /** `Path::from(i.to_string())` is the single element `Index(i)`. */
  lemma IndexText(i: Usize)
    ensures FromText(NatToDecimal(i)) == [Index(i)]
  {
    var t := NatToDecimal(i);
    assert '/' !in t by { assert IsDigits(t); }
    SplitWithoutSeparator(t, '/');
    UsizeRoundTrip(i);
  }

  /** `Path::from(k)` is the single element `Key(k)` when `k` is plain. */
  lemma KeyText(k: string)
    requires PlainKey(k)
    ensures FromText(k) == [Key(k)]
  {
    SplitWithoutSeparator(k, '/');
  }

  /** One step of a pattern, resolved to `e`, leading from `data` to `child`. */
  lemma ResolvesStep(parent: Path, e: PathElement, path: Path, data: Value, child: Value, pair: (Path, Value))
    requires path != [] && (if path[0] == Flatten then e.Index? else e == path[0])
    requires e.Index? ==> data.Array? && e.index < |data.elems| && child == data.elems[e.index]
    requires e.Key? ==> data.Object? && Get(data.members, e.key) == Some(child)
    requires Resolves(parent + [e], path[1..], child, pair)
    ensures Resolves(parent, path, data, pair)
  {
    var q := pair.0[|parent|..];
    assert q[0] == e && q[1..] == pair.0[|parent| + 1..];
    assert pair.0[..|parent| + 1][..|parent|] == pair.0[..|parent|];
  }

  // ------------------------------------------------------------- soundness

  /**
   * Soundness of the walk: every pair extends `parent` by a resolution of
   * `path`, and following that resolution from `data` gives the pair's value.
   */
  lemma {:induction false} IterateSound(parent: Path, path: Path, data: Value)
    requires PlainPath(path) && Addressable(data)
    ensures forall pair :: pair in IteratePath(parent, path, data) ==> Resolves(parent, path, data, pair)
    decreases |path|, 0
  {
    if path == [] {
      assert parent[|parent|..] == [];
    } else {
      assert PlainPath(path[1..]) by {
        forall i | 0 <= i < |path[1..]| ensures path[1..][i] == path[i + 1] {}
      }
      match path[0]
      case Flatten =>
        if data.Array? {
          FanOutSound(parent, path, data.elems, 0);
        }
      case Index(i) =>
        if data.Array? && i < |data.elems| {
          IndexText(i);
          IterateSound(parent + [Index(i)], path[1..], data.elems[i]);
          forall pair | pair in IteratePath(parent, path, data) ensures Resolves(parent, path, data, pair) {
            ResolvesStep(parent, Index(i), path, data, data.elems[i], pair);
          }
        }
      case Key(k) =>
        if data.Object? && Get(data.members, k).Some? {
          var c := Get(data.members, k).value;
          assert c == data.members[IndexOfKey(data.members, k).value].value;
          assert PlainKey(k) by { assert path[0] == Key(k); }
          KeyText(k);
          IterateSound(parent + [Key(k)], path[1..], c);
          forall pair | pair in IteratePath(parent, path, data) ensures Resolves(parent, path, data, pair) {
            ResolvesStep(parent, Key(k), path, data, c, pair);
          }
        }
    }
  }

  /** Every pair of the fan-out from element `i` on comes from some element `j >= i`, recorded as `Index(j)`. */
  lemma {:induction false} FanOutSound(parent: Path, path: Path, elems: seq<Value>, i: nat)
    requires path != [] && path[0] == Flatten && PlainPath(path[1..])
    requires i <= |elems| <= USIZE_LIMIT && Addressable(Array(elems))
    ensures SoundFrom(FanOut(parent, path[1..], elems, i), parent, path, elems, i)
    decreases |path[1..]|, 1, |elems| - i
  {
    if i < |elems| {
      IndexText(i);
      var block := IteratePath(parent + [Index(i)], path[1..], elems[i]);
      var later := FanOut(parent, path[1..], elems, i + 1);
      assert FanOut(parent, path[1..], elems, i) == block + later;
      IterateSound(parent + [Index(i)], path[1..], elems[i]);
      FanOutSound(parent, path, elems, i + 1);
      forall pair | pair in block
        ensures |pair.0| > |parent| && pair.0[|parent|] == Index(i)
        ensures Resolves(parent, path, Array(elems), pair)
      {
        assert pair.0[..|parent| + 1][|parent|] == pair.0[|parent|];
        ResolvesStep(parent, Index(i), path, Array(elems), elems[i], pair);
      }
      ConcatSound(block, later, parent, path, elems, i);
    }
  }

  /**
   * Every pair is recorded below `parent` at an index of `elems` from `i` on,
   * and resolves along `path` from that array.
   */
  ghost predicate SoundFrom(pairs: seq<(Path, Value)>, parent: Path, path: Path, elems: seq<Value>, i: nat)
  {
    forall pair :: pair in pairs ==>
      && |pair.0| > |parent| && pair.0[|parent|].Index?
      && i <= pair.0[|parent|].index < |elems|
      && Resolves(parent, path, Array(elems), pair)
  }

  /** Element `i`'s block followed by the later blocks is sound from `i` on. */
  lemma ConcatSound(block: seq<(Path, Value)>, later: seq<(Path, Value)>, parent: Path, path: Path, elems: seq<Value>, i: Usize)
    requires forall pair :: pair in block ==>
      |pair.0| > |parent| && pair.0[|parent|] == Index(i) && Resolves(parent, path, Array(elems), pair)
    requires SoundFrom(later, parent, path, elems, i + 1)
    ensures SoundFrom(block + later, parent, path, elems, i)
  {
  }

  /**
   * Each value the callback receives is the one found by following the path
   * it is given, for a path whose keys are plain.
   */
  lemma SelectSound(root: Value, path: Path)
    requires PlainPath(path) && Addressable(root)
    ensures forall pair :: pair in SelectValuesAndPaths(root, path) ==>
      Conforms(pair.0, path) && Follow(root, pair.0) == Some(pair.1)
  {
    IterateSound([], path, root);
    forall pair | pair in SelectValuesAndPaths(root, path)
      ensures Conforms(pair.0, path) && Follow(root, pair.0) == Some(pair.1)
    {
      assert pair.0[0..] == pair.0;
    }
  }

  // ---------------------------------------------------------- completeness

  /** The fan-out from `from` on contains the block of every later element. */
  lemma {:induction false} FanOutContains(parent: Path, rest: Path, elems: seq<Value>, from: nat, i: nat, pair: (Path, Value))
    requires from <= i < |elems|
    requires pair in IteratePath(Join(parent, FromText(NatToDecimal(i))), rest, elems[i])
    ensures pair in FanOut(parent, rest, elems, from)
    decreases i - from
  {
    if from < i {
      FanOutContains(parent, rest, elems, from + 1, i, pair);
    }
  }

  /**
   * Completeness of the walk: every resolution of `path` that can be
   * followed in `data` is yielded, with the value it leads to.
   */
  lemma {:induction false} IterateComplete(parent: Path, path: Path, data: Value, q: Path)
    requires PlainPath(path) && Addressable(data)
    requires Conforms(q, path) && Follow(data, q).Some?
    ensures (parent + q, Follow(data, q).value) in IteratePath(parent, path, data)
    decreases |path|
  {
    if path == [] {
      assert q == [] && parent + q == parent;
    } else {
      assert PlainPath(path[1..]) by {
        forall i | 0 <= i < |path[1..]| ensures path[1..][i] == path[i + 1] {}
      }
      assert Conforms(q[1..], path[1..]) by {
        forall i | 0 <= i < |q[1..]| ensures q[1..][i] == q[i + 1] && path[1..][i] == path[i + 1] {}
      }
      assert parent + q == (parent + [q[0]]) + q[1..];
      match q[0]
      case Index(i) =>
        IndexText(i);
        IterateComplete(parent + [Index(i)], path[1..], data.elems[i], q[1..]);
        if path[0] == Flatten {
          FanOutContains(parent, path[1..], data.elems, 0, i, (parent + q, Follow(data, q).value));
        }
      case Key(k) =>
        var c := Get(data.members, k).value;
        assert c == data.members[IndexOfKey(data.members, k).value].value;
        assert path[0] == Key(k);
        KeyText(k);
        IterateComplete(parent + [Key(k)], path[1..], c, q[1..]);
    }
  }

  lemma SelectComplete(root: Value, path: Path, q: Path)
    requires PlainPath(path) && Addressable(root)
    requires Conforms(q, path) && Follow(root, q).Some?
    ensures (q, Follow(root, q).value) in SelectValuesAndPaths(root, path)
  {
    IterateComplete([], path, root, q);
    assert [] + q == q;
  }

  // ---------------------------------------------------------------- order

  /**
   * The pairs arrive in document order: `Flatten` visits the elements of an
   * array by increasing index, and no resolved path is yielded twice.
   */
  lemma {:induction false} IterateInOrder(parent: Path, path: Path, data: Value)
    requires Addressable(data)
    ensures InDocumentOrder(IteratePath(parent, path, data))
    decreases |path|, 0
  {
    if path != [] {
      match path[0]
      case Flatten =>
        if data.Array? {
          FanOutInOrder(parent, path[1..], data.elems, 0);
        }
      case Index(i) =>
        if data.Array? && i < |data.elems| {
          IterateInOrder(Join(parent, FromText(NatToDecimal(i))), path[1..], data.elems[i]);
        }
      case Key(k) =>
        if data.Object? && Get(data.members, k).Some? {
          var c := Get(data.members, k).value;
          assert c == data.members[IndexOfKey(data.members, k).value].value;
          IterateInOrder(Join(parent, FromText(k)), path[1..], c);
        }
    }
  }

  lemma {:induction false} FanOutInOrder(parent: Path, rest: Path, elems: seq<Value>, i: nat)
    requires i <= |elems| <= USIZE_LIMIT && Addressable(Array(elems))
    ensures InDocumentOrder(FanOut(parent, rest, elems, i))
    decreases |rest|, 1, |elems| - i
  {
    if i < |elems| {
      IndexText(i);
      var block := IteratePath(parent + [Index(i)], rest, elems[i]);
      var later := FanOut(parent, rest, elems, i + 1);
      IterateInOrder(parent + [Index(i)], rest, elems[i]);
      FanOutInOrder(parent, rest, elems, i + 1);
      BlockBeforeLater(parent, rest, elems, i);
      ConcatInOrder(block, later);
    }
  }

  /**
   * Every pair of the fan-out from element `i` on is recorded below `parent`
   * followed by `Index(j)` for some `j >= i`, whatever the keys further down
   * re-read as.
   */
  lemma {:induction false} FanOutIndices(parent: Path, rest: Path, elems: seq<Value>, i: nat)
    requires i <= |elems| <= USIZE_LIMIT
    ensures IndicesFrom(FanOut(parent, rest, elems, i), parent, i)
    decreases |elems| - i
  {
    if i < |elems| {
      IndexText(i);
      var block := IteratePath(parent + [Index(i)], rest, elems[i]);
      var later := FanOut(parent, rest, elems, i + 1);
      assert FanOut(parent, rest, elems, i) == block + later;
      FanOutIndices(parent, rest, elems, i + 1);
      BlockUnder(block, parent, Index(i), |rest|);
      ConcatIndices(block, later, parent, i);
    }
  }

  /** Every path is recorded below `parent` followed by `Index(j)` for some `j >= i`. */
  ghost predicate IndicesFrom(pairs: seq<(Path, Value)>, parent: Path, i: nat)
  {
    forall pair :: pair in pairs ==>
      && |pair.0| > |parent| && pair.0[..|parent|] == parent
      && pair.0[|parent|].Index? && i <= pair.0[|parent|].index
  }

  /** Element `i`'s block followed by the later blocks is recorded at indices from `i` on. */
  lemma ConcatIndices(block: seq<(Path, Value)>, later: seq<(Path, Value)>, parent: Path, i: Usize)
    requires forall pair :: pair in block ==>
      |pair.0| > |parent| && pair.0[..|parent|] == parent && pair.0[|parent|] == Index(i)
    requires IndicesFrom(later, parent, i + 1)
    ensures IndicesFrom(block + later, parent, i)
  {
  }

  /** Every path of a block recorded below `parent + [e]` has `e` right after `parent`. */
  lemma BlockUnder(block: seq<(Path, Value)>, parent: Path, e: PathElement, n: nat)
    requires AllExtend(block, parent + [e], n)
    ensures forall pair :: pair in block ==>
      |pair.0| > |parent| && pair.0[..|parent|] == parent && pair.0[|parent|] == e
  {
    forall pair | pair in block
      ensures |pair.0| > |parent| && pair.0[..|parent|] == parent && pair.0[|parent|] == e
    {
      var k :| 0 <= k < |block| && block[k] == pair;
      assert pair.0[..|parent| + 1][|parent|] == pair.0[|parent|];
      assert pair.0[..|parent| + 1][..|parent|] == pair.0[..|parent|];
    }
  }

  /** Every pair of element `i`'s block comes before every pair of the later elements' blocks. */
  lemma BlockBeforeLater(parent: Path, rest: Path, elems: seq<Value>, i: nat)
    requires i < |elems| <= USIZE_LIMIT
    ensures forall x, y ::
      (x in IteratePath(parent + [Index(i)], rest, elems[i]) && y in FanOut(parent, rest, elems, i + 1))
      ==> IndexBefore(x.0, y.0)
  {
    var block := IteratePath(parent + [Index(i)], rest, elems[i]);
    var later := FanOut(parent, rest, elems, i + 1);
    FanOutIndices(parent, rest, elems, i + 1);
    forall x, y | x in block && y in later ensures IndexBefore(x.0, y.0) {
      var k := |parent|;
      var t :| 0 <= t < |block| && block[t] == x;
      assert x.0[..k + 1] == parent + [Index(i)];
      assert x.0[..k + 1][..k] == x.0[..k];
      assert x.0[..k + 1][k] == x.0[k];
      SplitAt(x.0, y.0, k);
    }
  }

  lemma SplitAt(p: Path, q: Path, k: nat)
    requires k < |p| && k < |q| && p[..k] == q[..k]
    requires p[k].Index? && q[k].Index? && p[k].index < q[k].index
    ensures IndexBefore(p, q)
  {
  }

  lemma ConcatInOrder(a: seq<(Path, Value)>, b: seq<(Path, Value)>)
    requires InDocumentOrder(a) && InDocumentOrder(b)
    requires forall x, y :: x in a && y in b ==> IndexBefore(x.0, y.0)
    ensures InDocumentOrder(a + b)
  {
    var out := a + b;
    forall i, j | 0 <= i < j < |out| ensures IndexBefore(out[i].0, out[j].0) {
      if j < |a| {
        assert out[i] == a[i] && out[j] == a[j];
      } else if i >= |a| {
        assert out[i] == b[i - |a|] && out[j] == b[j - |a|];
      } else {
        assert out[i] == a[i] && out[j] == b[j - |a|];
        assert out[i] in a && out[j] in b;
      }
    }
  }

  lemma SelectInDocumentOrder(root: Value, path: Path)
    requires Addressable(root)
    ensures InDocumentOrder(SelectValuesAndPaths(root, path))
  {
    IterateInOrder([], path, root);
  }

  // -------------------------------------------------- paths without Flatten

  /**
   * Without `Flatten` the walk yields at most one pair, exactly when the path
   * can be followed, with the value it leads to; when the keys are plain the
   * recorded path is the path itself.
   */
  lemma {:induction false} IterateWithoutFlatten(parent: Path, path: Path, data: Value)
    requires FlattenFree(path)
    ensures var out := IteratePath(parent, path, data);
      && |out| <= 1
      && (|out| == 1 <==> Follow(data, path).Some?)
      && (|out| == 1 ==> out[0].1 == Follow(data, path).value)
      && (|out| == 1 && PlainPath(path) ==> out[0].0 == parent + path)
    decreases |path|
  {
    if path == [] {
      assert parent + path == parent;
    } else {
      assert FlattenFree(path[1..]) by {
        forall i | 0 <= i < |path[1..]| ensures path[1..][i] == path[i + 1] {}
      }
      assert PlainPath(path) ==> PlainPath(path[1..]) by {
        forall i | 0 <= i < |path[1..]| ensures path[1..][i] == path[i + 1] {}
      }
      assert parent + path == (parent + [path[0]]) + path[1..];
      match path[0]
      case Index(i) =>
        IndexText(i);
        if data.Array? && i < |data.elems| {
          IterateWithoutFlatten(parent + [Index(i)], path[1..], data.elems[i]);
        }
      case Key(k) =>
        if data.Object? && Get(data.members, k).Some? {
          var c := Get(data.members, k).value;
          assert c == data.members[IndexOfKey(data.members, k).value].value;
          if PlainPath(path) {
            assert PlainKey(k) by { assert path[0] == Key(k); }
            KeyText(k);
          }
          IterateWithoutFlatten(Join(parent, FromText(k)), path[1..], c);
        }
      case Flatten =>
    }
  }

  lemma SelectWithoutFlatten(root: Value, path: Path)
    requires FlattenFree(path)
    ensures var out := SelectValuesAndPaths(root, path);
      && |out| <= 1
      && (|out| == 1 <==> Follow(root, path).Some?)
      && (|out| == 1 ==> out[0].1 == Follow(root, path).value)
      && (|out| == 1 && PlainPath(path) ==> out[0].0 == path)
  {
    IterateWithoutFlatten([], path, root);
    assert [] + path == path;
  }

  // ------------------------------------------------------------- dead ends

  /**
   * The walk never fails: the empty path yields the root once, and a step
   * that does not fit the node yields nothing.
   */
  lemma DeadEnds(root: Value, path: Path)
    ensures SelectValuesAndPaths(root, []) == [([], root)]
    ensures path != [] && path[0] == Flatten && !root.Array? ==> SelectValuesAndPaths(root, path) == []
    ensures path != [] && path[0].Index? && !(root.Array? && path[0].index < |root.elems|) ==> SelectValuesAndPaths(root, path) == []
    ensures path != [] && path[0].Key? && !(root.Object? && Get(root.members, path[0].key).Some?) ==> SelectValuesAndPaths(root, path) == []
  {
  }

  /**
   * Keys are re-read as text when recorded: the key `"3"` is recorded as
   * `Index(3)`, and that recorded path cannot be followed back to the value.
   */
  lemma NumericKeyRecordedAsIndex()
    ensures SelectValuesAndPaths(Object([Member("3", Number(1))]), [Key("3")]) == [([Index(3)], Number(1))]
    ensures Follow(Object([Member("3", Number(1))]), [Index(3)]) == None
  {
    NumericKeyIsLossy();
  }

  /** A key containing `/` is recorded as two keys. */
  lemma SlashKeyRecordedAsTwoKeys()
    ensures SelectValuesAndPaths(Object([Member("a/b", Null)]), [Key("a/b")]) == [([Key("a"), Key("b")], Null)]
  {
    SplitAround("a", '/', "b");
    SplitWithoutSeparator("a", '/');
    SplitWithoutSeparator("b", '/');
    assert "a" + ['/'] + "b" == "a/b";
    assert Split("a/b", '/') == ["a", "b"];
    assert !IsUsizeText("a") by { assert UnsignedDigits("a") == "a" && !IsDigit('a'); }
    assert !IsUsizeText("b") by { assert UnsignedDigits("b") == "b" && !IsDigit('b'); }
    assert FromText("a/b") == [Key("a"), Key("b")];
    var root := Object([Member("a/b", Null)]);
    assert Get(root.members, "a/b") == Some(Null);
    assert [] + FromText("a/b") == [Key("a"), Key("b")];
  }

  // ------------------------------------------------------------- nested fan-out

  /** `{"prop3": n}` */
  function Leaf(n: int): Value { Object([Member("prop3", Number(n))]) }

  /** `{"prop2": {"prop3": n}, "prop4": -n}` */
  function Inner(n: int): Value { Object([Member("prop2", Leaf(n)), Member("prop4", Number(-n))]) }

  /** `{"prop1": [inner n, inner (n + 1)]}` */
  function Outer(n: int): Value { Object([Member("prop1", Array([Inner(n), Inner(n + 1)]))]) }

  /** A key that starts with a lower-case letter and has no `/` is plain. */
  lemma WordKey(k: string)
    requires |k| > 0 && 'a' <= k[0] <= 'z'
    requires forall i :: 0 <= i < |k| ==> k[i] != '/'
    ensures PlainKey(k)
  {
    assert UnsignedDigits(k) == k;
    assert !IsDigit(k[0]);
  }

  lemma InnerStep(parent: Path, n: int)
    ensures IteratePath(parent, [Key("prop2")], Inner(n)) == [(parent + [Key("prop2")], Leaf(n))]
  {
    WordKey("prop2");
    assert Get(Inner(n).members, "prop2") == Some(Leaf(n));
    KeyStep(parent, "prop2", [], Inner(n), Leaf(n));
    assert [Key("prop2")] + [] == [Key("prop2")];
  }

  lemma OuterStep(parent: Path, n: int)
    ensures IteratePath(parent, [Key("prop1"), Flatten, Key("prop2")], Outer(n)) ==
      [ (parent + [Key("prop1"), Index(0), Key("prop2")], Leaf(n)),
        (parent + [Key("prop1"), Index(1), Key("prop2")], Leaf(n + 1)) ]
  {
    WordKey("prop1");
    var elems := [Inner(n), Inner(n + 1)];
    var p1 := parent + [Key("prop1")];
    assert Get(Outer(n).members, "prop1") == Some(Array(elems));
    KeyStep(parent, "prop1", [Flatten, Key("prop2")], Outer(n), Array(elems));
    assert [Key("prop1")] + [Flatten, Key("prop2")] == [Key("prop1"), Flatten, Key("prop2")];
    FanOutTwo(p1, [Key("prop2")], elems);
    InnerStep(p1 + [Index(0)], n);
    InnerStep(p1 + [Index(1)], n + 1);
    OuterPaths(parent);
  }

  lemma OuterPaths(parent: Path)
    ensures parent + [Key("prop1")] + [Index(0)] + [Key("prop2")] == parent + [Key("prop1"), Index(0), Key("prop2")]
    ensures parent + [Key("prop1")] + [Index(1)] + [Key("prop2")] == parent + [Key("prop1"), Index(1), Key("prop2")]
  {
  }

  /** A plain key step of the walk on an object that has the key. */
  lemma KeyStep(parent: Path, k: string, rest: Path, data: Value, child: Value)
    requires PlainKey(k) && data.Object? && Get(data.members, k) == Some(child)
    ensures IteratePath(parent, [Key(k)] + rest, data) == IteratePath(parent + [Key(k)], rest, child)
  {
    KeyText(k);
    assert ([Key(k)] + rest)[1..] == rest;
  }

  /** A `Flatten` step over a two-element array. */
  lemma FanOutTwo(parent: Path, rest: Path, elems: seq<Value>)
    requires |elems| == 2
    ensures IteratePath(parent, [Flatten] + rest, Array(elems)) ==
      IteratePath(parent + [Index(0)], rest, elems[0]) + IteratePath(parent + [Index(1)], rest, elems[1])
  {
    IndexText(0);
    IndexText(1);
    var path := [Flatten] + rest;
    assert path[0] == Flatten && path[1..] == rest;
    assert IteratePath(parent, path, Array(elems)) == FanOut(parent, rest, elems, 0);
    assert Join(parent, FromText(NatToDecimal(0))) == parent + [Index(0)];
    assert Join(parent, FromText(NatToDecimal(1))) == parent + [Index(1)];
    assert FanOut(parent, rest, elems, 0) == IteratePath(parent + [Index(0)], rest, elems[0]) + FanOut(parent, rest, elems, 1);
    assert FanOut(parent, rest, elems, 1) == IteratePath(parent + [Index(1)], rest, elems[1]) + FanOut(parent, rest, elems, 2);
    assert FanOut(parent, rest, elems, 2) == [];
  }

  /**
   * `test_get_at_path_flatmap_nested`: `obj/arr/@/prop1/@/prop2` reaches
   * the four `prop2` objects in document order, each recorded with the
   * indices that lead to it.
   */
  lemma NestedFlattenExample(doc: Value, path: Path)
    requires doc == Object([Member("obj", Object([Member("arr", Array([Outer(1), Outer(3)]))]))])
    requires path == [Key("obj"), Key("arr"), Flatten, Key("prop1"), Flatten, Key("prop2")]
    ensures var at := [Key("obj"), Key("arr")];
      SelectValuesAndPaths(doc, path) ==
        [ (at + [Index(0), Key("prop1"), Index(0), Key("prop2")], Leaf(1)),
          (at + [Index(0), Key("prop1"), Index(1), Key("prop2")], Leaf(2)),
          (at + [Index(1), Key("prop1"), Index(0), Key("prop2")], Leaf(3)),
          (at + [Index(1), Key("prop1"), Index(1), Key("prop2")], Leaf(4)) ]
  {
    NestedDescent(doc, path);
    NestedFanOut([Key("obj"), Key("arr")], Array([Outer(1), Outer(3)]));
  }

  lemma NestedDescent(doc: Value, path: Path)
    requires doc == Object([Member("obj", Object([Member("arr", Array([Outer(1), Outer(3)]))]))])
    requires path == [Key("obj"), Key("arr"), Flatten, Key("prop1"), Flatten, Key("prop2")]
    ensures SelectValuesAndPaths(doc, path) ==
      IteratePath([Key("obj"), Key("arr")], [Flatten, Key("prop1"), Flatten, Key("prop2")], Array([Outer(1), Outer(3)]))
  {
    WordKey("obj");
    WordKey("arr");
    var rest := [Flatten, Key("prop1"), Flatten, Key("prop2")];
    assert path == [Key("obj")] + ([Key("arr")] + rest);
    TwoKeys("obj", "arr", rest, Array([Outer(1), Outer(3)]));
  }

  /** Two plain keys, each the only member of its object. */
  lemma TwoKeys(k1: string, k2: string, rest: Path, leaf: Value)
    requires PlainKey(k1) && PlainKey(k2)
    ensures IteratePath([], [Key(k1)] + ([Key(k2)] + rest), Object([Member(k1, Object([Member(k2, leaf)]))]))
         == IteratePath([Key(k1), Key(k2)], rest, leaf)
  {
    var mid := Object([Member(k2, leaf)]);
    assert Get([Member(k1, mid)], k1) == Some(mid);
    assert Get([Member(k2, leaf)], k2) == Some(leaf);
    KeyStep([], k1, [Key(k2)] + rest, Object([Member(k1, mid)]), mid);
    KeyStep([Key(k1)], k2, rest, mid, leaf);
    assert [] + [Key(k1)] == [Key(k1)] && [Key(k1)] + [Key(k2)] == [Key(k1), Key(k2)];
  }

  lemma NestedFanOut(p2: Path, arr: Value)
    requires arr == Array([Outer(1), Outer(3)])
    ensures IteratePath(p2, [Flatten, Key("prop1"), Flatten, Key("prop2")], arr) ==
        [ (p2 + [Index(0), Key("prop1"), Index(0), Key("prop2")], Leaf(1)),
          (p2 + [Index(0), Key("prop1"), Index(1), Key("prop2")], Leaf(2)),
          (p2 + [Index(1), Key("prop1"), Index(0), Key("prop2")], Leaf(3)),
          (p2 + [Index(1), Key("prop1"), Index(1), Key("prop2")], Leaf(4)) ]
  {
    var tail := [Key("prop1"), Flatten, Key("prop2")];
    assert [Flatten, Key("prop1"), Flatten, Key("prop2")] == [Flatten] + tail;
    FanOutTwo(p2, tail, arr.elems);
    OuterStep(p2 + [Index(0)], 1);
    OuterStep(p2 + [Index(1)], 3);
    NestedPaths(p2);
    ConcatPairs(
      (p2 + [Index(0), Key("prop1"), Index(0), Key("prop2")], Leaf(1)),
      (p2 + [Index(0), Key("prop1"), Index(1), Key("prop2")], Leaf(2)),
      (p2 + [Index(1), Key("prop1"), Index(0), Key("prop2")], Leaf(3)),
      (p2 + [Index(1), Key("prop1"), Index(1), Key("prop2")], Leaf(4)));
  }

  lemma NestedPaths(p2: Path)
    ensures p2 + [Index(0)] + [Key("prop1"), Index(0), Key("prop2")] == p2 + [Index(0), Key("prop1"), Index(0), Key("prop2")]
    ensures p2 + [Index(0)] + [Key("prop1"), Index(1), Key("prop2")] == p2 + [Index(0), Key("prop1"), Index(1), Key("prop2")]
    ensures p2 + [Index(1)] + [Key("prop1"), Index(0), Key("prop2")] == p2 + [Index(1), Key("prop1"), Index(0), Key("prop2")]
    ensures p2 + [Index(1)] + [Key("prop1"), Index(1), Key("prop2")] == p2 + [Index(1), Key("prop1"), Index(1), Key("prop2")]
  {
  }

  lemma ConcatPairs<T>(a: T, b: T, c: T, d: T)
    ensures [a, b] + [c, d] == [a, b, c, d]
  {
  }
}
