/**
 * `deep_merge`: merging a second document into the first, as the router
 * does when it folds the response of one subgraph fetch into the response
 * being built (`apollo-router/src/json_ext.rs`, lines 83-117).
 *
 * Objects merge member by member through the map's entry API (an existing
 * key merges in place, a new key is appended), arrays merge element by
 * element and the longer tail is kept, `null` never overwrites, an object
 * and an array never replace each other, and any other value replaces what
 * was there.
 */
module Merge {
  import opened Wrappers
  import opened JsonValue
  import opened JsonPath
  import opened Traversal
  import opened Sparse

  /**
   * The value `a` holds after `a.deep_merge(b)`. The arms are tried in the
   * source's order: object with object, array with array, anything with
   * `null`, the two object/array conflicts, and the replacement.
   */
  function Merge(a: Value, b: Value): (r: Value)
    decreases b, 2
    ensures b == Null ==> r == a
    ensures a == Null ==> r == b
    ensures (a.Object? && b.Array?) || (a.Array? && b.Object?) ==> r == a
  {
    match (a, b)
    case (Object(ma), Object(_)) => Object(MergeMembers(ma, b, 0))
    case (Array(ea), Array(_)) => Array(MergeElems(ea, b))
    case (_, Null) => a
    case (Object(_), Array(_)) => a
    case (Array(_), Object(_)) => a
    case (_, _) => b
  }

  /**
   * The `for (key, value) in b` loop of the object arm, from the `i`-th
   * member of `b` on, with `acc` the members of `a` so far.
   */
  function MergeMembers(acc: seq<Member>, b: Value, i: nat): seq<Member>
    requires b.Object? && i <= |b.members|
    decreases b, 1, |b.members| - i
  {
    if i == |b.members| then acc
    else MergeMembers(MergeEntry(acc, b.members[i]), b, i + 1)
  }

  /**
   * `a.entry(key)` for one member of `b`: an occupied entry merges the new
   * value into the old one in place, a vacant entry is appended.
   */
  function MergeEntry(acc: seq<Member>, m: Member): (r: seq<Member>)
    decreases m.value, 3
    ensures |r| >= |acc| && Keys(r)[..|acc|] == Keys(acc)
  {
    match IndexOfKey(acc, m.key)
    case Some(j) => acc[j := Member(acc[j].key, Merge(acc[j].value, m.value))]
    case None => acc + [m]
  }

  /** The array arm: the common prefix merged pairwise, then whichever tail is longer. */
  function MergeElems(ea: seq<Value>, b: Value): seq<Value>
    requires b.Array?
    decreases b, 1
  {
    var eb := b.elems;
    var n := if |ea| < |eb| then |ea| else |eb|;
    seq(n, k requires 0 <= k < n => Merge(ea[k], eb[k])) + ea[n..] + eb[n..]
  }

  /** `self.deep_merge(other)`, with its loops. */
  method DeepMerge(self: Value, other: Value) returns (r: Value)
    ensures r == Merge(self, other)
    decreases other
  {
    match (self, other) {
      case (Object(ma), Object(mb)) =>
        var acc := ma;
        var i := 0;
        while i < |mb|
          invariant i <= |mb|
          invariant MergeMembers(acc, other, i) == MergeMembers(ma, other, 0)
        {
          var key := mb[i].key;
          var value := mb[i].value;
          match IndexOfKey(acc, key) {
            case Some(j) =>
              var merged := DeepMerge(acc[j].value, value);
              acc := acc[j := Member(acc[j].key, merged)];
            case None =>
              acc := acc + [Member(key, value)];
          }
          i := i + 1;
        }
        r := Object(acc);
      case (Array(ea), Array(eb)) =>
        var n := if |ea| < |eb| then |ea| else |eb|;
        var acc := ea;
        var i := 0;
        while i < n
          invariant i <= n && |acc| == |ea|
          invariant acc[i..] == ea[i..]
          invariant forall k :: 0 <= k < i ==> acc[k] == Merge(ea[k], eb[k])
        {
          var merged := DeepMerge(acc[i], eb[i]);
          acc := acc[i := merged];
          i := i + 1;
        }
        assert acc == seq(n, k requires 0 <= k < n => Merge(ea[k], eb[k])) + ea[n..];
        r := Array(acc + eb[n..]);
      case (_, Null) =>
        r := self;
      case (Object(_), Array(_)) =>
        r := self;
      case (Array(_), Object(_)) =>
        r := self;
      case (_, _) =>
        r := other;
    }
  }

  /**
   * Two arrays merge position by position over their common length, and the
   * longer one's surplus is kept, so the result is as long as the longer.
   */
  lemma MergeArrays(ea: seq<Value>, eb: seq<Value>)
    ensures var r := Merge(Array(ea), Array(eb));
      && r.Array? && |r.elems| == (if |ea| < |eb| then |eb| else |ea|)
      && forall k :: 0 <= k < |r.elems| ==>
        r.elems[k] == (if k < |ea| && k < |eb| then Merge(ea[k], eb[k]) else if k < |ea| then ea[k] else eb[k])
  {
    var n := if |ea| < |eb| then |ea| else |eb|;
    var zipped := seq(n, k requires 0 <= k < n => Merge(ea[k], eb[k]));
    assert Merge(Array(ea), Array(eb)).elems == zipped + ea[n..] + eb[n..];
  }

  /**
   * Outside the object/object and array/array arms and the two conflicts, a
   * non-null `b` replaces `a`, whatever `a` was.
   */
  lemma MergeReplaces(a: Value, b: Value)
    requires b != Null
    requires !(a.Object? && (b.Object? || b.Array?)) && !(a.Array? && (b.Array? || b.Object?))
    ensures Merge(a, b) == b
  {
  }

  // ------------------------------------------------------------ reference definition of the object arm

  /** Each member of `ma` in its place, merged with `mb`'s value for its key when `mb` has one. */
  ghost function MergedInPlace(ma: seq<Member>, mb: seq<Member>): (r: seq<Member>)
    ensures |r| == |ma| && Keys(r) == Keys(ma)
  {
    seq(|ma|, k requires 0 <= k < |ma| =>
      Member(ma[k].key,
        match Get(mb, ma[k].key)
        case Some(x) => Merge(ma[k].value, x)
        case None => ma[k].value))
  }

  /** The members of `mb` whose key `ma` lacks, in `mb`'s order. */
  ghost function Added(ma: seq<Member>, mb: seq<Member>): (r: seq<Member>)
    ensures forall x :: x in r <==> x in mb && x.key !in Keys(ma)
    decreases |mb|
  {
    if mb == [] then []
    else
      var last := mb[|mb| - 1];
      Added(ma, mb[..|mb| - 1]) + (if last.key in Keys(ma) then [] else [last])
  }

  lemma {:induction false} AddedDistinct(ma: seq<Member>, mb: seq<Member>)
    requires DistinctKeys(mb)
    ensures DistinctKeys(Added(ma, mb))
    decreases |mb|
  {
    if mb != [] {
      var init := mb[..|mb| - 1];
      var last := mb[|mb| - 1];
      AddedDistinct(ma, init);
      forall x | x in Added(ma, init) ensures x.key != last.key {
        var t :| 0 <= t < |init| && init[t] == x;
        assert mb[t] == x;
      }
    }
  }

  /** The reference definition on a prefix of `mb`, as the loop has it after that prefix. */
  ghost function Reference(ma: seq<Member>, mb: seq<Member>): seq<Member>
  {
    MergedInPlace(ma, mb) + Added(ma, mb)
  }

  /** A key of `ma` is found at its place in the reference, holding `ma`'s member while `pre` lacks it. */
  lemma ReferenceLookup(ma: seq<Member>, pre: seq<Member>, key: string, k: nat)
    requires DistinctKeys(ma) && k < |ma| && ma[k].key == key
    requires forall t :: 0 <= t < |pre| ==> pre[t].key != key
    ensures IndexOfKey(Reference(ma, pre), key) == Some(k)
    ensures Reference(ma, pre)[k] == ma[k]
  {
    var acc := Reference(ma, pre);
    assert acc[k] == MergedInPlace(ma, pre)[k];
    assert forall t :: 0 <= t < k ==> acc[t].key == ma[t].key;
    FirstMatch(acc, key, k);
  }

  lemma InPlaceSnocExisting(ma: seq<Member>, pre: seq<Member>, m: Member, k: nat)
    requires DistinctKeys(ma) && k < |ma| && ma[k].key == m.key
    requires forall t :: 0 <= t < |pre| ==> pre[t].key != m.key
    ensures MergedInPlace(ma, pre + [m]) == MergedInPlace(ma, pre)[k := Member(ma[k].key, Merge(ma[k].value, m.value))]
  {
    var before := MergedInPlace(ma, pre);
    var after := MergedInPlace(ma, pre + [m]);
    forall t | 0 <= t < |ma|
      ensures after[t] == before[k := Member(ma[k].key, Merge(ma[k].value, m.value))][t]
    {
      GetSnoc(pre, m, ma[t].key);
    }
  }

  /** One more member of `mb`, whose key `ma` has: it is merged in place. */
  lemma EntryStepExisting(ma: seq<Member>, pre: seq<Member>, m: Member, k: nat)
    requires DistinctKeys(ma) && k < |ma| && ma[k].key == m.key
    requires forall t :: 0 <= t < |pre| ==> pre[t].key != m.key
    ensures MergeEntry(Reference(ma, pre), m) == Reference(ma, pre + [m])
  {
    assert (pre + [m])[..|pre|] == pre;
    assert Keys(ma)[k] == m.key;
    assert Added(ma, pre + [m]) == Added(ma, pre);
    ReferenceLookup(ma, pre, m.key, k);
    InPlaceSnocExisting(ma, pre, m, k);
    var u := Member(ma[k].key, Merge(ma[k].value, m.value));
    UpdateInFront(MergedInPlace(ma, pre), Added(ma, pre), k, u);
  }

  lemma UpdateInFront(front: seq<Member>, back: seq<Member>, k: nat, u: Member)
    requires k < |front|
    ensures (front + back)[k := u] == front[k := u] + back
  {
  }

  /** One more member of `mb`, whose key `ma` lacks: it is appended. */
  lemma EntryStepNew(ma: seq<Member>, pre: seq<Member>, m: Member)
    requires m.key !in Keys(ma)
    requires forall t :: 0 <= t < |pre| ==> pre[t].key != m.key
    ensures MergeEntry(Reference(ma, pre), m) == Reference(ma, pre + [m])
  {
    NewKeyAbsent(ma, pre, m);
    InPlaceSnocNew(ma, pre, m);
    AddedSnocNew(ma, pre, m);
    AppendAssoc(MergedInPlace(ma, pre), Added(ma, pre), m);
  }

  lemma AddedSnocNew(ma: seq<Member>, pre: seq<Member>, m: Member)
    requires m.key !in Keys(ma)
    ensures Added(ma, pre + [m]) == Added(ma, pre) + [m]
  {
    assert (pre + [m])[..|pre|] == pre;
  }

  lemma AppendAssoc<T>(a: seq<T>, b: seq<T>, x: T)
    ensures (a + b) + [x] == a + (b + [x])
  {
  }

  /** A key found neither in `ma` nor in `pre` is not in the reference on `pre`. */
  lemma NewKeyAbsent(ma: seq<Member>, pre: seq<Member>, m: Member)
    requires m.key !in Keys(ma)
    requires forall t :: 0 <= t < |pre| ==> pre[t].key != m.key
    ensures IndexOfKey(Reference(ma, pre), m.key).None?
  {
    var acc := Reference(ma, pre);
    forall t | 0 <= t < |acc| ensures acc[t].key != m.key {
      if t >= |ma| {
        assert acc[t] in Added(ma, pre);
        var u :| 0 <= u < |pre| && pre[u] == acc[t];
      } else {
        assert Keys(ma)[t] == ma[t].key;
      }
    }
  }

  /** A member whose key `ma` lacks leaves the members of `ma` as they were. */
  lemma InPlaceSnocNew(ma: seq<Member>, pre: seq<Member>, m: Member)
    requires m.key !in Keys(ma)
    ensures MergedInPlace(ma, pre + [m]) == MergedInPlace(ma, pre)
  {
    forall t | 0 <= t < |ma|
      ensures MergedInPlace(ma, pre + [m])[t] == MergedInPlace(ma, pre)[t]
    {
      assert Keys(ma)[t] == ma[t].key;
      GetSnoc(pre, m, ma[t].key);
    }
  }

  /**
   * After the first `i` members of `mb` the loop holds the reference
   * definition on that prefix, and from there it reaches the reference on
   * all of `mb`, when `ma` and `mb` each have distinct keys.
   */
  lemma {:induction false} MergeMembersFrom(ma: seq<Member>, b: Value, i: nat)
    requires DistinctKeys(ma) && b.Object? && DistinctKeys(b.members) && i <= |b.members|
    ensures MergeMembers(Reference(ma, b.members[..i]), b, i) == Reference(ma, b.members)
    decreases |b.members| - i
  {
    var mb := b.members;
    if i == |mb| {
      assert mb[..i] == mb;
    } else {
      ReferenceStep(ma, mb, i);
      MembersStep(Reference(ma, mb[..i]), b, i);
      MergeMembersFrom(ma, b, i + 1);
    }
  }

  lemma MembersStep(acc: seq<Member>, b: Value, i: nat)
    requires b.Object? && i < |b.members|
    ensures MergeMembers(acc, b, i) == MergeMembers(MergeEntry(acc, b.members[i]), b, i + 1)
  {
  }

  /** The entry step for the `i`-th member of `mb` extends the reference by that member. */
  lemma ReferenceStep(ma: seq<Member>, mb: seq<Member>, i: nat)
    requires DistinctKeys(ma) && DistinctKeys(mb) && i < |mb|
    ensures MergeEntry(Reference(ma, mb[..i]), mb[i]) == Reference(ma, mb[..i + 1])
  {
    var pre := mb[..i];
    var m := mb[i];
    assert mb[..i + 1] == pre + [m];
    assert forall t :: 0 <= t < |pre| ==> pre[t].key != m.key by {
      forall t | 0 <= t < |pre| ensures pre[t].key != m.key {
        assert pre[t] == mb[t];
      }
    }
    if m.key in Keys(ma) {
      var k :| 0 <= k < |ma| && Keys(ma)[k] == m.key;
      EntryStepExisting(ma, pre, m, k);
    } else {
      EntryStepNew(ma, pre, m);
    }
  }

  /**
   * Merging two objects with distinct keys: the first object's members keep
   * their places and are merged with the second's value for the same key;
   * the second's other members follow, in the second's order.
   */
  lemma MergeObjects(ma: seq<Member>, mb: seq<Member>)
    requires DistinctKeys(ma) && DistinctKeys(mb)
    ensures Merge(Object(ma), Object(mb)) == Object(MergedInPlace(ma, mb) + Added(ma, mb))
  {
    ObjectArm(ma, mb);
    LoopStart(ma, mb);
    MergeMembersFrom(ma, Object(mb), 0);
  }

  lemma ObjectArm(ma: seq<Member>, mb: seq<Member>)
    ensures Merge(Object(ma), Object(mb)) == Object(MergeMembers(ma, Object(mb), 0))
  {
  }

  /** The loop starts from the reference on the empty prefix of `mb`. */
  lemma LoopStart(ma: seq<Member>, mb: seq<Member>)
    ensures Reference(ma, Object(mb).members[..0]) == ma
  {
    assert Object(mb).members[..0] == [];
    ReferenceOnNothing(ma);
  }

  /** Before any member of `mb` is seen, the reference is `ma` itself. */
  lemma ReferenceOnNothing(ma: seq<Member>)
    ensures Reference(ma, []) == ma
  {
    assert Added(ma, []) == [];
    assert forall k :: 0 <= k < |ma| ==> MergedInPlace(ma, [])[k] == ma[k];
  }

  // ------------------------------------------------------------ properties

  /** Merging a well-formed document into itself changes nothing. */
  lemma {:induction false} MergeIdempotent(v: Value)
    requires WellFormed(v)
    ensures Merge(v, v) == v
    decreases v, 1
  {
    match v
    case Object(ms) =>
      forall k | 0 <= k < |ms| ensures Merge(ms[k].value, ms[k].value) == ms[k].value {
        MergeIdempotent(ms[k].value);
      }
      MergeObjectIntoItself(ms);
    case Array(es) =>
      forall k | 0 <= k < |es| ensures Merge(es[k], es[k]) == es[k] {
        MergeIdempotent(es[k]);
      }
      assert MergeElems(es, v) == es;
    case _ =>
  }

  lemma MergeObjectIntoItself(ms: seq<Member>)
    requires DistinctKeys(ms)
    requires forall k :: 0 <= k < |ms| ==> Merge(ms[k].value, ms[k].value) == ms[k].value
    ensures Merge(Object(ms), Object(ms)) == Object(ms)
  {
    MergeObjects(ms, ms);
    forall k | 0 <= k < |ms| ensures MergedInPlace(ms, ms)[k] == ms[k] {
      GetDistinct(ms, k);
    }
    assert MergedInPlace(ms, ms) == ms;
    forall t | 0 <= t < |ms| ensures ms[t].key in Keys(ms) {
      assert Keys(ms)[t] == ms[t].key;
    }
    AddedNothing(ms, ms);
  }

  /** When `ma` already has every key of `mb`, nothing is appended. */
  lemma {:induction false} AddedNothing(ma: seq<Member>, mb: seq<Member>)
    requires forall t :: 0 <= t < |mb| ==> mb[t].key in Keys(ma)
    ensures Added(ma, mb) == []
    decreases |mb|
  {
    if mb != [] {
      AddedNothing(ma, mb[..|mb| - 1]);
    }
  }

  /** Merging two well-formed documents gives a well-formed document. */
  lemma {:induction false} MergeWellFormed(a: Value, b: Value)
    requires WellFormed(a) && WellFormed(b)
    ensures WellFormed(Merge(a, b))
    decreases b, 2
  {
    match (a, b)
    case (Object(ma), Object(_)) =>
      MergeMembersWellFormed(ma, b, 0);
    case (Array(ea), Array(eb)) =>
      var r := MergeElems(ea, b);
      var n := if |ea| < |eb| then |ea| else |eb|;
      forall k | 0 <= k < |r| ensures WellFormed(r[k]) {
        if k < n {
          MergeWellFormed(ea[k], eb[k]);
        } else if k < |ea| {
          assert r[k] == ea[k];
        } else {
          assert r[k] == eb[k];
        }
      }
    case (_, _) =>
  }

  lemma {:induction false} MergeMembersWellFormed(acc: seq<Member>, b: Value, i: nat)
    requires b.Object? && i <= |b.members| && WellFormed(b) && WellFormed(Object(acc))
    ensures WellFormed(Object(MergeMembers(acc, b, i)))
    decreases b, 1, |b.members| - i
  {
    if i < |b.members| {
      var m := b.members[i];
      assert WellFormed(m.value);
      match IndexOfKey(acc, m.key)
      case Some(j) =>
        MergeWellFormed(acc[j].value, m.value);
        var next := MergeEntry(acc, m);
        assert WellFormed(Object(next));
        MergeMembersWellFormed(next, b, i + 1);
      case None =>
        var next := MergeEntry(acc, m);
        assert WellFormed(Object(next));
        MergeMembersWellFormed(next, b, i + 1);
    }
  }

  /** Merging a sparse array: the `null` padding leaves the elements before the index alone. */
  lemma MergeSparseIndex(ea: seq<Value>, i: nat, x: Value)
    requires i < |ea|
    ensures Merge(Array(ea), Array(Nulls(i) + [x])) == Array(ea[i := Merge(ea[i], x)])
  {
    var b := Array(Nulls(i) + [x]);
    assert MergeElems(ea, b) == ea[i := Merge(ea[i], x)];
  }

  /** Merging a one-member object into an object that has the key merges the values in place. */
  lemma MergeSparseKey(ma: seq<Member>, k: string, x: Value)
    requires IndexOfKey(ma, k).Some?
    ensures var j := IndexOfKey(ma, k).value;
      Merge(Object(ma), Object([Member(k, x)])) == Object(ma[j := Member(ma[j].key, Merge(ma[j].value, x))])
  {
    var b := Object([Member(k, x)]);
    assert MergeMembers(ma, b, 0) == MergeMembers(MergeEntry(ma, Member(k, x)), b, 1);
  }

  /**
   * How the router uses `from_path` with `deep_merge`: merging the sparse
   * document built for a path into a document where that path already
   * resolves merges the new value into the old one, at that path.
   */
  lemma {:induction false} MergeSparseAtPath(doc: Value, path: Path, value: Value)
    requires FlattenFree(path) && Follow(doc, path).Some?
    ensures Follow(Merge(doc, Build(path, value)), path) == Some(Merge(Follow(doc, path).value, value))
    decreases |path|
  {
    if path != [] {
      var rest := path[1..];
      assert FlattenFree(rest) by {
        forall t | 0 <= t < |rest| ensures rest[t] == path[t + 1] {}
      }
      match path[0]
      case Index(i) =>
        var ea := doc.elems;
        MergeSparseAtPath(ea[i], rest, value);
        MergeSparseIndex(ea, i, Build(rest, value));
      case Key(k) =>
        var ma := doc.members;
        var j := IndexOfKey(ma, k).value;
        MergeSparseAtPath(ma[j].value, rest, value);
        MergeSparseKey(ma, k, Build(rest, value));
        SameKeysSameIndex(ma, ma[j := Member(ma[j].key, Merge(ma[j].value, Build(rest, value)))], k);
      case Flatten =>
    }
  }

  /** `test_deep_merge`: array elements merge pairwise, objects gain and overwrite members. */
  lemma DeepMergeExample()
    ensures Merge(
      Object([Member("obj", Object([Member("arr", Array([
        Object([Member("prop1", Number(1))]),
        Object([Member("prop2", Number(2))])]))]))]),
      Object([Member("obj", Object([Member("arr", Array([
        Object([Member("prop1", Number(2)), Member("prop3", Number(3))]),
        Object([Member("prop4", Number(4))])]))]))]))
      == Object([Member("obj", Object([Member("arr", Array([
        Object([Member("prop1", Number(2)), Member("prop3", Number(3))]),
        Object([Member("prop2", Number(2)), Member("prop4", Number(4))])]))]))])
  {
    var e0 := Object([Member("prop1", Number(1))]);
    var e1 := Object([Member("prop2", Number(2))]);
    var f0 := Object([Member("prop1", Number(2)), Member("prop3", Number(3))]);
    var f1 := Object([Member("prop4", Number(4))]);
    var g1 := Object([Member("prop2", Number(2)), Member("prop4", Number(4))]);
    MergeExampleFirst(e0, f0);
    MergeExampleSecond(e1, f1, g1);
    MergePairs(e0, e1, f0, f1);
    MergeSingleKey("arr", Array([e0, e1]), Array([f0, f1]));
    MergeSingleKey("obj", Object([Member("arr", Array([e0, e1]))]), Object([Member("arr", Array([f0, f1]))]));
  }

  /** Two-element arrays merge element by element. */
  lemma MergePairs(x0: Value, x1: Value, y0: Value, y1: Value)
    ensures Merge(Array([x0, x1]), Array([y0, y1])) == Array([Merge(x0, y0), Merge(x1, y1)])
  {
    MergeArrays([x0, x1], [y0, y1]);
  }

  /** Two single-member objects with the same key merge their values under that key. */
  lemma MergeSingleKey(k: string, x: Value, y: Value)
    ensures Merge(Object([Member(k, x)]), Object([Member(k, y)])) == Object([Member(k, Merge(x, y))])
  {
    MergeSparseKey([Member(k, x)], k, y);
  }

  lemma MergeExampleFirst(e0: Value, f0: Value)
    requires e0 == Object([Member("prop1", Number(1))])
    requires f0 == Object([Member("prop1", Number(2)), Member("prop3", Number(3))])
    ensures Merge(e0, f0) == f0
  {
    var step := MergeEntry(e0.members, f0.members[0]);
    assert step == [Member("prop1", Number(2))];
    assert MergeEntry(step, f0.members[1]) == f0.members;
    assert MergeMembers(e0.members, f0, 0) == MergeMembers(step, f0, 1);
  }

  lemma MergeExampleSecond(e1: Value, f1: Value, g1: Value)
    requires e1 == Object([Member("prop2", Number(2))])
    requires f1 == Object([Member("prop4", Number(4))])
    requires g1 == Object([Member("prop2", Number(2)), Member("prop4", Number(4))])
    ensures Merge(e1, f1) == g1
  {
    assert MergeEntry(e1.members, f1.members[0]) == g1.members;
    assert MergeMembers(e1.members, f1, 0) == MergeMembers(g1.members, f1, 1);
  }
}
