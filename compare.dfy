/**
 * The two comparisons of documents (`apollo-router/src/json_ext.rs`, lines
 * 119-182): `eq_and_ordered`, equality that also demands the same member
 * order in every object, and `is_subset`, which asks whether every member
 * of every object of one document is present, with a subset value, at the
 * same place in the other.
 */
module Compare {
  import opened Wrappers
  import opened JsonValue
  import opened JsonPath
  import opened Traversal

  /**
   * What `eq_and_ordered` answers: two objects agree member by member in
   * order (same key, recursively equal value, same count), two arrays agree
   * element by element, and anything else is compared with `==`.
   */
  function EqOrdered(a: Value, b: Value): bool
    decreases a
  {
    match (a, b)
    case (Object(ma), Object(mb)) =>
      |ma| == |mb| && forall i :: 0 <= i < |ma| ==> ma[i].key == mb[i].key && EqOrdered(ma[i].value, mb[i].value)
    case (Array(ea), Array(eb)) =>
      |ea| == |eb| && forall i :: 0 <= i < |ea| ==> EqOrdered(ea[i], eb[i])
    case (_, _) => a == b
  }

  /** `a.eq_and_ordered(b)`: both iterators are stepped together until one or both run out. */
  method EqAndOrdered(a: Value, b: Value) returns (eq: bool)
    ensures eq == EqOrdered(a, b)
    decreases a
  {
    match (a, b) {
      case (Object(ma), Object(mb)) =>
        var i := 0;
        while true
          invariant i <= |ma| && i <= |mb|
          invariant forall t :: 0 <= t < i ==> ma[t].key == mb[t].key && EqOrdered(ma[t].value, mb[t].value)
          decreases |ma| - i
        {
          if i == |ma| && i == |mb| {
            return true;
          } else if i == |ma| || i == |mb| {
            return false;
          }
          if ma[i].key != mb[i].key {
            return false;
          }
          var same := EqAndOrdered(ma[i].value, mb[i].value);
          if !same {
            return false;
          }
          i := i + 1;
        }
      case (Array(ea), Array(eb)) =>
        var i := 0;
        while true
          invariant i <= |ea| && i <= |eb|
          invariant forall t :: 0 <= t < i ==> EqOrdered(ea[t], eb[t])
          decreases |ea| - i
        {
          if i == |ea| && i == |eb| {
            return true;
          } else if i == |ea| || i == |eb| {
            return false;
          }
          var same := EqAndOrdered(ea[i], eb[i]);
          if !same {
            return false;
          }
          i := i + 1;
        }
      case (_, _) =>
        eq := a == b;
    }
  }

  /**
   * Because objects are kept in member order, `eq_and_ordered` is exactly
   * equality of the ordered documents.
   */
  lemma {:induction false} EqOrderedIsEquality(a: Value, b: Value)
    ensures EqOrdered(a, b) <==> a == b
    decreases a
  {
    match (a, b)
    case (Object(ma), Object(mb)) =>
      if EqOrdered(a, b) {
        forall i | 0 <= i < |ma| ensures ma[i] == mb[i] {
          EqOrderedIsEquality(ma[i].value, mb[i].value);
        }
        assert ma == mb;
      } else if a == b {
        forall i | 0 <= i < |ma| ensures EqOrdered(ma[i].value, mb[i].value) {
          EqOrderedIsEquality(ma[i].value, mb[i].value);
        }
      }
    case (Array(ea), Array(eb)) =>
      if EqOrdered(a, b) {
        forall i | 0 <= i < |ea| ensures ea[i] == eb[i] {
          EqOrderedIsEquality(ea[i], eb[i]);
        }
        assert ea == eb;
      } else if a == b {
        forall i | 0 <= i < |ea| ensures EqOrdered(ea[i], eb[i]) {
          EqOrderedIsEquality(ea[i], eb[i]);
        }
      }
    case (_, _) =>
  }

  /** Reflexive, symmetric and transitive, as equality is. */
  lemma EqOrderedEquivalence(a: Value, b: Value, c: Value)
    ensures EqOrdered(a, a)
    ensures EqOrdered(a, b) ==> EqOrdered(b, a)
    ensures EqOrdered(a, b) && EqOrdered(b, c) ==> EqOrdered(a, c)
  {
    EqOrderedIsEquality(a, a);
    EqOrderedIsEquality(a, b);
    EqOrderedIsEquality(b, a);
    EqOrderedIsEquality(b, c);
    EqOrderedIsEquality(a, c);
  }

  /**
   * `a.is_subset(superset)`: every member of an object must be found by key
   * in the other object with a subset value; arrays must have the same
   * length and be subsets position by position; anything else is compared
   * with `==`.
   */
  function IsSubset(a: Value, superset: Value): (r: bool)
    ensures r ==> (a.Object? <==> superset.Object?) && (a.Array? <==> superset.Array?)
    ensures r && a.Array? ==> |a.elems| == |superset.elems|
    ensures !a.Object? && !a.Array? ==> (r <==> a == superset)
    decreases a
  {
    match (a, superset)
    case (Object(ms), Object(ns)) =>
      forall i :: 0 <= i < |ms| ==>
        (match Get(ns, ms[i].key)
         case Some(other) => IsSubset(ms[i].value, other)
         case None => false)
    case (Array(es), Array(fs)) =>
      |es| == |fs| && forall i :: 0 <= i < |es| ==> i < |fs| && IsSubset(es[i], fs[i])
    case (_, _) => a == superset
  }

  /** A document with distinct keys is a subset of itself. */
  lemma {:induction false} IsSubsetReflexive(v: Value)
    requires WellFormed(v)
    ensures IsSubset(v, v)
    decreases v
  {
    match v
    case Object(ms) =>
      forall i | 0 <= i < |ms| ensures Get(ms, ms[i].key) == Some(ms[i].value) && IsSubset(ms[i].value, ms[i].value) {
        GetDistinct(ms, i);
        IsSubsetReflexive(ms[i].value);
      }
    case Array(es) =>
      forall i | 0 <= i < |es| ensures IsSubset(es[i], es[i]) {
        IsSubsetReflexive(es[i]);
      }
    case _ =>
  }

  /** A duplicated key breaks reflexivity: the lookup always lands on the first member. */
  lemma IsSubsetNeedsDistinctKeys()
    ensures !IsSubset(Object([Member("a", Number(1)), Member("a", Number(2))]),
                      Object([Member("a", Number(1)), Member("a", Number(2))]))
  {
    var ms := [Member("a", Number(1)), Member("a", Number(2))];
    assert Get(ms, ms[1].key) == Some(Number(1));
  }

  lemma {:induction false} IsSubsetTransitive(a: Value, b: Value, c: Value)
    requires IsSubset(a, b) && IsSubset(b, c)
    ensures IsSubset(a, c)
    decreases a
  {
    match (a, b, c)
    case (Object(ma), Object(mb), Object(mc)) =>
      forall i | 0 <= i < |ma|
        ensures Get(mc, ma[i].key).Some? && IsSubset(ma[i].value, Get(mc, ma[i].key).value)
      {
        var j := IndexOfKey(mb, ma[i].key).value;
        assert Get(mc, mb[j].key).Some?;
        IsSubsetTransitive(ma[i].value, mb[j].value, Get(mc, mb[j].key).value);
      }
    case (Array(ea), Array(eb), Array(ec)) =>
      forall i | 0 <= i < |ea| ensures IsSubset(ea[i], ec[i]) {
        IsSubsetTransitive(ea[i], eb[i], ec[i]);
      }
    case (_, _, _) =>
  }

  /**
   * Whatever a subset resolves, the superset resolves too, at the same path,
   * to a superset of it.
   */
  lemma {:induction false} SubsetResolvesInSuperset(a: Value, b: Value, p: Path)
    requires IsSubset(a, b) && Follow(a, p).Some?
    ensures Follow(b, p).Some? && IsSubset(Follow(a, p).value, Follow(b, p).value)
    decreases |p|
  {
    if p != [] {
      match p[0]
      case Index(i) =>
        SubsetResolvesInSuperset(a.elems[i], b.elems[i], p[1..]);
      case Key(k) =>
        var j := IndexOfKey(a.members, k).value;
        SubsetResolvesInSuperset(a.members[j].value, Get(b.members, k).value, p[1..]);
      case Flatten =>
    }
  }

  /** The superset object may hold members the subset lacks. */
  lemma SubsetOfExtended(ms: seq<Member>, extra: seq<Member>)
    requires WellFormed(Object(ms))
    ensures IsSubset(Object(ms), Object(ms + extra))
  {
    forall i | 0 <= i < |ms|
      ensures Get(ms + extra, ms[i].key) == Some(ms[i].value) && IsSubset(ms[i].value, ms[i].value)
    {
      FirstMatch(ms + extra, ms[i].key, i);
      IsSubsetReflexive(ms[i].value);
    }
  }

  /**
   * Member order is irrelevant to `is_subset`: an object is a subset of any
   * object with the same members, in whatever order.
   */
  lemma ReorderedMembers(ms: seq<Member>, ns: seq<Member>)
    requires WellFormed(Object(ms)) && WellFormed(Object(ns))
    requires forall m :: m in ms <==> m in ns
    ensures IsSubset(Object(ms), Object(ns)) && IsSubset(Object(ns), Object(ms))
  {
    MembersFound(ms, ns);
    MembersFound(ns, ms);
  }

  /** An object whose members all occur in a well-formed object is a subset of it. */
  lemma MembersFound(ms: seq<Member>, ns: seq<Member>)
    requires WellFormed(Object(ms)) && DistinctKeys(ns)
    requires forall m :: m in ms ==> m in ns
    ensures IsSubset(Object(ms), Object(ns))
  {
    forall i | 0 <= i < |ms|
      ensures Get(ns, ms[i].key) == Some(ms[i].value) && IsSubset(ms[i].value, ms[i].value)
    {
      assert ms[i] in ns;
      var j :| 0 <= j < |ns| && ns[j] == ms[i];
      GetDistinct(ns, j);
      IsSubsetReflexive(ms[i].value);
    }
  }

  /** Arrays of different lengths are never subsets of each other. */
  lemma ArrayLengthsMustAgree(es: seq<Value>, fs: seq<Value>)
    requires |es| != |fs|
    ensures !IsSubset(Array(es), Array(fs)) && !IsSubset(Array(fs), Array(es))
  {
  }

  /**
   * Member order: two orderings of the same members are subsets of each
   * other, while `eq_and_ordered` tells them apart.
   */
  lemma MemberOrderExample()
    ensures var x := Object([Member("foo", Number(1)), Member("bar", Number(2))]);
            var y := Object([Member("bar", Number(2)), Member("foo", Number(1))]);
            IsSubset(x, y) && IsSubset(y, x) && !EqOrdered(y, x) && EqOrdered(x, x)
  {
    SwappedMembers(Member("foo", Number(1)), Member("bar", Number(2)));
  }

  /** Two members with different keys, in either order. */
  lemma SwappedMembers(m: Member, n: Member)
    requires m.key != n.key && WellFormed(m.value) && WellFormed(n.value)
    ensures var x := Object([m, n]);
            var y := Object([n, m]);
            IsSubset(x, y) && IsSubset(y, x) && !EqOrdered(y, x) && EqOrdered(x, x)
  {
    ReorderedMembers([m, n], [n, m]);
    EqOrderedIsEquality(Object([m, n]), Object([m, n]));
    EqOrderedIsEquality(Object([n, m]), Object([m, n]));
  }

  /** `test_is_subset_missing_pop` and `test_is_subset_extra_prop`: the extra member is allowed one way only. */
  lemma ExtraPropExample()
    ensures var x := Object([Member("prop1", Number(1))]);
            var y := Object([Member("prop1", Number(1)), Member("prop3", Number(3))]);
            IsSubset(x, y) && !IsSubset(y, x)
  {
    var x := Object([Member("prop1", Number(1))]);
    var y := Object([Member("prop1", Number(1)), Member("prop3", Number(3))]);
    SubsetOfExtended(x.members, [Member("prop3", Number(3))]);
    assert y.members == x.members + [Member("prop3", Number(3))];
    assert Get(x.members, "prop3") == None;
    assert y.members[1].key == "prop3";
  }
}
