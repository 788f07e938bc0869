/**
 * The JSON document every part of the engine works on (RFC 8259, section 3):
 * null, booleans, numbers, strings, arrays and objects. An object is an
 * ordered sequence of members, because member order is observable (it is
 * what `eq_and_ordered` compares). Numbers are integers; floating point is
 * not modelled.
 */
module JsonValue {
  import opened Wrappers

  datatype Value =
    | Null
    | Bool(b: bool)
    | Number(n: int)
    | String(str: string)
    | Array(elems: seq<Value>)
    | Object(members: seq<Member>)

  datatype Member = Member(key: string, value: Value)

  /** `Value::default()`, repeated: the padding arrays are filled with. */
  function Nulls(n: nat): (r: seq<Value>)
    ensures |r| == n && forall i :: 0 <= i < n ==> r[i] == Null
  {
    seq(n, _ => Null)
  }

  function Keys(ms: seq<Member>): (ks: seq<string>)
    ensures |ks| == |ms| && forall i :: 0 <= i < |ms| ==> ks[i] == ms[i].key
  {
    seq(|ms|, i requires 0 <= i < |ms| => ms[i].key)
  }

  predicate DistinctKeys(ms: seq<Member>)
  {
    forall i, j :: 0 <= i < j < |ms| ==> ms[i].key != ms[j].key
  }

  /** A document whose every object has pairwise distinct keys, as a JSON map does. */
  predicate WellFormed(v: Value)
  {
    match v
    case Array(es) => forall i :: 0 <= i < |es| ==> WellFormed(es[i])
    case Object(ms) => DistinctKeys(ms) && forall i :: 0 <= i < |ms| ==> WellFormed(ms[i].value)
    case _ => true
  }

  /** Position of the first member with key `k`: where a map lookup lands. */
  function IndexOfKey(ms: seq<Member>, k: string): (r: Option<nat>)
    ensures r.Some? ==> r.value < |ms| && ms[r.value].key == k
    ensures r.Some? ==> forall i :: 0 <= i < r.value ==> ms[i].key != k
    ensures r.None? <==> forall i :: 0 <= i < |ms| ==> ms[i].key != k
  {
    if |ms| == 0 then None
    else if ms[0].key == k then Some(0)
    else match IndexOfKey(ms[1..], k)
      case Some(i) => Some(i + 1)
      case None => None
  }

  /** `map.get(k)`. */
  function Get(ms: seq<Member>, k: string): Option<Value>
  {
    match IndexOfKey(ms, k)
    case Some(i) => Some(ms[i].value)
    case None => None
  }

  /** In an object with distinct keys, the lookup of a member's key finds that member. */
  lemma GetDistinct(ms: seq<Member>, i: nat)
    requires DistinctKeys(ms) && i < |ms|
    ensures IndexOfKey(ms, ms[i].key) == Some(i)
    ensures Get(ms, ms[i].key) == Some(ms[i].value)
  {
  }

  /** Lookup depends only on the keys, in order. */
  lemma {:induction false} SameKeysSameIndex(ms: seq<Member>, ns: seq<Member>, k: string)
    requires |ms| == |ns| && forall i :: 0 <= i < |ms| ==> ms[i].key == ns[i].key
    ensures IndexOfKey(ms, k) == IndexOfKey(ns, k)
    decreases |ms|
  {
    if |ms| > 0 {
      SameKeysSameIndex(ms[1..], ns[1..], k);
    }
  }

  /** Replacing the value of one member leaves every key lookup where it was. */
  lemma IndexAfterUpdate(ms: seq<Member>, j: nat, c: Value, k: string)
    requires j < |ms|
    ensures IndexOfKey(ms[j := Member(ms[j].key, c)], k) == IndexOfKey(ms, k)
  {
    SameKeysSameIndex(ms, ms[j := Member(ms[j].key, c)], k);
  }

  /** Lookup after appending a member: an earlier match wins, else the new member's key decides. */
  lemma GetSnoc(ms: seq<Member>, m: Member, k: string)
    ensures IndexOfKey(ms + [m], k) ==
      if IndexOfKey(ms, k).Some? then IndexOfKey(ms, k) else if m.key == k then Some(|ms|) else None
    ensures Get(ms + [m], k) ==
      if Get(ms, k).Some? then Get(ms, k) else if m.key == k then Some(m.value) else None
  {
    var s := ms + [m];
    assert forall i :: 0 <= i < |ms| ==> s[i] == ms[i];
    match IndexOfKey(ms, k)
    case Some(i) =>
      FirstMatch(s, k, i);
    case None =>
      if m.key == k { FirstMatch(s, k, |ms|); }
  }

  /** The first member carrying key `k` is what the lookup finds. */
  lemma FirstMatch(ms: seq<Member>, k: string, i: nat)
    requires i < |ms| && ms[i].key == k
    requires forall j :: 0 <= j < i ==> ms[j].key != k
    ensures IndexOfKey(ms, k) == Some(i)
  {
  }
}
