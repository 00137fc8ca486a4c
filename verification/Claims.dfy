/** Claim values and Python-dict operations on ordered claim maps. */
module Claims {
  import opened Wrappers

  /** A claim value: JSON's scalars and arrays, plus a Python `set` of ints, which has no JSON form. */
  datatype Value =
    | VNull
    | VBool(b: bool)
    | VInt(i: int)
    | VStr(s: string)
    | VList(items: seq<Value>)
    | VSet(members: set<int>)

  function BoolAsInt(b: bool): int {
    if b then 1 else 0
  }

  /** Python's `==` on values: structural, except that `True == 1` and `False == 0`. */
  predicate PyEq(a: Value, b: Value)
    decreases a
  {
    match a
    case VNull => b.VNull?
    case VBool(x) => (b.VBool? && b.b == x) || (b.VInt? && b.i == BoolAsInt(x))
    case VInt(n) => (b.VInt? && b.i == n) || (b.VBool? && n == BoolAsInt(b.b))
    case VStr(s) => b.VStr? && b.s == s
    case VList(xs) => b.VList? && |xs| == |b.items| && forall i :: 0 <= i < |xs| ==> PyEq(xs[i], b.items[i])
    case VSet(m) => b.VSet? && b.members == m
  }

  lemma {:induction false} PyEqReflexive(v: Value)
    ensures PyEq(v, v)
    decreases v
  {
    if v.VList? {
      forall i | 0 <= i < |v.items|
        ensures PyEq(v.items[i], v.items[i])
      {
        PyEqReflexive(v.items[i]);
      }
    }
  }

  lemma {:induction false} PyEqSymmetric(a: Value, b: Value)
    requires PyEq(a, b)
    ensures PyEq(b, a)
    decreases a
  {
    if a.VList? {
      forall i | 0 <= i < |a.items|
        ensures PyEq(b.items[i], a.items[i])
      {
        PyEqSymmetric(a.items[i], b.items[i]);
      }
    }
  }

  /** Python's `==` identifies values the model keeps apart only across `bool` and `int`. */
  lemma PyEqScalars(a: Value, b: Value)
    requires !a.VList? && !b.VList?
    ensures PyEq(a, b) <==> a == b || (a.VBool? && b.VInt? && b.i == BoolAsInt(a.b))
                                   || (a.VInt? && b.VBool? && a.i == BoolAsInt(b.b))
  {
  }

  /** Python's `bool(v)`: `None`, `False`, zero and empty containers are false. */
  predicate PyTruthy(v: Value) {
    match v
    case VNull => false
    case VBool(b) => b
    case VInt(i) => i != 0
    case VStr(s) => s != ""
    case VList(xs) => xs != []
    case VSet(m) => m != {}
  }

  /** The value has a JSON encoding: no `set` anywhere inside it. */
  predicate Serializable(v: Value)
    decreases v
  {
    match v
    case VSet(_) => false
    case VList(xs) => forall i :: 0 <= i < |xs| ==> Serializable(xs[i])
    case _ => true
  }

  predicate UniqueKeys(c: seq<(string, Value)>) {
    forall i, j :: 0 <= i < j < |c| ==> c[i].0 != c[j].0
  }

  /** A Python `dict[str, Any]`: entries in insertion order, each key once. */
  type ClaimMap = c: seq<(string, Value)> | UniqueKeys(c) witness []

  function Keys(c: seq<(string, Value)>): (r: seq<string>)
    ensures |r| == |c| && forall i :: 0 <= i < |c| ==> r[i] == c[i].0
  {
    seq(|c|, i requires 0 <= i < |c| => c[i].0)
  }

  /** Python's `k in d`. */
  predicate HasKey(c: seq<(string, Value)>, k: string) {
    k in Keys(c)
  }

  /** The position of `k` among the entries. */
  function IndexOf(c: seq<(string, Value)>, k: string): (r: nat)
    requires HasKey(c, k)
    ensures r < |c| && c[r].0 == k
    ensures forall j :: 0 <= j < r ==> c[j].0 != k
  {
    if c[0].0 == k then 0
    else
      assert Keys(c) == [c[0].0] + Keys(c[1..]);
      1 + IndexOf(c[1..], k)
  }

  /** In a map the key at position `i` is found at position `i`. */
  lemma IndexOfAt(c: ClaimMap, i: int)
    requires 0 <= i < |c|
    ensures HasKey(c, c[i].0) && IndexOf(c, c[i].0) == i
  {
    assert Keys(c)[i] == c[i].0;
  }

  /** `d.get(k)`. */
  function Get(c: seq<(string, Value)>, k: string): (r: Option<Value>)
    ensures r.Some? <==> HasKey(c, k)
  {
    if HasKey(c, k) then Some(c[IndexOf(c, k)].1) else None
  }

  lemma GetAt(c: ClaimMap, i: int)
    requires 0 <= i < |c|
    ensures Get(c, c[i].0) == Some(c[i].1)
  {
    IndexOfAt(c, i);
  }

  /** Every entry of the map has a JSON encoding. */
  predicate AllSerializable(c: seq<(string, Value)>) {
    forall i :: 0 <= i < |c| ==> Serializable(c[i].1)
  }

  /** Two maps with the same keys in the same order that agree on every key are equal. */
  lemma SameEntriesSameMap(a: ClaimMap, b: ClaimMap)
    requires Keys(a) == Keys(b)
    requires forall k :: Get(a, k) == Get(b, k)
    ensures a == b
  {
    forall i | 0 <= i < |a|
      ensures a[i] == b[i]
    {
      GetAt(a, i);
      GetAt(b, i);
      assert Keys(a)[i] == Keys(b)[i];
    }
  }

  /** `d[k] = v`: an existing key keeps its position, a new key goes last. */
  function Put(c: ClaimMap, k: string, v: Value): (r: ClaimMap)
    ensures forall k' :: Get(r, k') == if k' == k then Some(v) else Get(c, k')
    ensures HasKey(c, k) ==> Keys(r) == Keys(c)
    ensures !HasKey(c, k) ==> r == c + [(k, v)]
    ensures AllSerializable(c) && Serializable(v) ==> AllSerializable(r)
  {
    if HasKey(c, k) then
      var r := c[IndexOf(c, k) := (k, v)];
      assert Keys(r) == Keys(c);
      PutGet(c, k, v, r);
      r
    else
      var r := c + [(k, v)];
      assert Keys(r) == Keys(c) + [k];
      PutGet(c, k, v, r);
      r
  }

  lemma PutGet(c: ClaimMap, k: string, v: Value, r: ClaimMap)
    requires HasKey(c, k) ==> r == c[IndexOf(c, k) := (k, v)]
    requires !HasKey(c, k) ==> r == c + [(k, v)]
    ensures forall k' :: Get(r, k') == if k' == k then Some(v) else Get(c, k')
  {
    forall k'
      ensures Get(r, k') == if k' == k then Some(v) else Get(c, k')
    {
      if k' == k {
        var i := if HasKey(c, k) then IndexOf(c, k) else |c|;
        GetAt(r, i);
      } else if HasKey(c, k') {
        var j := IndexOf(c, k');
        GetAt(c, j);
        assert r[j] == c[j];
        GetAt(r, j);
      } else {
        assert !HasKey(r, k');
      }
    }
  }

  /** `d.pop(k, None)`: the key is gone and nothing else changes. */
  function Pop(c: ClaimMap, k: string): (r: ClaimMap)
    ensures forall k' :: Get(r, k') == if k' == k then None else Get(c, k')
    ensures !HasKey(c, k) ==> r == c
    ensures HasKey(c, k) && c[|c| - 1].0 == k ==> r == c[..|c| - 1]
    ensures AllSerializable(c) ==> AllSerializable(r)
  {
    if HasKey(c, k) then
      var i := IndexOf(c, k);
      var r := c[..i] + c[i + 1..];
      PopGet(c, k, i, r);
      r
    else
      c
  }

  lemma PopGet(c: ClaimMap, k: string, i: nat, r: ClaimMap)
    requires HasKey(c, k) && i == IndexOf(c, k) && r == c[..i] + c[i + 1..]
    ensures forall k' :: Get(r, k') == if k' == k then None else Get(c, k')
    ensures c[|c| - 1].0 == k ==> r == c[..|c| - 1]
  {
    if c[|c| - 1].0 == k {
      IndexOfAt(c, |c| - 1);
    }
    forall k'
      ensures Get(r, k') == if k' == k then None else Get(c, k')
    {
      if k' != k && HasKey(c, k') {
        var j := IndexOf(c, k');
        var j' := if j < i then j else j - 1;
        assert r[j'] == c[j];
        GetAt(c, j);
        GetAt(r, j');
      }
    }
  }

  /** The keys of `ks`, in order, that `c` does not hold yet. */
  function NewKeys(c: ClaimMap, ks: seq<string>): seq<string> {
    if |ks| == 0 then []
    else (if HasKey(c, ks[0]) then [] else [ks[0]]) + NewKeys(c, ks[1..])
  }

  /** Putting a key changes which of the other keys are new to the map in no way. */
  lemma {:induction false} NewKeysAfterPut(c: ClaimMap, k: string, v: Value, ks: seq<string>)
    requires k !in ks
    ensures NewKeys(Put(c, k, v), ks) == NewKeys(c, ks)
  {
    if |ks| > 0 {
      assert Get(Put(c, k, v), ks[0]) == Get(c, ks[0]);
      NewKeysAfterPut(c, k, v, ks[1..]);
    }
  }

  /** `d.update(other)`: the entries of `other` are put in order. */
  function Update(c: ClaimMap, other: ClaimMap): (r: ClaimMap)
    ensures forall k :: Get(r, k) == if HasKey(other, k) then Get(other, k) else Get(c, k)
    ensures |other| == 0 ==> r == c
    ensures AllSerializable(c) && AllSerializable(other) ==> AllSerializable(r)
    decreases |other|
  {
    if |other| == 0 then c
    else
      assert Keys(other) == [other[0].0] + Keys(other[1..]);
      var rest: ClaimMap := other[1..];
      var r := Update(Put(c, other[0].0, other[0].1), rest);
      UpdateStep(c, other, r);
      r
  }

  /** The order `update` leaves: the keys `c` already holds keep their places and the new
      ones follow in the order `other` gives them. */
  lemma {:induction false} UpdateKeyOrder(c: ClaimMap, other: ClaimMap)
    ensures Keys(Update(c, other)) == Keys(c) + NewKeys(c, Keys(other))
    decreases |other|
  {
    if |other| > 0 {
      var rest: ClaimMap := other[1..];
      UpdateKeyOrder(Put(c, other[0].0, other[0].1), rest);
      UpdateKeysStep(c, other, Update(c, other));
    }
  }

  /** The key order of one step of `Update`. */
  lemma UpdateKeysStep(c: ClaimMap, other: ClaimMap, r: ClaimMap)
    requires |other| > 0
    requires Keys(r) == Keys(Put(c, other[0].0, other[0].1)) + NewKeys(Put(c, other[0].0, other[0].1), Keys(other[1..]))
    ensures Keys(r) == Keys(c) + NewKeys(c, Keys(other))
  {
    var k := other[0].0;
    var rest: ClaimMap := other[1..];
    var put := Put(c, k, other[0].1);
    assert Keys(other) == [k] + Keys(rest);
    assert k !in Keys(rest) by {
      forall i | 0 <= i < |rest|
        ensures Keys(rest)[i] != k
      {
        assert rest[i] == other[i + 1];
      }
    }
    NewKeysAfterPut(c, k, other[0].1, Keys(rest));
    if !HasKey(c, k) {
      assert Keys(put) == Keys(c) + [k];
    }
  }

  lemma UpdateStep(c: ClaimMap, other: ClaimMap, r: ClaimMap)
    requires |other| > 0
    requires forall k :: Get(r, k) == if HasKey(other[1..], k) then Get(other[1..], k)
                                      else Get(Put(c, other[0].0, other[0].1), k)
    ensures forall k :: Get(r, k) == if HasKey(other, k) then Get(other, k) else Get(c, k)
  {
    forall k
      ensures Get(r, k) == if HasKey(other, k) then Get(other, k) else Get(c, k)
    {
      UpdateStepAt(c, other, k);
    }
  }

  /** One key of `UpdateStep`: what the rest of `other` does not set, its first entry decides. */
  lemma UpdateStepAt(c: ClaimMap, other: ClaimMap, k: string)
    requires |other| > 0
    ensures (if HasKey(other[1..], k) then Get(other[1..], k) else Get(Put(c, other[0].0, other[0].1), k))
            == (if HasKey(other, k) then Get(other, k) else Get(c, k))
  {
    var tail: ClaimMap := other[1..];
    assert Keys(other) == [other[0].0] + Keys(tail);
    GetAt(other, 0);
    if HasKey(tail, k) {
      var j := IndexOf(tail, k);
      GetAt(tail, j);
      GetAt(other, j + 1);
    }
  }

  /** Putting a fresh key and popping it again gives back the original map. */
  lemma PutThenPop(c: ClaimMap, k: string, v: Value)
    requires !HasKey(c, k)
    ensures Pop(Put(c, k, v), k) == c
  {
    var p := Put(c, k, v);
    assert p[|p| - 1].0 == k;
    assert Keys(p)[|p| - 1] == k;
    assert p[..|p| - 1] == c;
  }
}
