/**
  PHP's ordered associative arrays with string keys, as a sequence of key/value
  pairs in insertion order. `$a[$k] = $v` overwrites an existing key where it
  stands and appends a new one at the end.
 */
module PhpArray {
  import opened Wrappers
  import opened SeqFacts

  /** An array element that may be missing, hold something other than an array, or hold an array. */
  datatype Field<T> = Missing | NotArray | Arr(value: T)

  function KeysOf<V>(a: seq<(string, V)>): (ks: seq<string>)
    ensures |ks| == |a|
    ensures forall i :: 0 <= i < |a| ==> ks[i] == a[i].0
  {
    seq(|a|, i requires 0 <= i < |a| => a[i].0)
  }

  /** `isset`-style presence of a key (values are never null here). */
  predicate HasKey<V>(a: seq<(string, V)>, k: string) {
    exists i :: 0 <= i < |a| && a[i].0 == k
  }

  /** No key occurs twice: true of every PHP array. */
  predicate UniqueKeys<V>(a: seq<(string, V)>) {
    forall i, j :: 0 <= i < j < |a| ==> a[i].0 != a[j].0
  }

  /** Position of the first element with key `k`, if any. */
  function FindKey<V>(a: seq<(string, V)>, k: string): (r: Option<nat>)
    ensures r.None? <==> !HasKey(a, k)
    ensures r.Some? ==> r.value < |a| && a[r.value].0 == k && forall j :: 0 <= j < r.value ==> a[j].0 != k
    decreases |a|
  {
    if a == [] then None
    else if a[0].0 == k then Some(0)
    else
      assert forall i :: 1 <= i < |a| ==> a[i] == a[1..][i - 1];
      match FindKey(a[1..], k)
      case None => None
      case Some(j) => Some(j + 1)
  }

  /** The first position holding key `k` is what FindKey finds. */
  lemma FindKeyIs<V>(a: seq<(string, V)>, k: string, i: nat)
    requires i < |a| && a[i].0 == k && forall j :: 0 <= j < i ==> a[j].0 != k
    ensures FindKey(a, k) == Some(i)
  {
  }

  /** `$a[$k]`: the value stored under `k`, if any. */
  function Get<V>(a: seq<(string, V)>, k: string): (r: Option<V>)
    ensures r.Some? <==> HasKey(a, k)
  {
    match FindKey(a, k)
    case None => None
    case Some(i) => Some(a[i].1)
  }

  /** In an array with distinct keys, looking up the key at position i finds the value at position i. */
  lemma GetAt<V>(a: seq<(string, V)>, i: nat)
    requires UniqueKeys(a) && i < |a|
    ensures Get(a, a[i].0) == Some(a[i].1)
  {
    FindKeyIs(a, a[i].0, i);
  }

  /** `$a[$k] = $v`: an existing key is overwritten where it stands, a new one is appended. */
  function Put<V>(a: seq<(string, V)>, k: string, v: V): (r: seq<(string, V)>)
    ensures HasKey(a, k) ==> KeysOf(r) == KeysOf(a)
    ensures !HasKey(a, k) ==> KeysOf(r) == KeysOf(a) + [k]
    ensures Get(r, k) == Some(v)
  {
    match FindKey(a, k)
    case Some(i) =>
      var r := a[i := (k, v)];
      FindKeyIs(r, k, i);
      r
    case None =>
      var r := a + [(k, v)];
      assert forall j :: 0 <= j < |a| ==> r[j] == a[j];
      FindKeyIs(r, k, |a|);
      r
  }

  /** Assigning under one key leaves every other key's value alone. */
  lemma PutOthers<V>(a: seq<(string, V)>, k: string, v: V, other: string)
    requires other != k
    ensures Get(Put(a, k, v), other) == Get(a, other)
  {
    var r := Put(a, k, v);
    assert forall j :: 0 <= j < |a| ==> r[j].0 == a[j].0 && (a[j].0 != k ==> r[j] == a[j]);
    match FindKey(a, other)
    case Some(i) =>
      FindKeyIs(r, other, i);
    case None =>
  }

  /** After an assignment the keys are the old ones and the assigned one. */
  lemma PutHasKey<V>(a: seq<(string, V)>, k: string, v: V, other: string)
    ensures HasKey(Put(a, k, v), other) <==> HasKey(a, other) || other == k
  {
    if other != k {
      PutOthers(a, k, v, other);
    }
  }

  /** Assigning under a new key appends the element. */
  lemma PutNew<V>(a: seq<(string, V)>, k: string, v: V)
    requires !HasKey(a, k)
    ensures Put(a, k, v) == a + [(k, v)]
  {
  }

  /** Appending an element adds exactly its key. */
  lemma HasKeyAppend<V>(a: seq<(string, V)>, e: (string, V), k: string)
    ensures HasKey(a + [e], k) <==> HasKey(a, k) || e.0 == k
  {
    var r := a + [e];
    assert forall j :: 0 <= j < |a| ==> r[j] == a[j];
    assert r[|a|] == e;
  }

  /** Assigning into a PHP array keeps its keys distinct. */
  lemma PutKeepsKeysUnique<V>(a: seq<(string, V)>, k: string, v: V)
    requires UniqueKeys(a)
    ensures UniqueKeys(Put(a, k, v))
  {
    var r := Put(a, k, v);
    var ka, kr := KeysOf(a), KeysOf(r);
    if HasKey(a, k) {
      forall i, j | 0 <= i < j < |r| ensures r[i].0 != r[j].0 {
        assert r[i].0 == kr[i] == ka[i] == a[i].0;
        assert r[j].0 == kr[j] == ka[j] == a[j].0;
      }
    } else {
      forall i, j | 0 <= i < j < |r| ensures r[i].0 != r[j].0 {
        assert r[i].0 == kr[i] == ka[i] == a[i].0;
        if j < |a| {
          assert r[j].0 == kr[j] == ka[j] == a[j].0;
        } else {
          assert r[j].0 == kr[j] == k;
        }
      }
    }
  }

  /** `key($a)` right after construction: the first key, or null for an empty array. */
  function FirstKey<V>(a: seq<(string, V)>): (r: Option<string>)
    ensures r.None? <==> a == []
    ensures a != [] ==> r == Some(a[0].0) && HasKey(a, r.value)
  {
    if a == [] then None else Some(a[0].0)
  }

  /** Assigning to a key already present replaces the element where it stands. */
  lemma PutAt<V>(a: seq<(string, V)>, i: nat, v: V)
    requires UniqueKeys(a) && i < |a|
    ensures Put(a, a[i].0, v) == a[i := (a[i].0, v)]
  {
    FindKeyIs(a, a[i].0, i);
  }

  /** `array_intersect_key($a, $s)`: the elements of `a` whose key `s` also has, in `a`'s order. */
  function IntersectKeys<V, W>(a: seq<(string, V)>, s: seq<(string, W)>): (r: seq<(string, V)>)
    ensures forall k :: Get(r, k) == (if HasKey(s, k) then Get(a, k) else None)
    ensures |r| <= |a|
  {
    if a == [] then []
    else
      var rest := IntersectKeys(a[1..], s);
      if HasKey(s, a[0].0) then
        assert ([a[0]] + rest)[1..] == rest;
        [a[0]] + rest
      else rest
  }
}
