/**
 * The ORM's attribute store that the camelCase trait delegates to, reduced to
 * what the trait relies on: an insertion-ordered map from attribute names to
 * values (a PHP array with string keys), read by key and written by key.
 */
module AttributeStore {
  import opened Wrappers

  type Key = string

  /** Entries in insertion order; a PHP array is such a list without repeated keys. */
  type Store<V> = seq<(Key, V)>

  /** Some entry of `s` is held under `k`. */
  predicate HasKey<V>(s: Store<V>, k: Key) {
    exists i :: 0 <= i < |s| && s[i].0 == k
  }

  /** No key is held twice, as in every PHP array. */
  predicate WellFormed<V>(s: Store<V>) {
    forall i, j :: 0 <= i < j < |s| ==> s[i].0 != s[j].0
  }

  /** Position of the first entry held under `k`, or `|s|` when there is none. */
  function IndexOf<V>(s: Store<V>, k: Key): (i: nat)
    ensures i <= |s|
    ensures i < |s| ==> s[i].0 == k
    ensures forall j :: 0 <= j < i ==> s[j].0 != k
  {
    if |s| == 0 then 0
    else if s[0].0 == k then 0
    else 1 + IndexOf(s[1..], k)
  }

  /** Reading `k`: the value held under it, or `None` when it is absent. */
  function Lookup<V>(s: Store<V>, k: Key): (r: Option<V>)
    ensures r.None? <==> !HasKey(s, k)
    ensures r.Some? ==> exists i :: 0 <= i < |s| && s[i] == (k, r.value)
    ensures WellFormed(s) ==> forall i :: 0 <= i < |s| && s[i].0 == k ==> r == Some(s[i].1)
  {
    var i := IndexOf(s, k);
    if i < |s| then Some(s[i].1) else None
  }

  /** Writing `k := v`: the entry held under `k` is overwritten where it
      stands; a key not yet held is appended at the end. */
  function Write<V>(s: Store<V>, k: Key, v: V): (r: Store<V>)
    ensures HasKey(s, k) ==> |r| == |s|
    ensures !HasKey(s, k) ==> r == s + [(k, v)]
    ensures forall i :: 0 <= i < |s| ==> r[i].0 == s[i].0
    ensures forall i :: 0 <= i < |s| && s[i].0 != k ==> r[i] == s[i]
    ensures WellFormed(s) ==> forall i :: 0 <= i < |s| && s[i].0 == k ==> r[i] == (k, v)
    ensures WellFormed(s) ==> WellFormed(r)
  {
    var i := IndexOf(s, k);
    if i < |s| then s[i := (k, v)]
    else
      var r := s + [(k, v)];
      assert r[|s|].0 == k;
      r
  }

  /** A write adds no key other than the one written. */
  lemma WriteAddsOnlyItsKey<V>(s: Store<V>, k: Key, v: V, x: Key)
    ensures HasKey(Write(s, k, v), x) ==> HasKey(s, x) || x == k
  {
  }

  /** Read after write: the written key reads the written value, and every
      other key reads what it read before. */
  lemma {:induction false} WriteThenLookup<V>(s: Store<V>, k: Key, v: V)
    ensures Lookup(Write(s, k, v), k) == Some(v)
    ensures forall x :: x != k ==> Lookup(Write(s, k, v), x) == Lookup(s, x)
  {
    var r := Write(s, k, v);
    var i := IndexOf(s, k);
    assert i < |r| && r[i].0 == k;
    assert IndexOf(r, k) == i;
    forall x | x != k
      ensures Lookup(r, x) == Lookup(s, x)
    {
      var j := IndexOf(s, x);
      if j < |s| {
        assert IndexOf(r, x) == j;
      } else {
        assert IndexOf(r, x) == |r|;
      }
    }
  }

}
