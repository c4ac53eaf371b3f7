/**
 * The loop at the heart of `attributesToArray`: every entry of the store is
 * re-assigned, in order, into a fresh PHP array under a converted key. Here
 * the conversion is any key function `f`; PHP array assignment is
 * `AttributeStore.Write`, so a converted key met a second time keeps its
 * first position and takes the later value.
 */
module Rekeying {
  import opened Wrappers
  import opened AttributeStore

  /** The fold: `s` re-keyed through `f`, entry by entry from the first. */
  function ConvertKeys<V>(s: Store<V>, f: Key -> Key): (r: Store<V>)
    ensures WellFormed(r)
    ensures |r| <= |s|
    decreases |s|
  {
    if |s| == 0 then []
    else Write(ConvertKeys(s[..|s| - 1], f), f(s[|s| - 1].0), s[|s| - 1].1)
  }

  /** One more source entry is one more assignment into the fold's result. */
  lemma ConvertKeysAppend<V>(s: Store<V>, e: (Key, V), f: Key -> Key)
    ensures ConvertKeys(s + [e], f) == Write(ConvertKeys(s, f), f(e.0), e.1)
  {
  }

  /** Entry `i` of `s` is the last one whose key `f` sends to `f(s[i].0)`. */
  predicate LastFor<V>(s: Store<V>, f: Key -> Key, i: int)
    requires 0 <= i < |s|
  {
    forall l :: i < l < |s| ==> f(s[l].0) != f(s[i].0)
  }

  /** Every source key's converted name is a key of the result. */
  lemma {:induction false} ConvertKeysComplete<V>(s: Store<V>, f: Key -> Key)
    ensures forall i :: 0 <= i < |s| ==> HasKey(ConvertKeys(s, f), f(s[i].0))
    decreases |s|
  {
    if |s| > 0 {
      var n := |s|;
      var s' := s[..n - 1];
      ConvertKeysComplete(s', f);
      var p := ConvertKeys(s', f);
      var r := ConvertKeys(s, f);
      assert r == Write(p, f(s[n - 1].0), s[n - 1].1);
      forall i | 0 <= i < n
        ensures HasKey(r, f(s[i].0))
      {
        if i < n - 1 {
          assert s'[i] == s[i];
          var j :| 0 <= j < |p| && p[j].0 == f(s'[i].0);
          assert r[j].0 == p[j].0;
        } else {
          WriteThenLookup(p, f(s[n - 1].0), s[n - 1].1);
          assert Lookup(r, f(s[i].0)).Some?;
        }
      }
    }
  }

  /** Entry `e` is the converted key and the value of a last entry of `s`. */
  ghost predicate FromLast<V>(s: Store<V>, f: Key -> Key, e: (Key, V)) {
    exists i :: 0 <= i < |s| && LastFor(s, f, i) && e == (f(s[i].0), s[i].1)
  }

  /** Values are never altered: each result entry is the converted key and
      the value of a source entry, namely the last source entry whose key
      converts to that name. */
  lemma {:induction false} ConvertKeysSound<V>(s: Store<V>, f: Key -> Key)
    ensures forall j :: 0 <= j < |ConvertKeys(s, f)| ==> FromLast(s, f, ConvertKeys(s, f)[j])
    decreases |s|
  {
    if |s| > 0 {
      var n := |s|;
      var s' := s[..n - 1];
      ConvertKeysSound(s', f);
      var p := ConvertKeys(s', f);
      var k, v := f(s[n - 1].0), s[n - 1].1;
      var r := ConvertKeys(s, f);
      assert r == Write(p, k, v);
      forall j | 0 <= j < |r|
        ensures FromLast(s, f, r[j])
      {
        if r[j].0 == k {
          if j < |p| {
            assert p[j].0 == k;
          }
          assert r[j] == (f(s[n - 1].0), s[n - 1].1);
          assert LastFor(s, f, n - 1);
        } else {
          assert r[j] == p[j];
          var i :| 0 <= i < |s'| && LastFor(s', f, i) && p[j] == (f(s'[i].0), s'[i].1);
          assert s[i] == s'[i];
          assert LastFor(s, f, i);
        }
      }
    }
  }


  /** Converted name `a` turns up in the source before converted name `b` does. */
  predicate MetBefore<V>(s: Store<V>, f: Key -> Key, a: Key, b: Key) {
    exists i :: 0 <= i < |s| && f(s[i].0) == a && forall l :: 0 <= l <= i ==> f(s[l].0) != b
  }

  /** Each converted key stands at the position of its first occurrence:
      the result's keys are ordered as their first appearances in the source. */
  lemma {:induction false} ConvertKeysFirstPosition<V>(s: Store<V>, f: Key -> Key)
    ensures forall a, b :: 0 <= a < b < |ConvertKeys(s, f)| ==>
      MetBefore(s, f, ConvertKeys(s, f)[a].0, ConvertKeys(s, f)[b].0)
    decreases |s|
  {
    if |s| > 0 {
      var n := |s|;
      var s' := s[..n - 1];
      ConvertKeysFirstPosition(s', f);
      var p := ConvertKeys(s', f);
      var k, v := f(s[n - 1].0), s[n - 1].1;
      var r := ConvertKeys(s, f);
      assert r == Write(p, k, v);
      forall a, b | 0 <= a < b < |r|
        ensures MetBefore(s, f, r[a].0, r[b].0)
      {
        if b < |p| {
          assert r[a].0 == p[a].0 && r[b].0 == p[b].0;
          MetBeforeExtends(s, f, p[a].0, p[b].0);
        } else {
          assert r[a].0 == p[a].0 && r[b].0 == k;
          NewKeyMetLast(s, f, a);
        }
      }
    }
  }

  /** Appending an entry keeps every earlier "met before" fact. */
  lemma MetBeforeExtends<V>(s: Store<V>, f: Key -> Key, a: Key, b: Key)
    requires |s| > 0 && MetBefore(s[..|s| - 1], f, a, b)
    ensures MetBefore(s, f, a, b)
  {
  }

  /** When the last source entry appends a new converted key, every key the
      fold held before it is met earlier in the source. */
  lemma {:induction false} NewKeyMetLast<V>(s: Store<V>, f: Key -> Key, a: int)
    requires |s| > 0
    requires !HasKey(ConvertKeys(s[..|s| - 1], f), f(s[|s| - 1].0))
    requires 0 <= a < |ConvertKeys(s[..|s| - 1], f)|
    ensures MetBefore(s, f, ConvertKeys(s[..|s| - 1], f)[a].0, f(s[|s| - 1].0))
  {
    var s' := s[..|s| - 1];
    var p := ConvertKeys(s', f);
    var k := f(s[|s| - 1].0);
    ConvertKeysComplete(s', f);
    ConvertKeysSound(s', f);
    assert FromLast(s', f, p[a]);
    var i :| 0 <= i < |s'| && LastFor(s', f, i) && p[a] == (f(s'[i].0), s'[i].1);
    forall l | 0 <= l <= i
      ensures f(s[l].0) != k
    {
      assert s[l] == s'[l];
      assert HasKey(p, f(s'[l].0));
    }
    assert s[i] == s'[i];
  }

  /** Later key wins: the result reads, under a converted name, the value of
      the last source entry converting to it. */
  lemma {:induction false} LaterKeyWins<V>(s: Store<V>, f: Key -> Key, i: int)
    requires 0 <= i < |s| && LastFor(s, f, i)
    ensures Lookup(ConvertKeys(s, f), f(s[i].0)) == Some(s[i].1)
  {
    var r := ConvertKeys(s, f);
    ConvertKeysComplete(s, f);
    ConvertKeysSound(s, f);
    var j :| 0 <= j < |r| && r[j].0 == f(s[i].0);
    assert FromLast(s, f, r[j]);
    var i' :| 0 <= i' < |s| && LastFor(s, f, i') && r[j] == (f(s[i'].0), s[i'].1);
    assert i' == i;
  }

  /** With no two source keys converting alike, the fold renames entry by
      entry: same length, same order, same values. */
  lemma {:induction false} ConvertKeysInjective<V>(s: Store<V>, f: Key -> Key)
    requires forall i, j :: 0 <= i < j < |s| ==> f(s[i].0) != f(s[j].0)
    ensures |ConvertKeys(s, f)| == |s|
    ensures forall i :: 0 <= i < |s| ==> ConvertKeys(s, f)[i] == (f(s[i].0), s[i].1)
    decreases |s|
  {
    if |s| > 0 {
      var n := |s|;
      var s' := s[..n - 1];
      ConvertKeysInjective(s', f);
      var p := ConvertKeys(s', f);
      var k := f(s[n - 1].0);
      assert !HasKey(p, k);
      assert ConvertKeys(s, f) == p + [(k, s[n - 1].1)];
    }
  }

  /** A key function that fixes every source key leaves a PHP array as it was. */
  lemma {:induction false} ConvertKeysIdentity<V>(s: Store<V>, f: Key -> Key)
    requires WellFormed(s)
    requires forall i :: 0 <= i < |s| ==> f(s[i].0) == s[i].0
    ensures ConvertKeys(s, f) == s
  {
    ConvertKeysInjective(s, f);
  }

}
