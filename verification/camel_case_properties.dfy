/**
 * Properties of the camelCase trait that relate several of its operations,
 * stated for arbitrary case helpers or under explicit hypotheses about them.
 */
module CamelCaseProperties {
  import opened Wrappers
  import opened AttributeStore
  import opened Rekeying
  import opened CamelCaseModel

  /** With camel-casing off, the export is the base model's array itself:
      same keys, same values, same order. */
  lemma {:induction false} ExportWithoutCamelCase<V>(m: Model<V>, camel: CaseFn)
    requires Valid(m) && !IsCamelCase(m)
    ensures AttributesToArray(m, camel) == m.attributes
  {
    ConvertKeysIdentity(m.attributes, ExportName(m, camel));
  }

  /** With camel-casing on and no two stored keys camelCasing alike, the
      export renames entry by entry and keeps the order. */
  lemma {:induction false} ExportRenamesEachKey<V>(m: Model<V>, camel: CaseFn)
    requires IsCamelCase(m)
    requires forall i, j :: 0 <= i < j < |m.attributes| ==> camel(m.attributes[i].0) != camel(m.attributes[j].0)
    ensures |AttributesToArray(m, camel)| == |m.attributes|
    ensures forall i :: 0 <= i < |m.attributes| ==>
      AttributesToArray(m, camel)[i] == (camel(m.attributes[i].0), m.attributes[i].1)
  {
    ConvertKeysInjective(m.attributes, ExportName(m, camel));
  }

  /** When two stored keys export under one name, the export reads the value
      of the later of them under that name. */
  lemma {:induction false} ExportLaterKeyWins<V>(m: Model<V>, camel: CaseFn, i: int)
    requires 0 <= i < |m.attributes|
    requires forall l :: i < l < |m.attributes| ==>
      TrueKeyName(m, camel, m.attributes[l].0) != TrueKeyName(m, camel, m.attributes[i].0)
    ensures Lookup(AttributesToArray(m, camel), TrueKeyName(m, camel, m.attributes[i].0)) == Some(m.attributes[i].1)
  {
    LaterKeyWins(m.attributes, ExportName(m, camel), i);
  }

  /** Export then read: when snake_case undoes the export name of every
      stored key, each exported entry reads back through `getAttribute`. */
  lemma ExportReadBack<V>(m: Model<V>, snake: CaseFn, camel: CaseFn)
    requires Valid(m)
    requires forall i :: 0 <= i < |m.attributes| ==>
      snake(TrueKeyName(m, camel, m.attributes[i].0)) == m.attributes[i].0
    ensures forall j :: 0 <= j < |AttributesToArray(m, camel)| ==>
      GetAttribute(m, snake, AttributesToArray(m, camel)[j].0) == Some(AttributesToArray(m, camel)[j].1)
  {
  }

  /** Key normalisation for reads and writes ignores `enforceCamelCase` and
      the parent. */
  lemma NormalisationIgnoresFlags<V>(m: Model<V>, snake: CaseFn, k: Key, v: V, own: bool, parent: Option<bool>)
    ensures GetAttribute(m.(enforceCamelCase := own, parent := parent), snake, k) == GetAttribute(m, snake, k)
    ensures SetAttribute(m.(enforceCamelCase := own, parent := parent), snake, k, v).attributes
         == SetAttribute(m, snake, k, v).attributes
  {
  }

  /** Writing `firstName` and reading `first_name` meet at one stored key. */
  lemma CrossCaseReadAfterWrite<V>(m: Model<V>, snake: CaseFn, v: V)
    requires snake("firstName") == "first_name" && snake("first_name") == "first_name"
    ensures GetAttribute(SetAttribute(m, snake, "firstName", v), snake, "first_name") == Some(v)
    ensures !HasKey(m.attributes, "firstName") ==> !HasKey(SetAttribute(m, snake, "firstName", v).attributes, "firstName")
  {
  }

  /** Stored `first_name` and `last_login_at` export as `firstName` and
      `lastLoginAt`, in that order, under the default flag or a camelCasing
      parent. */
  lemma ExportExample(camel: CaseFn, own: bool, parent: Option<bool>)
    requires camel("first_name") == "firstName" && camel("last_login_at") == "lastLoginAt"
    requires own || parent == Some(true)
    ensures AttributesToArray(Model([("first_name", "A"), ("last_login_at", "B")], own, parent), camel)
         == [("firstName", "A"), ("lastLoginAt", "B")]
  {
    var m := Model([("first_name", "A"), ("last_login_at", "B")], own, parent);
    assert "firstName" != "lastLoginAt";
    ExportRenamesEachKey(m, camel);
  }

  /** Two stored keys exporting under one name: the name keeps the first
      key's position and takes the later key's value; the entry between them
      keeps its place. For instance `a_b` and `aB` both camelCasing to `aB`. */
  lemma CollisionExample<V>(camel: CaseFn, k1: Key, k2: Key, k3: Key, v1: V, v2: V, v3: V)
    requires k1 != k2 && k2 != k3 && k1 != k3
    requires camel(k1) == camel(k3) && camel(k2) != camel(k1)
    ensures AttributesToArray(Model([(k1, v1), (k2, v2), (k3, v3)], true, None), camel)
         == [(camel(k1), v3), (camel(k2), v2)]
  {
    var s1: Store<V> := [(k1, v1)];
    var s2 := s1 + [(k2, v2)];
    var s3 := s2 + [(k3, v3)];
    assert s3 == [(k1, v1), (k2, v2), (k3, v3)];
    var m: Model<V> := Model(s3, true, None);
    var f := ExportName(m, camel);
    var n1, n2 := camel(k1), camel(k2);
    assert f(k1) == n1 && f(k2) == n2 && f(k3) == n1;
    ConvertKeysAppend([], (k1, v1), f);
    assert [] + [(k1, v1)] == s1;
    var p1 := ConvertKeys(s1, f);
    assert p1 == [(n1, v1)];
    ConvertKeysAppend(s1, (k2, v2), f);
    var p2 := ConvertKeys(s2, f);
    assert !HasKey(p1, n2);
    assert p2 == [(n1, v1), (n2, v2)];
    ConvertKeysAppend(s2, (k3, v3), f);
    var r := ConvertKeys(s3, f);
    assert p2[0].0 == n1;
    assert |r| == 2 && r[0] == (n1, v3) && r[1] == (n2, v2);
  }

}
