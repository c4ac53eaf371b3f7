/**
 * The `CamelCaseModel` trait: an ORM model whose attributes are read and
 * written under any key casing through their snake_case form, and
 * exported under camelCase keys when the model (or its parent) asks for it.
 *
 * The framework's string helpers `snake_case` and `camel_case` are not part
 * of this model: every operation takes them as parameters of type `CaseFn`,
 * and nothing here assumes a law about them.
 */
module CamelCaseModel {
  import opened Wrappers
  import opened AttributeStore
  import opened Rekeying

  /** A string-case helper of the framework, left uninterpreted. */
  type CaseFn = Key -> Key

  /** The trait's default for `enforceCamelCase`. */
  const DefaultEnforceCamelCase: bool := true

  /**
   * A model using the trait: the base model's attribute array, the model's
   * own `enforceCamelCase` flag, and, when the model has a parent, the
   * parent's `enforceCamelCase` flag.
   */
  datatype Model<V> = Model(attributes: Store<V>, enforceCamelCase: bool, parent: Option<bool>)

  /** The base model's attributes form a PHP array: no key twice. */
  predicate Valid<V>(m: Model<V>) {
    WellFormed(m.attributes)
  }

  /** A model as the trait leaves it at construction: the flag at its default. */
  function NewModel<V>(attributes: Store<V>, parent: Option<bool>): (m: Model<V>)
    ensures m.attributes == attributes && m.parent == parent
    ensures m.enforceCamelCase == DefaultEnforceCamelCase
    ensures IsCamelCase(m)
  {
    Model(attributes, DefaultEnforceCamelCase, parent)
  }

  /** Whether exported keys are camelCased: the model's own flag, or else a
      parent's flag. An own `true` is never suppressed by the parent. */
  function IsCamelCase<V>(m: Model<V>): (b: bool)
    ensures m.enforceCamelCase ==> b
    ensures m.parent == Some(true) ==> b
    ensures !m.enforceCamelCase && m.parent != Some(true) ==> !b
  {
    m.enforceCamelCase || (m.parent.Some? && m.parent.value)
  }

  /** The name under which a stored key is exported. */
  function TrueKeyName<V>(m: Model<V>, camel: CaseFn, k: Key): (r: Key)
    ensures m.enforceCamelCase || m.parent == Some(true) ==> r == camel(k)
    ensures !m.enforceCamelCase && m.parent != Some(true) ==> r == k
  {
    if IsCamelCase(m) then camel(k) else k
  }

  /** `TrueKeyName` of the model as a key function. */
  function ExportName<V>(m: Model<V>, camel: CaseFn): Key -> Key {
    k => TrueKeyName(m, camel, k)
  }

  /** The storage key for any key the caller uses: its snake_case form,
      whatever the flags. */
  function GetTrueKey(snake: CaseFn, k: Key): Key {
    snake(k)
  }

  /** Writing an attribute under any casing stores it under the snake_case
      key, in place when that key is held already, and touches nothing else. */
  function SetAttribute<V>(m: Model<V>, snake: CaseFn, k: Key, v: V): (m': Model<V>)
    ensures m'.enforceCamelCase == m.enforceCamelCase && m'.parent == m.parent
    ensures Valid(m) ==> Valid(m')
    ensures forall k2 :: snake(k2) == snake(k) ==> GetAttribute(m', snake, k2) == Some(v)
    ensures forall k2 :: snake(k2) != snake(k) ==> GetAttribute(m', snake, k2) == GetAttribute(m, snake, k2)
    ensures forall x :: x != snake(k) ==> Lookup(m'.attributes, x) == Lookup(m.attributes, x)
    ensures |m.attributes| <= |m'.attributes| <= |m.attributes| + 1
    ensures forall i :: 0 <= i < |m.attributes| && m.attributes[i].0 != snake(k) ==>
      m'.attributes[i] == m.attributes[i]
    ensures HasKey(m'.attributes, k) ==> HasKey(m.attributes, k) || snake(k) == k
  {
    WriteThenLookup(m.attributes, GetTrueKey(snake, k), v);
    WriteAddsOnlyItsKey(m.attributes, GetTrueKey(snake, k), v, k);
    m.(attributes := Write(m.attributes, GetTrueKey(snake, k), v))
  }

  /** Reading an attribute under any casing reads the snake_case key; `None`
      when the base model holds no such key. */
  function GetAttribute<V>(m: Model<V>, snake: CaseFn, k: Key): (r: Option<V>)
    ensures r.None? <==> !HasKey(m.attributes, snake(k))
    ensures Valid(m) ==> forall i :: 0 <= i < |m.attributes| && m.attributes[i].0 == snake(k) ==>
      r == Some(m.attributes[i].1)
  {
    Lookup(m.attributes, GetTrueKey(snake, k))
  }

  /** The exported attribute array: every stored entry re-assigned, in order,
      under its `TrueKeyName`. Values are never altered, every stored key's
      exported name is present, and no exported name is held twice. */
  function AttributesToArray<V>(m: Model<V>, camel: CaseFn): (r: Store<V>)
    ensures WellFormed(r)
    ensures |r| <= |m.attributes|
    ensures forall i :: 0 <= i < |m.attributes| ==> HasKey(r, TrueKeyName(m, camel, m.attributes[i].0))
    ensures forall j :: 0 <= j < |r| ==>
      (exists i :: 0 <= i < |m.attributes| && r[j] == (TrueKeyName(m, camel, m.attributes[i].0), m.attributes[i].1))
  {
    var f := ExportName(m, camel);
    ConvertKeysComplete(m.attributes, f);
    ConvertKeysSound(m.attributes, f);
    ConvertKeys(m.attributes, f)
  }

}
