# camelCase model trait, in Dafny

A model of the `CamelCaseModel` trait of the Eloquence library for Laravel's
Eloquent ORM. The trait sits on top of a model's attribute store and renames
attribute keys:

- **write** (`setAttribute`): the key is normalised to snake_case before it is stored;
- **read** (`getAttribute`): the key is normalised the same way before lookup;
- **export** (`attributesToArray`): the stored array is re-keyed
  through `trueKeyName`, which camelCases a key exactly when `isCamelCase` holds;
- **export switch** (`isCamelCase`): the model's own `enforceCamelCase`
  flag (default `true`) or, failing that, its parent's flag.

Modules:

- `Wrappers` (`wrappers.dfy`): `Option`; `None` is the `null` read for an absent key.
- `AttributeStore` (`attribute_store.dfy`): the base model's attribute array as an
  insertion-ordered association list; `Write` is PHP array assignment
  (overwrite in place, else append), `Lookup` is a read.
- `Rekeying` (`rekeying.dfy`): the export loop as a fold over the store with an
  arbitrary key function, and its characterisation: complete, values untouched,
  later key wins, first position kept, entry-by-entry when no two keys collide.
- `CamelCaseModel` (`camel_case_model.dfy`): the trait's flag, `isCamelCase`,
  `trueKeyName`, `getTrueKey`, `setAttribute`, `getAttribute`, `attributesToArray`.
- `CamelCaseProperties` (`camel_case_properties.dfy`): lemmas relating the operations.

The framework helpers `snake_case` and `camel_case` are not part of this
model. Every operation takes them as parameters of type `Key -> Key`, and
every property holds for all such functions or under a hypothesis stated
in its `requires` (for instance `snake(camel(k)) == k` for the stored keys).
Laravel's `snake_case` and `camel_case` have their own splitting rules; the
trait only calls them, so the model keeps them abstract. The own flag is a
boolean that defaults to `true`; the parent decides only when it is `false`,
which is what `IsCamelCase` states.

## Model

| member | source | states |
|---|---|---|
| CamelCaseModel.NewModel | Eloquence/Database/Traits/CamelCaseModel.php:13 | a model at the default flag exports camelCase keys whatever its parent says |
| CamelCaseModel.IsCamelCase | Eloquence/Database/Traits/CamelCaseModel.php:78-81 | camelCasing is on iff the own flag is true or a parent exists with its flag true; an own `true` is never suppressed by the parent |
| CamelCaseModel.TrueKeyName | Eloquence/Database/Traits/CamelCaseModel.php:64-71 | the exported name is `camel(k)` when the own or the parent flag is on, and `k` itself otherwise |
| CamelCaseModel.SetAttribute | Eloquence/Database/Traits/CamelCaseModel.php:23-26 | any key casing normalising alike then reads the written value; every other key reads as before; entries under other keys keep their position and value; the store grows by at most one; the raw key is never added unless it is its own snake_case form; the flags are untouched |
| CamelCaseModel.GetAttribute | Eloquence/Database/Traits/CamelCaseModel.php:34-37 | the read is `None` iff no entry is held under the snake_case key, and otherwise the value held under it |
| CamelCaseModel.AttributesToArray | Eloquence/Database/Traits/CamelCaseModel.php:44-56 | the export holds no key twice, is no longer than the store, holds every stored key's exported name, and each of its entries is a stored value under that value's key's exported name |
| Rekeying.ConvertKeys | Eloquence/Database/Traits/CamelCaseModel.php:47-53 | re-assigning every entry under a converted key yields a PHP array (no repeated key) no longer than the source |
| Rekeying.ConvertKeysComplete | Eloquence/Database/Traits/CamelCaseModel.php:49-53 | every source key's converted name is a key of the result |
| Rekeying.ConvertKeysSound | Eloquence/Database/Traits/CamelCaseModel.php:49-53 | every result entry is the converted key and unaltered value of the last source entry converting to that name |
| Rekeying.ConvertKeysFirstPosition | Eloquence/Database/Traits/CamelCaseModel.php:49-53 | result keys stand in the order of their first appearance among the converted source keys |
| Rekeying.LaterKeyWins | Eloquence/Database/Traits/CamelCaseModel.php:52 | a converted name reads the value of the last source entry converting to it |
| Rekeying.ConvertKeysInjective | Eloquence/Database/Traits/CamelCaseModel.php:49-53 | with no two source keys converting alike the result is the source renamed entry by entry, same length and order |
| Rekeying.ConvertKeysIdentity | Eloquence/Database/Traits/CamelCaseModel.php:49-53 | a conversion fixing every key of a PHP array gives back that array |
| AttributeStore.Lookup | Eloquence/Database/Traits/CamelCaseModel.php:36 | a read is `None` iff the key is absent, and in a PHP array it is the value held under the key |
| AttributeStore.Write | Eloquence/Database/Traits/CamelCaseModel.php:52 | assignment to a held key overwrites it in place (same length, other entries untouched); to a new key it appends; a PHP array stays one |
| AttributeStore.WriteThenLookup | Eloquence/Database/Traits/CamelCaseModel.php:25 | after a write the written key reads the written value and every other key reads as before |
| AttributeStore.WriteAddsOnlyItsKey | Eloquence/Database/Traits/CamelCaseModel.php:25 | a write adds no key other than the written one |
| CamelCaseProperties.ExportWithoutCamelCase | Eloquence/Database/Traits/CamelCaseModel.php:44-56 | with camelCasing off the export equals the stored array: same keys, values and order |
| CamelCaseProperties.ExportRenamesEachKey | Eloquence/Database/Traits/CamelCaseModel.php:49-53 | with camelCasing on and no two stored keys camelCasing alike, the export is each stored entry under `camel(k)`, in order |
| CamelCaseProperties.ExportLaterKeyWins | Eloquence/Database/Traits/CamelCaseModel.php:49-53 | two stored keys exporting under one name: the export reads the later one's value |
| CamelCaseProperties.ExportReadBack | Eloquence/Database/Traits/CamelCaseModel.php:34-56 | if snake_case undoes every stored key's exported name, each exported entry reads back through `getAttribute` |
| CamelCaseProperties.NormalisationIgnoresFlags | Eloquence/Database/Traits/CamelCaseModel.php:89-92 | reads and writes are the same whatever the own flag and the parent |
| CamelCaseProperties.CrossCaseReadAfterWrite | Eloquence/Database/Traits/CamelCaseModel.php:23-37 | writing `firstName` then reading `first_name` gives the written value, and `firstName` is not stored |
| CamelCaseProperties.ExportExample | Eloquence/Database/Traits/CamelCaseModel.php:44-81 | stored `first_name`, `last_login_at` export as `firstName`, `lastLoginAt` in order, under an own or a parent flag |
| CamelCaseProperties.CollisionExample | Eloquence/Database/Traits/CamelCaseModel.php:49-53 | three stored keys, the first and third camelCasing alike: the shared name keeps the first position and the third value |

## Left out

- The base ORM behind `parent::setAttribute`, `parent::getAttribute` and
  `parent::attributesToArray` (mutators, casts, dates, relations,
  hidden/visible attributes, database I/O): the store is a plain ordered array.
  An absent key reads as `None`, where Eloquent may instead try a relation.
- The bodies of `snake_case` and `camel_case`: they are framework helpers,
  taken as parameters. Round-trip or idempotence laws about them, and the
  behaviour on digits, mixed case or non-ASCII keys, are not modelled; such
  laws appear only as hypotheses (`ExportReadBack`, the example lemmas).
- How `$this->parent` is set up: the parent is its `enforceCamelCase` flag or
  absent. PHP truthiness of a non-boolean flag value is not modelled.
- PHP's conversion of decimal-integer string keys (`"12"`) to integer array
  keys: keys are strings throughout.
- CamelCaseModel.GetTrueKey carries no contract of its own: it is the
  snake_case helper applied to the key and takes no model, so its
  independence from the flags holds by construction (see `NormalisationIgnoresFlags`).
